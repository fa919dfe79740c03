/** The state of a paginated list, shared by every list model. */
module ListStates {
  import opened Outcomes
  import Decimal
  import LastElements

  /**
   * Nothing loaded yet, a fetch in flight, the last fetch succeeded, or the
   * last fetch failed. Every case but `Initial` carries the items gathered so far.
   */
  datatype ListState<E> =
    | Initial
    | Loading(elems: seq<E>)
    | Loaded(elems: seq<E>)
    | Error(elems: seq<E>, error: Failure)
  {
    /** `isLoading`: a fetch is in flight exactly in the `Loading` case. */
    predicate IsLoading()
      ensures IsLoading() <==> this == Loading(Items())
    {
      Loading?
    }

    /** `items`: empty before the first fetch, else the carried items. */
    function Items(): (r: seq<E>)
      ensures Initial? ==> r == []
      ensures !Initial? ==> r == elems
    {
      match this
      case Initial => []
      case Loading(a) => a
      case Loaded(a) => a
      case Error(a, _) => a
    }

    /**
     * `lastIndices(n:)`: the indices of the last `n` items, i.e. the index
     * range `max(0, count - n) ..< count`.
     */
    function LastIndices(n: int): (r: seq<int>)
      requires n >= 0
      ensures |r| == if n <= |Items()| then n else |Items()|
      ensures forall k :: 0 <= k < |r| ==> r[k] == |Items()| - |r| + k
      ensures forall i :: i in r <==> (if n <= |Items()| then |Items()| - n else 0) <= i < |Items()|
    {
      var all := Indices(|Items()|);
      var r := LastElements.Last(all, n);
      assert forall k :: 0 <= k < |r| ==> r[k] == all[|all| - |r| + k];
      ConsecutiveMembers(r, |all| - |r|, |all|);
      r
    }

    /**
     * `debugDescription` (and `description`, which returns it): the case name
     * and the number of carried items; an error also shows the error's own
     * description, which `describe` supplies.
     */
    function DebugDescription(describe: Failure -> string): string {
      match this
      case Initial => "initial"
      case Loading(a) => Tagged("loading", |a|)
      case Loaded(a) => Tagged("loaded", |a|)
      case Error(a, e) => Tagged("error " + describe(e), |a|)
    }
  }

  /** A description line: `head (k elements)`. */
  function Tagged(head: string, count: nat): string {
    head + " (" + Decimal.NatToString(count) + " elements)"
  }

  /** The item count can be read back from a description line. */
  lemma TaggedInjective(head: string, m: nat, n: nat)
    ensures Tagged(head, m) == Tagged(head, n) <==> m == n
  {
    if Tagged(head, m) == Tagged(head, n) {
      var p, a, b := head + " (", Decimal.NatToString(m), Decimal.NatToString(n);
      var d := Tagged(head, m);
      assert d == p + a + " elements)";
      assert Tagged(head, n) == p + b + " elements)";
      assert |a| == |b|;
      assert a == d[|p|..|p| + |a|] == b;
      Decimal.NatToStringInjective(m, n);
    }
  }

  /** A run of consecutive integers holds exactly the integers of its range. */
  lemma ConsecutiveMembers(r: seq<int>, lo: int, hi: int)
    requires |r| == hi - lo
    requires forall k :: 0 <= k < |r| ==> r[k] == lo + k
    ensures forall i :: i in r <==> lo <= i < hi
  {
    forall i | lo <= i < hi
      ensures i in r
    {
      assert r[i - lo] == i;
    }
  }

  /** `indices` of an array of `count` items. */
  function Indices(count: nat): (r: seq<int>)
    ensures |r| == count
    ensures forall i :: 0 <= i < count ==> r[i] == i
  {
    seq(count, i => i)
  }

  /**
   * The state a completed fetch leaves behind, given the items present when it
   * completed: the fetched page appended on success, the items kept beside the
   * error on failure.
   */
  function Settled<E>(items: seq<E>, outcome: Result<seq<E>>): (st: ListState<E>)
    ensures !st.IsLoading()
    ensures |st.Items()| >= |items| && st.Items()[..|items|] == items
    ensures outcome.Ok? ==> st == Loaded(items + outcome.value)
    ensures outcome.Err? ==> st == Error(items, outcome.error)
  {
    match outcome
    case Ok(page) => Loaded(items + page)
    case Err(e) => Error(items, e)
  }

  /**
   * Two states of the same case report the same description exactly when they
   * carry the same number of items (and, for errors, errors with the same text).
   */
  lemma DescriptionReportsCount<E>(s: ListState<E>, t: ListState<E>, describe: Failure -> string)
    requires s.Loading? == t.Loading? && s.Loaded? == t.Loaded? && s.Error? == t.Error?
    requires s.Error? && t.Error? ==> describe(s.error) == describe(t.error)
    ensures s.DebugDescription(describe) == t.DebugDescription(describe) <==> |s.Items()| == |t.Items()|
  {
    match s
    case Initial =>
    case Loading(a) => TaggedInjective("loading", |a|, |t.Items()|);
    case Loaded(a) => TaggedInjective("loaded", |a|, |t.Items()|);
    case Error(a, e) => TaggedInjective("error " + describe(e), |a|, |t.Items()|);
  }
}
