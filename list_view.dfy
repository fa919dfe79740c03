/**
 * The list model of `Pager/ListOfStrings/ListView.swift`: a `ListState` that
 * `load()`, `refresh()` and `reportAppearance(ofItemAtIndex:)` move forward.
 * The `moreItems` call and the `Task.sleep` before it are one fetch whose
 * outcome is a parameter; `Err` stands for an error thrown by either.
 */
module StringList {
  import opened Outcomes
  import opened ListStates

  /** The default trigger window, `lastElementsCount`. */
  const DefaultLastElementsCount: nat := 5

  /** What `description(forItemAtIndex:)` returns while there are no items. */
  const DescriptionNotAvailable: string := "<description not available>"

  /** The state after a `load()` that runs to completion: a no-op while a fetch is in flight. */
  function LoadStep<E>(st: ListState<E>, outcome: Result<seq<E>>): ListState<E> {
    if st.IsLoading() then st else Settled(st.Items(), outcome)
  }

  /** The state after successive `load()` calls, each run to completion, with the given outcomes. */
  function LoadAll<E>(st: ListState<E>, outcomes: seq<Result<seq<E>>>): ListState<E>
    decreases |outcomes|
  {
    if outcomes == [] then st else LoadAll(LoadStep(st, outcomes[0]), outcomes[1..])
  }

  /** The pages one after the other. */
  function Concat<E>(pages: seq<seq<E>>): seq<E>
    decreases |pages|
  {
    if pages == [] then [] else pages[0] + Concat(pages[1..])
  }

  /** Successful fetches of the given pages. */
  function Fetched<E>(pages: seq<seq<E>>): (r: seq<Result<seq<E>>>)
    ensures |r| == |pages| && forall i :: 0 <= i < |pages| ==> r[i] == Ok(pages[i])
  {
    seq(|pages|, i requires 0 <= i < |pages| => Ok(pages[i]))
  }

  class Model<E> {
    /** Size of the trigger window. A negative count would make `last(n:)` trap. */
    const lastElementsCount: nat
    /** The caller's row description. */
    const describe: (int, E) -> string
    var state: ListState<E>

    constructor (lastElementsCount: nat := DefaultLastElementsCount, describe: (int, E) -> string)
      ensures this.lastElementsCount == lastElementsCount && this.describe == describe
      ensures state == Initial
    {
      this.lastElementsCount := lastElementsCount;
      this.describe := describe;
      state := Initial;
    }

    /**
     * The part of `load()` before its first `await`: unless a fetch is already
     * in flight, the state becomes `.loading` with the same items and a fetch starts.
     */
    method BeginLoad() returns (started: bool)
      modifies this
      ensures started == !old(state).IsLoading()
      ensures state == if started then Loading(old(state).Items()) else old(state)
    {
      if state.IsLoading() {
        return false;
      }
      state := Loading(state.Items());
      started := true;
    }

    /**
     * The part of `load()` after the fetch settles. It appends to, or keeps
     * beside the error, the items present at that moment.
     */
    method FinishLoad(outcome: Result<seq<E>>)
      modifies this
      ensures state == Settled(old(state).Items(), outcome)
    {
      match outcome
      case Ok(moreItems) =>
        var allItems := state.Items() + moreItems;
        state := Loaded(allItems);
      case Err(e) =>
        state := Error(state.Items(), e);
    }

    /** `load()` run to completion with nothing interleaved. */
    method Load(outcome: Result<seq<E>>) returns (fetched: bool)
      modifies this
      ensures fetched == !old(state).IsLoading()
      ensures state == LoadStep(old(state), outcome)
    {
      fetched := BeginLoad();
      if fetched {
        FinishLoad(outcome);
      }
    }

    /**
     * The part of `refresh()` before the fetch settles: the state is reset to
     * `.initial`, so the guard always passes and the list is empty while loading.
     */
    method BeginRefresh() returns (started: bool)
      modifies this
      ensures started && state == Loading([])
    {
      state := Initial;
      started := BeginLoad();
    }

    /** `refresh()` run to completion: the items are exactly the fetched page. */
    method Refresh(outcome: Result<seq<E>>) returns (fetched: bool)
      modifies this
      ensures fetched && state == Settled([], outcome)
    {
      fetched := BeginRefresh();
      FinishLoad(outcome);
    }

    /**
     * `reportAppearance(ofItemAtIndex:)`: loads when the index is among the
     * last `lastElementsCount` indices, i.e. `max(0, count - lastElementsCount) <= index < count`.
     */
    method ReportAppearance(index: int, outcome: Result<seq<E>>) returns (fetched: bool)
      modifies this
      ensures var count := |old(state).Items()|;
        var inWindow := (if lastElementsCount <= count then count - lastElementsCount else 0) <= index < count;
        && fetched == (inWindow && !old(state).IsLoading())
        && state == if inWindow then LoadStep(old(state), outcome) else old(state)
    {
      fetched := false;
      if index in state.LastIndices(lastElementsCount) {
        fetched := Load(outcome);
      }
    }

    /**
     * `description(forItemAtIndex:)`: a fixed text while there are no items,
     * else the caller's description of the item at `index`, which must exist.
     */
    function DescriptionForItem(index: int): (r: string)
      reads this
      requires state.Items() == [] || 0 <= index < |state.Items()|
      ensures state.Items() == [] ==> r == DescriptionNotAvailable
      ensures state.Items() != [] ==> r == describe(index, state.Items()[index])
    {
      if state.Items() == [] then DescriptionNotAvailable else describe(index, state.Items()[index])
    }
  }

  /** A model built without a window size triggers on the last five rows. */
  method DefaultModel<E>(describe: (int, E) -> string) returns (m: Model<E>)
    ensures m.lastElementsCount == 5 && m.state == Initial && m.describe == describe
  {
    m := new Model(describe := describe);
  }

  /**
   * A `load()` still in flight when `refresh()` starts settles into the
   * refreshed list: the refresh empties the list and starts its own fetch,
   * then the earlier page lands in the empty list and the state is no longer
   * loading although the refresh's fetch has not settled.
   */
  method LoadOverlappingRefresh<E>(m: Model<E>, stale: seq<E>) returns (loadStarted: bool, refreshStarted: bool)
    modifies m
    ensures loadStarted == !old(m.state).IsLoading() && refreshStarted
    ensures m.state == Loaded(stale) && !m.state.IsLoading()
  {
    loadStarted := m.BeginLoad();
    refreshStarted := m.BeginRefresh();
    m.FinishLoad(Ok(stale));
    assert [] + stale == stale;
  }

  /** A `load()` that ran leaves no fetch in flight, and it keeps the old items as a prefix. */
  lemma LoadSettles<E>(st: ListState<E>, outcome: Result<seq<E>>)
    requires !st.IsLoading()
    ensures !LoadStep(st, outcome).IsLoading()
    ensures st.Items() <= LoadStep(st, outcome).Items()
    ensures outcome.Err? ==> LoadStep(st, outcome) == Error(st.Items(), outcome.error)
  {
  }

  /** No sequence of loads, successful or failed, removes or reorders an item. */
  lemma {:induction false} LoadsOnlyExtend<E>(st: ListState<E>, outcomes: seq<Result<seq<E>>>)
    ensures st.Items() <= LoadAll(st, outcomes).Items()
    decreases |outcomes|
  {
    if outcomes != [] {
      var next := LoadStep(st, outcomes[0]);
      assert st.Items() <= next.Items();
      LoadsOnlyExtend(next, outcomes[1..]);
    }
  }

  /** Successful loads append their pages in order, and the list ends up loaded. */
  lemma {:induction false} SuccessfulLoadsAppend<E>(st: ListState<E>, pages: seq<seq<E>>)
    requires !st.IsLoading()
    ensures LoadAll(st, Fetched(pages)).Items() == st.Items() + Concat(pages)
    ensures pages != [] ==> LoadAll(st, Fetched(pages)).Loaded?
    decreases |pages|
  {
    if pages == [] {
      assert LoadAll(st, Fetched(pages)) == st;
      assert st.Items() + [] == st.Items();
    } else {
      var next := Loaded(st.Items() + pages[0]);
      LoadAllFetchedCons(st, pages);
      SuccessfulLoadsAppend(next, pages[1..]);
      calc {
        st.Items() + Concat(pages);
        st.Items() + (pages[0] + Concat(pages[1..]));
        (st.Items() + pages[0]) + Concat(pages[1..]);
      }
    }
  }

  /** One successful page, then the rest. */
  lemma LoadAllFetchedCons<E>(st: ListState<E>, pages: seq<seq<E>>)
    requires !st.IsLoading() && pages != []
    ensures LoadAll(st, Fetched(pages)) == LoadAll(Loaded(st.Items() + pages[0]), Fetched(pages[1..]))
  {
    var fs := Fetched(pages);
    assert LoadStep(st, fs[0]) == Loaded(st.Items() + pages[0]);
    assert fs[1..] == Fetched(pages[1..]);
  }

  /**
   * From the initial state, two successful pages of five items give ten items,
   * and the five of the first page stay where they were.
   */
  lemma TwoPagesOfFive<E>(p: seq<E>, q: seq<E>)
    requires |p| == 5 && |q| == 5
    ensures var first := LoadAll(Initial, [Ok(p)]);
      var second := LoadAll(Initial, [Ok(p), Ok(q)]);
      |second.Items()| == 10 && second.Items()[..5] == first.Items() == p
  {
    SuccessfulLoadsAppend(Initial, [p]);
    SuccessfulLoadsAppend(Initial, [p, q]);
    assert Fetched([p]) == [Ok(p)];
    assert Fetched([p, q]) == [Ok(p), Ok(q)];
    assert Concat([p]) == p + Concat([]);
    assert Concat([p, q]) == p + q by {
      assert Concat([q]) == q + Concat([]);
    }
  }

  /** With ten items and a window of two, indices 8 and 9 trigger a load and 7 does not. */
  lemma TriggerWindowExample<E>(st: ListState<E>)
    requires |st.Items()| == 10
    ensures 7 !in st.LastIndices(2) && 8 in st.LastIndices(2) && 9 in st.LastIndices(2)
  {
  }
}
