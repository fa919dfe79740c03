/** `Collection.last(n:)`: the trailing `n` elements of a collection. */
module LastElements {

  /**
   * The suffix holding the last `n` elements, or the whole collection when it
   * has fewer. An empty collection is returned as it is; otherwise the start is
   * `endIndex` moved back by `n`, clamped to `startIndex`. A negative `n` moves
   * the start past `endIndex` and traps, so it is excluded.
   */
  function Last<T>(s: seq<T>, n: int): (r: seq<T>)
    requires n >= 0
    ensures |r| == if n <= |s| then n else |s|
    ensures r == s[|s| - |r|..]
    ensures n >= |s| ==> r == s
    ensures n == 0 ==> r == []
  {
    if |s| == 0 then s
    else
      var start := if n <= |s| then |s| - n else 0;
      s[start..]
  }
}
