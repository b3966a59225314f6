// classical_search: a linear scan for the first element equal to the target.

module Search {

  /** The index of the first element of items equal to target, or -1 when there is none. */
  method ClassicalSearch<T(==)>(target: T, items: seq<T>) returns (r: int)
    ensures r == -1 <==> target !in items
    ensures r != -1 ==> 0 <= r < |items| && items[r] == target && target !in items[..r]
  {
    for i := 0 to |items|
      invariant target !in items[..i]
    {
      if items[i] == target {
        return i;
      }
    }
    assert items[..|items|] == items;
    return -1;
  }
}
