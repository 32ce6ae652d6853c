/** Roots of the descent: cells that no neighbour is higher than
    (`hasNoIncommingPath`, `getRootIndices`). */
module Roots {
  import opened JsValues
  import opened Grid

  /** `a <= b` where a comparison with `undefined` is false. */
  predicate LessEq(a: Option<int>, b: Option<int>)
  {
    a.Some? && b.Some? && a.value <= b.value
  }

  /** `hasNoIncommingPath`: every neighbour's elevation is `<=` the cell's. */
  predicate HasNoIncomingPath(m: SkiMap, index: int)
  {
    var ns := NewsSurroundings(m, index);
    forall k :: 0 <= k < |ns| ==> LessEq(ns[k].elevation, Elem(m.skiMap, index))
  }

  /** On a well-formed grid a cell is a root exactly when it is a non-strict
      local maximum: no adjacent cell is strictly higher. */
  lemma RootIsLocalMaximum(m: SkiMap, i: int)
    requires GoodGrid(m) && 0 <= i < |m.skiMap|
    ensures HasNoIncomingPath(m, i) <==>
              forall j :: Adjacent(m, i, j) ==> m.skiMap[j] <= m.skiMap[i]
  {
    var ns := NewsSurroundings(m, i);
    NewsSurroundingsExact(m, i);
    NeighboursAreAdjacent(m, i);
    if HasNoIncomingPath(m, i) {
      forall j | Adjacent(m, i, j) ensures m.skiMap[j] <= m.skiMap[i] {
        assert j in Indices(ns);
        var k :| 0 <= k < |ns| && Indices(ns)[k] == j;
        assert ns[k].index == j;
      }
    } else {
      var k :| 0 <= k < |ns| && !LessEq(ns[k].elevation, Elem(m.skiMap, i));
      assert Indices(ns)[k] in Indices(ns);
      assert Adjacent(m, i, ns[k].index);
    }
  }

  predicate StrictlyIncreasing(s: seq<int>)
  {
    forall a, b :: 0 <= a < b < |s| ==> s[a] < s[b]
  }

  /** The indices below `n` that `keep` accepts, in increasing order:
      `R.range(0, n).filter(keep)`. */
  function IndicesWhere(n: nat, keep: int -> bool): (r: seq<int>)
    ensures StrictlyIncreasing(r)
    ensures forall i :: i in r <==> 0 <= i < n && keep(i)
  {
    if n == 0 then []
    else
      var rest := IndicesWhere(n - 1, keep);
      if keep(n - 1) then
        assert forall i :: i in rest + [n - 1] <==> i in rest || i == n - 1;
        assert forall k :: 0 <= k < |rest| ==> rest[k] in rest;
        rest + [n - 1]
      else rest
  }

  /** `getRootIndices`: every index, filtered by `hasNoIncommingPath`. */
  function GetRootIndices(m: SkiMap): (r: seq<int>)
    ensures StrictlyIncreasing(r)
    ensures forall i :: i in r <==> 0 <= i < |m.skiMap| && HasNoIncomingPath(m, i)
  {
    IndicesWhere(|m.skiMap|, i => HasNoIncomingPath(m, i))
  }
}
