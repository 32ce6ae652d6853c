/** The final selection: the roots whose longest path is longest overall
    (`getMaxDistanceFromRoots`), then among their paths those with the
    greatest drop (`getSteepestPaths`). */
module Selection {
  import opened JsValues
  import opened LongestPath

  /** `items.map(item => item.maxDistance)`. */
  function Distances(items: seq<RootResult>): (r: seq<ExtInt>)
    ensures |r| == |items|
    ensures forall k :: 0 <= k < |items| ==> r[k] == items[k].maxDistance
  {
    seq(|items|, k requires 0 <= k < |items| => items[k].maxDistance)
  }

  lemma AtMostAntisymmetric(a: ExtInt, b: ExtInt)
    requires AtMost(a, b) && AtMost(b, a)
    ensures a == b
  {
    match (a, b)
    case (Fin(p), Fin(q)) => assert p <= q <= p;
    case _ =>
  }

  /** `getMaxDistanceFromRoots`: in their order, exactly the items whose
      `maxDistance` no other item exceeds; there is one whenever there is
      an item. */
  function GetMaxDistanceFromRoots(items: seq<RootResult>): (r: seq<RootResult>)
    ensures r == Filter(items, (a: RootResult) => IsMaximal(items, a))
    ensures forall a, b :: a in r && b in items ==> AtMost(b.maxDistance, a.maxDistance)
    ensures forall a :: a in items && (forall b :: b in items ==> AtMost(b.maxDistance, a.maxDistance)) ==> a in r
    ensures forall a :: a in r ==> a in items
    ensures items != [] ==> r != []
  {
    var ds := Distances(items);
    var m := MaxOf(ds);
    var r := Filter(items, (it: RootResult) => it.maxDistance == m);
    assert forall b :: b in items ==> AtMost(b.maxDistance, m);
    MaximalIsMax(items);
    forall a | a in items
      ensures (a.maxDistance == m) == IsMaximal(items, a)
    {
      if a.maxDistance == m {
        forall b | b in items ensures AtMost(b.maxDistance, a.maxDistance) {
          var k :| 0 <= k < |items| && items[k] == b;
          assert ds[k] == b.maxDistance;
        }
      }
    }
    FilterSame(items, (it: RootResult) => it.maxDistance == m, (a: RootResult) => IsMaximal(items, a));
    r
  }

  /** No item has a greater `maxDistance` than `a`. */
  predicate IsMaximal(items: seq<RootResult>, a: RootResult)
  {
    forall b :: b in items ==> AtMost(b.maxDistance, a.maxDistance)
  }

  /** An item no other item exceeds carries the greatest distance, and some
      item does when there is one. */
  lemma MaximalIsMax(items: seq<RootResult>)
    ensures forall a :: a in items && (forall b :: b in items ==> AtMost(b.maxDistance, a.maxDistance)) ==>
      a.maxDistance == MaxOf(Distances(items))
    ensures items != [] ==> exists a :: a in items && a.maxDistance == MaxOf(Distances(items))
  {
    var ds := Distances(items);
    var m := MaxOf(ds);
    forall a | a in items && (forall b :: b in items ==> AtMost(b.maxDistance, a.maxDistance))
      ensures a.maxDistance == m
    {
      if m.Fin? {
        var k :| 0 <= k < |ds| && ds[k] == m;
        assert items[k] in items;
        AtMostAntisymmetric(a.maxDistance, m);
      } else {
        var k :| 0 <= k < |items| && items[k] == a;
        assert AtMost(ds[k], NegInf);
      }
    }
    if items != [] {
      if m.Fin? {
        var k :| 0 <= k < |ds| && ds[k] == m;
        assert items[k] in items;
      } else {
        assert AtMost(ds[0], NegInf);
        assert items[0] in items;
      }
    }
  }

  /** `R.chain(item => item.paths, items)`: the paths of every item, in order. */
  function Flatten(items: seq<RootResult>): (r: seq<seq<int>>)
    ensures forall p :: p in r <==> exists it :: it in items && p in it.paths
  {
    if items == [] then []
    else
      var n := |items| - 1;
      assert items == items[..n] + [items[n]];
      Flatten(items[..n]) + items[n].paths
  }

  /** `R.chain` concatenates: the paths of a concatenation of items are the
      paths of the first part followed by those of the second ... */
  lemma {:induction false} FlattenAppend(a: seq<RootResult>, b: seq<RootResult>)
    ensures Flatten(a + b) == Flatten(a) + Flatten(b)
    decreases |b|
  {
    if b == [] {
      assert a + b == a;
    } else {
      var c, n := a + b, |b| - 1;
      assert c[..|c| - 1] == a + b[..n];
      assert c[|c| - 1] == b[n];
      assert Flatten(c) == Flatten(a + b[..n]) + b[n].paths;
      assert Flatten(b) == Flatten(b[..n]) + b[n].paths;
      FlattenAppend(a, b[..n]);
      assert Flatten(a) + Flatten(b[..n]) + b[n].paths == Flatten(a) + (Flatten(b[..n]) + b[n].paths);
    }
  }

  /** ... and one item contributes its own paths, in their order. */
  lemma FlattenSingle(item: RootResult)
    ensures Flatten([item]) == item.paths
  {
    assert [item][..0] == [];
  }

  /** `skiMap[path[0]] - skiMap[path[path.length - 1]]`; `None` stands for
      `NaN`, the difference of two `undefined` reads of an empty path. */
  function Steep(p: seq<int>, skiMap: seq<int>): (r: Option<int>)
    ensures r.Some? <==> p != [] && 0 <= p[0] < |skiMap| && 0 <= p[|p| - 1] < |skiMap|
  {
    if p != [] && 0 <= p[0] < |skiMap| && 0 <= p[|p| - 1] < |skiMap|
    then Some(skiMap[p[0]] - skiMap[p[|p| - 1]])
    else None
  }

  /** The drop of a path depends on its first and last cell only. */
  lemma SameEndsSameDrop(p: seq<int>, q: seq<int>, skiMap: seq<int>)
    requires p != [] && q != [] && p[0] == q[0] && p[|p| - 1] == q[|q| - 1]
    ensures Steep(p, skiMap) == Steep(q, skiMap)
  {
  }

  /** `max(paths.map(path => path.steep))`: `NaN` never wins `R.max`, so
      this is the greatest drop, or `-Infinity` when no path has one. */
  function MaxSteep(paths: seq<seq<int>>, skiMap: seq<int>): (r: ExtInt)
    ensures forall p :: p in paths && Steep(p, skiMap).Some? ==> AtMost(Fin(Steep(p, skiMap).value), r)
    ensures r.Fin? ==> exists p :: p in paths && Steep(p, skiMap) == Some(r.n)
    ensures r.NegInf? <==> forall p :: p in paths ==> Steep(p, skiMap).None?
  {
    if paths == [] then NegInf
    else
      var n := |paths| - 1;
      assert paths == paths[..n] + [paths[n]];
      var acc := MaxSteep(paths[..n], skiMap);
      var s := Steep(paths[n], skiMap);
      if s.None? then acc
      else
        var r := Max(acc, Fin(s.value));
        forall p | p in paths && Steep(p, skiMap).Some?
          ensures AtMost(Fin(Steep(p, skiMap).value), r)
        {
          if p in paths[..n] {
            AtMostTransitive(Fin(Steep(p, skiMap).value), acc, r);
          }
        }
        r
  }

  /** Each entry annotates a kept path, and no path drops more than it. */
  lemma EntriesAreSteepest(paths: seq<seq<int>>, skiMap: seq<int>, kept: seq<seq<int>>, r: seq<Entry>)
    requires forall p :: p in kept <==> p in paths && IsSteepest(p, skiMap, MaxSteep(paths, skiMap))
    requires |r| == |kept|
    requires forall k :: 0 <= k < |kept| ==> Steep(kept[k], skiMap).Some? && r[k] == ToEntry(kept[k], skiMap)
    ensures forall e :: e in r ==>
      && e.pathIndex in paths && e.pathIndex != []
      && e.pathLength == |e.pathIndex| && |e.pathValue| == |e.pathIndex|
      && (forall i :: 0 <= i < |e.pathIndex| ==> e.pathValue[i] == Elem(skiMap, e.pathIndex[i]))
      && Steep(e.pathIndex, skiMap) == Some(e.drop)
      && (forall q :: q in paths && Steep(q, skiMap).Some? ==> Steep(q, skiMap).value <= e.drop)
  {
    var m := MaxSteep(paths, skiMap);
    forall e | e in r
      ensures e.pathIndex in paths && e.pathIndex != []
      ensures Steep(e.pathIndex, skiMap) == Some(e.drop)
      ensures forall q :: q in paths && Steep(q, skiMap).Some? ==> Steep(q, skiMap).value <= e.drop
    {
      var k :| 0 <= k < |r| && r[k] == e;
      assert kept[k] in kept;
      assert e.pathIndex == kept[k];
      assert m == Fin(e.drop);
    }
  }

  /** Every path whose drop no other path exceeds has an entry. */
  lemma SteepestAreEntries(paths: seq<seq<int>>, skiMap: seq<int>, kept: seq<seq<int>>, r: seq<Entry>)
    requires forall p :: p in kept <==> p in paths && IsSteepest(p, skiMap, MaxSteep(paths, skiMap))
    requires |r| == |kept|
    requires forall k :: 0 <= k < |kept| ==> Steep(kept[k], skiMap).Some? && r[k] == ToEntry(kept[k], skiMap)
    ensures forall p ::
      (&& p in paths && Steep(p, skiMap).Some?
       && forall q :: q in paths && Steep(q, skiMap).Some? ==> Steep(q, skiMap).value <= Steep(p, skiMap).value)
      ==> exists e :: e in r && e.pathIndex == p
  {
    var m := MaxSteep(paths, skiMap);
    forall p | p in paths && Steep(p, skiMap).Some?
      && (forall q :: q in paths && Steep(q, skiMap).Some? ==> Steep(q, skiMap).value <= Steep(p, skiMap).value)
      ensures exists e :: e in r && e.pathIndex == p
    {
      var w :| w in paths && Steep(w, skiMap) == Some(m.n);
      AtMostAntisymmetric(Fin(Steep(p, skiMap).value), m);
      assert p in kept;
      var k :| 0 <= k < |kept| && kept[k] == p;
      assert r[k] in r;
    }
  }

  /** `path.steep === maxSteep`: `NaN` equals nothing. */
  predicate IsSteepest(p: seq<int>, skiMap: seq<int>, m: ExtInt)
  {
    Steep(p, skiMap).Some? && m == Fin(Steep(p, skiMap).value)
  }

  /** `paths.filter(path => path.steep === maxSteep)`. */
  function SteepestOf(paths: seq<seq<int>>, skiMap: seq<int>, m: ExtInt): (r: seq<seq<int>>)
    ensures forall p :: p in r <==> p in paths && IsSteepest(p, skiMap, m)
  {
    Filter(paths, (p: seq<int>) => IsSteepest(p, skiMap, m))
  }

  /** The filter keeps the steepest paths in their order, every occurrence:
      it works on each part of a concatenation ... */
  lemma SteepestOfAppend(a: seq<seq<int>>, b: seq<seq<int>>, skiMap: seq<int>, m: ExtInt)
    ensures SteepestOf(a + b, skiMap, m) == SteepestOf(a, skiMap, m) + SteepestOf(b, skiMap, m)
  {
    FilterAppend(a, b, (p: seq<int>) => IsSteepest(p, skiMap, m));
  }

  /** ... and keeps a single path exactly when its drop is the maximum. */
  lemma SteepestOfSingle(p: seq<int>, skiMap: seq<int>, m: ExtInt)
    ensures SteepestOf([p], skiMap, m) == if IsSteepest(p, skiMap, m) then [p] else []
  {
    FilterSingle(p, (q: seq<int>) => IsSteepest(q, skiMap, m));
  }

  /** The paths of a list of entries, in order. */
  function PathsOf(es: seq<Entry>): (ps: seq<seq<int>>)
    ensures |ps| == |es| && forall k :: 0 <= k < |es| ==> ps[k] == es[k].pathIndex
  {
    seq(|es|, k requires 0 <= k < |es| => es[k].pathIndex)
  }

  /** `{ drop, pathLength, pathIndex, pathValue }`. */
  datatype Entry = Entry(drop: int, pathLength: int, pathIndex: seq<int>, pathValue: seq<Option<int>>)

  /** The annotation of a path with a drop. */
  function ToEntry(p: seq<int>, skiMap: seq<int>): (e: Entry)
    requires Steep(p, skiMap).Some?
    ensures e.pathIndex == p && e.pathLength == |p| && |e.pathValue| == |p|
    ensures e.drop == skiMap[p[0]] - skiMap[p[|p| - 1]]
    ensures forall i :: 0 <= i < |p| ==> e.pathValue[i] == Elem(skiMap, p[i])
  {
    Entry(Steep(p, skiMap).value, |p|, p, seq(|p|, i requires 0 <= i < |p| => Elem(skiMap, p[i])))
  }

  /** `getSteepestPaths(longestPaths, skiMap)`: every path of the items
      whose drop no other path exceeds, in order, annotated with its drop,
      its length and its elevations. Empty paths are never returned. */
  function GetSteepestPaths(items: seq<RootResult>, skiMap: seq<int>): (r: seq<Entry>)
    ensures PathsOf(r) == SteepestOf(Flatten(items), skiMap, MaxSteep(Flatten(items), skiMap))
    ensures forall e :: e in r ==>
      && e.pathIndex in Flatten(items) && e.pathIndex != []
      && e.pathLength == |e.pathIndex| && |e.pathValue| == |e.pathIndex|
      && (forall i :: 0 <= i < |e.pathIndex| ==> e.pathValue[i] == Elem(skiMap, e.pathIndex[i]))
      && Steep(e.pathIndex, skiMap) == Some(e.drop)
      && (forall q :: q in Flatten(items) && Steep(q, skiMap).Some? ==> Steep(q, skiMap).value <= e.drop)
    ensures forall p ::
      (&& p in Flatten(items) && Steep(p, skiMap).Some?
       && forall q :: q in Flatten(items) && Steep(q, skiMap).Some? ==> Steep(q, skiMap).value <= Steep(p, skiMap).value)
      ==> exists e :: e in r && e.pathIndex == p
  {
    var paths := Flatten(items);
    var m := MaxSteep(paths, skiMap);
    var kept := SteepestOf(paths, skiMap, m);
    var r := seq(|kept|, k requires 0 <= k < |kept| => assert kept[k] in kept; ToEntry(kept[k], skiMap));
    forall k | 0 <= k < |kept| ensures Steep(kept[k], skiMap).Some? && r[k] == ToEntry(kept[k], skiMap) {
      assert kept[k] in kept;
    }
    assert PathsOf(r) == kept;
    EntriesAreSteepest(paths, skiMap, kept, r);
    SteepestAreEntries(paths, skiMap, kept, r);
    r
  }

  /** When some path of the items has a drop, something is selected. */
  lemma SomethingSelected(items: seq<RootResult>, skiMap: seq<int>)
    requires exists p :: p in Flatten(items) && Steep(p, skiMap).Some?
    ensures GetSteepestPaths(items, skiMap) != []
  {
    var paths := Flatten(items);
    var top := MaxSteep(paths, skiMap);
    assert top.Fin?;
    var best :| best in paths && Steep(best, skiMap) == Some(top.n);
    assert IsSteepest(best, skiMap, top);
    assert best in PathsOf(GetSteepestPaths(items, skiMap));
  }

  /** A path whose drop no path of the items exceeds is selected: it is
      among the steepest paths the entries are built from. */
  lemma SteepestIsSelected(items: seq<RootResult>, skiMap: seq<int>, p: seq<int>) returns (e: Entry)
    requires p in Flatten(items) && Steep(p, skiMap).Some?
    requires forall q :: q in Flatten(items) && Steep(q, skiMap).Some? ==> Steep(q, skiMap).value <= Steep(p, skiMap).value
    ensures e in GetSteepestPaths(items, skiMap) && e.pathIndex == p
  {
    var paths, r := Flatten(items), GetSteepestPaths(items, skiMap);
    var top := MaxSteep(paths, skiMap);
    AtMostAntisymmetric(Fin(Steep(p, skiMap).value), top);
    assert IsSteepest(p, skiMap, top);
    assert p in PathsOf(r);
    var k :| 0 <= k < |r| && PathsOf(r)[k] == p;
    e := r[k];
  }
}
