/** The examples of the repository's test suite, on the 4 x 4 grid
    4 8 7 3 / 2 5 9 3 / 6 3 2 5 / 4 4 1 6. The test input file
    (`src/__testdaga__/inputs`) is not part of this model: the grid is
    rebuilt from the values the tests in `src/skiingHelper.spec.js` expect
    (the neighbour pairs and the path elevations). No expectation fixes the
    elevation of cell 15, which is only ever queried; 6 is a stand-in. */
module Examples {
  import opened JsValues
  import opened Grid
  import opened Roots
  import opened LongestPath
  import opened Selection

  /** The elevations of the test grid, row by row; the last one (cell 15)
      is not fixed by any expectation of the test suite. */
  function TestElevations(): (s: seq<int>)
    ensures |s| == 16
  {
    [4, 8, 7, 3, 2, 5, 9, 3, 6, 3, 2, 5, 4, 4, 1, 6]
  }

  /** Corner, border and inner cells of the test grid get the neighbours
      the test suite lists, north, west, east, south. */
  lemma NewsExample(m: SkiMap)
    requires m == SkiMap(4, 4, TestElevations())
    ensures NewsSurroundings(m, 0) == [Neighbour(1, Some(8)), Neighbour(4, Some(2))]
    ensures NewsSurroundings(m, 7) == [Neighbour(3, Some(3)), Neighbour(6, Some(9)), Neighbour(11, Some(5))]
    ensures NewsSurroundings(m, 5) == [Neighbour(1, Some(8)), Neighbour(4, Some(2)), Neighbour(6, Some(9)), Neighbour(9, Some(3))]
  {
    JsRemNonNegative(0, 4);
    JsRemNonNegative(7, 4);
    JsRemNonNegative(5, 4);
  }

  /** Cell 13 (elevation 4) is a root although its neighbour 12 is as
      high: the test uses `<=`. */
  lemma RootExample(m: SkiMap)
    requires m == SkiMap(4, 4, TestElevations())
    ensures HasNoIncomingPath(m, 13)
    ensures m.skiMap[12] == m.skiMap[13]
  {
    JsRemNonNegative(13, 4);
    assert NewsSurroundings(m, 13) == [Neighbour(9, Some(3)), Neighbour(12, Some(4)), Neighbour(14, Some(1))];
  }

  /** The predecessors of the 4 x 4 example grid seen from root 1. */
  function ExampleFromNodes(): (f: seq<Option<int>>)
    ensures |f| == 16
  {
    [None, None, None, None, None, Some(1), None, None,
     None, Some(5), Some(9), None, None, None, Some(10), None]
  }

  lemma ExamplePredTable(f: seq<Option<int>>)
    requires f == ExampleFromNodes()
    ensures PredTable(f, 1)
  {
    forall v | 0 <= v < 16
      ensures PredOk(f, 1, v)
    {
    }
  }

  /** Cells 1, 5, 9, 10 and 14 form a chain of recorded predecessors from
      root 1. */
  lemma ExampleChain(f: seq<Option<int>>, chain: seq<int>)
    requires |f| == 16 && f[14] == Some(10) && f[10] == Some(9) && f[9] == Some(5) && f[5] == Some(1)
    requires chain == [1, 5, 9, 10, 14]
    ensures Linked(f, 1, chain)
  {
    assert LinkAt(f, chain, 0) && LinkAt(f, chain, 1) && LinkAt(f, chain, 2) && LinkAt(f, chain, 3);
  }

  /** `getFullPath(14, fromNodes, 1)` is `[1, 5, 9, 10, 14]`; the root itself
      and a cell without a predecessor get `[]`. */
  lemma FullPathExample(f: seq<Option<int>>)
    requires f == ExampleFromNodes()
    ensures PredTable(f, 1)
    ensures FullPath(14, f, 1) == [1, 5, 9, 10, 14]
    ensures FullPath(1, f, 1) == [] && FullPath(2, f, 1) == []
  {
    ExamplePredTable(f);
    assert Falsy(f[1]) && Falsy(f[2]);
    assert f[14] == Some(10) && f[10] == Some(9) && f[9] == Some(5) && f[5] == Some(1);
    var chain := [1, 5, 9, 10, 14];
    ExampleChain(f, chain);
    FullPathAlong(f, 1, chain);
  }

  /** `R.chain` over the two root results lists their paths in order. */
  lemma FlattenExample(items: seq<RootResult>)
    requires items == [RootResult(Fin(4), [[1, 5, 9, 10, 14]]), RootResult(Fin(4), [[6, 5, 9, 10, 14]])]
    ensures Flatten(items) == [[1, 5, 9, 10, 14], [6, 5, 9, 10, 14]]
  {
    assert items[..1] == [items[0]] && items[..1][..0] == [];
    assert Flatten([]) == [];
    assert Flatten(items[..1]) == [[1, 5, 9, 10, 14]];
  }

  /** The elevations the steepness example reads: cells 1, 5, 6, 9, 10
      and 14 of the test grid. */
  predicate PathHeights(skiMap: seq<int>)
  {
    && |skiMap| == 16 && skiMap[1] == 8 && skiMap[5] == 5 && skiMap[6] == 9
    && skiMap[9] == 3 && skiMap[10] == 2 && skiMap[14] == 1
  }

  /** Of two paths with drops, the greatest drop is that of a strictly
      steeper second one. */
  lemma MaxSteepOfTwo(ps: seq<seq<int>>, skiMap: seq<int>)
    requires |ps| == 2 && Steep(ps[0], skiMap).Some? && Steep(ps[1], skiMap).Some?
    requires Steep(ps[0], skiMap).value < Steep(ps[1], skiMap).value
    ensures MaxSteep(ps, skiMap) == Fin(Steep(ps[1], skiMap).value)
  {
    var r := MaxSteep(ps, skiMap);
    assert ps[1] in ps;
    assert r.Fin?;
    var p :| p in ps && Steep(p, skiMap) == Some(r.n);
    assert p == ps[0] || p == ps[1];
  }

  /** Of two paths with drops, only a strictly steeper second one is kept. */
  lemma SteeperSecond(ps: seq<seq<int>>, skiMap: seq<int>)
    requires |ps| == 2 && Steep(ps[0], skiMap).Some? && Steep(ps[1], skiMap).Some?
    requires Steep(ps[0], skiMap).value < Steep(ps[1], skiMap).value
    ensures MaxSteep(ps, skiMap) == Fin(Steep(ps[1], skiMap).value)
    ensures SteepestOf(ps, skiMap, MaxSteep(ps, skiMap)) == [ps[1]]
  {
    MaxSteepOfTwo(ps, skiMap);
    var m := Fin(Steep(ps[1], skiMap).value);
    assert !IsSteepest(ps[0], skiMap, m) && IsSteepest(ps[1], skiMap, m);
    var keep := (p: seq<int>) => IsSteepest(p, skiMap, m);
    assert ps[..1] == [ps[0]] && [ps[0]][..0] == [];
    assert Filter([ps[0]], keep) == [];
    assert Filter(ps, keep) == [ps[1]];
  }

  /** When the longest paths are two, of which the second drops more, the
      result is the entry of the second alone. */
  lemma SteepestOfTwo(items: seq<RootResult>, skiMap: seq<int>, ps: seq<seq<int>>)
    requires Flatten(items) == ps && |ps| == 2
    requires Steep(ps[0], skiMap).Some? && Steep(ps[1], skiMap).Some?
    requires Steep(ps[0], skiMap).value < Steep(ps[1], skiMap).value
    ensures GetSteepestPaths(items, skiMap) == [ToEntry(ps[1], skiMap)]
  {
    SteeperSecond(ps, skiMap);
    var kept := SteepestOf(ps, skiMap, MaxSteep(ps, skiMap));
    var r := GetSteepestPaths(items, skiMap);
    assert |r| == |kept| == 1;
    assert r[0] == ToEntry(kept[0], skiMap);
  }

  /** The entry of `[6, 5, 9, 10, 14]`: a drop of 9 - 1 over five cells. */
  lemma EntryExample(q: seq<int>, skiMap: seq<int>)
    requires q == [6, 5, 9, 10, 14] && PathHeights(skiMap)
    ensures Steep(q, skiMap) == Some(8)
    ensures ToEntry(q, skiMap) == Entry(8, 5, q, [Some(9), Some(5), Some(3), Some(2), Some(1)])
  {
    var e := ToEntry(q, skiMap);
    assert e.pathValue[0] == Elem(skiMap, 6) && e.pathValue[1] == Elem(skiMap, 5);
    assert e.pathValue[2] == Elem(skiMap, 9) && e.pathValue[3] == Elem(skiMap, 10);
    assert e.pathValue[4] == Elem(skiMap, 14);
  }

  /** On the test grid, of the longest paths `[1, 5, 9, 10, 14]` (drop 7)
      and `[6, 5, 9, 10, 14]` (drop 8) only the second is returned. */
  lemma SteepestExample(items: seq<RootResult>, skiMap: seq<int>)
    requires items == [RootResult(Fin(4), [[1, 5, 9, 10, 14]]), RootResult(Fin(4), [[6, 5, 9, 10, 14]])]
    requires skiMap == TestElevations()
    ensures GetSteepestPaths(items, skiMap) == [Entry(8, 5, [6, 5, 9, 10, 14], [Some(9), Some(5), Some(3), Some(2), Some(1)])]
  {
    assert PathHeights(skiMap);
    FlattenExample(items);
    var ps := Flatten(items);
    assert Steep(ps[0], skiMap) == Some(7);
    EntryExample(ps[1], skiMap);
    SteepestOfTwo(items, skiMap, ps);
  }
}
