/** `getLongestSteepestPath` and `getLongestPathsByEachRoots`: roots, the
    descent DAG filled from them, one topological order, the longest paths
    from each root, and the final selection. */
module Pipeline {
  import opened JsValues
  import opened Grid
  import opened Roots
  import opened Reachability
  import opened TopoSort
  import opened Descent
  import opened LongestPath
  import opened Selection

  /** `getLongestPathsByEachRoots`: the result of `findMaxDistanceAndPaths`
      for each root, in root order (`R.chain` keeps results that are not
      arrays as they are). The distance and predecessor tables of each run
      are returned as ghost values so that each result can be stated. */
  method GetLongestPathsByEachRoots(roots: seq<int>, dag: Graph, order: seq<int>, skiMap: seq<int>)
      returns (results: seq<RootResult>, ghost ds: seq<seq<ExtInt>>, ghost fs: seq<seq<Option<int>>>)
    requires forall u :: u in order ==> u in dag && 0 <= u < |skiMap|
    requires forall u, v :: u in order && v in dag[u] ==> 0 <= v < |skiMap|
    ensures |results| == |roots| && |ds| == |roots| && |fs| == |roots|
    ensures forall k :: 0 <= k < |roots| ==> RunFrom(dag, order, skiMap, roots[k], results[k], ds[k], fs[k])
  {
    results, ds, fs := [], [], [];
    var k := 0;
    while k < |roots|
      invariant 0 <= k <= |roots| && |results| == k && |ds| == k && |fs| == k
      invariant forall t :: 0 <= t < k ==> RunFrom(dag, order, skiMap, roots[t], results[t], ds[t], fs[t])
    {
      ghost var d, f;
      var result;
      result, d, f := FindMaxDistanceAndPaths(roots[k], dag, order, skiMap);
      assert RunFrom(dag, order, skiMap, roots[k], result, d, f);
      results, ds, fs := results + [result], ds + [d], fs + [f];
      k := k + 1;
    }
  }

  /** What one run of `findMaxDistanceAndPaths` from `start` returns in
      terms of its final tables: the greatest distance and the rebuilt
      paths of the cells at that distance, in cell order; on a sorted DAG
      the tables are those of longest paths and the result is longest. */
  ghost predicate RunFrom(dag: Graph, order: seq<int>, skiMap: seq<int>, start: int,
                          result: RootResult, d: seq<ExtInt>, f: seq<Option<int>>)
  {
    && |d| == |skiMap| && |f| == |skiMap| && RunOf(start, result, d, f)
    && (Sorted(dag, order, start, skiMap) ==> LongestTable(dag, start, d, f) && LongestFrom(dag, start, result))
  }

  /** The result of a run in terms of its tables: the greatest distance,
      and the rebuilt paths of the cells at that distance, in cell order. */
  ghost predicate RunOf(start: int, result: RootResult, d: seq<ExtInt>, f: seq<Option<int>>)
  {
    && |d| == |f| && PredTable(f, start) && result.maxDistance == MaxOf(d)
    && result.paths == OfDistance(FullPaths(f, start), d, result.maxDistance)
  }

  /** `getLongestSteepestPath({ x, y, skiMap })`. The result is the
      steepest-path selection (`GetSteepestPaths`) over the roots' results
      with the greatest distance (`GetMaxDistanceFromRoots`), where the
      results, returned as a ghost value, hold one longest-path search per
      root. On a well-formed grid whose elevations span at most `MAX_LOOP`,
      every returned path is a descent from a root that no descent from a
      root is longer than. On such a map where, moreover, cell 0 has no
      lower neighbour and some cell has one, the answer is complete: it is
      not empty, each entry is a longest descent with the greatest drop among
      longest descents, and each such descent has an entry with its first
      and last cell. */
  method GetLongestSteepestPath(m: SkiMap) returns (r: seq<Entry>, ghost results: seq<RootResult>)
    ensures |results| == |GetRootIndices(m)|
    ensures r == GetSteepestPaths(GetMaxDistanceFromRoots(results), m.skiMap)
    ensures GoodGrid(m) ==> forall k :: 0 <= k < |results| ==>
      LongestFrom(DescentGraph(m, GetRootIndices(m)), GetRootIndices(m)[k], results[k])
    ensures GoodGrid(m) && Highest(m.skiMap) - Lowest(m.skiMap) <= MAX_LOOP ==> LongestAnswer(m, GetRootIndices(m), r)
    ensures WellBehaved(m) ==> CompleteAnswer(m, GetRootIndices(m), r)
  {
    var roots := GetRootIndices(m);
    var dag := new DescentDag(InitDag(roots));
    dag.FillFromRoots(m, roots);
    InitThenFill(m, roots);
    var edges := dag.edges;
    DescentGraphShape(m, roots);
    var order := TopologicallySortedOrder(edges, roots, m.skiMap);
    var rootResults;
    ghost var ds, fs;
    rootResults, ds, fs := GetLongestPathsByEachRoots(roots, edges, order, m.skiMap);
    results := rootResults;
    var longest := GetMaxDistanceFromRoots(rootResults);
    r := GetSteepestPaths(longest, m.skiMap);
    if GoodGrid(m) {
      DescentGraphReady(m);
      SortedRuns(m, roots, edges, order, results, ds, fs);
      if Highest(m.skiMap) - Lowest(m.skiMap) <= MAX_LOOP {
        DescentGraphFaithful(m, roots);
        SelectedAreLongest(m, roots, edges, results, r);
        if WellBehaved(m) {
          AnswerIsComplete(m, roots, edges, results, ds, fs);
        }
      }
    }
  }

  /** When the DAG is ready for Kahn's algorithm and the order it returned
      lists every key once after its predecessors, the order is sorted for
      every root, so every run computes longest-path tables. */
  lemma SortedRuns(m: SkiMap, roots: seq<int>, d: Graph, order: seq<int>, results: seq<RootResult>,
                   ds: seq<seq<ExtInt>>, fs: seq<seq<Option<int>>>)
    requires Ready(d, roots, m.skiMap) && forall r :: r in roots ==> r in d
    requires (forall v :: v in order ==> v in d) && Distinct(order) && Precedes(d, order)
    requires forall u :: u in d ==> u in order
    requires |results| == |roots| && |ds| == |roots| && |fs| == |roots|
    requires forall k :: 0 <= k < |roots| ==> RunFrom(d, order, m.skiMap, roots[k], results[k], ds[k], fs[k])
    ensures forall k :: 0 <= k < |roots| ==>
      && RunOf(roots[k], results[k], ds[k], fs[k])
      && LongestTable(d, roots[k], ds[k], fs[k]) && LongestFrom(d, roots[k], results[k])
  {
    forall k | 0 <= k < |roots|
      ensures RunOf(roots[k], results[k], ds[k], fs[k])
      ensures LongestTable(d, roots[k], ds[k], fs[k]) && LongestFrom(d, roots[k], results[k])
    {
      assert roots[k] in roots;
      ReadyIsSorted(d, roots, m.skiMap, order, roots[k]);
      assert RunFrom(d, order, m.skiMap, roots[k], results[k], ds[k], fs[k]);
    }
  }

  /** On a map where the answer is complete, the selection over the runs'
      results is not empty, sound and complete. */
  lemma AnswerIsComplete(m: SkiMap, roots: seq<int>, d: Graph, results: seq<RootResult>,
                         ds: seq<seq<ExtInt>>, fs: seq<seq<Option<int>>>)
    requires WellBehaved(m) && roots == GetRootIndices(m) && Faithful(m, roots, d)
    requires forall u :: u in d ==> 0 <= u < |m.skiMap| && d[u] == SkiableSurroundings(m, u)
    requires |results| == |roots| && |ds| == |roots| && |fs| == |roots|
    requires forall k :: 0 <= k < |roots| ==>
      && RunOf(roots[k], results[k], ds[k], fs[k])
      && LongestTable(d, roots[k], ds[k], fs[k]) && LongestFrom(d, roots[k], results[k])
    ensures CompleteAnswer(m, roots, GetSteepestPaths(GetMaxDistanceFromRoots(results), m.skiMap))
  {
    var longest := GetMaxDistanceFromRoots(results);
    assert Prepared(m, roots, d, results, ds, fs);
    AllKeptAreLongest(m, roots, d, results);
    AllLongestAreKept(m, roots, d, results, ds, fs);
    LongestTakesStep(m, roots, d, results);
    SelectionNotEmpty(m, roots, longest);
    SelectionSound(m, roots, longest);
    SelectionComplete(m, roots, longest);
  }

  /** Every entry is a descent from a root that no descent from a root is
      longer than. */
  ghost predicate LongestAnswer(m: SkiMap, roots: seq<int>, r: seq<Entry>)
    requires m.x > 0
  {
    && (forall e :: e in r ==> DescentPath(m, e.pathIndex) && e.pathIndex[0] in roots)
    && (forall e, q :: e in r && DescentPath(m, q) && q[0] in roots ==> |q| <= |e.pathIndex|)
  }

  /** There is an entry; every entry is a longest descent whose drop, which
      it records, no longest descent exceeds; and every such descent has an
      entry with its first and last cell. */
  ghost predicate CompleteAnswer(m: SkiMap, roots: seq<int>, r: seq<Entry>)
    requires m.x > 0
  {
    && r != []
    && (forall e :: e in r ==> SteepestLongestDescent(m, roots, e.pathIndex) && Steep(e.pathIndex, m.skiMap) == Some(e.drop))
    && (forall q :: SteepestLongestDescent(m, roots, q) ==>
          exists e :: e in r && e.pathIndex != [] && e.pathIndex[0] == q[0] && e.pathIndex[|e.pathIndex| - 1] == q[|q| - 1])
  }

  /** The maps on which the answer is complete: well formed, with
      elevations spanning at most `MAX_LOOP` (so no rebuilt path is cut by
      the loop bound), no lower neighbour of cell 0 (so no cell records the
      falsy predecessor 0) and at least one cell with a lower neighbour (so
      the longest descents have a drop). */
  ghost predicate WellBehaved(m: SkiMap)
  {
    && GoodGrid(m) && Highest(m.skiMap) - Lowest(m.skiMap) <= MAX_LOOP
    && SkiableSurroundings(m, 0) == []
    && exists i :: 0 <= i < |m.skiMap| && SkiableSurroundings(m, i) != []
  }

  /** A descent from a root that no descent from a root is longer than. */
  ghost predicate LongestDescent(m: SkiMap, roots: seq<int>, q: seq<int>)
    requires m.x > 0
  {
    && DescentPath(m, q) && q[0] in roots
    && forall q2 :: DescentPath(m, q2) && q2[0] in roots ==> |q2| <= |q|
  }

  /** A longest descent whose drop no longest descent exceeds. */
  ghost predicate SteepestLongestDescent(m: SkiMap, roots: seq<int>, q: seq<int>)
    requires m.x > 0
  {
    && LongestDescent(m, roots, q) && Steep(q, m.skiMap).Some?
    && forall q2 :: LongestDescent(m, roots, q2) && Steep(q2, m.skiMap).Some? ==>
         Steep(q2, m.skiMap).value <= Steep(q, m.skiMap).value
  }

  /** The state before the final selection on a well-formed grid: the DAG
      is the descent graph of the roots, and each result is the run from its
      root, with longest-path tables. */
  ghost predicate Prepared(m: SkiMap, roots: seq<int>, d: Graph, results: seq<RootResult>,
                           ds: seq<seq<ExtInt>>, fs: seq<seq<Option<int>>>)
  {
    && GoodGrid(m) && Highest(m.skiMap) - Lowest(m.skiMap) <= MAX_LOOP
    && roots == GetRootIndices(m) && Faithful(m, roots, d)
    && (forall u :: u in d ==> 0 <= u < |m.skiMap| && d[u] == SkiableSurroundings(m, u))
    && |results| == |roots| && |ds| == |roots| && |fs| == |roots|
    && (forall k :: 0 <= k < |roots| ==>
          && RunOf(roots[k], results[k], ds[k], fs[k])
          && LongestTable(d, roots[k], ds[k], fs[k]) && LongestFrom(d, roots[k], results[k]))
  }

  /** With no lower neighbour of cell 0, a reached cell other than the start
      has a truthy predecessor: cell 0 is never anyone's predecessor. */
  lemma TruthyPredecessor(m: SkiMap, d: Graph, start: int, dd: seq<ExtInt>, f: seq<Option<int>>, v: int)
    requires forall u :: u in d ==> 0 <= u < |m.skiMap| && d[u] == SkiableSurroundings(m, u)
    requires 0 < |m.skiMap| && SkiableSurroundings(m, 0) == []
    requires LongestTable(d, start, dd, f) && 0 <= v < |dd| && v != start && dd[v].Fin?
    ensures !Falsy(f[v])
  {
    assert HasOrigin(start, dd, f, v);
    var u := f[v].value;
    assert u in d && v in d[u];
  }

  /** Some descent from a root takes at least one step. */
  lemma LongDescentExists(m: SkiMap)
    requires WellBehaved(m)
    ensures exists p :: DescentPath(m, p) && p[0] in GetRootIndices(m) && |p| >= 2
  {
    var i :| 0 <= i < |m.skiMap| && SkiableSurroundings(m, i) != [];
    var c := SkiableSurroundings(m, i)[0];
    SkiableAreLowerAdjacent(m, i);
    assert Adjacent(m, i, c) && m.skiMap[c] < m.skiMap[i];
    ClimbToRoot(m, i);
    var p :| DescentPath(m, p) && p[0] in GetRootIndices(m) && p[|p| - 1] == i;
    var q := p + [c];
    forall k | 0 <= k < |q| - 1
      ensures Adjacent(m, q[k], q[k + 1]) && m.skiMap[q[k + 1]] < m.skiMap[q[k]]
    {
      if k < |p| - 1 {
        assert q[k] == p[k] && q[k + 1] == p[k + 1];
      }
    }
    assert DescentPath(m, q) && q[0] in GetRootIndices(m);
  }

  /** The root a longest descent starts from has that descent's length as
      its distance, which no root exceeds, so its result is kept. */
  lemma RootOfLongest(m: SkiMap, roots: seq<int>, d: Graph, results: seq<RootResult>, q: seq<int>) returns (j: int)
    requires GoodGrid(m) && Faithful(m, roots, d) && |results| == |roots|
    requires forall k :: 0 <= k < |results| ==> LongestFrom(d, roots[k], results[k])
    requires LongestDescent(m, roots, q)
    ensures 0 <= j < |roots| && roots[j] == q[0] && results[j].maxDistance == Fin(|q| - 1)
    ensures results[j] in GetMaxDistanceFromRoots(results)
  {
    j :| 0 <= j < |roots| && roots[j] == q[0];
    forall i | 0 <= i < |results|
      ensures results[i].maxDistance.Fin? && results[i].maxDistance.n <= |q| - 1
    {
      assert LongestFrom(d, roots[i], results[i]);
      var w :| PathIn(d, w) && w[0] == roots[i] && |w| - 1 == results[i].maxDistance.n;
      assert roots[i] in roots;
      assert DescentPath(m, w);
    }
    assert PathIn(d, q);
    assert LongestFrom(d, roots[j], results[j]);
    forall b | b in results
      ensures AtMost(b.maxDistance, results[j].maxDistance)
    {
      var i :| 0 <= i < |results| && results[i] == b;
    }
  }

  /** A longest descent of at least one step has a kept path with its first
      and last cell. */
  lemma LongestIsKept(m: SkiMap, roots: seq<int>, d: Graph, results: seq<RootResult>,
                      ds: seq<seq<ExtInt>>, fs: seq<seq<Option<int>>>, q: seq<int>) returns (q': seq<int>)
    requires Prepared(m, roots, d, results, ds, fs) && SkiableSurroundings(m, 0) == []
    requires LongestDescent(m, roots, q) && |q| >= 2
    ensures q' in Flatten(GetMaxDistanceFromRoots(results)) && q' != []
    ensures q'[0] == q[0] && q'[|q'| - 1] == q[|q| - 1]
  {
    var j := RootOfLongest(m, roots, d, results, q);
    assert RunOf(roots[j], results[j], ds[j], fs[j]);
    assert LongestTable(d, roots[j], ds[j], fs[j]) && LongestFrom(d, roots[j], results[j]);
    assert PathIn(d, q);
    q' := KeptEnd(m, d, roots[j], results[j], ds[j], fs[j], q);
    assert results[j] in GetMaxDistanceFromRoots(results) && q' in results[j].paths;
  }

  /** The same for the run from the root the descent starts at: the descent
      reaches its last cell at the greatest distance, with a truthy
      predecessor, so the rebuilt path of that cell is kept. */
  lemma KeptEnd(m: SkiMap, d: Graph, start: int, result: RootResult,
                dd: seq<ExtInt>, f: seq<Option<int>>, q: seq<int>) returns (q': seq<int>)
    requires GoodGrid(m) && Highest(m.skiMap) - Lowest(m.skiMap) <= MAX_LOOP && SkiableSurroundings(m, 0) == []
    requires forall u :: u in d ==> 0 <= u < |m.skiMap| && d[u] == SkiableSurroundings(m, u)
    requires RunOf(start, result, dd, f) && LongestTable(d, start, dd, f) && LongestFrom(d, start, result)
    requires DescentPath(m, q) && PathIn(d, q) && q[0] == start && |q| >= 2 && |q| - 1 == result.maxDistance.n
    ensures q' in result.paths && q' != []
    ensures q'[0] == start && q'[|q'| - 1] == q[|q| - 1]
  {
    var v := q[|q| - 1];
    DescentDrops(m, q);
    DescentBounded(m, q);
    assert result.maxDistance.n <= MAX_LOOP && v != start;
    assert q[|q| - 2] in d && v in d[q[|q| - 2]];
    EdgeRelaxed(d, start, dd, f, q[|q| - 2], v);
    DistanceMeaning(d, start, dd, f, v);
    assert 0 <= v < |dd| && dd[v].Fin? && |q| - 1 <= dd[v].n;
    TruthyPredecessor(m, d, start, dd, f, v);
    RootPathsAreLongest(d, start, dd, f, result);
    assert !Falsy(f[v]);
    q' :| q' in result.paths && q' != [] && q'[|q'| - 1] == v;
    assert PathIn(d, q') && q'[0] == start;
  }

  /** Every non-empty path of `paths` is a longest descent from a root
      (`LongestDescent`, written out). */
  ghost predicate KeptAreLongest(m: SkiMap, roots: seq<int>, paths: seq<seq<int>>)
    requires m.x > 0
  {
    forall p :: p in paths && p != [] ==>
      && DescentPath(m, p) && p[0] in roots
      && forall q2 :: DescentPath(m, q2) && q2[0] in roots ==> |q2| <= |p|
  }

  /** Every longest descent of at least one step has a path in `paths` with
      its first and last cell. */
  ghost predicate LongestAreKept(m: SkiMap, roots: seq<int>, paths: seq<seq<int>>)
    requires m.x > 0
  {
    forall q :: LongestDescent(m, roots, q) && |q| >= 2 ==>
      exists q' :: q' in paths && q' != [] && q'[0] == q[0] && q'[|q'| - 1] == q[|q| - 1]
  }

  /** The kept results hold longest descents only ... */
  lemma AllKeptAreLongest(m: SkiMap, roots: seq<int>, d: Graph, results: seq<RootResult>)
    requires GoodGrid(m) && Highest(m.skiMap) - Lowest(m.skiMap) <= MAX_LOOP
    requires Faithful(m, roots, d) && |results| == |roots|
    requires forall k :: 0 <= k < |results| ==> LongestFrom(d, roots[k], results[k])
    ensures KeptAreLongest(m, roots, Flatten(GetMaxDistanceFromRoots(results)))
  {
    forall p | p in Flatten(GetMaxDistanceFromRoots(results)) && p != []
      ensures LongestDescent(m, roots, p)
    {
      KeptIsLongest(m, roots, d, results, p);
    }
  }

  /** ... and, when cell 0 has no lower neighbour, an end-to-end copy of
      every longest descent that takes a step. */
  lemma AllLongestAreKept(m: SkiMap, roots: seq<int>, d: Graph, results: seq<RootResult>,
                          ds: seq<seq<ExtInt>>, fs: seq<seq<Option<int>>>)
    requires Prepared(m, roots, d, results, ds, fs) && SkiableSurroundings(m, 0) == []
    ensures LongestAreKept(m, roots, Flatten(GetMaxDistanceFromRoots(results)))
  {
    forall q | LongestDescent(m, roots, q) && |q| >= 2
      ensures exists q' :: (&& q' in Flatten(GetMaxDistanceFromRoots(results)) && q' != []
                            && q'[0] == q[0] && q'[|q'| - 1] == q[|q| - 1])
    {
      var q' := LongestIsKept(m, roots, d, results, ds, fs, q);
    }
  }

  /** When some cell has a lower neighbour, some longest descent takes a
      step. */
  lemma LongestTakesStep(m: SkiMap, roots: seq<int>, d: Graph, results: seq<RootResult>)
    requires WellBehaved(m) && roots == GetRootIndices(m)
    requires Faithful(m, roots, d) && |results| == |roots|
    requires forall k :: 0 <= k < |results| ==> LongestFrom(d, roots[k], results[k])
    ensures exists w :: LongestDescent(m, roots, w) && |w| >= 2
  {
    LongDescentExists(m);
    var p :| DescentPath(m, p) && p[0] in roots && |p| >= 2;
    assert results != [];
    var k := GreatestResult(results);
    var w := GreatestIsLongest(m, roots, d, results, k);
    assert |p| <= |w|;
  }

  /** The longest path from a root whose distance no root exceeds is a
      longest descent. */
  lemma GreatestIsLongest(m: SkiMap, roots: seq<int>, d: Graph, results: seq<RootResult>, k: int) returns (w: seq<int>)
    requires GoodGrid(m) && Faithful(m, roots, d) && |results| == |roots|
    requires forall j :: 0 <= j < |results| ==> LongestFrom(d, roots[j], results[j])
    requires 0 <= k < |results| && forall j :: 0 <= j < |results| ==> AtMost(results[j].maxDistance, results[k].maxDistance)
    ensures LongestDescent(m, roots, w)
  {
    assert LongestFrom(d, roots[k], results[k]);
    w :| PathIn(d, w) && w[0] == roots[k] && |w| - 1 == results[k].maxDistance.n;
    assert roots[k] in roots;
    forall q | DescentPath(m, q) && q[0] in roots
      ensures |q| <= |w|
    {
      var i :| 0 <= i < |roots| && roots[i] == q[0];
      assert PathIn(d, q) && LongestFrom(d, roots[i], results[i]);
      assert AtMost(results[i].maxDistance, results[k].maxDistance);
    }
  }

  /** A result whose distance no result exceeds. */
  lemma GreatestResult(results: seq<RootResult>) returns (k: int)
    requires results != []
    ensures 0 <= k < |results|
    ensures forall j :: 0 <= j < |results| ==> AtMost(results[j].maxDistance, results[k].maxDistance)
  {
    var kept := GetMaxDistanceFromRoots(results);
    k :| 0 <= k < |results| && results[k] == kept[0];
    forall j | 0 <= j < |results|
      ensures AtMost(results[j].maxDistance, results[k].maxDistance)
    {
      assert results[j] in results;
    }
  }

  /** Some longest descent has a drop, and the kept paths copy it, so
      something is selected. */
  lemma SelectionNotEmpty(m: SkiMap, roots: seq<int>, items: seq<RootResult>)
    requires m.x > 0 && LongestAreKept(m, roots, Flatten(items))
    requires exists w :: LongestDescent(m, roots, w) && |w| >= 2
    ensures GetSteepestPaths(items, m.skiMap) != []
  {
    var paths := Flatten(items);
    var w :| LongestDescent(m, roots, w) && |w| >= 2;
    DescentDrops(m, w);
    var q' :| q' in paths && q' != [] && q'[0] == w[0] && q'[|q'| - 1] == w[|w| - 1];
    assert Steep(q', m.skiMap).Some?;
    SomethingSelected(items, m.skiMap);
  }

  /** Every selected path is a longest descent whose drop no longest descent
      exceeds. */
  lemma SelectionSound(m: SkiMap, roots: seq<int>, items: seq<RootResult>)
    requires m.x > 0 && KeptAreLongest(m, roots, Flatten(items)) && LongestAreKept(m, roots, Flatten(items))
    ensures forall e :: e in GetSteepestPaths(items, m.skiMap) ==>
      SteepestLongestDescent(m, roots, e.pathIndex) && Steep(e.pathIndex, m.skiMap) == Some(e.drop)
  {
    forall e | e in GetSteepestPaths(items, m.skiMap)
      ensures SteepestLongestDescent(m, roots, e.pathIndex)
    {
      SteepestKeptIsSteepest(m, roots, Flatten(items), e.pathIndex);
    }
  }

  /** A kept path whose drop no kept path exceeds is a longest descent whose
      drop no longest descent exceeds: a longest descent that takes a step
      has a kept copy with its drop, and one that does not has drop 0. */
  lemma SteepestKeptIsSteepest(m: SkiMap, roots: seq<int>, paths: seq<seq<int>>, p: seq<int>)
    requires m.x > 0 && KeptAreLongest(m, roots, paths) && LongestAreKept(m, roots, paths)
    requires p in paths && p != [] && Steep(p, m.skiMap).Some?
    requires forall q :: q in paths && Steep(q, m.skiMap).Some? ==> Steep(q, m.skiMap).value <= Steep(p, m.skiMap).value
    ensures SteepestLongestDescent(m, roots, p)
  {
    assert LongestDescent(m, roots, p);
    DescentDrops(m, p);
    forall q2 | LongestDescent(m, roots, q2) && Steep(q2, m.skiMap).Some?
      ensures Steep(q2, m.skiMap).value <= Steep(p, m.skiMap).value
    {
      if |q2| >= 2 {
        var q' :| q' in paths && q' != [] && q'[0] == q2[0] && q'[|q'| - 1] == q2[|q2| - 1];
        SameEndsSameDrop(q', q2, m.skiMap);
      }
    }
  }

  /** Every longest descent whose drop no longest descent exceeds has a
      selected path with its first and last cell. */
  lemma SelectionComplete(m: SkiMap, roots: seq<int>, items: seq<RootResult>)
    requires m.x > 0 && KeptAreLongest(m, roots, Flatten(items)) && LongestAreKept(m, roots, Flatten(items))
    requires exists w :: LongestDescent(m, roots, w) && |w| >= 2
    ensures forall q :: SteepestLongestDescent(m, roots, q) ==>
      exists e :: (&& e in GetSteepestPaths(items, m.skiMap)
                   && e.pathIndex != [] && e.pathIndex[0] == q[0] && e.pathIndex[|e.pathIndex| - 1] == q[|q| - 1])
  {
    var paths := Flatten(items);
    var r := GetSteepestPaths(items, m.skiMap);
    forall q | SteepestLongestDescent(m, roots, q)
      ensures exists e :: (&& e in r
                           && e.pathIndex != [] && e.pathIndex[0] == q[0] && e.pathIndex[|e.pathIndex| - 1] == q[|q| - 1])
    {
      var q' := SteepestIsKept(m, roots, paths, q);
      var e := SteepestIsSelected(items, m.skiMap, q');
    }
  }

  /** A longest descent whose drop no longest descent exceeds has a kept
      copy with its ends, whose drop no kept path exceeds. */
  lemma SteepestIsKept(m: SkiMap, roots: seq<int>, paths: seq<seq<int>>, q: seq<int>) returns (q': seq<int>)
    requires m.x > 0 && KeptAreLongest(m, roots, paths) && LongestAreKept(m, roots, paths)
    requires exists w :: LongestDescent(m, roots, w) && |w| >= 2
    requires SteepestLongestDescent(m, roots, q)
    ensures q' in paths && q' != [] && q'[0] == q[0] && q'[|q'| - 1] == q[|q| - 1]
    ensures Steep(q', m.skiMap).Some?
    ensures forall q3 :: q3 in paths && Steep(q3, m.skiMap).Some? ==> Steep(q3, m.skiMap).value <= Steep(q', m.skiMap).value
  {
    var w :| LongestDescent(m, roots, w) && |w| >= 2;
    assert |w| <= |q|;
    q' :| q' in paths && q' != [] && q'[0] == q[0] && q'[|q'| - 1] == q[|q| - 1];
    SameEndsSameDrop(q', q, m.skiMap);
    forall q3 | q3 in paths && Steep(q3, m.skiMap).Some?
      ensures Steep(q3, m.skiMap).value <= Steep(q', m.skiMap).value
    {
      assert LongestDescent(m, roots, q3);
    }
  }

  /** A non-empty path of a kept result is a longest descent. */
  lemma KeptIsLongest(m: SkiMap, roots: seq<int>, d: Graph, results: seq<RootResult>, p: seq<int>)
    requires GoodGrid(m) && Highest(m.skiMap) - Lowest(m.skiMap) <= MAX_LOOP
    requires Faithful(m, roots, d) && |results| == |roots|
    requires forall k :: 0 <= k < |results| ==> LongestFrom(d, roots[k], results[k])
    requires p in Flatten(GetMaxDistanceFromRoots(results)) && p != []
    ensures LongestDescent(m, roots, p)
  {
    var kept := GetMaxDistanceFromRoots(results);
    var item :| item in kept && p in item.paths;
    var k :| 0 <= k < |results| && results[k] == item;
    forall j | 0 <= j < |results|
      ensures AtMost(results[j].maxDistance, results[k].maxDistance)
    {
      assert results[j] in results;
    }
    PathOfRootIsLongest(m, roots, d, results, k, p);
  }

  /** On a DAG of the shape Kahn's algorithm needs, the order it returns
      lets the relaxation from any root compute longest paths. */
  lemma ReadyIsSorted(d: Graph, roots: seq<int>, h: seq<int>, order: seq<int>, r: int)
    requires Ready(d, roots, h) && r in roots && r in d
    requires (forall v :: v in order ==> v in d) && Distinct(order) && Precedes(d, order)
    requires forall u :: u in d ==> u in order
    ensures Sorted(d, order, r, h)
  {
  }

  /** The selected paths are longest descents from a root. */
  lemma SelectedAreLongest(m: SkiMap, roots: seq<int>, d: Graph, results: seq<RootResult>, r: seq<Entry>)
    requires GoodGrid(m) && Highest(m.skiMap) - Lowest(m.skiMap) <= MAX_LOOP
    requires Faithful(m, roots, d) && |results| == |roots|
    requires forall k :: 0 <= k < |results| ==> LongestFrom(d, roots[k], results[k])
    requires r == GetSteepestPaths(GetMaxDistanceFromRoots(results), m.skiMap)
    ensures LongestAnswer(m, roots, r)
  {
    forall e | e in r
      ensures DescentPath(m, e.pathIndex) && e.pathIndex[0] in roots
      ensures forall q :: DescentPath(m, q) && q[0] in roots ==> |q| <= |e.pathIndex|
    {
      SelectedIsLongest(m, roots, d, results, e);
    }
  }

  /** One selected path comes from a root whose longest path is longest. */
  lemma SelectedIsLongest(m: SkiMap, roots: seq<int>, d: Graph, results: seq<RootResult>, e: Entry)
    requires GoodGrid(m) && Highest(m.skiMap) - Lowest(m.skiMap) <= MAX_LOOP
    requires Faithful(m, roots, d) && |results| == |roots|
    requires forall k :: 0 <= k < |results| ==> LongestFrom(d, roots[k], results[k])
    requires e in GetSteepestPaths(GetMaxDistanceFromRoots(results), m.skiMap)
    ensures DescentPath(m, e.pathIndex) && e.pathIndex[0] in roots
    ensures forall q :: DescentPath(m, q) && q[0] in roots ==> |q| <= |e.pathIndex|
  {
    var longest := GetMaxDistanceFromRoots(results);
    var p := e.pathIndex;
    assert p in Flatten(longest) && p != [];
    var item :| item in longest && p in item.paths;
    var k :| 0 <= k < |results| && results[k] == item;
    forall j | 0 <= j < |results|
      ensures AtMost(results[j].maxDistance, results[k].maxDistance)
    {
      assert results[j] in results;
    }
    PathOfRootIsLongest(m, roots, d, results, k, p);
  }

  /** A non-empty path of a root whose distance no root exceeds is a
      descent from that root, and no descent from a root is longer. */
  lemma PathOfRootIsLongest(m: SkiMap, roots: seq<int>, d: Graph, results: seq<RootResult>, k: int, p: seq<int>)
    requires GoodGrid(m) && Highest(m.skiMap) - Lowest(m.skiMap) <= MAX_LOOP
    requires Faithful(m, roots, d) && |results| == |roots|
    requires forall j :: 0 <= j < |results| ==> LongestFrom(d, roots[j], results[j])
    requires 0 <= k < |results| && forall j :: 0 <= j < |results| ==> AtMost(results[j].maxDistance, results[k].maxDistance)
    requires p in results[k].paths && p != []
    ensures DescentPath(m, p) && p[0] in roots
    ensures forall q :: DescentPath(m, q) && q[0] in roots ==> |q| <= |p|
  {
    assert LongestFrom(d, roots[k], results[k]);
    var n := results[k].maxDistance.n;
    var w :| PathIn(d, w) && w[0] == roots[k] && |w| - 1 == n;
    assert roots[k] in roots;
    DescentBounded(m, w);
    assert PathIn(d, p) && p[0] == roots[k] && |p| - 1 == n;
    forall q | DescentPath(m, q) && q[0] in roots
      ensures |q| <= |p|
    {
      var j :| 0 <= j < |roots| && roots[j] == q[0];
      assert LongestFrom(d, roots[j], results[j]);
      assert AtMost(results[j].maxDistance, results[k].maxDistance);
    }
  }
}
