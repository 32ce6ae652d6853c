/** The descent DAG: `initDag` and `fillDagFromSkiMap`, which writes into a
    shared object keyed by cell index. */
module Descent {
  import opened JsValues
  import opened Grid
  import opened Roots
  import opened Reachability
  import opened TopoSort
  import opened LongestPath

  /** `s[1] < h`, false when the elevation is `undefined`. */
  predicate LowerThan(n: Neighbour, h: int)
  {
    n.elevation.Some? && n.elevation.value < h
  }

  /** The indices of the neighbours whose elevation is below `h` (a
      comparison with `undefined` is false), in neighbour order: every index
      kept comes from such a neighbour, and every such neighbour is kept. */
  function Lower(ns: seq<Neighbour>, h: int): (r: seq<int>)
    ensures |r| <= |ns|
    ensures forall c :: c in r ==> exists n :: n in ns && n.index == c && LowerThan(n, h)
    ensures forall n :: n in ns && LowerThan(n, h) ==> n.index in r
  {
    if ns == [] then []
    else
      var rest := Lower(ns[1..], h);
      assert forall n :: n in ns[1..] ==> n in ns;
      assert forall n :: n in ns ==> n == ns[0] || n in ns[1..];
      if LowerThan(ns[0], h) then [ns[0].index] + rest else rest
  }

  /** Filtering keeps the order of the neighbour list. */
  lemma {:induction false} LowerIncreasing(ns: seq<Neighbour>, h: int)
    requires StrictlyIncreasing(Indices(ns))
    ensures StrictlyIncreasing(Lower(ns, h))
    ensures forall c :: c in Lower(ns, h) ==> c in Indices(ns)
  {
    if ns != [] {
      var rest := Lower(ns[1..], h);
      TailAbove(ns);
      LowerIncreasing(ns[1..], h);
      if LowerThan(ns[0], h) {
        ConsIncreasing(ns[0].index, rest);
        assert Lower(ns, h) == [ns[0].index] + rest;
      }
    }
  }

  /** In an increasing index list every later index is above the first. */
  lemma TailAbove(ns: seq<Neighbour>)
    requires ns != [] && StrictlyIncreasing(Indices(ns))
    ensures StrictlyIncreasing(Indices(ns[1..]))
    ensures forall c :: c in Indices(ns[1..]) ==> ns[0].index < c && c in Indices(ns)
  {
    var tail := Indices(ns[1..]);
    assert Indices(ns) == [ns[0].index] + tail;
    ConsParts(ns[0].index, tail);
  }

  /** The head and tail of an increasing list. */
  lemma ConsParts(x: int, s: seq<int>)
    requires StrictlyIncreasing([x] + s)
    ensures StrictlyIncreasing(s) && forall c :: c in s ==> x < c
  {
    var r := [x] + s;
    forall a, b | 0 <= a < b < |s|
      ensures s[a] < s[b]
    {
      assert 0 <= a + 1 < b + 1 < |r|;
      assert r[a + 1] < r[b + 1];
      assert s[a] == r[a + 1] && s[b] == r[b + 1];
    }
    forall c | c in s
      ensures x < c
    {
      var j :| 0 <= j < |s| && s[j] == c;
      assert r[0] < r[j + 1];
      assert r[0] == x && r[j + 1] == c;
    }
  }

  lemma ConsIncreasing(x: int, s: seq<int>)
    requires StrictlyIncreasing(s) && forall c :: c in s ==> x < c
    ensures StrictlyIncreasing([x] + s)
  {
    var r := [x] + s;
    forall a, b | 0 <= a < b < |r|
      ensures r[a] < r[b]
    {
      assert r[b] == s[b - 1] && s[b - 1] in s;
      if a > 0 {
        assert r[a] == s[a - 1];
      }
    }
  }

  /** `skiableSurroundings` of `fillDagFromSkiMap`: the strictly lower
      neighbours of a cell. */
  function SkiableSurroundings(m: SkiMap, index: int): (r: seq<int>)
    requires 0 <= index < |m.skiMap|
    ensures forall c :: c in r ==> 0 <= c < |m.skiMap| && m.skiMap[c] < m.skiMap[index]
  {
    Lower(NewsSurroundings(m, index), m.skiMap[index])
  }

  /** On a well-formed grid the successors of a cell are exactly its lower
      adjacent cells. */
  lemma SkiableAreLowerAdjacent(m: SkiMap, i: int)
    requires GoodGrid(m) && 0 <= i < |m.skiMap|
    ensures forall c :: c in SkiableSurroundings(m, i) <==> Adjacent(m, i, c) && m.skiMap[c] < m.skiMap[i]
  {
    var ns := NewsSurroundings(m, i);
    NeighboursAreAdjacent(m, i);
    forall c | Adjacent(m, i, c) && m.skiMap[c] < m.skiMap[i]
      ensures c in SkiableSurroundings(m, i)
    {
      NewsSurroundingsExact(m, i);
      var k :| 0 <= k < |ns| && Indices(ns)[k] == c;
      assert ns[k] in ns;
    }
    forall c | c in SkiableSurroundings(m, i)
      ensures Adjacent(m, i, c)
    {
      var n :| n in ns && n.index == c && LowerThan(n, m.skiMap[i]);
      var k :| 0 <= k < |ns| && ns[k] == n;
      assert Indices(ns)[k] == c;
    }
  }

  /** On a well-formed grid the successors of a cell are listed in increasing
      index order, so without repeats. */
  lemma SkiableIncreasing(m: SkiMap, i: int)
    requires GoodGrid(m) && 0 <= i < |m.skiMap|
    ensures StrictlyIncreasing(SkiableSurroundings(m, i))
  {
    var ns := NewsSurroundings(m, i);
    NewsSurroundingsExact(m, i);
    InGridIncreasing(m, i);
    LowerIncreasing(ns, m.skiMap[i]);
  }

  /** North, west, east and south come in increasing index order. */
  lemma InGridIncreasing(m: SkiMap, i: int)
    requires GoodGrid(m) && 0 <= i < |m.skiMap|
    ensures StrictlyIncreasing(InGridNeighbours(m, i))
  {
    var x, y := m.x, m.y;
    var row, col := i / x, i % x;
    Ordered4(i - x, i - 1, i + 1, i + x, row > 0, col > 0, col < x - 1, row < y - 1);
  }

  /** Any choice among four increasing values lists them increasingly. */
  lemma Ordered4(a: int, b: int, c: int, d: int, pa: bool, pb: bool, pc: bool, pd: bool)
    requires a < b < c < d
    ensures StrictlyIncreasing((if pa then [a] else []) + (if pb then [b] else [])
                               + (if pc then [c] else []) + (if pd then [d] else []))
  {
    var sd := if pd then [d] else [];
    var sc := if pc then [c] + sd else sd;
    ConsIncreasing(c, sd);
    var sb := if pb then [b] + sc else sc;
    ConsIncreasing(b, sc);
    var sa := if pa then [a] + sb else sb;
    ConsIncreasing(a, sb);
    assert (if pa then [a] else []) + (if pb then [b] else []) + (if pc then [c] else []) + sd == sa;
  }

  /** The downhill graph of the whole grid: every cell with its strictly
      lower neighbours. */
  ghost function Downhill(m: SkiMap): (g: Graph)
    ensures forall c :: c in g <==> 0 <= c < |m.skiMap|
  {
    map c | 0 <= c < |m.skiMap| :: SkiableSurroundings(m, c)
  }

  lemma DownhillDescends(m: SkiMap)
    ensures Descending(Downhill(m), m.skiMap)
  {
    var g := Downhill(m);
    forall u, v | u in g && v in g[u]
      ensures v in g && m.skiMap[v] < m.skiMap[u]
    {
      assert g[u] == SkiableSurroundings(m, u);
    }
  }

  /** The lists `fillDagFromSkiMap` writes from `i`: those of every cell
      reached downhill from `i`, `i` included. */
  ghost function FillFrom(m: SkiMap, i: int): (d: Graph)
    requires 0 <= i < |m.skiMap|
    ensures i in d && forall c :: c in d ==> 0 <= c < |m.skiMap|
  {
    DownhillDescends(m);
    Restrict(Downhill(m), Reach(Downhill(m), m.skiMap, i))
  }

  /** `initDag`: a DAG holding each root with an empty list. */
  function InitDag(roots: seq<int>): (d: Graph)
    ensures d.Keys == set r | r in roots
    ensures forall r :: r in d ==> d[r] == []
  {
    if roots == [] then map[]
    else InitDag(roots[..|roots| - 1])[roots[|roots| - 1] := []]
  }

  /** The object passed around as `dag`; `fillDagFromSkiMap` writes its keys. */
  class DescentDag {
    var edges: Graph

    constructor (init: Graph)
      ensures edges == init
    {
      edges := init;
    }

    /** `fillDagFromSkiMap(dag, index, skiMap, x, y)`: every cell reached
        downhill from `index` gets its list of strictly lower neighbours;
        every other key keeps its list. Nodes already present are filled
        again; the recursion ends because each call is on a lower cell. */
    method Fill(m: SkiMap, index: int)
      requires 0 <= index < |m.skiMap|
      modifies this
      ensures edges == old(edges) + FillFrom(m, index)
      decreases m.skiMap[index] - Lowest(m.skiMap)
    {
      ghost var g, h := Downhill(m), m.skiMap;
      DownhillDescends(m);
      var skiable := SkiableSurroundings(m, index);
      assert skiable == g[index];
      FillStart(edges, g, h, index);
      edges := edges[index := skiable];
      var k := 0;
      while k < |skiable|
        invariant 0 <= k <= |skiable|
        invariant edges == Filled(old(edges), g, h, index, k)
      {
        Fill(m, skiable[k]);
        FillStep(old(edges), g, h, index, k);
        k := k + 1;
      }
      FillEnd(old(edges), g, h, index);
    }

    /** The loop of `getLongestSteepestPath` over `Object.keys(dag)`: each
        root in turn is filled. The keys of `initDag(rootIndices)` enumerate
        in ascending numeric order, which is the order of `roots`. */
    method FillFromRoots(m: SkiMap, roots: seq<int>)
      requires forall r :: r in roots ==> 0 <= r < |m.skiMap|
      modifies this
      ensures edges == old(edges) + DescentGraph(m, roots)
    {
      ghost var g, h, start := Downhill(m), m.skiMap, edges;
      DownhillDescends(m);
      assert forall r :: r in roots ==> r in g;
      var k := 0;
      while k < |roots|
        invariant 0 <= k <= |roots|
        invariant edges == start + Restrict(g, ReachAll(g, h, roots[..k]))
      {
        assert roots[k] in roots;
        Fill(m, roots[k]);
        FillNext(start, g, h, roots, k);
        k := k + 1;
        assert edges == start + Restrict(g, ReachAll(g, h, roots[..k]));
      }
      assert roots[..k] == roots;
    }
  }

  /** The DAG built from `roots`: the downhill lists of every cell reached
      from a root. */
  ghost function DescentGraph(m: SkiMap, roots: seq<int>): (d: Graph)
    requires forall r :: r in roots ==> 0 <= r < |m.skiMap|
    ensures forall r :: r in roots ==> r in d
  {
    DownhillDescends(m);
    ReachAllCovers(Downhill(m), m.skiMap, roots);
    Restrict(Downhill(m), ReachAll(Downhill(m), m.skiMap, roots))
  }

  /** Filling `initDag(roots)` from its roots leaves only the descent graph:
      every root key is overwritten. */
  lemma InitThenFill(m: SkiMap, roots: seq<int>)
    requires forall r :: r in roots ==> 0 <= r < |m.skiMap|
    ensures InitDag(roots) + DescentGraph(m, roots) == DescentGraph(m, roots)
  {
    DownhillDescends(m);
    FillCovers(InitDag(roots), Downhill(m), m.skiMap, roots);
  }

  /** The descent graph holds the downhill list of each of its cells, its
      edges go strictly downhill to cells that are themselves keys, and each
      key other than a root is the target of an edge. */
  lemma DescentGraphShape(m: SkiMap, roots: seq<int>)
    requires forall r :: r in roots ==> 0 <= r < |m.skiMap|
    ensures var d := DescentGraph(m, roots);
      && Descending(d, m.skiMap) && Closed(d)
      && (forall u :: u in d ==> 0 <= u < |m.skiMap| && d[u] == SkiableSurroundings(m, u))
      && (forall u :: u in d ==> u in roots || HasIncomingEdge(u, d))
  {
    DownhillDescends(m);
    ReachedPart(Downhill(m), m.skiMap, roots);
    RootedShape(DescentGraph(m, roots), m.skiMap, roots);
  }

  /** A root is listed as the lower neighbour of no cell. */
  lemma RootNotSkiable(m: SkiMap, r: int, u: int)
    requires GoodGrid(m) && 0 <= r < |m.skiMap| && HasNoIncomingPath(m, r) && 0 <= u < |m.skiMap|
    ensures r !in SkiableSurroundings(m, u)
  {
    SkiableAreLowerAdjacent(m, u);
    RootIsLocalMaximum(m, r);
  }

  /** On a well-formed grid the descent graph built from `getRootIndices`
      has the shape Kahn's algorithm needs: its lists repeat no cell and no
      root is the target of an edge, since a root is at least as high as
      every adjacent cell. */
  lemma DescentGraphReady(m: SkiMap)
    requires GoodGrid(m)
    ensures var roots := GetRootIndices(m);
      Ready(DescentGraph(m, roots), roots, m.skiMap)
  {
    var roots := GetRootIndices(m);
    var d := DescentGraph(m, roots);
    DescentGraphShape(m, roots);
    forall u | u in d
      ensures Distinct(d[u])
    {
      SkiableIncreasing(m, u);
    }
    forall r | r in roots
      ensures !HasIncomingEdge(r, d)
    {
      forall u | u in d
        ensures r !in d[u]
      {
        RootNotSkiable(m, r, u);
      }
    }
  }

  /** A descent in the grid: each step goes to an adjacent, strictly lower
      cell. */
  ghost predicate DescentPath(m: SkiMap, p: seq<int>)
    requires m.x > 0
  {
    && |p| > 0 && 0 <= p[0] < |m.skiMap|
    && forall k :: 0 <= k < |p| - 1 ==> Adjacent(m, p[k], p[k + 1]) && m.skiMap[p[k + 1]] < m.skiMap[p[k]]
  }

  /** Every cell is the end of a descent from a root: climbing to a higher
      neighbour while there is one ends at a cell with no higher neighbour. */
  lemma {:induction false} ClimbToRoot(m: SkiMap, c: int)
    requires GoodGrid(m) && 0 <= c < |m.skiMap|
    ensures exists p :: DescentPath(m, p) && p[0] in GetRootIndices(m) && p[|p| - 1] == c
    decreases Highest(m.skiMap) - m.skiMap[c]
  {
    RootIsLocalMaximum(m, c);
    if HasNoIncomingPath(m, c) {
      assert DescentPath(m, [c]);
    } else {
      var j :| Adjacent(m, c, j) && m.skiMap[c] < m.skiMap[j];
      ClimbToRoot(m, j);
      var p :| DescentPath(m, p) && p[0] in GetRootIndices(m) && p[|p| - 1] == j;
      var q := p + [c];
      forall k | 0 <= k < |q| - 1
        ensures Adjacent(m, q[k], q[k + 1]) && m.skiMap[q[k + 1]] < m.skiMap[q[k]]
      {
        if k < |p| - 1 {
          assert q[k] == p[k] && q[k + 1] == p[k + 1];
        } else {
          assert q[k] == j && q[k + 1] == c;
        }
      }
      assert DescentPath(m, q);
    }
  }

  /** An edge of the descent graph is a step down to an adjacent cell. */
  lemma EdgeIsStep(m: SkiMap, roots: seq<int>, u: int, v: int)
    requires GoodGrid(m) && forall r :: r in roots ==> 0 <= r < |m.skiMap|
    requires u in DescentGraph(m, roots) && v in DescentGraph(m, roots)[u]
    ensures Adjacent(m, u, v) && m.skiMap[v] < m.skiMap[u]
  {
    DescentGraphShape(m, roots);
    SkiableAreLowerAdjacent(m, u);
  }

  /** Every path of the descent graph from a root is a descent in the grid. */
  lemma GraphPathIsDescent(m: SkiMap, roots: seq<int>, p: seq<int>)
    requires GoodGrid(m) && forall r :: r in roots ==> 0 <= r < |m.skiMap|
    requires PathIn(DescentGraph(m, roots), p) && p[0] in roots
    ensures DescentPath(m, p)
  {
    var d := DescentGraph(m, roots);
    forall k | 0 <= k < |p| - 1
      ensures Adjacent(m, p[k], p[k + 1]) && m.skiMap[p[k + 1]] < m.skiMap[p[k]]
    {
      assert p[k] in d && p[k + 1] in d[p[k]];
      EdgeIsStep(m, roots, p[k], p[k + 1]);
    }
    assert 0 <= p[0] < |m.skiMap|;
  }

  /** Every descent in the grid from a root is a path of the descent graph. */
  lemma DescentIsGraphPath(m: SkiMap, roots: seq<int>, p: seq<int>)
    requires GoodGrid(m) && forall r :: r in roots ==> 0 <= r < |m.skiMap|
    requires DescentPath(m, p) && p[0] in roots
    ensures PathIn(DescentGraph(m, roots), p)
  {
    var d := DescentGraph(m, roots);
    DescentGraphShape(m, roots);
    DescentPrefixInGraph(m, roots, p, |p|);
  }

  /** A step down to an adjacent cell from a cell of the descent graph is
      an edge of the graph. */
  lemma DescentStep(m: SkiMap, roots: seq<int>, u: int, v: int)
    requires GoodGrid(m) && forall r :: r in roots ==> 0 <= r < |m.skiMap|
    requires u in DescentGraph(m, roots) && Adjacent(m, u, v) && m.skiMap[v] < m.skiMap[u]
    ensures v in DescentGraph(m, roots)[u] && v in DescentGraph(m, roots)
  {
    DescentGraphShape(m, roots);
    SkiableAreLowerAdjacent(m, u);
  }

  lemma {:induction false} DescentPrefixInGraph(m: SkiMap, roots: seq<int>, p: seq<int>, n: int)
    requires GoodGrid(m) && forall r :: r in roots ==> 0 <= r < |m.skiMap|
    requires DescentPath(m, p) && p[0] in roots && 0 < n <= |p|
    ensures p[n - 1] in DescentGraph(m, roots)
    ensures forall k :: 0 <= k < n - 1 ==> p[k] in DescentGraph(m, roots) && p[k + 1] in DescentGraph(m, roots)[p[k]]
  {
    if n > 1 {
      DescentPrefixInGraph(m, roots, p, n - 1);
      DescentStep(m, roots, p[n - 2], p[n - 1]);
    }
  }

  /** A descent drops at least one unit per step. */
  lemma {:induction false} DescentDrops(m: SkiMap, p: seq<int>)
    requires m.x > 0 && DescentPath(m, p)
    ensures 0 <= p[|p| - 1] < |m.skiMap|
    ensures m.skiMap[p[0]] - m.skiMap[p[|p| - 1]] >= |p| - 1
    decreases |p|
  {
    if |p| > 1 {
      var q := p[..|p| - 1];
      assert DescentPath(m, q) by {
        forall k | 0 <= k < |q| - 1
          ensures Adjacent(m, q[k], q[k + 1]) && m.skiMap[q[k + 1]] < m.skiMap[q[k]]
        {
          assert q[k] == p[k] && q[k + 1] == p[k + 1];
        }
      }
      DescentDrops(m, q);
      assert Adjacent(m, p[|p| - 2], p[|p| - 1]);
    }
  }

  /** So a descent has at most as many steps as the elevations span. */
  lemma DescentBounded(m: SkiMap, p: seq<int>)
    requires m.x > 0 && DescentPath(m, p)
    ensures |p| - 1 <= Highest(m.skiMap) - Lowest(m.skiMap)
  {
    DescentDrops(m, p);
  }

  /** The descent graph holds exactly the descents of the grid from its
      roots. */
  ghost predicate Faithful(m: SkiMap, roots: seq<int>, d: Graph)
    requires m.x > 0
  {
    && (forall p :: PathIn(d, p) && p[0] in roots ==> DescentPath(m, p))
    && (forall p :: DescentPath(m, p) && p[0] in roots ==> PathIn(d, p))
  }

  lemma DescentGraphFaithful(m: SkiMap, roots: seq<int>)
    requires GoodGrid(m) && forall r :: r in roots ==> 0 <= r < |m.skiMap|
    ensures Faithful(m, roots, DescentGraph(m, roots))
  {
    forall p | PathIn(DescentGraph(m, roots), p) && p[0] in roots
      ensures DescentPath(m, p)
    {
      GraphPathIsDescent(m, roots, p);
    }
    forall p | DescentPath(m, p) && p[0] in roots
      ensures PathIn(DescentGraph(m, roots), p)
    {
      DescentIsGraphPath(m, roots, p);
    }
  }
}
