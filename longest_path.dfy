/** Longest paths from one root (`findMaxDistanceAndPaths`): distances are
    relaxed along the topologically sorted order with every edge weighing 1,
    each relaxed cell remembers the cell it was reached from, and the paths
    are rebuilt from those predecessors (`getFullPath`, `getFullPaths`). */
module LongestPath {
  import opened JsValues
  import opened Reachability
  import opened TopoSort

  /** `{ maxDistance, paths }` for one root. */
  datatype RootResult = RootResult(maxDistance: ExtInt, paths: seq<seq<int>>)

  /** The cap on the steps of `getFullPath`. */
  const MAX_LOOP: nat := 10000

  /** `!fromNodes[i]`: `undefined`, and also the predecessor `0`. */
  predicate Falsy(o: Option<int>)
  {
    o.None? || o.value == 0
  }

  /** The predecessor recorded at `v`, if any, is a cell that is the start
      or has a predecessor itself. */
  predicate PredOk(fromNodes: seq<Option<int>>, start: int, v: int)
    requires 0 <= v < |fromNodes|
  {
    fromNodes[v].Some? ==>
      var u := fromNodes[v].value;
      0 <= u < |fromNodes| && (u == start || fromNodes[u].Some?)
  }

  /** Every recorded predecessor is well placed, so following predecessors
      never reads `undefined`. */
  predicate PredTable(fromNodes: seq<Option<int>>, start: int)
  {
    forall v :: 0 <= v < |fromNodes| ==> PredOk(fromNodes, start, v)
  }

  /** Cell `k + 1` of `r` was reached from cell `k`. */
  predicate LinkAt(fromNodes: seq<Option<int>>, r: seq<int>, k: int)
    requires 0 <= k < |r| - 1
  {
    0 <= r[k + 1] < |fromNodes| && fromNodes[r[k + 1]] == Some(r[k])
  }

  /** The cells `getFullPath` visits from `v` with `fuel` steps left,
      oldest first: the predecessors of `v` are followed until the start is
      reached or the fuel runs out. The result is a chain of recorded
      predecessors ending at `v`, which stops short of the start only when
      the fuel runs out. */
  function Trace(fromNodes: seq<Option<int>>, start: int, v: int, fuel: nat): (r: seq<int>)
    requires PredTable(fromNodes, start)
    requires 0 <= v < |fromNodes| && (v == start || fromNodes[v].Some?)
    ensures 1 <= |r| <= fuel + 1 && r[|r| - 1] == v
    ensures 0 <= r[0] < |fromNodes|
    ensures forall k :: 0 <= k < |r| - 1 ==> LinkAt(fromNodes, r, k)
    ensures r[0] == start || |r| == fuel + 1
    decreases fuel
  {
    if v == start || fuel == 0 then [v]
    else
      assert PredOk(fromNodes, start, v);
      var p := Trace(fromNodes, start, fromNodes[v].value, fuel - 1);
      var r := p + [v];
      forall k | 0 <= k < |r| - 1 ensures LinkAt(fromNodes, r, k) {
        if k < |p| - 1 {
          assert LinkAt(fromNodes, p, k);
        }
      }
      r
  }

  /** `getFullPath(to, fromNodes, start)` as a value: empty when the
      predecessor of `to` is falsy, otherwise the predecessor chain ending at
      `to`, which begins at the start unless it has `MAX_LOOP + 1` cells. */
  function FullPath(to: int, fromNodes: seq<Option<int>>, start: int): (r: seq<int>)
    requires PredTable(fromNodes, start) && 0 <= to < |fromNodes|
    ensures r == [] <==> Falsy(fromNodes[to])
    ensures r != [] ==> r[|r| - 1] == to && |r| <= MAX_LOOP + 1
    ensures r != [] ==> r[0] == start || |r| == MAX_LOOP + 1
    ensures forall k :: 0 <= k < |r| - 1 ==> LinkAt(fromNodes, r, k)
  {
    if Falsy(fromNodes[to]) then [] else Trace(fromNodes, start, to, MAX_LOOP)
  }

  /** `getFullPath`: the `while` loop prepending predecessors, at most
      `MAX_LOOP` times. */
  method GetFullPath(to: int, fromNodes: seq<Option<int>>, start: int) returns (fullPath: seq<int>)
    requires PredTable(fromNodes, start) && 0 <= to < |fromNodes|
    ensures fullPath == FullPath(to, fromNodes, start)
  {
    if Falsy(fromNodes[to]) {
      return [];
    }
    fullPath := [to];
    var flag := 0;
    while fullPath[0] != start && flag < MAX_LOOP
      invariant 0 <= flag <= MAX_LOOP
      invariant |fullPath| > 0 && 0 <= fullPath[0] < |fromNodes|
      invariant fullPath[0] == start || fromNodes[fullPath[0]].Some?
      invariant Trace(fromNodes, start, fullPath[0], MAX_LOOP - flag) + fullPath[1..] == Trace(fromNodes, start, to, MAX_LOOP)
      decreases MAX_LOOP - flag
    {
      TraceStep(fromNodes, start, fullPath, MAX_LOOP - flag, Trace(fromNodes, start, to, MAX_LOOP));
      flag := flag + 1;
      fullPath := [fromNodes[fullPath[0]].value] + fullPath;
    }
    TraceDone(fromNodes, start, fullPath, MAX_LOOP - flag, Trace(fromNodes, start, to, MAX_LOOP));
  }

  /** One pass of the loop of `getFullPath` keeps its invariant: the
      partial path, completed by tracing back from its first cell, is the
      final one. */
  lemma TraceStep(f: seq<Option<int>>, start: int, path: seq<int>, fuel: nat, whole: seq<int>)
    requires PredTable(f, start) && |path| > 0 && 0 <= path[0] < |f| && path[0] != start && f[path[0]].Some? && fuel > 0
    requires Trace(f, start, path[0], fuel) + path[1..] == whole
    ensures var u := f[path[0]].value;
      && 0 <= u < |f| && (u == start || f[u].Some?)
      && Trace(f, start, u, fuel - 1) + ([u] + path)[1..] == whole
  {
    var u := f[path[0]].value;
    TraceBack(f, start, path[0], fuel);
    assert ([u] + path)[1..] == [path[0]] + path[1..];
  }

  /** When the loop of `getFullPath` stops, the partial path is the final
      one. */
  lemma TraceDone(f: seq<Option<int>>, start: int, path: seq<int>, fuel: nat, whole: seq<int>)
    requires PredTable(f, start) && |path| > 0 && 0 <= path[0] < |f| && (path[0] == start || f[path[0]].Some?)
    requires path[0] == start || fuel == 0
    requires Trace(f, start, path[0], fuel) + path[1..] == whole
    ensures path == whole
  {
    assert path == [path[0]] + path[1..];
  }

  /** One step of the trace away from the start, with fuel left. */
  lemma TraceBack(f: seq<Option<int>>, start: int, v: int, fuel: nat)
    requires PredTable(f, start) && 0 <= v < |f| && v != start && f[v].Some? && fuel > 0
    ensures PredOk(f, start, v)
    ensures Trace(f, start, v, fuel) == Trace(f, start, f[v].value, fuel - 1) + [v]
  {
    assert PredOk(f, start, v);
  }

  /** `getFullPaths`: the path rebuilt towards every cell, by index. */
  function FullPaths(fromNodes: seq<Option<int>>, start: int): (r: seq<seq<int>>)
    requires PredTable(fromNodes, start)
    ensures |r| == |fromNodes|
    ensures forall i :: 0 <= i < |r| ==> r[i] == FullPath(i, fromNodes, start)
  {
    seq(|fromNodes|, i requires 0 <= i < |fromNodes| => FullPath(i, fromNodes, start))
  }

  /** The paths whose cell lies at distance `m`, in index order (the `map`
      to `null` and the truthiness `filter`; an empty path is kept). */
  function OfDistance(paths: seq<seq<int>>, d: seq<ExtInt>, m: ExtInt): (r: seq<seq<int>>)
    requires |paths| == |d|
    ensures |r| <= |paths|
    decreases |paths|
  {
    if paths == [] then []
    else
      var n := |paths| - 1;
      OfDistance(paths[..n], d[..n], m) + (if d[n] == m then [paths[n]] else [])
  }

  /** A path of `OfDistance` is the path of some cell at distance `m`, and
      every such cell contributes its path. */
  lemma {:induction false} OfDistanceMembers(paths: seq<seq<int>>, d: seq<ExtInt>, m: ExtInt)
    requires |paths| == |d|
    ensures forall p :: p in OfDistance(paths, d, m) ==> exists i :: 0 <= i < |d| && d[i] == m && paths[i] == p
    ensures forall i :: 0 <= i < |d| && d[i] == m ==> paths[i] in OfDistance(paths, d, m)
    decreases |paths|
  {
    if paths != [] {
      var n := |paths| - 1;
      OfDistanceMembers(paths[..n], d[..n], m);
      assert forall i :: 0 <= i < n ==> paths[..n][i] == paths[i] && d[..n][i] == d[i];
    }
  }

  /** The conditions under which the relaxation computes longest paths: the
      order lists every key once after its predecessors, edges go downhill,
      and the start is a key with no incoming edge. */
  ghost predicate Sorted(dag: Graph, order: seq<int>, start: int, h: seq<int>)
  {
    && Descending(dag, h) && Distinct(order) && Precedes(dag, order)
    && (forall u :: u in dag <==> u in order)
    && start in dag && !HasIncomingEdge(start, dag)
  }

  /** What the tables hold once every edge has been relaxed: the start is at
      distance 0, every predecessor is one edge back and one step closer,
      every reached cell other than the start has a predecessor, and no edge
      could lengthen a distance any more. */
  ghost predicate LongestTable(dag: Graph, start: int, d: seq<ExtInt>, f: seq<Option<int>>)
  {
    && |d| == |f| && 0 <= start < |d| && d[start] == Fin(0) && f[start] == None
    && (forall v :: 0 <= v < |d| && f[v].Some? ==>
          var u := f[v].value;
          0 <= u < |d| && u in dag && v in dag[u] && d[v].Fin? && d[v] == Plus1(d[u]))
    && (forall v :: 0 <= v < |d| ==> HasOrigin(start, d, f, v))
    && (forall u, t :: u in dag && 0 <= t < |dag[u]| ==>
          0 <= u < |d| && 0 <= dag[u][t] < |d| && AtMost(Plus1(d[u]), d[dag[u][t]]))
  }

  /** A reached cell is at a non-negative distance and is the start or has
      a predecessor. */
  predicate HasOrigin(start: int, d: seq<ExtInt>, f: seq<Option<int>>, v: int)
    requires 0 <= v < |d| == |f|
  {
    d[v].Fin? ==> d[v].n >= 0 && (v == start || f[v].Some?)
  }

  /** The tables in any run: predecessors are reached cells. */
  ghost predicate Consistent(start: int, d: seq<ExtInt>, f: seq<Option<int>>)
  {
    && |d| == |f|
    && (forall v :: 0 <= v < |f| && f[v].Some? ==> 0 <= f[v].value < |f| && d[f[v].value].Fin? && d[v].Fin?)
    && (forall v :: 0 <= v < |d| && d[v].Fin? ==> v == start || f[v].Some?)
  }

  /** The state of the relaxation after all edges of `order[..i]` and the
      first `j` edges of `order[i]`, on a sorted DAG. */
  ghost predicate Relaxing(dag: Graph, order: seq<int>, start: int, i: int, j: int, d: seq<ExtInt>, f: seq<Option<int>>)
    requires forall k :: 0 <= k < |order| ==> order[k] in dag
  {
    && (forall k :: 0 <= k < |order| ==> 0 <= order[k] < |d|)
    && 0 <= i <= |order| && (i == |order| ==> j == 0) && (i < |order| ==> 0 <= j <= |dag[order[i]]|)
    && |d| == |f| && 0 <= start < |d| && d[start] == Fin(0) && f[start] == None
    && (forall v :: 0 <= v < |d| && f[v].Some? ==>
          var u := f[v].value;
          0 <= u < |d| && u in dag && v in dag[u] && d[v].Fin? && d[v] == Plus1(d[u])
          && (u in order[..i] || (i < |order| && u == order[i])))
    && (forall v :: 0 <= v < |d| && d[v].Fin? ==> d[v].n >= 0)
    && (forall k, v :: 0 <= k < i && v in dag[order[k]] ==> 0 <= v < |d| && AtMost(Plus1(d[order[k]]), d[v]))
    && (i < |order| ==> forall t :: 0 <= t < j ==>
          0 <= dag[order[i]][t] < |d| && AtMost(Plus1(d[order[i]]), d[dag[order[i]][t]]))
  }

  /** `findMaxDistanceAndPaths(start, dag, order, skiMap)`, with every edge
      weighing 1. The source reads `dag[u]` for every `u` of the order and
      writes the tables at every successor, hence the requirements. The
      tables are returned as ghost values so that their meaning can be
      stated. */
  method FindMaxDistanceAndPaths(start: int, dag: Graph, order: seq<int>, skiMap: seq<int>)
      returns (result: RootResult, ghost d: seq<ExtInt>, ghost f: seq<Option<int>>)
    requires forall u :: u in order ==> u in dag && 0 <= u < |skiMap|
    requires forall u, v :: u in order && v in dag[u] ==> 0 <= v < |skiMap|
    ensures |d| == |skiMap| && |f| == |skiMap| && PredTable(f, start)
    ensures result.maxDistance == MaxOf(d)
    ensures result.paths == OfDistance(FullPaths(f, start), d, result.maxDistance)
    ensures Sorted(dag, order, start, skiMap) ==> LongestTable(dag, start, d, f)
    ensures Sorted(dag, order, start, skiMap) ==> LongestFrom(dag, start, result)
  {
    ghost var sorted := Sorted(dag, order, start, skiMap);
    var n := |skiMap|;
    var distances := new ExtInt[n](k => if k == start then Fin(0) else NegInf);
    var fromNodes := new Option<int>[n](k => None);
    if sorted {
      RelaxStart(dag, order, start, skiMap, distances[..], fromNodes[..]);
    }
    RelaxInOrder(start, dag, order, skiMap, distances, fromNodes);
    d, f := distances[..], fromNodes[..];
    if sorted {
      RelaxDone(dag, order, start, skiMap, d, f);
    }
    var maxDistance := MaxOf(distances[..]);
    var paths := FullPaths(fromNodes[..], start);
    result := RootResult(maxDistance, OfDistance(paths, distances[..], maxDistance));
    if sorted {
      RootPathsAreLongest(dag, start, d, f, result);
    }
  }

  /** The `forEach` over the order and, inside it, over the successors of
      each node: every edge out of every node of the order is relaxed once. */
  method RelaxInOrder(start: int, dag: Graph, order: seq<int>, skiMap: seq<int>,
                      distances: array<ExtInt>, fromNodes: array<Option<int>>)
    requires forall u :: u in order ==> u in dag && 0 <= u < |skiMap|
    requires forall u, v :: u in order && v in dag[u] ==> 0 <= v < |skiMap|
    requires distances.Length == fromNodes.Length == |skiMap|
    requires Consistent(start, distances[..], fromNodes[..])
    requires Sorted(dag, order, start, skiMap) ==> Relaxing(dag, order, start, 0, 0, distances[..], fromNodes[..])
    modifies distances, fromNodes
    ensures Consistent(start, distances[..], fromNodes[..])
    ensures Sorted(dag, order, start, skiMap) ==> Relaxing(dag, order, start, |order|, 0, distances[..], fromNodes[..])
  {
    var i := 0;
    while i < |order|
      invariant 0 <= i <= |order|
      invariant Consistent(start, distances[..], fromNodes[..])
      invariant Sorted(dag, order, start, skiMap) ==> Relaxing(dag, order, start, i, 0, distances[..], fromNodes[..])
    {
      RelaxOutEdges(start, dag, order, skiMap, i, distances, fromNodes);
      if Sorted(dag, order, start, skiMap) {
        RelaxNext(dag, order, start, i, distances[..], fromNodes[..]);
      }
      i := i + 1;
    }
  }

  /** The inner `forEach` of the relaxation: every edge out of `order[i]`,
      in the order the graph lists them. */
  method RelaxOutEdges(start: int, dag: Graph, order: seq<int>, skiMap: seq<int>, i: int,
                       distances: array<ExtInt>, fromNodes: array<Option<int>>)
    requires forall u :: u in order ==> u in dag && 0 <= u < |skiMap|
    requires forall u, v :: u in order && v in dag[u] ==> 0 <= v < |skiMap|
    requires 0 <= i < |order|
    requires distances.Length == fromNodes.Length == |skiMap|
    requires Consistent(start, distances[..], fromNodes[..])
    requires Sorted(dag, order, start, skiMap) ==> Relaxing(dag, order, start, i, 0, distances[..], fromNodes[..])
    modifies distances, fromNodes
    ensures order[i] in dag
    ensures Consistent(start, distances[..], fromNodes[..])
    ensures Sorted(dag, order, start, skiMap) ==> Relaxing(dag, order, start, i, |dag[order[i]]|, distances[..], fromNodes[..])
  {
    var u := order[i];
    assert u in order;
    var adj := dag[u];
    var j := 0;
    while j < |adj|
      invariant 0 <= j <= |adj|
      invariant Consistent(start, distances[..], fromNodes[..])
      invariant Sorted(dag, order, start, skiMap) ==> Relaxing(dag, order, start, i, j, distances[..], fromNodes[..])
    {
      var v := adj[j];
      assert v in dag[u];
      ghost var d0, f0 := distances[..], fromNodes[..];
      Relax(distances, fromNodes, u, v);
      RelaxStep(dag, order, start, skiMap, i, j, d0, f0, distances[..], fromNodes[..]);
      j := j + 1;
    }
  }

  /** The body of the inner `forEach`: a longer distance through `u` is
      recorded at `v`, with `u` as its predecessor. */
  method Relax(distances: array<ExtInt>, fromNodes: array<Option<int>>, u: int, v: int)
    requires 0 <= u < distances.Length && 0 <= v < distances.Length == fromNodes.Length
    modifies distances, fromNodes
    ensures var next := Plus1(old(distances[u]));
      && (Less(old(distances[v]), next) ==>
            distances[..] == old(distances[..])[v := next] && fromNodes[..] == old(fromNodes[..])[v := Some(u)])
      && (!Less(old(distances[v]), next) ==>
            distances[..] == old(distances[..]) && fromNodes[..] == old(fromNodes[..]))
  {
    var nextDist := Plus1(distances[u]);
    if Less(distances[v], nextDist) {
      distances[v] := nextDist;
      fromNodes[v] := Some(u);
    }
  }

  lemma RelaxStart(dag: Graph, order: seq<int>, start: int, h: seq<int>, d: seq<ExtInt>, f: seq<Option<int>>)
    requires Sorted(dag, order, start, h)
    requires |d| == |f| == |h|
    requires forall k :: 0 <= k < |d| ==> d[k] == (if k == start then Fin(0) else NegInf) && f[k] == None
    ensures Relaxing(dag, order, start, 0, 0, d, f)
  {
    assert forall k :: 0 <= k < |order| ==> order[k] in order;
  }

  /** A successor of `order[i]` is not yet processed: it would need
      `order[i]` before it. */
  lemma Unprocessed(dag: Graph, order: seq<int>, start: int, h: seq<int>, i: int, v: int)
    requires Sorted(dag, order, start, h) && 0 <= i < |order| && v in dag[order[i]]
    ensures v !in order[..i + 1] && v != start
  {

  }

  /** One call of `Relax` keeps the tables consistent and, on a sorted DAG,
      advances the relaxation by one edge. */
  lemma RelaxStep(dag: Graph, order: seq<int>, start: int, h: seq<int>, i: int, j: int,
                  d0: seq<ExtInt>, f0: seq<Option<int>>, d1: seq<ExtInt>, f1: seq<Option<int>>)
    requires forall u :: u in order ==> u in dag && 0 <= u < |h|
    requires forall u, v :: u in order && v in dag[u] ==> 0 <= v < |h|
    requires 0 <= i < |order| && order[i] in dag && 0 <= j < |dag[order[i]]|
    requires Consistent(start, d0, f0) && |d0| == |h|
    requires Sorted(dag, order, start, h) ==> Relaxing(dag, order, start, i, j, d0, f0)
    requires var u, v := order[i], dag[order[i]][j];
      0 <= u < |d0| && 0 <= v < |d0| &&
      var next := Plus1(d0[u]);
      && (Less(d0[v], next) ==> d1 == d0[v := next] && f1 == f0[v := Some(u)])
      && (!Less(d0[v], next) ==> d1 == d0 && f1 == f0)
    ensures Consistent(start, d1, f1)
    ensures Sorted(dag, order, start, h) ==> Relaxing(dag, order, start, i, j + 1, d1, f1)
  {
    var u, v := order[i], dag[order[i]][j];
    if Sorted(dag, order, start, h) {
      RelaxEdge(dag, order, start, h, i, j, d0, f0);
    }
    if Less(d0[v], Plus1(d0[u])) {
      RelaxConsistent(start, d0, f0, u, v);
    }
  }

  /** Recording a longer distance keeps predecessors among reached cells. */
  lemma RelaxConsistent(start: int, d: seq<ExtInt>, f: seq<Option<int>>, u: int, v: int)
    requires Consistent(start, d, f) && 0 <= u < |d| && 0 <= v < |d| && Less(d[v], Plus1(d[u]))
    ensures Consistent(start, d[v := Plus1(d[u])], f[v := Some(u)])
  {
  }

  /** Relaxing the edge from `order[i]` to its `j`-th successor. */
  lemma RelaxEdge(dag: Graph, order: seq<int>, start: int, h: seq<int>, i: int, j: int, d: seq<ExtInt>, f: seq<Option<int>>)
    requires Sorted(dag, order, start, h) && 0 <= i < |order|
    requires Relaxing(dag, order, start, i, j, d, f) && j < |dag[order[i]]| && |d| == |h|
    ensures var u, v := order[i], dag[order[i]][j];
      var next := Plus1(d[u]);
      && 0 <= u < |d| && 0 <= v < |d|
      && (Less(d[v], next) ==> Relaxing(dag, order, start, i, j + 1, d[v := next], f[v := Some(u)]))
      && (!Less(d[v], next) ==> Relaxing(dag, order, start, i, j + 1, d, f))
  {
    var u, v := order[i], dag[order[i]][j];
    assert u in order && u in dag && v in dag[u];
    assert v in dag && 0 <= v < |h|;
    if Less(d[v], Plus1(d[u])) {
      RelaxTaken(dag, order, start, h, i, j, d, f);
    } else {
      RelaxSkipped(dag, order, start, i, j, d, f);
    }
  }

  /** No longer distance through `order[i]`: the tables stay as they are. */
  lemma RelaxSkipped(dag: Graph, order: seq<int>, start: int, i: int, j: int, d: seq<ExtInt>, f: seq<Option<int>>)
    requires forall k :: 0 <= k < |order| ==> order[k] in dag
    requires 0 <= i < |order| && Relaxing(dag, order, start, i, j, d, f) && j < |dag[order[i]]|
    requires 0 <= dag[order[i]][j] < |d| && !Less(d[dag[order[i]][j]], Plus1(d[order[i]]))
    ensures Relaxing(dag, order, start, i, j + 1, d, f)
  {
    var u := order[i];
    forall t | 0 <= t < j + 1
      ensures 0 <= dag[u][t] < |d| && AtMost(Plus1(d[u]), d[dag[u][t]])
    {
    }
  }

  /** A longer distance found for `v`: it is recorded with `order[i]` as its
      predecessor. */
  lemma RelaxTaken(dag: Graph, order: seq<int>, start: int, h: seq<int>, i: int, j: int, d: seq<ExtInt>, f: seq<Option<int>>)
    requires Sorted(dag, order, start, h) && 0 <= i < |order|
    requires Relaxing(dag, order, start, i, j, d, f) && j < |dag[order[i]]| && |d| == |h|
    requires order[i] in dag && dag[order[i]][j] in dag
    requires Less(d[dag[order[i]][j]], Plus1(d[order[i]]))
    ensures var u, v := order[i], dag[order[i]][j];
      Relaxing(dag, order, start, i, j + 1, d[v := Plus1(d[u])], f[v := Some(u)])
  {
    var u, v := order[i], dag[order[i]][j];
    var next := Plus1(d[u]);
    Unprocessed(dag, order, start, h, i, v);
    var d', f' := d[v := next], f[v := Some(u)];
    RelaxKeepsPreds(dag, order, start, i, j, d, f, u, v);
    RelaxKeepsEdges(dag, order, i, j, d, u, v);
  }

  lemma RelaxKeepsPreds(dag: Graph, order: seq<int>, start: int, i: int, j: int, d: seq<ExtInt>, f: seq<Option<int>>, u: int, v: int)
    requires forall k :: 0 <= k < |order| ==> order[k] in dag
    requires 0 <= i < |order| && Relaxing(dag, order, start, i, j, d, f)
    requires u == order[i] && v in dag[u] && 0 <= v < |d| && v !in order[..i + 1]
    requires Less(d[v], Plus1(d[u]))
    ensures var d', f' := d[v := Plus1(d[u])], f[v := Some(u)];
      forall w :: 0 <= w < |d'| && f'[w].Some? ==>
        0 <= f'[w].value < |d'| && f'[w].value in dag && w in dag[f'[w].value]
        && d'[w].Fin? && d'[w] == Plus1(d'[f'[w].value])
        && (f'[w].value in order[..i] || f'[w].value == order[i])
  {
    assert order[..i + 1] == order[..i] + [order[i]];
  }

  lemma RelaxKeepsEdges(dag: Graph, order: seq<int>, i: int, j: int, d: seq<ExtInt>, u: int, v: int)
    requires forall k :: 0 <= k < |order| ==> order[k] in dag
    requires forall k :: 0 <= k < |order| ==> 0 <= order[k] < |d|
    requires 0 <= i < |order| && u == order[i] && 0 <= j < |dag[u]| && v == dag[u][j]
    requires 0 <= u < |d| && 0 <= v < |d| && v !in order[..i + 1]
    requires Less(d[v], Plus1(d[u]))
    requires forall k, w :: 0 <= k < i && w in dag[order[k]] ==> 0 <= w < |d| && AtMost(Plus1(d[order[k]]), d[w])
    requires forall t :: 0 <= t < j ==> 0 <= dag[u][t] < |d| && AtMost(Plus1(d[u]), d[dag[u][t]])
    ensures var d' := d[v := Plus1(d[u])];
      && (forall k, w :: 0 <= k < i && w in dag[order[k]] ==> 0 <= w < |d'| && AtMost(Plus1(d'[order[k]]), d'[w]))
      && (forall t :: 0 <= t < j + 1 ==> 0 <= dag[u][t] < |d'| && AtMost(Plus1(d'[u]), d'[dag[u][t]]))
  {
    var next := Plus1(d[u]);
    var d' := d[v := next];
    forall k, w | 0 <= k < i && w in dag[order[k]]
      ensures AtMost(Plus1(d'[order[k]]), d'[w])
    {
      assert order[k] in order[..i + 1];
      assert order[k] != v && d'[order[k]] == d[order[k]];
      if w == v {
        AtMostTransitive(Plus1(d[order[k]]), d[v], next);
      }
    }
    assert u != v;
    assert forall t :: 0 <= t < j + 1 ==> AtMost(Plus1(d'[u]), d'[dag[u][t]]);
  }

  /** All edges of `order[i]` relaxed: move on to the next node. */
  lemma RelaxNext(dag: Graph, order: seq<int>, start: int, i: int, d: seq<ExtInt>, f: seq<Option<int>>)
    requires forall k :: 0 <= k < |order| ==> order[k] in dag
    requires 0 <= i < |order| && Relaxing(dag, order, start, i, |dag[order[i]]|, d, f)
    ensures Relaxing(dag, order, start, i + 1, 0, d, f)
  {
    assert order[..i + 1] == order[..i] + [order[i]];
    forall k, v | 0 <= k < i + 1 && v in dag[order[k]]
      ensures 0 <= v < |d| && AtMost(Plus1(d[order[k]]), d[v])
    {
      if k == i {
        var t :| 0 <= t < |dag[order[i]]| && dag[order[i]][t] == v;
      }
    }
  }

  /** Every node processed: the tables hold longest distances. */
  lemma RelaxDone(dag: Graph, order: seq<int>, start: int, h: seq<int>, d: seq<ExtInt>, f: seq<Option<int>>)
    requires Sorted(dag, order, start, h)
    requires Relaxing(dag, order, start, |order|, 0, d, f)
    requires Consistent(start, d, f) && |d| == |h|
    ensures LongestTable(dag, start, d, f)
  {
    forall u, t | u in dag && 0 <= t < |dag[u]|
      ensures 0 <= u < |d| && 0 <= dag[u][t] < |d| && AtMost(Plus1(d[u]), d[dag[u][t]])
    {
      var k :| 0 <= k < |order| && order[k] == u;
      assert dag[u][t] in dag[order[k]];
    }
  }

  /** A prefix of a path is a path. */
  lemma PathPrefix(dag: Graph, p: seq<int>, n: int)
    requires PathIn(dag, p) && 0 < n <= |p|
    ensures PathIn(dag, p[..n])
  {
    var q := p[..n];
    forall k | 0 <= k < |q| - 1
      ensures q[k] in dag && q[k + 1] in dag[q[k]]
    {
      assert q[k] == p[k] && q[k + 1] == p[k + 1];
    }
  }

  /** The predecessor of a reached cell other than the start: one edge back
      and one step closer. */
  lemma Predecessor(dag: Graph, start: int, d: seq<ExtInt>, f: seq<Option<int>>, v: int)
    requires LongestTable(dag, start, d, f) && 0 <= v < |d| && d[v].Fin? && v != start
    ensures f[v].Some? && 0 <= f[v].value < |d| && f[v].value in dag && v in dag[f[v].value]
    ensures d[f[v].value].Fin? && 0 <= d[f[v].value].n == d[v].n - 1
  {
    assert HasOrigin(start, d, f, v);
    assert HasOrigin(start, d, f, f[v].value);
  }

  /** No edge can lengthen a distance any more. */
  lemma EdgeRelaxed(dag: Graph, start: int, d: seq<ExtInt>, f: seq<Option<int>>, u: int, v: int)
    requires LongestTable(dag, start, d, f) && u in dag && v in dag[u]
    ensures 0 <= u < |d| && 0 <= v < |d| && AtMost(Plus1(d[u]), d[v])
  {
    var t :| 0 <= t < |dag[u]| && dag[u][t] == v;
  }

  /** No path from the start is longer than the distance of its last cell. */
  lemma {:induction false} LongestBound(dag: Graph, start: int, d: seq<ExtInt>, f: seq<Option<int>>, p: seq<int>)
    requires LongestTable(dag, start, d, f) && PathIn(dag, p) && p[0] == start
    ensures 0 <= p[|p| - 1] < |d| && AtMost(Fin(|p| - 1), d[p[|p| - 1]])
    decreases |p|
  {
    if |p| > 1 {
      var q := p[..|p| - 1];
      PathPrefix(dag, p, |p| - 1);
      LongestBound(dag, start, d, f, q);
      var u, v := p[|p| - 2], p[|p| - 1];
      assert q[|q| - 1] == u;
      EdgeRelaxed(dag, start, d, f, u, v);
      AtMostTransitive(Fin(|p| - 1), Plus1(d[u]), d[v]);
    }
  }

  /** The chain of predecessors from the start to a reached cell. */
  ghost function Chain(dag: Graph, start: int, d: seq<ExtInt>, f: seq<Option<int>>, v: int): (r: seq<int>)
    requires LongestTable(dag, start, d, f) && 0 <= v < |d| && d[v].Fin?
    ensures |r| > 0 && |r| == d[v].n + 1 && r[0] == start && r[|r| - 1] == v
    ensures PathIn(dag, r)
    decreases d[v].n
  {
    if v == start then [start]
    else
      Predecessor(dag, start, d, f, v);
      var u := f[v].value;
      var c := Chain(dag, start, d, f, u);
      var r := c + [v];
      assert forall k :: 0 <= k < |c| ==> r[k] == c[k];
      r
  }

  /** A chain of recorded predecessors from the start: each cell was
      reached from the one before it, and the start appears only at the
      head. */
  predicate Linked(f: seq<Option<int>>, start: int, chain: seq<int>)
  {
    && |chain| > 0 && chain[0] == start
    && (forall k :: 0 <= k < |chain| - 1 ==> LinkAt(f, chain, k))
    && (forall k :: 0 < k < |chain| ==> chain[k] != start)
  }

  /** Tracing back from cell `n` of a linked chain, with fuel for every link
      before it, rebuilds the chain up to that cell. */
  lemma {:induction false} TraceAlong(f: seq<Option<int>>, start: int, chain: seq<int>, n: int, fuel: nat)
    requires PredTable(f, start) && Linked(f, start, chain)
    requires 0 <= n < |chain| && n <= fuel
    requires 0 <= chain[n] < |f| && (chain[n] == start || f[chain[n]].Some?)
    ensures Trace(f, start, chain[n], fuel) == chain[..n + 1]
    decreases n
  {
    if n == 0 {
      assert chain[..1] == [start];
    } else {
      var u := chain[n - 1];
      assert chain[n] != start && f[chain[n]] == Some(u) by {
        assert LinkAt(f, chain, n - 1);
      }
      TraceBack(f, start, chain[n], fuel);
      TraceAlong(f, start, chain, n - 1, fuel - 1);
      assert chain[..n] + [chain[n]] == chain[..n + 1];
    }
  }

  /** `getFullPath` returns a linked chain ending at its cell, when the
      chain has at most `MAX_LOOP` links and the last link is not the falsy
      predecessor `0`. */
  lemma FullPathAlong(f: seq<Option<int>>, start: int, chain: seq<int>)
    requires PredTable(f, start) && Linked(f, start, chain)
    requires 2 <= |chain| <= MAX_LOOP + 1 && chain[|chain| - 2] != 0
    ensures 0 <= chain[|chain| - 1] < |f|
    ensures FullPath(chain[|chain| - 1], f, start) == chain
  {
    var n := |chain| - 1;
    assert LinkAt(f, chain, n - 1);
    TraceAlong(f, start, chain, n, MAX_LOOP);
    assert chain[..n + 1] == chain;
  }

  /** The chain of a reached cell is linked. */
  lemma {:induction false} ChainLinked(dag: Graph, start: int, d: seq<ExtInt>, f: seq<Option<int>>, w: int)
    requires LongestTable(dag, start, d, f) && 0 <= w < |d| && d[w].Fin?
    ensures Linked(f, start, Chain(dag, start, d, f, w))
    decreases d[w].n
  {
    if w != start {
      Predecessor(dag, start, d, f, w);
      var u := f[w].value;
      var p := Chain(dag, start, d, f, u);
      ChainLinked(dag, start, d, f, u);
      assert Linked(f, start, p);
      var c := p + [w];
      assert Chain(dag, start, d, f, w) == c;
      forall k | 0 <= k < |c| - 1
        ensures LinkAt(f, c, k)
      {
        if k < |p| - 1 {
          assert LinkAt(f, p, k);
          assert c[k] == p[k] && c[k + 1] == p[k + 1];
        } else {
          assert c[k] == p[|p| - 1] == u;
        }
      }
      forall k | 0 < k < |c|
        ensures c[k] != start
      {
        if k < |p| {
          assert c[k] == p[k];
        }
      }
      assert Linked(f, start, c);
    }
  }

  /** A rebuilt path that is not cut short by a falsy predecessor is a
      longest path from the start to its cell. */
  lemma FullPathIsLongest(dag: Graph, start: int, d: seq<ExtInt>, f: seq<Option<int>>, v: int)
    requires LongestTable(dag, start, d, f) && PredTable(f, start)
    requires 0 <= v < |d| && !Falsy(f[v]) && d[v].n <= MAX_LOOP
    ensures d[v].Fin?
    ensures FullPath(v, f, start) == Chain(dag, start, d, f, v)
  {
    var u := f[v].value;
    Predecessor(dag, start, d, f, v);
    assert HasOrigin(start, d, f, u);
    var c := Chain(dag, start, d, f, v);
    ChainLinked(dag, start, d, f, v);
    assert |c| >= 2 by {
      assert d[u].n >= 0;
    }
    assert c[|c| - 2] == u by {
      assert LinkAt(f, c, |c| - 2);
    }
    FullPathAlong(f, start, c);
  }

  /** The greatest distance is finite and is the distance of a reached cell. */
  lemma MaxReached(dag: Graph, start: int, d: seq<ExtInt>, f: seq<Option<int>>)
    requires LongestTable(dag, start, d, f)
    ensures MaxOf(d).Fin? && MaxOf(d).n >= 0
    ensures exists p :: PathIn(dag, p) && p[0] == start && |p| - 1 == MaxOf(d).n
  {
    var m := MaxOf(d);
    assert AtMost(d[start], m);
    var top :| 0 <= top < |d| && d[top] == m;
    var c := Chain(dag, start, d, f, top);
  }

  /** Every path from the start has at most `MaxOf(d)` edges. */
  lemma MaxBounds(dag: Graph, start: int, d: seq<ExtInt>, f: seq<Option<int>>, p: seq<int>)
    requires LongestTable(dag, start, d, f) && PathIn(dag, p) && p[0] == start
    ensures 0 <= p[|p| - 1] < |d| && AtMost(Fin(|p| - 1), MaxOf(d))
    ensures |p| - 1 == MaxOf(d).n ==> d[p[|p| - 1]] == MaxOf(d)
  {
    MaxReached(dag, start, d, f);
    LongestBound(dag, start, d, f, p);
    AtMostTransitive(Fin(|p| - 1), d[p[|p| - 1]], MaxOf(d));
  }

  /** Every non-empty path kept for the greatest distance is a longest path
      from the start, when the walk cap does not cut it short. */
  lemma KeptPathsAreLongest(dag: Graph, start: int, d: seq<ExtInt>, f: seq<Option<int>>, p: seq<int>)
    requires LongestTable(dag, start, d, f) && PredTable(f, start)
    requires MaxOf(d).Fin? && MaxOf(d).n <= MAX_LOOP
    requires p in OfDistance(FullPaths(f, start), d, MaxOf(d)) && p != []
    ensures PathIn(dag, p) && p[0] == start && |p| - 1 == MaxOf(d).n
  {
    var paths := FullPaths(f, start);
    OfDistanceMembers(paths, d, MaxOf(d));
    var i :| 0 <= i < |d| && d[i] == MaxOf(d) && paths[i] == p;
    assert p == FullPath(i, f, start) && !Falsy(f[i]);
    FullPathIsLongest(dag, start, d, f, i);
    var c := Chain(dag, start, d, f, i);
    assert p == c && |c| - 1 == d[i].n;
  }

  /** The end cell of every longest path from the start has its rebuilt path
      kept, unless its predecessor is falsy. */
  lemma LongestEndsKept(dag: Graph, start: int, d: seq<ExtInt>, f: seq<Option<int>>, p: seq<int>)
    requires LongestTable(dag, start, d, f) && PredTable(f, start)
    requires PathIn(dag, p) && p[0] == start && |p| - 1 == MaxOf(d).n
    ensures 0 <= p[|p| - 1] < |f|
    ensures !Falsy(f[p[|p| - 1]]) ==>
      exists q :: q in OfDistance(FullPaths(f, start), d, MaxOf(d)) && q != [] && q[|q| - 1] == p[|p| - 1]
  {
    var v := p[|p| - 1];
    var paths := FullPaths(f, start);
    MaxBounds(dag, start, d, f, p);
    OfDistanceMembers(paths, d, MaxOf(d));
    assert paths[v] in OfDistance(paths, d, MaxOf(d));
  }

  /** The result for one root on a sorted DAG: `maxDistance` is the edge
      count of a longest path from the root, and each non-empty returned
      path is such a path when the walk cap does not cut it short. */
  ghost predicate LongestFrom(dag: Graph, start: int, result: RootResult)
  {
    && result.maxDistance.Fin? && result.maxDistance.n >= 0
    && (forall p :: PathIn(dag, p) && p[0] == start ==> |p| - 1 <= result.maxDistance.n)
    && (exists p :: PathIn(dag, p) && p[0] == start && |p| - 1 == result.maxDistance.n)
    && (result.maxDistance.n <= MAX_LOOP ==>
          forall p :: p in result.paths && p != [] ==> PathIn(dag, p) && p[0] == start && |p| - 1 == result.maxDistance.n)
  }

  /** What `findMaxDistanceAndPaths` returns on a sorted DAG: `maxDistance`
      is the number of edges of a longest path from the root, every
      non-empty returned path is such a path, and every cell at the end of
      a longest path whose predecessor is not falsy has its path returned. */
  lemma RootPathsAreLongest(dag: Graph, start: int, d: seq<ExtInt>, f: seq<Option<int>>, result: RootResult)
    requires LongestTable(dag, start, d, f) && PredTable(f, start)
    requires result.maxDistance == MaxOf(d)
    requires result.paths == OfDistance(FullPaths(f, start), d, result.maxDistance)
    ensures LongestFrom(dag, start, result)
    ensures forall p :: PathIn(dag, p) && p[0] == start && |p| - 1 == result.maxDistance.n ==>
      0 <= p[|p| - 1] < |f| &&
      (!Falsy(f[p[|p| - 1]]) ==> exists q :: q in result.paths && q != [] && q[|q| - 1] == p[|p| - 1])
  {
    MaxReached(dag, start, d, f);
    forall p | PathIn(dag, p) && p[0] == start
      ensures |p| - 1 <= result.maxDistance.n
    {
      MaxBounds(dag, start, d, f, p);
    }
    if result.maxDistance.n <= MAX_LOOP {
      forall p | p in result.paths && p != []
        ensures PathIn(dag, p) && p[0] == start && |p| - 1 == result.maxDistance.n
      {
        KeptPathsAreLongest(dag, start, d, f, p);
      }
    }
    forall p | PathIn(dag, p) && p[0] == start && |p| - 1 == result.maxDistance.n
      ensures 0 <= p[|p| - 1] < |f| &&
        (!Falsy(f[p[|p| - 1]]) ==> exists q :: q in result.paths && q != [] && q[|q| - 1] == p[|p| - 1])
    {
      LongestEndsKept(dag, start, d, f, p);
    }
  }

  /** The distance table means what `findMaxDistanceAndPaths` intends: a
      finite distance is the edge count of a longest path from the start to
      that cell, and `-Infinity` marks a cell no path from the start reaches. */
  lemma DistanceMeaning(dag: Graph, start: int, d: seq<ExtInt>, f: seq<Option<int>>, v: int)
    requires LongestTable(dag, start, d, f) && 0 <= v < |d|
    ensures d[v].Fin? ==> exists p :: PathIn(dag, p) && p[0] == start && p[|p| - 1] == v && |p| - 1 == d[v].n
    ensures forall p :: PathIn(dag, p) && p[0] == start && p[|p| - 1] == v ==> d[v].Fin? && |p| - 1 <= d[v].n
  {
    if d[v].Fin? {
      var c := Chain(dag, start, d, f, v);
    }
    forall p | PathIn(dag, p) && p[0] == start && p[|p| - 1] == v
      ensures d[v].Fin? && |p| - 1 <= d[v].n
    {
      LongestBound(dag, start, d, f, p);
    }
  }

  /** A predecessor equal to cell 0 is falsy: from root 0, the path rebuilt
      towards a cell reached in one step is empty. */
  lemma ZeroPredecessorQuirk(f: seq<Option<int>>)
    requires f == [None, Some(0), None]
    ensures PredTable(f, 0) && FullPath(1, f, 0) == []
  {
    assert PredOk(f, 0, 0) && PredOk(f, 0, 1) && PredOk(f, 0, 2);
  }
}
