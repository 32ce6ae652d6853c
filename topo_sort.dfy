/** Kahn's algorithm as `getTopologicallySortedOrder` runs it on the descent
    DAG: a stack of ready nodes, a working copy of the DAG whose lists are
    emptied as nodes are output, and a scan of every list to decide whether
    a node still has an incoming edge. */
module TopoSort {
  import opened Reachability

  /** `hasIncommingEdgeInDag`: some list of the DAG contains `v`. */
  predicate HasIncomingEdge(v: int, dag: Graph)
  {
    exists u :: u in dag && v in dag[u]
  }

  predicate Distinct(s: seq<int>)
  {
    forall i, j :: 0 <= i < j < |s| ==> s[i] != s[j]
  }

  /** Every node named in a list is itself a key. */
  predicate Closed(dag: Graph)
  {
    forall u, v :: u in dag && v in dag[u] ==> v in dag
  }

  /** The shape the descent DAG has on a well-formed grid: edges go strictly
      downhill, no list repeats a node, the roots are distinct and have no
      incoming edge, and every other key is the target of some edge. */
  ghost predicate Ready(dag: Graph, roots: seq<int>, h: seq<int>)
  {
    && Descending(dag, h)
    && Distinct(roots)
    && (forall u :: u in dag ==> Distinct(dag[u]))
    && (forall r :: r in roots ==> !HasIncomingEdge(r, dag))
    && (forall u :: u in dag ==> u in roots || HasIncomingEdge(u, dag))
  }

  /** Every predecessor of a node of `order` comes before it. */
  ghost predicate Precedes(dag: Graph, order: seq<int>)
  {
    forall i, u :: 0 <= i < |order| && u in dag && order[i] in dag[u] ==> u in order[..i]
  }

  /** The positions of all list entries; emptying a list shrinks it. */
  ghost function Slots(g: Graph): set<(int, int)>
  {
    set u, j | u in g && 0 <= j < |g[u]| :: (u, j)
  }

  lemma ClearShrinks(g: Graph, n: int)
    requires n in g
    ensures Slots(g[n := []]) <= Slots(g)
    ensures |g[n]| > 0 ==> Slots(g[n := []]) < Slots(g)
  {
    if |g[n]| > 0 {
      assert (n, 0) in Slots(g);
      assert (n, 0) !in Slots(g[n := []]);
    }
  }

  /** `getTopologicallySortedOrder(dag, rootIndices)`. The source crashes on a
      node that is not a key, hence the two requirements. On a DAG of the
      shape `Ready` describes the result lists every key once, each after all
      of its predecessors. */
  method TopologicallySortedOrder(dag: Graph, roots: seq<int>, ghost h: seq<int>) returns (order: seq<int>)
    requires forall r :: r in roots ==> r in dag
    requires Closed(dag)
    ensures forall v :: v in order ==> v in dag
    ensures Ready(dag, roots, h) ==> Distinct(order) && Precedes(dag, order)
    ensures Ready(dag, roots, h) ==> forall u :: u in dag ==> u in order
  {
    ghost var ready := Ready(dag, roots, h);
    var work := dag;
    var l: seq<int> := [];
    var s := roots;
    while |s| > 0
      invariant Copy(dag, work, l) && Within(dag, l) && Within(dag, s)
      invariant ready ==> Sorting(dag, roots, work, l, s)
      decreases Slots(work), |s|
    {
      var n := s[|s| - 1];
      ghost var s0 := s[..|s| - 1];
      if ready {
        PopStep(dag, roots, h, work, l, s);
      }
      s := s[..|s| - 1];
      l := l + [n];
      var adj := work[n];
      ClearShrinks(work, n);
      work := work[n := []];
      var j := 0;
      while j < |adj|
        invariant 0 <= j <= |adj| && |s| <= |s0| + j
        invariant Copy(dag, work, l) && Within(dag, s)
        invariant ready ==> adj == dag[n] && Pushing(dag, roots, work, l, s0, n, j, s)
      {
        if ready {
          PushStep(dag, roots, work, l, s0, n, j, s);
        }
        if !HasIncomingEdge(adj[j], work) {
          s := s + [adj[j]];
        }
        j := j + 1;
      }
      if ready {
        PushDone(dag, roots, work, l, s0, n, s);
      }
    }
    order := l;
    if ready {
      forall u | u in dag
        ensures u in order
      {
        AllOrdered(dag, roots, h, work, l, u);
      }
    }
  }

  /** The working copy: emptied exactly for the output nodes. */
  ghost predicate Copy(dag: Graph, work: Graph, l: seq<int>)
  {
    && work.Keys == dag.Keys
    && forall u :: u in work ==> work[u] == if u in l then [] else dag[u]
  }

  predicate Within(dag: Graph, s: seq<int>)
  {
    forall v :: v in s ==> v in dag
  }

  /** Every predecessor of a waiting node has been output. */
  ghost predicate Unblocked(dag: Graph, s: seq<int>, l: seq<int>)
  {
    forall v, u :: v in s && u in dag && v in dag[u] ==> u in l
  }

  /** Each successor of an output node is output, waiting on the stack, or
      still the target of an edge in the working copy. */
  ghost predicate Frontier(dag: Graph, work: Graph, l: seq<int>, s: seq<int>)
  {
    forall u, v :: u in l && u in dag && v in dag[u] ==> v in l || v in s || HasIncomingEdge(v, work)
  }

  /** The state of Kahn's loop between two pops, on a `Ready` DAG. */
  ghost predicate Sorting(dag: Graph, roots: seq<int>, work: Graph, l: seq<int>, s: seq<int>)
  {
    && Distinct(l) && Distinct(s) && (forall v :: v in l ==> v !in s)
    && Unblocked(dag, s, l)
    && Precedes(dag, l)
    && Frontier(dag, work, l, s)
    && (forall r :: r in roots ==> r in l || r in s)
  }

  /** The state while the successors of the just-output `n` are scanned: the
      first `j` are waiting or still have an incoming edge. */
  ghost predicate Pushing(dag: Graph, roots: seq<int>, work: Graph, l: seq<int>, s0: seq<int>, n: int, j: int, s: seq<int>)
  {
    && n in dag && n in l && 0 <= j <= |dag[n]|
    && Distinct(dag[n])
    && (forall v :: v in dag[n] ==> v !in s0 && v !in l)
    && Distinct(l) && Distinct(s) && (forall v :: v in l ==> v !in s)
    && (forall v :: v in s0 ==> v in s)
    && (forall v :: v in s ==> v in s0 || v in dag[n][..j])
    && Unblocked(dag, s, l)
    && Precedes(dag, l)
    && (forall u, v :: u in l && u in dag && v in dag[u] ==> v in l || v in s || v in dag[n] || HasIncomingEdge(v, work))
    && (forall k :: 0 <= k < j ==> dag[n][k] in s || HasIncomingEdge(dag[n][k], work))
    && (forall r :: r in roots ==> r in l || r in s)
  }

  /** Popping the top of the stack, outputting it and emptying its list. */
  lemma PopStep(dag: Graph, roots: seq<int>, h: seq<int>, work: Graph, l: seq<int>, s: seq<int>)
    requires Ready(dag, roots, h) && |s| > 0
    requires Copy(dag, work, l) && Within(dag, s) && Sorting(dag, roots, work, l, s)
    ensures var n := s[|s| - 1];
      && work[n] == dag[n]
      && Pushing(dag, roots, work[n := []], l + [n], s[..|s| - 1], n, 0, s[..|s| - 1])
  {
    var n, s0 := s[|s| - 1], s[..|s| - 1];
    assert s == s0 + [n];
    assert n in s;
    var l', work' := l + [n], work[n := []];
    PopSuccessors(dag, h, l, s0, n);
    PopPrecedes(dag, l, s, n);
    PopFrontier(dag, work, l, s0, n);
    PopDistinct(l, s0, n);
    assert Unblocked(dag, s0, l');
    assert forall r :: r in roots ==> r in l' || r in s0;
    assert forall v :: v in s0 ==> v in s0 || v in dag[n][..0];
  }

  /** Moving the top of the stack to the output keeps both repeat-free and
      apart. */
  lemma PopDistinct(l: seq<int>, s0: seq<int>, n: int)
    requires Distinct(l) && Distinct(s0 + [n]) && forall v :: v in l ==> v !in s0 + [n]
    ensures Distinct(l + [n]) && Distinct(s0) && forall v :: v in l + [n] ==> v !in s0
  {
    var s, l' := s0 + [n], l + [n];
    assert forall i :: 0 <= i < |s0| ==> s0[i] == s[i];
    assert s[|s0|] == n;
    assert n in s;
    assert forall i :: 0 <= i < |l| ==> l'[i] == l[i];
    forall i, j | 0 <= i < j < |l'|
      ensures l'[i] != l'[j]
    {
      if j == |l| {
        assert l'[i] in l;
      }
    }
  }

  /** No successor of the popped node is output or waiting yet. */
  lemma PopSuccessors(dag: Graph, h: seq<int>, l: seq<int>, s0: seq<int>, n: int)
    requires Descending(dag, h) && n in dag && n !in l
    requires Precedes(dag, l) && Unblocked(dag, s0 + [n], l)
    ensures forall v :: v in dag[n] ==> v !in s0 && v !in l + [n]
  {
    forall v | v in dag[n]
      ensures v !in s0 && v !in l
    {
      assert v in s0 ==> v in s0 + [n];
    }
  }

  /** The popped node's predecessors are all output before it. */
  lemma PopPrecedes(dag: Graph, l: seq<int>, s: seq<int>, n: int)
    requires n in s && Precedes(dag, l) && Unblocked(dag, s, l)
    ensures Precedes(dag, l + [n])
  {
    var l' := l + [n];
    forall i, u | 0 <= i < |l'| && u in dag && l'[i] in dag[u]
      ensures u in l'[..i]
    {
      if i < |l| {
        assert l'[i] == l[i] && l[..i] == l'[..i];
      } else {
        assert l'[..i] == l;
      }
    }
  }

  /** After the pop, a successor of an output node that lost its last
      incoming edge is a successor of the popped node. */
  lemma PopFrontier(dag: Graph, work: Graph, l: seq<int>, s0: seq<int>, n: int)
    requires n in dag && n in work && work[n] == dag[n] && Frontier(dag, work, l, s0 + [n])
    ensures forall u, v :: u in l + [n] && u in dag && v in dag[u] ==>
      v in l + [n] || v in s0 || v in dag[n] || HasIncomingEdge(v, work[n := []])
  {
    var work' := work[n := []];
    forall u, v | u in l + [n] && u in dag && v in dag[u]
      ensures v in l + [n] || v in s0 || v in dag[n] || HasIncomingEdge(v, work')
    {
      if u != n && v !in l && v !in s0 + [n] && v !in dag[n] {
        assert u in l;
        var p :| p in work && v in work[p];
        assert p != n;
        assert p in work' && v in work'[p];
      }
    }
  }

  /** Scanning the successor `dag[n][j]`: it is pushed when no list of the
      working copy still holds it. */
  lemma PushStep(dag: Graph, roots: seq<int>, work: Graph, l: seq<int>, s0: seq<int>, n: int, j: int, s: seq<int>)
    requires Copy(dag, work, l) && Pushing(dag, roots, work, l, s0, n, j, s) && j < |dag[n]|
    ensures var v := dag[n][j];
      Pushing(dag, roots, work, l, s0, n, j + 1, if HasIncomingEdge(v, work) then s else s + [v])
  {
    if HasIncomingEdge(dag[n][j], work) {
      PushSkip(dag, roots, work, l, s0, n, j, s);
    } else {
      PushAdd(dag, roots, work, l, s0, n, j, s);
    }
  }

  /** A successor still the target of an edge stays off the stack. */
  lemma PushSkip(dag: Graph, roots: seq<int>, work: Graph, l: seq<int>, s0: seq<int>, n: int, j: int, s: seq<int>)
    requires Pushing(dag, roots, work, l, s0, n, j, s) && j < |dag[n]|
    requires HasIncomingEdge(dag[n][j], work)
    ensures Pushing(dag, roots, work, l, s0, n, j + 1, s)
  {
    assert dag[n][..j + 1] == dag[n][..j] + [dag[n][j]];
  }

  /** A successor with no edge left into it goes on the stack. */
  lemma PushAdd(dag: Graph, roots: seq<int>, work: Graph, l: seq<int>, s0: seq<int>, n: int, j: int, s: seq<int>)
    requires Copy(dag, work, l) && Pushing(dag, roots, work, l, s0, n, j, s) && j < |dag[n]|
    requires !HasIncomingEdge(dag[n][j], work)
    ensures Pushing(dag, roots, work, l, s0, n, j + 1, s + [dag[n][j]])
  {
    var v := dag[n][j];
    var s' := s + [v];
    assert dag[n][..j + 1] == dag[n][..j] + [v];
    assert v in dag[n];
    forall i | 0 <= i < j
      ensures dag[n][i] != v
    {
    }
    assert v !in s;
    assert Distinct(s');
    assert forall u :: u in dag && v in dag[u] ==> u in l;
    assert forall w :: w in s' ==> w in s || w == v;
    assert Unblocked(dag, s', l);
  }

  /** All successors of `n` scanned: the loop state holds again. */
  lemma PushDone(dag: Graph, roots: seq<int>, work: Graph, l: seq<int>, s0: seq<int>, n: int, s: seq<int>)
    requires n in dag && Pushing(dag, roots, work, l, s0, n, |dag[n]|, s)
    ensures Sorting(dag, roots, work, l, s)
  {
    forall u, v | u in l && u in dag && v in dag[u]
      ensures v in l || v in s || HasIncomingEdge(v, work)
    {
      if v in dag[n] {
        var k :| 0 <= k < |dag[n]| && dag[n][k] == v;
      }
    }
  }

  /** On a `Ready` DAG, once the stack is empty every key has been output:
      climbing from a missing key to its highest missing predecessor reaches
      either a root or a key whose every predecessor is output. */
  lemma {:induction false} AllOrdered(dag: Graph, roots: seq<int>, h: seq<int>, work: Graph, l: seq<int>, u: int)
    requires Ready(dag, roots, h) && u in dag
    requires Copy(dag, work, l)
    requires forall r :: r in roots ==> r in l
    requires Frontier(dag, work, l, [])
    ensures u in l
    decreases Highest(h) - h[u]
  {
    if u !in roots {
      var p :| p in dag && u in dag[p];
      AllOrdered(dag, roots, h, work, l, p);
      if u !in l {
        assert HasIncomingEdge(u, work);
        var q :| q in work && u in work[q];
        AllOrdered(dag, roots, h, work, l, q);
      }
    }
  }

  /** A descending graph whose keys are roots or successors of keys is
      closed, and every key that is not a root has an incoming edge. */
  lemma RootedShape(d: Graph, h: seq<int>, roots: seq<int>)
    requires Descending(d, h)
    requires forall u :: u in d ==> u in roots || exists p :: p in d && u in d[p]
    ensures Closed(d)
    ensures forall u :: u in d ==> u in roots || HasIncomingEdge(u, d)
  {
  }
}
