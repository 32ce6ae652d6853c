/** Reachability in a graph whose edges go strictly downhill: the shape of
    the recursion in `fillDagFromSkiMap`, independent of the grid. */
module Reachability {

  /** Successor lists by node, the shape of the skiing DAG. */
  type Graph = map<int, seq<int>>

  /** A path following the edges of the graph. */
  ghost predicate PathIn(g: Graph, p: seq<int>)
  {
    |p| > 0 && forall k :: 0 <= k < |p| - 1 ==> p[k] in g && p[k + 1] in g[p[k]]
  }

  /** Every node has a height and every successor is a node strictly lower
      than its predecessor. */
  ghost predicate Descending(g: Graph, h: seq<int>)
  {
    && (forall u :: u in g ==> 0 <= u < |h|)
    && (forall u, v :: u in g && v in g[u] ==> v in g && h[v] < h[u])
  }

  /** A lower bound of the heights, used to measure descent. */
  function Lowest(s: seq<int>): (r: int)
    requires |s| > 0
    ensures forall k :: 0 <= k < |s| ==> r <= s[k]
  {
    if |s| == 1 then s[0]
    else
      var rest := Lowest(s[1..]);
      assert forall k :: 1 <= k < |s| ==> s[k] == s[1..][k - 1];
      if s[0] < rest then s[0] else rest
  }

  /** The nodes reached from `i` by following successors, `i` included. */
  ghost function Reach(g: Graph, h: seq<int>, i: int): (r: set<int>)
    requires Descending(g, h) && i in g
    ensures i in r
    ensures forall c :: c in r ==> c in g && h[c] <= h[i]
    decreases h[i] - Lowest(h)
  {
    {i} + (set c, j | c in g[i] && j in Reach(g, h, c) :: j)
  }

  /** The nodes reached from any node of `cs`. */
  ghost function ReachAll(g: Graph, h: seq<int>, cs: seq<int>): (r: set<int>)
    requires Descending(g, h) && forall c :: c in cs ==> c in g
    ensures forall c :: c in r ==> c in g
  {
    set c, j | c in cs && j in Reach(g, h, c) :: j
  }

  /** Every start node is reached. */
  lemma ReachAllCovers(g: Graph, h: seq<int>, cs: seq<int>)
    requires Descending(g, h) && forall c :: c in cs ==> c in g
    ensures forall c :: c in cs ==> c in ReachAll(g, h, cs)
  {
    assert forall c :: c in cs ==> c in Reach(g, h, c);
  }

  /** The part of `g` on the nodes of `cells`. */
  ghost function Restrict(g: Graph, cells: set<int>): (d: Graph)
    requires forall c :: c in cells ==> c in g
    ensures d.Keys == cells
    ensures forall c :: c in d ==> d[c] == g[c]
  {
    map c | c in cells :: g[c]
  }

  /** Overwriting with `a`, then with `b`, is overwriting with `a + b`. */
  lemma FillUnion(d: Graph, g: Graph, a: set<int>, b: set<int>)
    requires forall c :: c in a ==> c in g
    requires forall c :: c in b ==> c in g
    ensures (d + Restrict(g, a)) + Restrict(g, b) == d + Restrict(g, a + b)
  {
    var l, r := (d + Restrict(g, a)) + Restrict(g, b), d + Restrict(g, a + b);
    assert l.Keys == r.Keys;
    forall c | c in l
      ensures l[c] == r[c]
    {
    }
  }

  lemma ReachUnfold(g: Graph, h: seq<int>, i: int)
    requires Descending(g, h) && i in g
    ensures Reach(g, h, i) == {i} + ReachAll(g, h, g[i])
  {
  }

  lemma ReachAllSnoc(g: Graph, h: seq<int>, cs: seq<int>, c: int)
    requires Descending(g, h) && c in g && forall e :: e in cs ==> e in g
    ensures ReachAll(g, h, cs + [c]) == ReachAll(g, h, cs) + Reach(g, h, c)
  {
    var cs' := cs + [c];
    assert forall e :: e in cs' <==> e in cs || e == c;
    var l, r := ReachAll(g, h, cs'), ReachAll(g, h, cs) + Reach(g, h, c);
    forall j | j in l
      ensures j in r
    {
      var e :| e in cs' && j in Reach(g, h, e);
      if e != c {
        assert e in cs;
      }
    }
    forall j | j in r
      ensures j in l
    {
      if j in Reach(g, h, c) {
        assert c in cs';
      } else {
        var e :| e in cs && j in Reach(g, h, e);
        assert e in cs';
      }
    }
  }

  /** Following a successor from a reached node stays among the reached nodes. */
  lemma {:induction false} ReachClosed(g: Graph, h: seq<int>, r: int, u: int, v: int)
    requires Descending(g, h) && r in g && u in Reach(g, h, r) && v in g[u]
    ensures v in Reach(g, h, r)
    decreases h[r] - Lowest(h)
  {
    if u == r {
      assert v in Reach(g, h, v);
    } else {
      var c :| c in g[r] && u in Reach(g, h, c);
      ReachClosed(g, h, c, u, v);
    }
  }

  /** Every reached node other than the start is the successor of a reached node. */
  lemma {:induction false} ReachHasPredecessor(g: Graph, h: seq<int>, r: int, u: int)
    requires Descending(g, h) && r in g && u in Reach(g, h, r) && u != r
    ensures exists p :: p in Reach(g, h, r) && u in g[p]
    decreases h[r] - Lowest(h)
  {
    var c :| c in g[r] && u in Reach(g, h, c);
    if u == c {
      assert r in Reach(g, h, r);
    } else {
      ReachHasPredecessor(g, h, c, u);
      var p :| p in Reach(g, h, c) && u in g[p];
      assert p in Reach(g, h, r);
    }
  }

  /** What a fill from `i` has written after its first `k` successors:
      `i`'s own list and every list reached from those successors. */
  ghost function Filled(d: Graph, g: Graph, h: seq<int>, i: int, k: int): Graph
    requires Descending(g, h) && i in g && 0 <= k <= |g[i]|
  {
    d + Restrict(g, {i} + ReachAll(g, h, g[i][..k]))
  }

  lemma FillStart(d: Graph, g: Graph, h: seq<int>, i: int)
    requires Descending(g, h) && i in g
    ensures d[i := g[i]] == Filled(d, g, h, i, 0)
  {
    assert ReachAll(g, h, []) == {};
    assert Restrict(g, {i}) == map[i := g[i]];
  }

  /** One successor of a fill done: its reach joins what was filled. */
  lemma FillStep(d: Graph, g: Graph, h: seq<int>, i: int, k: int)
    requires Descending(g, h) && i in g && 0 <= k < |g[i]|
    ensures Filled(d, g, h, i, k) + Restrict(g, Reach(g, h, g[i][k])) == Filled(d, g, h, i, k + 1)
  {
    var cs := g[i];
    assert cs[..k + 1] == cs[..k] + [cs[k]];
    var a, b := {i} + ReachAll(g, h, cs[..k]), Reach(g, h, cs[k]);
    ReachAllSnoc(g, h, cs[..k], cs[k]);
    assert a + b == {i} + ReachAll(g, h, cs[..k + 1]);
    FillUnion(d, g, a, b);
  }

  lemma FillEnd(d: Graph, g: Graph, h: seq<int>, i: int)
    requires Descending(g, h) && i in g
    ensures Filled(d, g, h, i, |g[i]|) == d + Restrict(g, Reach(g, h, i))
  {
    assert g[i][..|g[i]|] == g[i];
    ReachUnfold(g, h, i);
  }

  /** One more start node filled: its reach joins what was filled. */
  lemma FillNext(d: Graph, g: Graph, h: seq<int>, cs: seq<int>, k: int)
    requires Descending(g, h) && 0 <= k < |cs| && forall e :: e in cs ==> e in g
    ensures (d + Restrict(g, ReachAll(g, h, cs[..k]))) + Restrict(g, Reach(g, h, cs[k]))
         == d + Restrict(g, ReachAll(g, h, cs[..k + 1]))
  {
    assert cs[..k + 1] == cs[..k] + [cs[k]];
    ReachAllSnoc(g, h, cs[..k], cs[k]);
    FillUnion(d, g, ReachAll(g, h, cs[..k]), Reach(g, h, cs[k]));
  }

  /** Overwriting with a part of `g` that covers every key leaves that part. */
  lemma Overwrite(d: Graph, g: Graph, a: set<int>)
    requires forall c :: c in a ==> c in g
    requires forall u :: u in d ==> u in a
    ensures d + Restrict(g, a) == Restrict(g, a)
  {
    var r := Restrict(g, a);
    forall u | u in d + r
      ensures u in r
    {
      assert u in d || u in r;
    }
    assert (d + r).Keys == r.Keys;
  }

  /** A map whose keys are all start nodes is wholly overwritten by the fill. */
  lemma FillCovers(d: Graph, g: Graph, h: seq<int>, cs: seq<int>)
    requires Descending(g, h) && forall e :: e in cs ==> e in g
    requires forall u :: u in d ==> u in cs
    ensures d + Restrict(g, ReachAll(g, h, cs)) == Restrict(g, ReachAll(g, h, cs))
  {
    ReachAllCovers(g, h, cs);
    Overwrite(d, g, ReachAll(g, h, cs));
  }

  /** A greatest height, bounding the measure of climbing proofs. */
  function Highest(s: seq<int>): (r: int)
    requires |s| > 0
    ensures forall k :: 0 <= k < |s| ==> s[k] <= r
  {
    if |s| == 1 then s[0]
    else
      var rest := Highest(s[1..]);
      assert forall k :: 1 <= k < |s| ==> s[k] == s[1..][k - 1];
      if s[0] > rest then s[0] else rest
  }

  /** The part of a descending graph reached from `cs` is itself descending
      and closed, and each of its nodes is a start node or the successor of
      one of its nodes. */
  lemma ReachedPart(g: Graph, h: seq<int>, cs: seq<int>)
    requires Descending(g, h) && forall e :: e in cs ==> e in g
    ensures var d := Restrict(g, ReachAll(g, h, cs));
      && Descending(d, h)
      && (forall u :: u in d ==> u in cs || exists p :: p in d && u in d[p])
  {
    var cells := ReachAll(g, h, cs);
    var d := Restrict(g, cells);
    forall u, v | u in d && v in d[u]
      ensures v in d
    {
      var r :| r in cs && u in Reach(g, h, r);
      ReachClosed(g, h, r, u, v);
    }
    forall u | u in d && u !in cs
      ensures exists p :: p in d && u in d[p]
    {
      var r :| r in cs && u in Reach(g, h, r);
      ReachHasPredecessor(g, h, r, u);
      var p :| p in Reach(g, h, r) && u in g[p];
      assert p in cells && u in d[p];
    }
  }
}
