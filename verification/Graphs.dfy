/** Directed graphs as the source holds them: a dict from node to successor set,
    where a successor need not be a key. */
module Graphs {
  type Node = string
  type Graph = map<Node, set<Node>>

  function Succ(g: Graph, v: Node): set<Node> {
    if v in g then g[v] else {}
  }

  ghost predicate IsPath(g: Graph, p: seq<Node>) {
    |p| > 0 && forall i :: 0 < i < |p| ==> Linked(g, p, i)
  }

  ghost predicate Linked(g: Graph, p: seq<Node>, i: int)
    requires 0 < i < |p|
  {
    p[i] in Succ(g, p[i - 1])
  }

  ghost predicate Reach(g: Graph, u: Node, v: Node) {
    exists p :: IsPath(g, p) && p[0] == u && p[|p| - 1] == v
  }

  ghost predicate Mutual(g: Graph, u: Node, v: Node) {
    Reach(g, u, v) && Reach(g, v, u)
  }

  /** A whole strongly connected component: some member's full class of mutual reachability. */
  ghost predicate IsScc(g: Graph, c: set<Node>) {
    exists v :: v in c && forall w :: w in c <==> Mutual(g, v, w)
  }

  ghost predicate Closed(g: Graph, s: set<Node>) {
    forall v {:trigger Succ(g, v)} :: v in s ==> Succ(g, v) <= s
  }

  /** A path of at least one edge from `v` back to itself. */
  ghost predicate OnCycle(g: Graph, v: Node) {
    exists p :: IsPath(g, p) && |p| > 1 && p[0] == v && p[|p| - 1] == v
  }

  lemma ReachRefl(g: Graph, v: Node)
    ensures Reach(g, v, v)
  {
    assert IsPath(g, [v]);
  }

  lemma ReachEdge(g: Graph, u: Node, v: Node)
    requires v in Succ(g, u)
    ensures Reach(g, u, v)
  {
    var p := [u, v];
    assert IsPath(g, p);
  }

  lemma ReachTrans(g: Graph, u: Node, v: Node, w: Node)
    requires Reach(g, u, v) && Reach(g, v, w)
    ensures Reach(g, u, w)
  {
    var p :| IsPath(g, p) && p[0] == u && p[|p| - 1] == v;
    var q :| IsPath(g, q) && q[0] == v && q[|q| - 1] == w;
    var r := p + q[1..];
    forall i | 0 < i < |r| ensures Linked(g, r, i) {
      if i < |p| {
        assert Linked(g, p, i);
      } else {
        assert Linked(g, q, i - |p| + 1);
        assert r[i - 1] == q[i - |p|];
      }
    }
    assert IsPath(g, r) && r[0] == u && r[|r| - 1] == w;
  }

  lemma MutualTrans(g: Graph, u: Node, v: Node, w: Node)
    requires Mutual(g, u, v) && Mutual(g, v, w)
    ensures Mutual(g, u, w) && Mutual(g, w, u) && Mutual(g, v, u)
  {
    ReachTrans(g, u, v, w);
    ReachTrans(g, w, v, u);
  }

  lemma ClosedReach(g: Graph, s: set<Node>, u: Node, v: Node)
    requires Closed(g, s) && u in s && Reach(g, u, v)
    ensures v in s
  {
    var p :| IsPath(g, p) && p[0] == u && p[|p| - 1] == v;
    ClosedPath(g, s, p, |p| - 1);
  }

  lemma ClosedPath(g: Graph, s: set<Node>, p: seq<Node>, i: nat)
    requires Closed(g, s) && IsPath(g, p) && p[0] in s && i < |p|
    ensures p[i] in s
  {
    if i > 0 {
      ClosedPath(g, s, p, i - 1);
      assert Linked(g, p, i);
    }
  }

  /** A non-trivial reach starts at a key of the graph. */
  lemma ReachFromKey(g: Graph, u: Node, v: Node)
    requires Reach(g, u, v) && u != v
    ensures u in g
  {
    var p :| IsPath(g, p) && p[0] == u && p[|p| - 1] == v;
    assert Linked(g, p, 1);
  }
}
