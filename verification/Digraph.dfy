/** Finite directed graphs, walks, reachability and acyclicity. */
module Digraph {
  import opened Collections

  type Graph = map<nat, set<nat>>

  predicate Edge(g: Graph, u: nat, v: nat) {
    u in g && v in g[u]
  }

  /** Every edge ends at a node of the graph. */
  ghost predicate Closed(g: Graph) {
    forall u, v :: u in g && v in g[u] ==> v in g
  }

  ghost predicate Walk(g: Graph, p: seq<nat>) {
    |p| > 0 && forall i :: 0 <= i < |p| - 1 ==> Edge(g, p[i], p[i + 1])
  }

  ghost predicate Reach(g: Graph, u: nat, v: nat) {
    exists p :: Walk(g, p) && p[0] == u && p[|p| - 1] == v
  }

  ghost predicate Acyclic(g: Graph) {
    forall u, w :: Edge(g, u, w) ==> !Reach(g, w, u)
  }

  lemma ReachSelf(g: Graph, u: nat)
    ensures Reach(g, u, u)
  {
    assert Walk(g, [u]) && [u][0] == u;
  }

  lemma ReachTrans(g: Graph, u: nat, v: nat, w: nat)
    requires Reach(g, u, v) && Reach(g, v, w)
    ensures Reach(g, u, w)
  {
    var p :| Walk(g, p) && p[0] == u && p[|p| - 1] == v;
    var q :| Walk(g, q) && q[0] == v && q[|q| - 1] == w;
    var r := p + q[1..];
    assert Walk(g, r) by {
      forall i | 0 <= i < |r| - 1 ensures Edge(g, r[i], r[i + 1]) {
        if i < |p| - 1 {
          assert r[i] == p[i] && r[i + 1] == p[i + 1];
        } else {
          assert r[i] == q[i - |p| + 1] && r[i + 1] == q[i - |p| + 2];
        }
      }
    }
    assert r[0] == u && r[|r| - 1] == w;
  }

  lemma ReachEdge(g: Graph, u: nat, v: nat)
    requires Edge(g, u, v)
    ensures Reach(g, u, v)
  {
    assert Walk(g, [u, v]) && [u, v][0] == u && [u, v][1] == v;
  }

  lemma EdgeThenReach(g: Graph, u: nat, v: nat, w: nat)
    requires Edge(g, u, v) && Reach(g, v, w)
    ensures Reach(g, u, w)
  {
    ReachEdge(g, u, v);
    ReachTrans(g, u, v, w);
  }

  lemma ReachThenEdge(g: Graph, u: nat, v: nat, w: nat)
    requires Reach(g, u, v) && Edge(g, v, w)
    ensures Reach(g, u, w)
  {
    ReachEdge(g, v, w);
    ReachTrans(g, u, v, w);
  }

  /** A walk is trivial or starts with an edge. */
  lemma ReachFirst(g: Graph, u: nat, v: nat) returns (w: nat)
    requires Reach(g, u, v) && u != v
    ensures Edge(g, u, w) && Reach(g, w, v)
  {
    var p :| Walk(g, p) && p[0] == u && p[|p| - 1] == v;
    w := p[1];
    assert Edge(g, p[0], p[0 + 1]);
    var q := p[1..];
    assert Walk(g, q) by {
      forall i | 0 <= i < |q| - 1 ensures Edge(g, q[i], q[i + 1]) {
        assert Edge(g, p[i + 1], p[i + 1 + 1]);
      }
    }
    assert q[0] == w && q[|q| - 1] == v;
  }

  /** Reachability never leaves a set that is closed under edges. */
  lemma ReachStaysInside(g: Graph, inside: set<nat>, u: nat, v: nat)
    requires forall a, b :: a in inside && Edge(g, a, b) ==> b in inside
    requires u in inside && Reach(g, u, v)
    ensures v in inside
  {
    var p :| Walk(g, p) && p[0] == u && p[|p| - 1] == v;
    var i := 0;
    while i < |p| - 1
      invariant 0 <= i < |p| && p[i] in inside
    {
      assert Edge(g, p[i], p[i + 1]);
      i := i + 1;
    }
  }

  /** If every edge of `g` is a connection in `h`, so is every walk. */
  lemma ReachRefines(g: Graph, h: Graph, u: nat, v: nat)
    requires forall a, b :: Edge(g, a, b) ==> Reach(h, a, b)
    requires Reach(g, u, v)
    ensures Reach(h, u, v)
  {
    var p :| Walk(g, p) && p[0] == u && p[|p| - 1] == v;
    ReachSelf(h, u);
    var i := 0;
    while i < |p| - 1
      invariant 0 <= i < |p| && Reach(h, u, p[i])
    {
      assert Edge(g, p[i], p[i + 1]);
      ReachTrans(h, u, p[i], p[i + 1]);
      i := i + 1;
    }
  }

  lemma ReachWithinSupergraph(g: Graph, h: Graph, u: nat, v: nat)
    requires forall a, b :: Edge(g, a, b) ==> Edge(h, a, b)
    requires Reach(g, u, v)
    ensures Reach(h, u, v)
  {
    forall a, b | Edge(g, a, b) ensures Reach(h, a, b) {
      ReachEdge(h, a, b);
    }
    ReachRefines(g, h, u, v);
  }

  lemma AcyclicSubgraph(g: Graph, h: Graph)
    requires Acyclic(h)
    requires forall a, b :: Edge(g, a, b) ==> Edge(h, a, b)
    ensures Acyclic(g)
  {
    forall u, w | Edge(g, u, w) ensures !Reach(g, w, u) {
      if Reach(g, w, u) {
        ReachWithinSupergraph(g, h, w, u);
      }
    }
  }

  /** Mutual reachability in an acyclic graph means equality. */
  lemma AcyclicAntisymmetric(g: Graph, u: nat, v: nat)
    requires Acyclic(g) && Reach(g, u, v) && Reach(g, v, u)
    ensures u == v
  {
    if u != v {
      var w := ReachFirst(g, u, v);
      ReachTrans(g, w, v, u);
    }
  }

  /** A labelling that grows along every edge rules cycles out. */
  lemma RankedIsAcyclic(g: Graph, rank: map<nat, int>)
    requires forall u, v :: Edge(g, u, v) ==> u in rank && v in rank && rank[u] < rank[v]
    ensures Acyclic(g)
  {
    forall u, w | Edge(g, u, w) ensures !Reach(g, w, u) {
      if Reach(g, w, u) {
        var p :| Walk(g, p) && p[0] == w && p[|p| - 1] == u;
        var i := 0;
        while i < |p| - 1
          invariant 0 <= i < |p| && p[i] in rank && rank[w] <= rank[p[i]]
        {
          assert Edge(g, p[i], p[i + 1]);
          i := i + 1;
        }
      }
    }
  }

  ghost function Ancestors(g: Graph, nodes: set<nat>, v: nat): set<nat> {
    set u | u in nodes && Reach(g, u, v)
  }

  /** A non-empty set of nodes of an acyclic graph has a member without
      predecessors in the set, and it reaches the node we started from. */
  lemma SourceExists(g: Graph, nodes: set<nat>, v: nat) returns (s: nat)
    requires Acyclic(g) && v in nodes
    ensures s in nodes && Reach(g, s, v)
    ensures forall u :: u in nodes ==> !Edge(g, u, s)
    decreases |Ancestors(g, nodes, v)|
  {
    ReachSelf(g, v);
    if u :| u in nodes && Edge(g, u, v) {
      forall a | a in Ancestors(g, nodes, u) ensures a in Ancestors(g, nodes, v) {
        ReachThenEdge(g, a, u, v);
      }
      assert v !in Ancestors(g, nodes, u);
      StrictSubsetSize(Ancestors(g, nodes, u), Ancestors(g, nodes, v), v);
      s := SourceExists(g, nodes, u);
      ReachThenEdge(g, s, u, v);
    } else {
      s := v;
    }
  }

  /** Every node of a walk lies between its ends. */
  lemma WalkSplit(g: Graph, p: seq<nat>, i: nat)
    requires Walk(g, p) && i < |p|
    ensures Reach(g, p[0], p[i]) && Reach(g, p[i], p[|p| - 1])
  {
    var a, b := p[..i + 1], p[i..];
    assert Walk(g, a) && a[0] == p[0] && a[|a| - 1] == p[i];
    assert Walk(g, b) by {
      forall j | 0 <= j < |b| - 1 ensures Edge(g, b[j], b[j + 1]) {
        assert Edge(g, p[i + j], p[i + j + 1]);
      }
    }
    assert b[0] == p[i] && b[|b| - 1] == p[|p| - 1];
  }
}
