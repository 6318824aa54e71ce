/** Transitive reduction of the visible dependency graph. */
module Reduction {
  import opened Collections
  import opened Digraph

  /** `node` is reachable from `source` without starting on the edge to `target`. */
  ghost predicate Avoiding(g: Graph, source: nat, target: nat, node: nat) {
    exists first :: Edge(g, source, first) && first != target && Reach(g, first, node)
  }

  /** The edge is redundant: another first step also leads to `target`. */
  ghost predicate Detour(g: Graph, source: nat, target: nat) {
    Avoiding(g, source, target, target)
  }

  ghost function Kept(g: Graph, keep: set<(nat, nat)>, s: nat): set<nat>
    requires s in g
  {
    set t | t in g[s] && ((s, t) in keep || !Detour(g, s, t))
  }

  ghost function Reduce(g: Graph, keep: set<(nat, nat)>): Graph {
    map s | s in g :: Kept(g, keep, s)
  }

  /** What the search knows: `todo` is justified, and whatever `seen` or the
      source leads to has been recorded. */
  ghost predicate Frontier(g: Graph, source: nat, target: nat, seen: set<nat>, todo: set<nat>) {
    && seen <= g.Keys && todo <= g.Keys && target !in seen
    && (forall n :: n in todo ==> Avoiding(g, source, target, n))
    && (forall n :: Edge(g, source, n) && n != target ==> n in seen || n in todo)
    && (forall a, b :: a in seen && Edge(g, a, b) ==> b in seen || b in todo)
  }

  lemma FrontierStart(g: Graph, source: nat, target: nat)
    requires Closed(g) && source in g
    ensures Frontier(g, source, target, {}, g[source] - {target})
  {
    forall n | n in g[source] - {target} ensures n in g && Avoiding(g, source, target, n) {
      ReachSelf(g, n);
      assert Edge(g, source, n);
    }
  }

  lemma FrontierMember(g: Graph, source: nat, target: nat, seen: set<nat>, todo: set<nat>, node: nat)
    requires Frontier(g, source, target, seen, todo) && node in todo
    ensures node in g && Avoiding(g, source, target, node)
  {
  }

  lemma FrontierSkip(g: Graph, source: nat, target: nat, seen: set<nat>, rest: set<nat>, node: nat)
    requires Frontier(g, source, target, seen, rest + {node}) && node in seen
    ensures Frontier(g, source, target, seen, rest)
  {
  }

  lemma FrontierExpand(g: Graph, source: nat, target: nat, seen: set<nat>, todo: set<nat>, rest: set<nat>, node: nat)
    requires Closed(g) && Frontier(g, source, target, seen, todo)
    requires todo == rest + {node} && node != target
    ensures Frontier(g, source, target, seen + {node}, rest + (g[node] - (seen + {node})))
  {
    forall n | n in g[node] ensures n in g && Avoiding(g, source, target, n) {
      assert Edge(g, node, n);
      AvoidingStep(g, source, target, node, n);
    }
  }

  lemma FrontierDone(g: Graph, source: nat, target: nat, seen: set<nat>)
    requires Frontier(g, source, target, seen, {})
    ensures !Detour(g, source, target)
  {
    if Detour(g, source, target) {
      var first :| Edge(g, source, first) && first != target && Reach(g, first, target);
      ReachStaysInside(g, seen, first, target);
    }
  }

  lemma NoElements(s: seq<nat>)
    requires s == []
    ensures Elements(s) == {}
  {
  }

  /** Depth-first search with an explicit stack. */
  method HasAlternatePath(source: nat, target: nat, outgoing: Graph) returns (found: bool)
    requires Closed(outgoing) && source in outgoing
    ensures found <==> Detour(outgoing, source, target)
  {
    hide Avoiding, Closed, Frontier, Descending, Elements;
    var pending := Descending(outgoing[source] - {target});
    DescendingElements(outgoing[source] - {target});
    FrontierStart(outgoing, source, target);
    var seen: set<nat> := {};
    while pending != []
      invariant Frontier(outgoing, source, target, seen, Elements(pending))
      decreases outgoing.Keys - seen, |pending|
    {
      var node, rest := pending[|pending| - 1], pending[..|pending| - 1];
      ElementsOfPopLast(pending);
      if node == target {
        FrontierMember(outgoing, source, target, seen, Elements(pending), node);
        return true;
      }
      if node in seen {
        FrontierSkip(outgoing, source, target, seen, Elements(rest), node);
        pending := rest;
        continue;
      }
      FrontierMember(outgoing, source, target, seen, Elements(pending), node);
      var more := Descending(outgoing[node] - (seen + {node}));
      DescendingElements(outgoing[node] - (seen + {node}));
      FrontierExpand(outgoing, source, target, seen, Elements(pending), Elements(rest), node);
      ElementsOfConcat(rest, more);
      seen := seen + {node};
      pending := rest + more;
    }
    assert Elements(pending) == {} by { NoElements(pending); }
    FrontierDone(outgoing, source, target, seen);
    return false;
  }

  lemma AvoidingStep(g: Graph, source: nat, target: nat, node: nat, next: nat)
    requires Avoiding(g, source, target, node) && Edge(g, node, next)
    ensures Avoiding(g, source, target, next)
  {
    var first :| Edge(g, source, first) && first != target && Reach(g, first, node);
    ReachThenEdge(g, first, node, next);
  }

  ghost predicate Progress(g: Graph, keep: set<(nat, nat)>, reduced: Graph, done: set<nat>) {
    && reduced.Keys == g.Keys && done <= g.Keys
    && forall s :: s in done ==> reduced[s] == Kept(g, keep, s)
  }

  /** Every candidate is judged against the full graph while a copy shrinks. */
  method TransitiveReduction(outgoing: Graph, keep: set<(nat, nat)>) returns (reduced: Graph)
    requires Closed(outgoing)
    ensures reduced == Reduce(outgoing, keep)
  {
    reduced := outgoing;
    var sources := Ascending(outgoing.Keys);
    AscendingElements(outgoing.Keys);
    var i := 0;
    while i < |sources|
      invariant 0 <= i <= |sources|
      invariant Progress(outgoing, keep, reduced, Elements(sources[..i]))
    {
      PrefixStep(sources, i);
      var left := ReducedTargets(outgoing, keep, sources[i]);
      reduced := reduced[sources[i] := left];
      i := i + 1;
    }
    assert sources[..i] == sources;
  }

  method ReducedTargets(outgoing: Graph, keep: set<(nat, nat)>, source: nat) returns (left: set<nat>)
    requires Closed(outgoing) && source in outgoing
    ensures left == Kept(outgoing, keep, source)
  {
    left := outgoing[source];
    var targets := Ascending(outgoing[source]);
    hide Detour, Closed;
    var i := 0;
    while i < |targets|
      invariant 0 <= i <= |targets|
      invariant left == Kept(outgoing, keep, source) + (outgoing[source] - Elements(targets[..i]))
    {
      AscendingStep(outgoing[source], i);
      var redundant := false;
      if (source, targets[i]) !in keep {
        redundant := HasAlternatePath(source, targets[i], outgoing);
      }
      if redundant {
        left := left - {targets[i]};
      }
      i := i + 1;
    }
    AscendingEnd(outgoing[source]);
  }

  // ---------------------------------------------------------------- meaning

  ghost function Between(g: Graph, s: nat, t: nat): set<nat> {
    set v | v in g && Reach(g, s, v) && Reach(g, v, t)
  }

  lemma BetweenShrinks(g: Graph, s: nat, t: nat, a: nat, b: nat, lost: nat)
    requires Reach(g, s, a) && Reach(g, b, t)
    requires lost in Between(g, s, t) && !(Reach(g, a, lost) && Reach(g, lost, b))
    ensures |Between(g, a, b)| < |Between(g, s, t)|
  {
    forall v | v in Between(g, a, b) ensures v in Between(g, s, t) {
      ReachTrans(g, s, a, v);
      ReachTrans(g, v, b, t);
    }
    StrictSubsetSize(Between(g, a, b), Between(g, s, t), lost);
  }

  /** Each dropped edge is replaced by a detour whose own edges span less. */
  lemma {:induction false} EdgeSurvives(g: Graph, keep: set<(nat, nat)>, s: nat, t: nat)
    requires Closed(g) && Acyclic(g) && Edge(g, s, t)
    ensures Reach(Reduce(g, keep), s, t)
    decreases |Between(g, s, t)|
  {
    var h := Reduce(g, keep);
    if Edge(h, s, t) {
      ReachEdge(h, s, t);
      return;
    }
    var n :| Edge(g, s, n) && n != t && Reach(g, n, t);
    ReachSelf(g, s);
    ReachSelf(g, t);
    ReachEdge(g, s, n);
    ReachEdge(g, s, t);
    if Reach(g, t, n) {
      AcyclicAntisymmetric(g, n, t);
    }
    BetweenShrinks(g, s, t, s, n, t);
    EdgeSurvives(g, keep, s, n);
    var p :| Walk(g, p) && p[0] == n && p[|p| - 1] == t;
    var i := 0;
    while i < |p| - 1
      invariant 0 <= i < |p| && Reach(h, s, p[i])
    {
      WalkSplit(g, p, i);
      WalkSplit(g, p, i + 1);
      ReachTrans(g, s, n, p[i]);
      assert !Reach(g, p[i], s) by {
        if Reach(g, p[i], s) { ReachTrans(g, n, p[i], s); }
      }
      BetweenShrinks(g, s, t, p[i], p[i + 1], s);
      EdgeSurvives(g, keep, p[i], p[i + 1]);
      ReachTrans(h, s, p[i], p[i + 1]);
      i := i + 1;
    }
  }

  /** On an acyclic graph the reduction connects exactly the same pairs. */
  lemma ReductionPreservesReachability(g: Graph, keep: set<(nat, nat)>, u: nat, v: nat)
    requires Closed(g) && Acyclic(g)
    ensures Reach(Reduce(g, keep), u, v) <==> Reach(g, u, v)
  {
    var h := Reduce(g, keep);
    if Reach(h, u, v) {
      ReachWithinSupergraph(h, g, u, v);
    }
    if Reach(g, u, v) {
      forall a, b | Edge(g, a, b) ensures Reach(h, a, b) {
        EdgeSurvives(g, keep, a, b);
      }
      ReachRefines(g, h, u, v);
    }
  }

  ghost function Without(g: Graph, s: nat, t: nat): Graph
    requires s in g
  {
    g[s := g[s] - {t}]
  }

  /** No unprotected edge that was kept could also have been dropped. */
  lemma ReductionIsMinimal(g: Graph, keep: set<(nat, nat)>, s: nat, t: nat)
    requires Closed(g) && Acyclic(g)
    requires Edge(Reduce(g, keep), s, t) && (s, t) !in keep
    ensures !Reach(Without(Reduce(g, keep), s, t), s, t)
  {
    var h := Reduce(g, keep);
    var less := Without(h, s, t);
    if Reach(less, s, t) {
      assert s != t by { ReachSelf(g, t); }
      var n := ReachFirst(less, s, t);
      assert Edge(h, s, n) && n != t;
      ReachWithinSupergraph(less, g, n, t);
      assert Detour(g, s, t);
    }
  }

  /** With a cycle two edges can justify dropping each other, so judging against
      the full graph needs the acyclicity that the relationship schema enforces. */
  lemma CycleBreaksReduction(g: Graph)
    requires g == map[1 := {2, 3}, 2 := {3}, 3 := {2}]
    ensures Closed(g) && Reach(g, 1, 2) && !Reach(Reduce(g, {}), 1, 2)
  {
    assert Edge(g, 1, 2) && Edge(g, 1, 3) && Edge(g, 2, 3) && Edge(g, 3, 2);
    ReachEdge(g, 1, 2);
    ReachEdge(g, 2, 3);
    ReachEdge(g, 3, 2);
    assert Detour(g, 1, 2) && Detour(g, 1, 3);
    assert Kept(g, {}, 1) == {};
    assert forall w :: !Edge(Reduce(g, {}), 1, w);
    if Reach(Reduce(g, {}), 1, 2) {
      var w := ReachFirst(Reduce(g, {}), 1, 2);
    }
  }
}
