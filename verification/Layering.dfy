/** Columns of the sibling groups: longest-path depth. */
module Layering {
  import opened Collections
  import opened Digraph
  import opened TopologicalOrder

  ghost predicate EndsAt(g: Graph, p: seq<nat>, v: nat) {
    Walk(g, p) && p[|p| - 1] == v
  }

  /** The rank counts the edges of a longest walk that ends in the group. */
  ghost predicate LongestDepth(g: Graph, v: nat, rank: nat) {
    && (exists p :: EndsAt(g, p, v) && |p| == rank + 1)
    && (forall p :: EndsAt(g, p, v) ==> |p| <= rank + 1)
  }

  /** Every recorded rank is witnessed by a walk; completed groups pushed their targets on. */
  ghost predicate RanksSoFar(g: Graph, done: set<nat>, ranks: map<nat, nat>) {
    && done <= ranks.Keys <= g.Keys
    && (forall v :: v in ranks ==> exists p :: EndsAt(g, p, v) && |p| == ranks[v] + 1)
    && (forall u, v :: u in done && Edge(g, u, v) ==> v in ranks && ranks[u] < ranks[v])
  }

  function Raised(ranks: map<nat, nat>, target: nat, rank: nat): nat {
    if target in ranks && ranks[target] > rank then ranks[target] else rank
  }

  function RaiseAll(ranks: map<nat, nat>, targets: set<nat>, rank: nat): map<nat, nat> {
    map v | v in ranks.Keys + targets :: if v in targets then Raised(ranks, v, rank) else ranks[v]
  }

  method RaiseTargets(ranks: map<nat, nat>, targets: set<nat>, rank: nat) returns (raised: map<nat, nat>)
    ensures raised == RaiseAll(ranks, targets, rank)
  {
    raised := ranks;
    var order := Ascending(targets);
    var i := 0;
    while i < |order|
      invariant 0 <= i <= |order| && raised == RaiseAll(ranks, Elements(order[..i]), rank)
    {
      AscendingStep(targets, i);
      raised := raised[order[i] := Raised(raised, order[i], rank)];
      i := i + 1;
    }
    AscendingEnd(targets);
  }

  lemma WalkOnTo(g: Graph, p: seq<nat>, u: nat, v: nat)
    requires EndsAt(g, p, u) && Edge(g, u, v)
    ensures EndsAt(g, p + [v], v)
  {
    var q := p + [v];
    forall i | 0 <= i < |q| - 1 ensures Edge(g, q[i], q[i + 1]) {
      if i < |p| - 1 {
        assert Edge(g, p[i], p[i + 1]);
      }
    }
  }

  lemma RanksAfter(g: Graph, done: set<nat>, m: nat, ranks: map<nat, nat>)
    requires Closed(g) && RanksSoFar(g, done, ranks) && m in ranks && m !in done && m !in g[m]
    requires forall t :: t in g[m] ==> t !in done
    ensures RanksSoFar(g, done + {m}, RaiseAll(ranks, g[m], ranks[m] + 1))
  {
    var after := RaiseAll(ranks, g[m], ranks[m] + 1);
    forall v | v in after ensures exists p :: EndsAt(g, p, v) && |p| == after[v] + 1 {
      if v in ranks && after[v] == ranks[v] {
        var p :| EndsAt(g, p, v) && |p| == ranks[v] + 1;
      } else {
        var p :| EndsAt(g, p, m) && |p| == ranks[m] + 1;
        WalkOnTo(g, p, m, v);
      }
    }
    forall u, v | u in done + {m} && Edge(g, u, v) ensures v in after && after[u] < after[v] {
      assert after[u] == ranks[u];
    }
  }

  lemma RanksAtStart(g: Graph, ranks: map<nat, nat>)
    requires ranks.Keys <= g.Keys && forall v :: v in ranks ==> ranks[v] == 0
    ensures RanksSoFar(g, {}, ranks)
  {
    forall v | v in ranks ensures exists p :: EndsAt(g, p, v) && |p| == ranks[v] + 1 {
      assert EndsAt(g, [v], v);
    }
  }

  /** Along a walk the rank grows by at least one per edge. */
  lemma RankBoundsWalk(g: Graph, ranks: map<nat, nat>, p: seq<nat>, v: nat)
    requires Closed(g) && RanksSoFar(g, g.Keys, ranks) && v in ranks && EndsAt(g, p, v)
    ensures |p| <= ranks[v] + 1
  {
    if |p| > 1 {
      assert Edge(g, p[0], p[0 + 1]);
      var i := 0;
      while i < |p| - 1
        invariant 0 <= i < |p| && p[i] in ranks && i <= ranks[p[i]]
      {
        assert Edge(g, p[i], p[i + 1]);
        i := i + 1;
      }
    }
  }

  lemma RanksAreLongest(g: Graph, ranks: map<nat, nat>, v: nat)
    requires Closed(g) && RanksSoFar(g, g.Keys, ranks) && v in ranks
    ensures LongestDepth(g, v, ranks[v])
  {
    forall p | EndsAt(g, p, v) ensures |p| <= ranks[v] + 1 {
      RankBoundsWalk(g, ranks, p, v);
    }
  }

  ghost predicate Ranking(g: Graph, done: set<nat>, ready: set<nat>, indegree: map<nat, nat>, ranks: map<nat, nat>) {
    && DownClosed(g, g.Keys, done) && Counts(g, g.Keys, done, indegree)
    && ready == Ready(g, g.Keys, done) && ready <= ranks.Keys
    && RanksSoFar(g, done, ranks)
  }

  lemma RankingStep(g: Graph, done: set<nat>, ready: set<nat>, indegree: map<nat, nat>, ranks: map<nat, nat>,
                    m: nat, lowered: map<nat, nat>, freed: set<nat>)
    requires Closed(g) && Ranking(g, done, ready, indegree, ranks) && m in ready
    requires Counts(g, g.Keys, done + {m}, lowered) && freed == Freed(g, g.Keys, done + {m}, g[m] * g.Keys)
    ensures m in ranks && |done + {m}| == |done| + 1
    ensures Ranking(g, done + {m}, ready - {m} + freed, lowered, RaiseAll(ranks, g[m], ranks[m] + 1))
  {
    hide RanksSoFar;
    ReadyAfter(g, g.Keys, done, m);
    forall t | t in g[m] ensures t !in done && t != m {
      assert m !in OpenPredecessors(g, g.Keys, done, m);
      assert m in OpenPredecessors(g, g.Keys, done, t);
    }
    RanksAfter(g, done, m, ranks);
  }

  lemma RankingStart(g: Graph, indegree: map<nat, nat>, ready: set<nat>, ranks: map<nat, nat>)
    requires indegree == map v | v in g :: |OpenPredecessors(g, g.Keys, {}, v)|
    requires ready == set v | v in g && indegree[v] == 0
    requires ranks == map v | v in ready :: 0
    ensures Ranking(g, {}, ready, indegree, ranks)
  {
    hide RanksSoFar;
    RanksAtStart(g, ranks);
    assert ready == Ready(g, g.Keys, {});
  }

  /** Take the first ready group and push its rank on to its targets. */
  method PlaceGroup(g: Graph, ghost done: set<nat>, ready: set<nat>, indegree: map<nat, nat>, ranks: map<nat, nat>)
    returns (group: nat, ready': set<nat>, indegree': map<nat, nat>, ranks': map<nat, nat>)
    requires Closed(g) && Ranking(g, done, ready, indegree, ranks) && ready != {}
    ensures group in g && group !in done && |done + {group}| == |done| + 1
    ensures Ranking(g, done + {group}, ready', indegree', ranks')
  {
    hide Ranking, RanksSoFar, Ready, Freed, Counts, RaiseAll, OpenPredecessors, Closed;
    group := Least(ready);
    NextGroup(g, done, ready, indegree, ranks, group);
    var freed;
    indegree', freed := Release(g, g.Keys, done, group, indegree);
    RankingStep(g, done, ready, indegree, ranks, group, indegree', freed);
    ranks' := RaiseTargets(ranks, g[group], ranks[group] + 1);
    ready' := ready - {group} + freed;
  }

  /** None stands for the error on a cyclic group graph. */
  method GroupRanks(g: Graph) returns (ranks: Option<map<nat, nat>>)
    requires Closed(g)
    ensures ranks.None? <==> !Acyclic(g)
    ensures ranks.Some? ==> ranks.value.Keys == g.Keys
    ensures ranks.Some? ==> forall v :: v in ranks.value ==> LongestDepth(g, v, ranks.value[v])
    ensures ranks.Some? ==> forall u, v :: Edge(g, u, v) ==>
      u in ranks.value && v in ranks.value && ranks.value[u] < ranks.value[v]
  {
    hide Ranking, RanksSoFar, LongestDepth, Ready, Freed, Counts, OpenPredecessors, Closed, Acyclic;
    var indegree: map<nat, nat> := map v | v in g :: |OpenPredecessors(g, g.Keys, {}, v)|;
    var ready := set v | v in g && indegree[v] == 0;
    var result: map<nat, nat> := map v | v in ready :: 0;
    ghost var done: set<nat> := {};
    var seen := 0;
    RankingStart(g, indegree, ready, result);
    while ready != {}
      invariant Ranking(g, done, ready, indegree, result) && done <= g.Keys && seen == |done|
      decreases g.Keys - done
    {
      var group;
      group, ready, indegree, result := PlaceGroup(g, done, ready, indegree, result);
      done := done + {group};
      seen := seen + 1;
    }
    RankingEnds(g, done, indegree, result);
    if seen != |g.Keys| {
      return None;
    }
    return Some(result);
  }

  lemma NextGroup(g: Graph, done: set<nat>, ready: set<nat>, indegree: map<nat, nat>, ranks: map<nat, nat>, m: nat)
    requires Ranking(g, done, ready, indegree, ranks) && m in ready
    ensures m in g && m !in done && m in ranks && Counts(g, g.Keys, done, indegree)
  {
  }

  lemma RankingEnds(g: Graph, done: set<nat>, indegree: map<nat, nat>, ranks: map<nat, nat>)
    requires Closed(g) && Ranking(g, done, {}, indegree, ranks)
    ensures |done| == |g.Keys| <==> Acyclic(g)
    ensures |done| == |g.Keys| ==> ranks.Keys == g.Keys
    ensures |done| == |g.Keys| ==> forall v :: v in ranks ==> LongestDepth(g, v, ranks[v])
    ensures |done| == |g.Keys| ==> forall u, v :: Edge(g, u, v) ==> u in ranks && v in ranks && ranks[u] < ranks[v]
  {
    hide LongestDepth;
    SubsetSize(done, g.Keys);
    if |done| == |g.Keys| {
      RankedIsAcyclic(g, ranks);
      forall v | v in ranks ensures LongestDepth(g, v, ranks[v]) {
        RanksAreLongest(g, ranks, v);
      }
    } else {
      StuckOnlyOnCycles(g, done);
    }
  }

  lemma SomeReady(g: Graph, done: set<nat>) returns (s: nat)
    requires Acyclic(g) && done <= g.Keys && done != g.Keys
    ensures s in Ready(g, g.Keys, done)
  {
    var v := MissingElement(done, g.Keys);
    s := SourceExists(g, g.Keys - done, v);
    assert OpenPredecessors(g, g.Keys, done, s) == {};
  }

  lemma StuckOnlyOnCycles(g: Graph, done: set<nat>)
    requires Ready(g, g.Keys, done) == {} && done <= g.Keys && done != g.Keys
    ensures !Acyclic(g)
  {
    if Acyclic(g) {
      var s := SomeReady(g, done);
    }
  }

  ghost predicate Ranked(g: Graph, ranks: map<nat, nat>) {
    ranks.Keys == g.Keys && forall v :: v in ranks ==> LongestDepth(g, v, ranks[v])
  }

  lemma RanksAreUnique(g: Graph, ranks: map<nat, nat>, other: map<nat, nat>)
    requires Ranked(g, ranks) && Ranked(g, other)
    ensures ranks == other
  {
    forall v | v in ranks ensures ranks[v] == other[v] {
      var p :| EndsAt(g, p, v) && |p| == ranks[v] + 1;
      var q :| EndsAt(g, q, v) && |q| == other[v] + 1;
    }
  }

  /** A group that is not in the first column has a predecessor in the column before its own. */
  lemma ColumnBefore(g: Graph, ranks: map<nat, nat>, v: nat) returns (u: nat)
    requires Ranked(g, ranks) && v in ranks && ranks[v] > 0
    ensures u in ranks && Edge(g, u, v) && ranks[u] == ranks[v] - 1
  {
    var p :| EndsAt(g, p, v) && |p| == ranks[v] + 1;
    var n := |p| - 2;
    u := p[n];
    assert Edge(g, p[n], p[n + 1]);
    var front := p[..n + 1];
    assert EndsAt(g, front, u) by {
      forall i | 0 <= i < |front| - 1 ensures Edge(g, front[i], front[i + 1]) {
        assert Edge(g, p[i], p[i + 1]);
      }
    }
    assert u in ranks && LongestDepth(g, u, ranks[u]);
    var q :| EndsAt(g, q, u) && |q| == ranks[u] + 1;
    WalkOnTo(g, q, u, v);
  }

  /** No column is empty: below every rank all ranks occur. */
  lemma {:induction false} ColumnsAreContiguous(g: Graph, ranks: map<nat, nat>, v: nat, k: nat) returns (u: nat)
    requires Ranked(g, ranks) && v in ranks && k <= ranks[v]
    ensures u in ranks && ranks[u] == k
    decreases ranks[v]
  {
    hide Ranked;
    if k == ranks[v] {
      u := v;
    } else {
      var w := ColumnBefore(g, ranks, v);
      u := ColumnsAreContiguous(g, ranks, w, k);
    }
  }
}
