/** The validator of the rendered graph: sibling groups, lanes and their expansion. */
module GroupGraph {
  import opened Collections
  import opened Digraph
  import opened CycleCheck

  type Label = string

  /** A sibling group is identified by its index; `targets` are indices of groups. */
  datatype Siblings = Siblings(nodes: seq<Label>, targets: seq<nat>)

  type Family = seq<seq<Label>>

  type Adjacency = map<Label, set<Label>>

  // -------------------------------------------------------------- the contract

  /** Non-empty blocks without repetition that do not overlap. */
  ghost predicate Disjoint(f: Family) {
    && (forall a :: 0 <= a < |f| ==> f[a] != [] && Distinct(f[a]))
    && (forall a, b, u :: 0 <= a < |f| && 0 <= b < |f| && u in f[a] && u in f[b] ==> a == b)
  }

  ghost predicate Covers(f: Family, u: Label) {
    exists a :: 0 <= a < |f| && u in f[a]
  }

  function Nodes(groups: seq<Siblings>): Family {
    seq(|groups|, a requires 0 <= a < |groups| => groups[a].nodes)
  }

  ghost predicate TargetsOk(groups: seq<Siblings>, a: nat)
    requires a < |groups|
  {
    && Distinct(groups[a].targets)
    && (forall i :: 0 <= i < |groups[a].targets| ==> groups[a].targets[i] < |groups| && groups[a].targets[i] != a)
  }

  function Quotient(groups: seq<Siblings>): Graph {
    map a: nat | a < |groups| :: Elements(groups[a].targets)
  }

  /** Re-expansion: every node of a group points to every node of its target groups. */
  ghost predicate Related(groups: seq<Siblings>, u: Label, v: Label) {
    exists a, b :: 0 <= a < |groups| && 0 <= b < |groups| && u in groups[a].nodes && v in groups[b].nodes
      && b in groups[a].targets
  }

  ghost predicate Expansion(groups: seq<Siblings>, adjacency: Adjacency) {
    && (forall u :: u in adjacency <==> Covers(Nodes(groups), u))
    && (forall u, v :: u in adjacency ==> (v in adjacency[u] <==> Related(groups, u, v)))
  }

  /** Every node lies on exactly one lane, and lanes are paths of the expansion. */
  ghost predicate LanesOk(groups: seq<Siblings>, lanes: Family) {
    && Disjoint(lanes)
    && (forall u :: Covers(Nodes(groups), u) <==> Covers(lanes, u))
    && (forall l, k :: 0 <= l < |lanes| && 0 <= k < |lanes[l]| - 1 ==> Related(groups, lanes[l][k], lanes[l][k + 1]))
  }

  ghost predicate Acceptable(groups: seq<Siblings>, lanes: Family) {
    && Disjoint(Nodes(groups)) && !Covers(Nodes(groups), "")
    && (forall a :: 0 <= a < |groups| ==> TargetsOk(groups, a))
    && Acyclic(Quotient(groups))
    && LanesOk(groups, lanes)
  }

  // ------------------------------------------------------------ index a family

  ghost predicate Indexes(f: Family, index: map<Label, nat>) {
    && (forall a, u :: 0 <= a < |f| && u in f[a] ==> u in index && index[u] == a)
    && (forall u :: u in index ==> index[u] < |f| && u in f[index[u]])
  }

  lemma IndexBlock(f: Family, n: nat, index: map<Label, nat>)
    requires n < |f| && Disjoint(f[..n]) && Indexes(f[..n], index)
    requires f[n] != [] && Distinct(f[n]) && forall u :: u in f[n] ==> u !in index
    ensures Disjoint(f[..n + 1])
    ensures Indexes(f[..n + 1], index + map u | u in f[n] :: n)
  {
    assert f[..n + 1] == f[..n] + [f[n]];
  }

  lemma ClashIsOverlap(f: Family, n: nat, index: map<Label, nat>, u: Label)
    requires n < |f| && Indexes(f[..n], index) && u in f[n] && u in index
    ensures !Disjoint(f)
  {
    assert f[index[u]] == f[..n][index[u]];
  }

  /** None when a block is empty, repeats a node, or shares one with another block. */
  method IndexFamily(f: Family) returns (index: Option<map<Label, nat>>)
    ensures index.Some? <==> Disjoint(f)
    ensures index.Some? ==> Indexes(f, index.value)
  {
    hide Indexes, Distinct, Elements;
    var found: map<Label, nat> := map[];
    var n: nat := 0;
    NothingIndexed(f);
    while n < |f|
      invariant 0 <= n <= |f| && Disjoint(f[..n]) && Indexes(f[..n], found)
    {
      if f[n] == [] {
        return None;
      }
      if |Elements(f[n])| != |f[n]| {
        SizeDecides(f[n]);
        return None;
      }
      SizeDecides(f[n]);
      var clash := exists u :: u in f[n] && u in found;
      if clash {
        var u :| u in f[n] && u in found;
        ClashIsOverlap(f, n, found, u);
        return None;
      }
      IndexBlock(f, n, found);
      found := found + map u | u in f[n] :: n;
      n := n + 1;
    }
    assert f[..n] == f;
    return Some(found);
  }

  lemma SizeDecides<T>(s: seq<T>)
    ensures |Elements(s)| == |s| <==> Distinct(s)
  {
    if Distinct(s) {
      DistinctSize(s);
    } else {
      RepetitionShrinks(s);
    }
  }

  lemma NothingIndexed(f: Family)
    ensures Disjoint(f[..0]) && Indexes(f[..0], map[])
  {
  }

  lemma IndexDecidesCover(f: Family, index: map<Label, nat>, u: Label)
    requires Indexes(f, index)
    ensures u in index <==> Covers(f, u)
  {
  }

  // --------------------------------------------------------------- adjacency

  /** What the first `n` targets of group `a` contribute. */
  ghost predicate RelatedBelow(groups: seq<Siblings>, a: nat, n: nat, v: Label)
    requires a < |groups| && n <= |groups[a].targets|
  {
    exists i :: 0 <= i < n && groups[a].targets[i] < |groups| && v in groups[groups[a].targets[i]].nodes
  }

  method TargetNodes(groups: seq<Siblings>, a: nat) returns (nodes: Option<set<Label>>)
    requires a < |groups|
    ensures nodes.Some? <==> TargetsOk(groups, a)
    ensures nodes.Some? ==> forall v :: v in nodes.value <==> RelatedBelow(groups, a, |groups[a].targets|, v)
  {
    hide Distinct, Elements;
    var targets := groups[a].targets;
    SizeDecides<nat>(targets);
    if |Elements<nat>(targets)| != |targets| {
      return None;
    }
    var found: set<Label> := {};
    var i: nat := 0;
    while i < |targets|
      invariant 0 <= i <= |targets|
      invariant forall j :: 0 <= j < i ==> targets[j] < |groups| && targets[j] != a
      invariant forall v :: v in found <==> RelatedBelow(groups, a, i, v)
    {
      if targets[i] >= |groups| || targets[i] == a {
        return None;
      }
      found := found + Elements(groups[targets[i]].nodes);
      TargetStep(groups, a, i);
      i := i + 1;
    }
    return Some(found);
  }

  lemma TargetStep(groups: seq<Siblings>, a: nat, n: nat)
    requires a < |groups| && n < |groups[a].targets| && groups[a].targets[n] < |groups|
    ensures forall v :: RelatedBelow(groups, a, n + 1, v) <==>
      RelatedBelow(groups, a, n, v) || v in Elements(groups[groups[a].targets[n]].nodes)
  {
  }

  ghost predicate ExpandedBelow(groups: seq<Siblings>, n: nat, adjacency: Adjacency)
    requires n <= |groups|
  {
    && (forall u :: u in adjacency <==> exists a :: 0 <= a < n && u in groups[a].nodes)
    && (forall a, u, v :: 0 <= a < n && u in groups[a].nodes ==>
          u in adjacency && (v in adjacency[u] <==> RelatedBelow(groups, a, |groups[a].targets|, v)))
  }

  lemma ExpandBlock(groups: seq<Siblings>, n: nat, adjacency: Adjacency, nodes: set<Label>)
    requires n < |groups| && Disjoint(Nodes(groups)) && ExpandedBelow(groups, n, adjacency)
    requires forall v :: v in nodes <==> RelatedBelow(groups, n, |groups[n].targets|, v)
    ensures ExpandedBelow(groups, n + 1, adjacency + map u | u in groups[n].nodes :: nodes)
  {
    hide RelatedBelow;
    var f := Nodes(groups);
    assert f[n] == groups[n].nodes;
    forall a, u | 0 <= a < n && u in groups[a].nodes ensures u !in groups[n].nodes {
      assert u in f[a];
    }
  }

  lemma ExpandedAll(groups: seq<Siblings>, adjacency: Adjacency)
    requires Disjoint(Nodes(groups)) && ExpandedBelow(groups, |groups|, adjacency)
    requires forall a :: 0 <= a < |groups| ==> TargetsOk(groups, a)
    ensures Expansion(groups, adjacency)
  {
    hide Distinct;
    var f := Nodes(groups);
    forall u ensures u in adjacency <==> Covers(f, u) {
      if Covers(f, u) {
        var a :| 0 <= a < |f| && u in f[a];
        assert u in groups[a].nodes;
      }
      if u in adjacency {
        var a :| 0 <= a < |groups| && u in groups[a].nodes;
        assert u in f[a];
      }
    }
    forall u, v | u in adjacency ensures v in adjacency[u] <==> Related(groups, u, v) {
      var a :| 0 <= a < |groups| && u in groups[a].nodes;
      RelatedFromOwner(groups, a, u, v);
    }
  }

  lemma RelatedFromOwner(groups: seq<Siblings>, a: nat, u: Label, v: Label)
    requires Disjoint(Nodes(groups)) && a < |groups| && u in groups[a].nodes && TargetsOk(groups, a)
    ensures Related(groups, u, v) <==> RelatedBelow(groups, a, |groups[a].targets|, v)
  {
    hide Distinct;
    var f := Nodes(groups);
    assert u in f[a];
    if Related(groups, u, v) {
      var c, b :| 0 <= c < |groups| && 0 <= b < |groups| && u in groups[c].nodes && v in groups[b].nodes
        && b in groups[c].targets;
      assert u in f[c];
      var i :| 0 <= i < |groups[c].targets| && groups[c].targets[i] == b;
    }
    if RelatedBelow(groups, a, |groups[a].targets|, v) {
      var i :| 0 <= i < |groups[a].targets| && groups[a].targets[i] < |groups|
        && v in groups[groups[a].targets[i]].nodes;
      assert groups[a].targets[i] in groups[a].targets;
    }
  }

  /** Expand every group to its nodes; None on repeated, foreign or own targets. */
  method Expand(groups: seq<Siblings>) returns (adjacency: Option<Adjacency>)
    requires Disjoint(Nodes(groups))
    ensures adjacency.Some? <==> forall a :: 0 <= a < |groups| ==> TargetsOk(groups, a)
    ensures adjacency.Some? ==> Expansion(groups, adjacency.value)
  {
    hide ExpandedBelow, TargetsOk, RelatedBelow, Disjoint;
    var built: Adjacency := map[];
    var n: nat := 0;
    NothingExpanded(groups);
    while n < |groups|
      invariant 0 <= n <= |groups| && ExpandedBelow(groups, n, built)
      invariant forall a :: 0 <= a < n ==> TargetsOk(groups, a)
    {
      var nodes := TargetNodes(groups, n);
      if nodes.None? {
        return None;
      }
      ExpandBlock(groups, n, built, nodes.value);
      built := built + map u | u in groups[n].nodes :: nodes.value;
      n := n + 1;
    }
    ExpandedAll(groups, built);
    return Some(built);
  }

  lemma NothingExpanded(groups: seq<Siblings>)
    ensures ExpandedBelow(groups, 0, map[])
  {
  }

  // ------------------------------------------------------------------- lanes

  predicate LaneIsPath(adjacency: Adjacency, lane: seq<Label>) {
    forall k :: 0 <= k < |lane| - 1 ==> lane[k] in adjacency && lane[k + 1] in adjacency[lane[k]]
  }

  /** The lane of every node; None unless the lanes partition the nodes into paths. */
  method CheckLanes(groups: seq<Siblings>, adjacency: Adjacency, lanes: Family)
    returns (nodeLane: Option<map<Label, nat>>)
    requires Expansion(groups, adjacency)
    ensures nodeLane.Some? <==> LanesOk(groups, lanes)
    ensures nodeLane.Some? ==> Indexes(lanes, nodeLane.value)
  {
    hide Disjoint, Covers, Related, Indexes;
    nodeLane := IndexFamily(lanes);
    if nodeLane.None? {
      return;
    }
    forall u ensures u in nodeLane.value <==> Covers(lanes, u) {
      IndexDecidesCover(lanes, nodeLane.value, u);
    }
    IndexedWithin(lanes, nodeLane.value);
    var unknown := exists u :: u in nodeLane.value && u !in adjacency;
    if unknown {
      return None;
    }
    var n: nat := 0;
    while n < |lanes|
      invariant 0 <= n <= |lanes|
      invariant forall l :: 0 <= l < n ==> LaneIsPath(adjacency, lanes[l])
    {
      if !LaneIsPath(adjacency, lanes[n]) {
        BrokenLane(groups, adjacency, lanes, n);
        return None;
      }
      n := n + 1;
    }
    PathLanes(groups, adjacency, lanes);
    if adjacency.Keys != nodeLane.value.Keys {
      return None;
    }
  }

  lemma IndexedWithin(f: Family, index: map<Label, nat>)
    requires Indexes(f, index)
    ensures forall a, u :: 0 <= a < |f| && u in f[a] ==> u in index
  {
  }

  lemma BrokenLane(groups: seq<Siblings>, adjacency: Adjacency, lanes: Family, l: nat)
    requires Expansion(groups, adjacency) && l < |lanes| && !LaneIsPath(adjacency, lanes[l])
    requires forall u :: u in lanes[l] ==> u in adjacency
    ensures !LanesOk(groups, lanes)
  {
    hide Disjoint, Covers, Related;
    var k :| 0 <= k < |lanes[l]| - 1 && !(lanes[l][k] in adjacency && lanes[l][k + 1] in adjacency[lanes[l][k]]);
    assert lanes[l][k] in adjacency;
  }

  lemma PathLanes(groups: seq<Siblings>, adjacency: Adjacency, lanes: Family)
    requires Expansion(groups, adjacency)
    requires forall l :: 0 <= l < |lanes| ==> LaneIsPath(adjacency, lanes[l])
    ensures forall l, k :: 0 <= l < |lanes| && 0 <= k < |lanes[l]| - 1 ==> Related(groups, lanes[l][k], lanes[l][k + 1])
  {
    hide Covers, Related;
  }

  // --------------------------------------------------------- the whole graph

  datatype ValidatedGraph = ValidatedGraph(nodeGroup: map<Label, nat>, nodeLane: map<Label, nat>,
                                           adjacency: Adjacency, incoming: Adjacency)

  /** The same edges, listed at their targets. */
  ghost predicate Reverses(incoming: Adjacency, adjacency: Adjacency) {
    && incoming.Keys == adjacency.Keys
    && forall u, v :: v in incoming ==> (u in incoming[v] <==> u in adjacency && v in adjacency[u])
  }

  ghost predicate Describes(w: ValidatedGraph, groups: seq<Siblings>, lanes: Family) {
    && Indexes(Nodes(groups), w.nodeGroup) && Indexes(lanes, w.nodeLane)
    && Expansion(groups, w.adjacency) && Reverses(w.incoming, w.adjacency)
    && w.nodeGroup.Keys == w.nodeLane.Keys == w.adjacency.Keys
  }

  method Reversed(adjacency: Adjacency) returns (incoming: Adjacency)
    ensures Reverses(incoming, adjacency)
  {
    incoming := map v | v in adjacency :: {};
    var todo := adjacency.Keys;
    while todo != {}
      invariant todo <= adjacency.Keys == incoming.Keys
      invariant forall u, v :: v in incoming ==>
        (u in incoming[v] <==> u in adjacency && u !in todo && v in adjacency[u])
    {
      var u :| u in todo;
      incoming := map v | v in incoming :: incoming[v] + (if v in adjacency[u] then {u} else {});
      todo := todo - {u};
    }
  }

  /** The validator accepts exactly the acceptable graphs and returns the group and lane
      of every node with the edges in both directions. */
  method ValidateGraph(groups: seq<Siblings>, lanes: Family) returns (validated: Option<ValidatedGraph>)
    ensures validated.Some? <==> Acceptable(groups, lanes)
    ensures validated.Some? ==> Describes(validated.value, groups, lanes)
  {
    hide Disjoint, TargetsOk, LanesOk, Expansion, Covers, Indexes, Reverses;
    var nodeGroup := IndexFamily(Nodes(groups));
    if nodeGroup.None? {
      return None;
    }
    IndexDecidesCover(Nodes(groups), nodeGroup.value, "");
    if "" in nodeGroup.value {
      return None;
    }
    var expanded := Expand(groups);
    if expanded.None? {
      return None;
    }
    QuotientIsClosed(groups);
    var acyclic := CheckAcyclic(Quotient(groups));
    if !acyclic {
      return None;
    }
    var nodeLane := CheckLanes(groups, expanded.value, lanes);
    if nodeLane.None? {
      return None;
    }
    SameNodes(groups, lanes, nodeGroup.value, nodeLane.value, expanded.value);
    var incoming := Reversed(expanded.value);
    return Some(ValidatedGraph(nodeGroup.value, nodeLane.value, expanded.value, incoming));
  }

  lemma SameNodes(groups: seq<Siblings>, lanes: Family, nodeGroup: map<Label, nat>, nodeLane: map<Label, nat>,
                  adjacency: Adjacency)
    requires Indexes(Nodes(groups), nodeGroup) && Indexes(lanes, nodeLane) && Expansion(groups, adjacency)
    requires LanesOk(groups, lanes)
    ensures nodeGroup.Keys == nodeLane.Keys == adjacency.Keys
  {
    hide Indexes, Related, Disjoint, Covers;
    forall u ensures (u in nodeGroup <==> u in adjacency) && (u in nodeLane <==> u in adjacency) {
      IndexDecidesCover(Nodes(groups), nodeGroup, u);
      IndexDecidesCover(lanes, nodeLane, u);
    }
  }

  lemma QuotientIsClosed(groups: seq<Siblings>)
    requires forall a :: 0 <= a < |groups| ==> TargetsOk(groups, a)
    ensures Closed(Quotient(groups))
  {
    hide Distinct;
    var q := Quotient(groups);
    forall u, v | u in q && v in q[u] ensures v in q {
      assert TargetsOk(groups, u);
      var i :| 0 <= i < |groups[u].targets| && groups[u].targets[i] == v;
    }
  }
}
