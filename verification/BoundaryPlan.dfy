/** Which edges share a track, which leave their row, and the tracks of every boundary. */
module BoundaryPlan {
  import opened Collections
  import opened RouteDrawing
  import opened RouteGeometry
  import GG = GroupGraph
  import NP = NodePlacement

  /** A validated graph with its ranks, the places of its nodes and the column widths. */
  datatype Setting = Setting(groups: seq<GG.Siblings>, graph: GG.ValidatedGraph, ranks: map<nat, nat>,
                             places: NP.Places, maxRow: nat, widths: Widths, last: nat, edges: seq<EdgeKey>)

  ghost predicate AllForward(s: Setting) {
    forall e :: e in s.edges ==>
      e.source in s.places && e.target in s.places && s.places[e.source].column < s.places[e.target].column
  }

  /** The nodes lie in the columns of their groups, and no column is missing. */
  ghost predicate Consistent(s: Setting) {
    && NP.PlacedAll(s.graph.nodeGroup, s.ranks, s.places, s.maxRow)
    && (forall n :: n in s.places ==> s.places[n].column in s.widths)
    && (forall c: nat :: c in s.widths <==> c <= s.last)
    && (forall n :: n in s.places ==>
          s.graph.nodeGroup[n] < |s.groups| && n in s.graph.nodeLane && n in s.graph.adjacency && n in s.graph.incoming)
    && Distinct(s.edges)
    && (forall e :: e in s.edges <==> e.source in s.graph.adjacency && e.target in s.graph.adjacency[e.source])
    && AllForward(s)
  }

  // ------------------------------------------------------------ kinds of edges

  function Relation(s: Setting, e: EdgeKey): (nat, nat)
    requires Consistent(s) && e in s.edges
  {
    (s.graph.nodeGroup[e.source], s.graph.nodeGroup[e.target])
  }

  function RelationEdges(s: Setting, relation: (nat, nat)): set<EdgeKey>
    requires Consistent(s)
  {
    set e | e in s.edges && Relation(s, e) == relation
  }

  /** The lanes that hold some edge of the relation. */
  function RelationLanes(s: Setting, relation: (nat, nat)): set<nat>
    requires Consistent(s)
  {
    set e | e in RelationEdges(s, relation) && s.graph.nodeLane[e.source] == s.graph.nodeLane[e.target]
      :: s.graph.nodeLane[e.source]
  }

  /** Several edges between neighbouring columns, on one lane at most, share a track. */
  predicate IsBundle(s: Setting, relation: (nat, nat))
    requires Consistent(s)
  {
    && relation.0 in s.ranks && relation.1 in s.ranks && s.ranks[relation.1] == s.ranks[relation.0] + 1
    && |RelationEdges(s, relation)| > 1 && |RelationLanes(s, relation)| <= 1
  }

  predicate Bundled(s: Setting, e: EdgeKey)
    requires Consistent(s) && e in s.edges
  {
    IsBundle(s, Relation(s, e))
  }

  /** The source has other targets, or the target other sources. */
  predicate HasRivals(s: Setting, e: EdgeKey)
    requires Consistent(s) && e in s.edges
  {
    |s.graph.adjacency[e.source]| > 1 || |s.graph.incoming[e.target]| > 1
  }

  predicate Short(s: Setting, e: EdgeKey)
    requires Consistent(s) && e in s.edges
  {
    s.places[e.target].column == s.places[e.source].column + 1
  }

  predicate IsDogleg(s: Setting, e: EdgeKey)
    requires Consistent(s) && e in s.edges
  {
    !Bundled(s, e) && Short(s, e) && HasRivals(s, e)
  }

  predicate IsLongBridge(s: Setting, e: EdgeKey)
    requires Consistent(s) && e in s.edges
  {
    !Bundled(s, e) && !Short(s, e) && HasRivals(s, e)
  }

  lemma BundledIsShort(s: Setting, e: EdgeKey)
    requires Consistent(s) && e in s.edges
    ensures Bundled(s, e) ==> Short(s, e)
  {
    hide RelationEdges, RelationLanes;
  }

  // ---------------------------------------------------------- boundary items

  function SourceItem(s: Setting, e: EdgeKey): Item
    requires Consistent(s) && e in s.edges
  {
    if Bundled(s, e) then BundleItem(s.groups[Relation(s, e).0].nodes, s.groups[Relation(s, e).1].nodes)
    else if HasRivals(s, e) then DoglegSource(e)
    else EdgeItem(e)
  }

  function TargetItem(s: Setting, e: EdgeKey): Item
    requires Consistent(s) && e in s.edges
  {
    if Bundled(s, e) then BundleItem(s.groups[Relation(s, e).0].nodes, s.groups[Relation(s, e).1].nodes)
    else if HasRivals(s, e) then DoglegTarget(e)
    else EdgeItem(e)
  }

  predicate OnLane(s: Setting, e: EdgeKey, lane: nat)
    requires Consistent(s) && e in s.edges
  {
    s.graph.nodeLane[e.source] == lane == s.graph.nodeLane[e.target]
  }

  /** No two lanes both hold an edge of the relation. */
  ghost predicate OnOneLane(s: Setting, relation: (nat, nat))
    requires Consistent(s)
  {
    forall e, f, a, b ::
      (&& e in s.edges && f in s.edges && Relation(s, e) == relation == Relation(s, f)
       && OnLane(s, e, a) && OnLane(s, f, b)) ==> a == b
  }

  lemma TwoElements<T>(s: set<T>, x: T, y: T)
    requires x in s && y in s && x != y
    ensures |s| > 1
  {
    SubsetSize({x, y}, s);
  }

  lemma AtMostOne<T>(s: set<T>, x: T, y: T)
    requires |s| <= 1 && x in s && y in s
    ensures x == y
  {
    if x != y {
      TwoElements(s, x, y);
    }
  }

  lemma LanesAreFew(s: Setting, relation: (nat, nat))
    requires Consistent(s)
    ensures |RelationLanes(s, relation)| <= 1 <==> OnOneLane(s, relation)
  {
    hide Consistent, Relation;
    var lanes := RelationLanes(s, relation);
    if |lanes| <= 1 {
      forall e, f, a, b | e in s.edges && f in s.edges && Relation(s, e) == relation == Relation(s, f)
        && OnLane(s, e, a) && OnLane(s, f, b)
        ensures a == b
      {
        assert e in RelationEdges(s, relation) && f in RelationEdges(s, relation);
        AtMostOne(lanes, a, b);
      }
    }
    if OnOneLane(s, relation) && lanes != {} {
      var a :| a in lanes;
      forall b | b in lanes ensures b == a {
        var e :| e in RelationEdges(s, relation) && OnLane(s, e, a);
        var f :| f in RelationEdges(s, relation) && OnLane(s, f, b);
      }
      assert lanes == {a};
    }
  }

  /** Two edges leave on one track exactly when they join the same neighbouring groups and
      no two lanes pass between those. */
  lemma SharedTrack(s: Setting, e: EdgeKey, f: EdgeKey)
    requires Consistent(s) && GG.Disjoint(GG.Nodes(s.groups)) && e in s.edges && f in s.edges && e != f
    ensures SourceItem(s, e) == SourceItem(s, f) <==>
      Relation(s, e) == Relation(s, f) && Short(s, e) && OnOneLane(s, Relation(s, e))
  {
    hide HasRivals, OnOneLane, RelationLanes;
    var a, b := Relation(s, e), Relation(s, f);
    LanesAreFew(s, a);
    LanesAreFew(s, b);
    assert GG.Nodes(s.groups)[a.0] == s.groups[a.0].nodes && GG.Nodes(s.groups)[a.1] == s.groups[a.1].nodes;
    assert GG.Nodes(s.groups)[b.0] == s.groups[b.0].nodes && GG.Nodes(s.groups)[b.1] == s.groups[b.1].nodes;
    SameBlock(GG.Nodes(s.groups), a.0, b.0);
    SameBlock(GG.Nodes(s.groups), a.1, b.1);
    if a == b {
      TwoElements(RelationEdges(s, a), e, f);
    }
  }

  lemma SameBlock(f: GG.Family, a: nat, b: nat)
    requires GG.Disjoint(f) && a < |f| && b < |f|
    ensures f[a] == f[b] ==> a == b
  {
    if f[a] == f[b] {
      assert f[a][0] in f[a] && f[a][0] in f[b];
    }
  }

  /** An unbundled edge has one track of its own kind at both ends exactly when nothing else
      leaves its source or enters its target. */
  lemma SingleTrack(s: Setting, e: EdgeKey)
    requires Consistent(s) && GG.Reverses(s.graph.incoming, s.graph.adjacency) && e in s.edges && !Bundled(s, e)
    ensures SourceItem(s, e) == TargetItem(s, e) <==>
      forall f :: f in s.edges && (f.source == e.source || f.target == e.target) ==> f == e
  {
    hide Bundled;
    var out, into := s.graph.adjacency[e.source], s.graph.incoming[e.target];
    if HasRivals(s, e) {
      if |out| > 1 {
        var v := Another(out, e.target);
        assert EdgeKey(e.source, v) in s.edges;
      } else {
        var u := Another(into, e.source);
        assert EdgeKey(u, e.target) in s.edges;
      }
    } else {
      forall f | f in s.edges && (f.source == e.source || f.target == e.target) ensures f == e {
        if f.source == e.source {
          AtMostOne(out, f.target, e.target);
        } else {
          assert f.source in into && e.source in into;
          AtMostOne(into, f.source, e.source);
        }
      }
    }
  }

  lemma Another<T>(s: set<T>, x: T) returns (y: T)
    requires |s| > 1
    ensures y in s && y != x
  {
    if s <= {x} {
      SubsetSize(s, {x});
    }
    assert s - {x} != {};
    y :| y in s - {x};
  }

  function SourceColumn(s: Setting, e: EdgeKey): nat
    requires Consistent(s) && e in s.edges
  {
    s.places[e.source].column
  }

  /** The boundary left of the target. */
  function LastBoundary(s: Setting, e: EdgeKey): nat
    requires Consistent(s) && e in s.edges
  {
    s.places[e.target].column - 1
  }

  predicate SameRow(s: Setting, e: EdgeKey)
    requires Consistent(s) && e in s.edges
  {
    s.places[e.source].row == s.places[e.target].row
  }

  /** The tracks an edge needs; a dogleg along one row also keeps its tracks apart. */
  predicate Needs(s: Setting, e: EdgeKey, boundary: nat, item: Item)
    requires Consistent(s) && e in s.edges
  {
    || (boundary == SourceColumn(s, e) && item == SourceItem(s, e))
    || (boundary == LastBoundary(s, e) && item == TargetItem(s, e))
    || (boundary == SourceColumn(s, e) && item == SeparatorItem(boundary) && IsDogleg(s, e) && SameRow(s, e))
  }

  type ItemSets = map<nat, set<Item>>

  function SetAt(values: ItemSets, boundary: nat): set<Item> {
    if boundary in values then values[boundary] else {}
  }

  function Put(values: ItemSets, boundary: nat, items: set<Item>): ItemSets {
    values[boundary := SetAt(values, boundary) + items]
  }

  ghost predicate NeededBy(s: Setting, n: nat, boundary: nat, item: Item)
    requires Consistent(s) && n <= |s.edges|
  {
    exists i :: 0 <= i < n && Needs(s, s.edges[i], boundary, item)
  }

  lemma NeededOneMore(s: Setting, n: nat, boundary: nat, item: Item)
    requires Consistent(s) && n < |s.edges|
    ensures NeededBy(s, n + 1, boundary, item) <==>
      NeededBy(s, n, boundary, item) || Needs(s, s.edges[n], boundary, item)
  {
    hide Needs, Consistent;
  }

  /** The items of every boundary, edge by edge. */
  method BoundaryItems(s: Setting) returns (values: ItemSets)
    requires Consistent(s)
    ensures forall b: nat, item :: item in SetAt(values, b) <==> NeededBy(s, |s.edges|, b, item)
  {
    hide Consistent, Bundled, HasRivals, NeededBy;
    values := map[];
    var n: nat := 0;
    NothingNeeded(s);
    while n < |s.edges|
      invariant n <= |s.edges|
      invariant forall b: nat, item :: item in SetAt(values, b) <==> NeededBy(s, n, b, item)
    {
      var e := s.edges[n];
      ghost var before := values;
      BundledIsShort(s, e);
      ShortEnds(s, e);
      if Bundled(s, e) {
        values := Put(values, SourceColumn(s, e), {SourceItem(s, e)});
      } else if IsDogleg(s, e) {
        var items := {DoglegSource(e), DoglegTarget(e)};
        if SameRow(s, e) {
          items := items + {SeparatorItem(SourceColumn(s, e))};
        }
        values := Put(values, SourceColumn(s, e), items);
      } else if IsLongBridge(s, e) {
        values := Put(values, SourceColumn(s, e), {DoglegSource(e)});
        values := Put(values, LastBoundary(s, e), {DoglegTarget(e)});
      } else {
        values := Put(values, SourceColumn(s, e), {EdgeItem(e)});
        if !Short(s, e) {
          values := Put(values, LastBoundary(s, e), {EdgeItem(e)});
        }
      }
      forall b: nat, item ensures item in SetAt(values, b) <==> NeededBy(s, n + 1, b, item) {
        NeededOneMore(s, n, b, item);
        assert item in SetAt(values, b) <==> item in SetAt(before, b) || Needs(s, e, b, item);
      }
      n := n + 1;
    }
  }

  lemma NothingNeeded(s: Setting)
    requires Consistent(s)
    ensures forall b: nat, item :: !NeededBy(s, 0, b, item)
  {
  }

  lemma ShortEnds(s: Setting, e: EdgeKey)
    requires Consistent(s) && e in s.edges
    ensures Short(s, e) <==> LastBoundary(s, e) == SourceColumn(s, e)
  {
  }
}
