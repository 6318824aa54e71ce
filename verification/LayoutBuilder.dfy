/** From a graph to a finished drawing, stage by stage. */
module LayoutBuilder {
  import opened Collections
  import opened RoutePath
  import opened RouteDrawing
  import opened RouteGeometry
  import opened Layout
  import opened BoundaryPlan
  import opened BoundaryTracks
  import opened LongRoutes
  import CN = Connectivity
  import DG = Digraph
  import GG = GroupGraph
  import LY = Layering
  import NP = NodePlacement
  import RA = RowAllocation
  import RR = RenderedReachability
  import SW = Switches

  // -------------------------------------------------------------- the setting

  /** The setting belongs to the graph: its relation, its ranks, its groups. */
  ghost predicate IsSetting(groups: seq<GG.Siblings>, lanes: GG.Family, s: Setting) {
    && s.groups == groups && GG.Describes(s.graph, groups, lanes)
    && LY.Ranked(GG.Quotient(groups), s.ranks) && Consistent(s)
    && forall c: nat :: c <= s.last ==> ColumnNodes(s.places, c) != {}
  }

  /** Every edge once, in some order; the program sorts them. */
  method SemanticEdges(adjacency: GG.Adjacency) returns (edges: seq<EdgeKey>)
    ensures Distinct(edges)
    ensures forall e :: e in edges <==> e.source in adjacency && e.target in adjacency[e.source]
  {
    var all := set u, v | u in adjacency && v in adjacency[u] :: EdgeKey(u, v);
    forall e ensures e in all <==> e.source in adjacency && e.target in adjacency[e.source] {
      assert e == EdgeKey(e.source, e.target);
    }
    edges := Listing(all);
    forall e ensures e in edges <==> e in all {
      assert e in Elements(edges) <==> e in all;
    }
  }

  function ColumnNodes(places: NP.Places, column: nat): set<Node> {
    set n | n in places && places[n].column == column
  }

  /** The formatter must give every column a positive width. */
  method FormatColumns(places: NP.Places, last: nat, format: set<Node> -> int) returns (widths: Option<Widths>)
    ensures widths.Some? <==> forall c: nat :: c <= last ==> format(ColumnNodes(places, c)) >= 1
    ensures widths.Some? ==> forall c: nat :: c in widths.value <==> c <= last
    ensures widths.Some? ==> forall c: nat :: c in widths.value ==> widths.value[c] == format(ColumnNodes(places, c))
  {
    hide ColumnNodes;
    var result: Widths := map[];
    var c: nat := 0;
    while c <= last
      invariant c <= last + 1 && forall d: nat :: d in result <==> d < c
      invariant forall d: nat :: d < c ==> format(ColumnNodes(places, d)) >= 1
      invariant forall d: nat :: d in result ==> result[d] == format(ColumnNodes(places, d))
    {
      var width := format(ColumnNodes(places, c));
      if width < 1 {
        return None;
      }
      result := result[c := width];
      c := c + 1;
    }
    return Some(result);
  }

  method LastColumn(ranks: map<nat, nat>) returns (last: nat)
    requires ranks != map[]
    ensures (forall a :: a in ranks ==> ranks[a] <= last) && exists a :: a in ranks && ranks[a] == last
  {
    var a: nat :| a in ranks;
    last := ranks[a];
    ghost var best: nat := a;
    var todo := ranks.Keys;
    while todo != {}
      invariant todo <= ranks.Keys && best in ranks && ranks[best] == last
      invariant forall b: nat :: b in ranks && b !in todo ==> ranks[b] <= last
      decreases |todo|
    {
      var b: nat :| b in todo;
      if ranks[b] > last {
        last := ranks[b];
        best := b;
      }
      todo := todo - {b};
    }
  }

  lemma RelatedGroups(groups: seq<GG.Siblings>, nodeGroup: map<Node, nat>, u: Node, v: Node)
    requires GG.Indexes(GG.Nodes(groups), nodeGroup) && GG.Related(groups, u, v)
    ensures u in nodeGroup && v in nodeGroup && DG.Edge(GG.Quotient(groups), nodeGroup[u], nodeGroup[v])
  {
    var a, b :| 0 <= a < |groups| && 0 <= b < |groups| && u in groups[a].nodes && v in groups[b].nodes
      && b in groups[a].targets;
    assert u in GG.Nodes(groups)[a] && v in GG.Nodes(groups)[b];
  }

  lemma EdgesGoForward(groups: seq<GG.Siblings>, lanes: GG.Family, w: GG.ValidatedGraph, ranks: map<nat, nat>,
                       u: Node, v: Node)
    requires GG.Describes(w, groups, lanes) && u in w.adjacency && v in w.adjacency[u]
    requires forall a, b :: DG.Edge(GG.Quotient(groups), a, b) ==> a in ranks && b in ranks && ranks[a] < ranks[b]
    ensures u in w.nodeGroup && v in w.nodeGroup && w.nodeGroup[u] in ranks && w.nodeGroup[v] in ranks
    ensures ranks[w.nodeGroup[u]] < ranks[w.nodeGroup[v]]
  {
    hide GG.Indexes, GG.Related, GG.Covers, GG.Quotient, GG.Reverses;
    RelatedGroups(groups, w.nodeGroup, u, v);
  }

  lemma RanksCoverGroups(groups: seq<GG.Siblings>, ranks: map<nat, nat>)
    requires ranks.Keys == GG.Quotient(groups).Keys
    ensures forall a: nat :: a in ranks <==> a < |groups|
  {
  }

  lemma SettingHolds(groups: seq<GG.Siblings>, lanes: GG.Family, s: Setting)
    requires s.groups == groups && GG.Describes(s.graph, groups, lanes) && LY.Ranked(GG.Quotient(groups), s.ranks)
    requires forall a, b :: DG.Edge(GG.Quotient(groups), a, b) ==>
      a in s.ranks && b in s.ranks && s.ranks[a] < s.ranks[b]
    requires NP.PlacedAll(s.graph.nodeGroup, s.ranks, s.places, s.maxRow)
    requires forall a :: a in s.ranks ==> s.ranks[a] <= s.last
    requires forall c: nat :: c <= s.last ==> ColumnNodes(s.places, c) != {}
    requires forall c: nat :: c in s.widths <==> c <= s.last
    requires Distinct(s.edges)
    requires forall e :: e in s.edges <==> e.source in s.graph.adjacency && e.target in s.graph.adjacency[e.source]
    ensures IsSetting(groups, lanes, s)
  {
    hide LY.Ranked, Distinct, GG.Describes, GG.Disjoint, ColumnNodes, NP.PlacedAll, DG.Edge;
    GoesForward(groups, lanes, s);
    NodesAreKnown(groups, lanes, s);
  }

  lemma GoesForward(groups: seq<GG.Siblings>, lanes: GG.Family, s: Setting)
    requires GG.Describes(s.graph, groups, lanes) && NP.PlacedAll(s.graph.nodeGroup, s.ranks, s.places, s.maxRow)
    requires forall a, b :: DG.Edge(GG.Quotient(groups), a, b) ==>
      a in s.ranks && b in s.ranks && s.ranks[a] < s.ranks[b]
    requires forall e :: e in s.edges <==> e.source in s.graph.adjacency && e.target in s.graph.adjacency[e.source]
    ensures AllForward(s)
  {
    hide GG.Describes, DG.Edge, GG.Quotient, NP.Apart, NP.WithinRows;
    forall e | e in s.edges
      ensures e.source in s.places && e.target in s.places && s.places[e.source].column < s.places[e.target].column
    {
      EdgesGoForward(groups, lanes, s.graph, s.ranks, e.source, e.target);
    }
  }

  lemma NodesAreKnown(groups: seq<GG.Siblings>, lanes: GG.Family, s: Setting)
    requires s.groups == groups && GG.Describes(s.graph, groups, lanes)
    requires NP.PlacedAll(s.graph.nodeGroup, s.ranks, s.places, s.maxRow)
    requires (forall a :: a in s.ranks ==> s.ranks[a] <= s.last) && forall c: nat :: c in s.widths <==> c <= s.last
    ensures forall n :: n in s.places ==> s.places[n].column in s.widths
    ensures forall n :: n in s.places ==>
      s.graph.nodeGroup[n] < |s.groups| && n in s.graph.nodeLane && n in s.graph.adjacency && n in s.graph.incoming
    ensures GG.Indexes(GG.Nodes(groups), s.graph.nodeGroup)
  {
    hide GG.Expansion, NP.Apart, NP.WithinRows;
  }

  /** The nodes of the groups with this rank. */
  ghost function RankNodes(groups: seq<GG.Siblings>, ranks: map<nat, nat>, c: nat): set<Node> {
    set a, n | a in ranks && a < |groups| && ranks[a] == c && n in groups[a].nodes :: n
  }

  /** The formatter refuses a column that the layout of these groups has. */
  ghost predicate Narrow(groups: seq<GG.Siblings>, format: set<Node> -> int) {
    exists ranks, c: nat :: LY.Ranked(GG.Quotient(groups), ranks) && NarrowColumn(groups, ranks, format, c)
  }

  ghost predicate NarrowColumn(groups: seq<GG.Siblings>, ranks: map<nat, nat>, format: set<Node> -> int, c: nat) {
    RankNodes(groups, ranks, c) != {} && format(RankNodes(groups, ranks, c)) < 1
  }

  /** However its rows were chosen, a column holds the nodes of its rank. */
  lemma ColumnIsRank(groups: seq<GG.Siblings>, nodeGroup: map<Node, nat>, ranks: map<nat, nat>, places: NP.Places,
                     maxRow: nat, c: nat)
    requires NP.Sorted(groups, nodeGroup, ranks) && NP.PlacedAll(nodeGroup, ranks, places, maxRow)
    ensures ColumnNodes(places, c) == RankNodes(groups, ranks, c)
  {
    hide NP.Apart, NP.WithinRows;
    forall n ensures n in ColumnNodes(places, c) <==> n in RankNodes(groups, ranks, c) {
      if n in ColumnNodes(places, c) {
        assert n in GG.Nodes(groups)[nodeGroup[n]];
      }
      if n in RankNodes(groups, ranks, c) {
        var a :| a in ranks && a < |groups| && ranks[a] == c && n in groups[a].nodes;
        assert n in GG.Nodes(groups)[a];
      }
    }
  }

  /** Longest-path ranks leave no column empty. */
  lemma RankIsFilled(groups: seq<GG.Siblings>, ranks: map<nat, nat>, last: nat, c: nat)
    requires GG.Disjoint(GG.Nodes(groups)) && LY.Ranked(GG.Quotient(groups), ranks)
    requires (exists a :: a in ranks && ranks[a] == last) && c <= last
    ensures RankNodes(groups, ranks, c) != {}
  {
    hide LY.LongestDepth;
    var v :| v in ranks && ranks[v] == last;
    var a := LY.ColumnsAreContiguous(GG.Quotient(groups), ranks, v, c);
    assert GG.Nodes(groups)[a] != [];
    var n := GG.Nodes(groups)[a][0];
    assert a < |groups| && ranks[a] == c && n in groups[a].nodes;
    assert n in RankNodes(groups, ranks, c);
  }

  lemma EveryColumnIsRank(groups: seq<GG.Siblings>, nodeGroup: map<Node, nat>, ranks: map<nat, nat>, places: NP.Places,
                          maxRow: nat, last: nat)
    requires NP.Sorted(groups, nodeGroup, ranks) && NP.PlacedAll(nodeGroup, ranks, places, maxRow)
    requires GG.Disjoint(GG.Nodes(groups)) && LY.Ranked(GG.Quotient(groups), ranks)
    requires (forall a :: a in ranks ==> ranks[a] <= last) && exists a :: a in ranks && ranks[a] == last
    ensures forall c: nat :: ColumnNodes(places, c) == RankNodes(groups, ranks, c)
    ensures forall c: nat :: c <= last <==> RankNodes(groups, ranks, c) != {}
  {
    hide NP.Sorted, NP.PlacedAll, GG.Disjoint, LY.Ranked, ColumnNodes;
    forall c: nat ensures ColumnNodes(places, c) == RankNodes(groups, ranks, c) {
      ColumnIsRank(groups, nodeGroup, ranks, places, maxRow, c);
    }
    forall c: nat | c <= last ensures RankNodes(groups, ranks, c) != {} {
      RankIsFilled(groups, ranks, last, c);
    }
  }

  /** Whether a column is refused does not depend on the placement. */
  lemma NarrowIffRefused(groups: seq<GG.Siblings>, ranks: map<nat, nat>, places: NP.Places, last: nat,
                         format: set<Node> -> int)
    requires LY.Ranked(GG.Quotient(groups), ranks)
    requires forall c: nat :: ColumnNodes(places, c) == RankNodes(groups, ranks, c)
    requires forall c: nat :: c <= last <==> RankNodes(groups, ranks, c) != {}
    ensures Narrow(groups, format) <==> exists c: nat :: c <= last && format(ColumnNodes(places, c)) < 1
  {
    hide LY.Ranked, ColumnNodes, RankNodes;
    if c: nat :| c <= last && format(ColumnNodes(places, c)) < 1 {
      assert NarrowColumn(groups, ranks, format, c);
    }
    if Narrow(groups, format) {
      var other, c: nat :| LY.Ranked(GG.Quotient(groups), other) && NarrowColumn(groups, other, format, c);
      LY.RanksAreUnique(GG.Quotient(groups), ranks, other);
      assert c <= last && format(ColumnNodes(places, c)) < 1;
    }
  }

  /** Validate, rank, place and measure. */
  method Prepare(groups: seq<GG.Siblings>, w: GG.ValidatedGraph, lanes: GG.Family, position: nat -> nat,
                 format: set<Node> -> int) returns (s: Option<Setting>)
    requires GG.Acceptable(groups, lanes) && GG.Describes(w, groups, lanes) && w.nodeGroup != map[]
    ensures s.Some? ==> IsSetting(groups, lanes, s.value) && s.value.graph == w
    ensures s.None? <==> Narrow(groups, format)
  {
    hide GG.Describes, DG.Acyclic, LY.Ranked, GG.LanesOk, GG.Disjoint, NP.PlacedAll, ColumnNodes, IsSetting,
         LY.LongestDepth, NP.Sorted, Narrow, RankNodes;
    GG.QuotientIsClosed(groups);
    var computed := LY.GroupRanks(GG.Quotient(groups));
    var ranks := computed.value;
    assert LY.Ranked(GG.Quotient(groups), ranks) by { RankedNow(groups, ranks); }
    RanksCoverGroups(groups, ranks);
    IndexedNodes(groups, lanes, w, ranks);
    LanesAreDisjoint(groups, lanes);
    var places, _, maxRow := NP.PlaceNodes(groups, w.nodeGroup, w.incoming, lanes, position, ranks);
    SomeGroup(groups, lanes, w, ranks);
    var last := LastColumn(ranks);
    EveryColumnIsRank(groups, w.nodeGroup, ranks, places, maxRow, last);
    NarrowIffRefused(groups, ranks, places, last, format);
    var widths := FormatColumns(places, last, format);
    if widths.None? {
      return None;
    }
    var edges := SemanticEdges(w.adjacency);
    var setting := Setting(groups, w, ranks, places, maxRow, widths.value, last, edges);
    SettingHolds(groups, lanes, setting);
    return Some(setting);
  }

  lemma LanesAreDisjoint(groups: seq<GG.Siblings>, lanes: GG.Family)
    requires GG.LanesOk(groups, lanes)
    ensures GG.Disjoint(lanes)
  {
  }

  lemma RankedNow(groups: seq<GG.Siblings>, ranks: map<nat, nat>)
    requires ranks.Keys == GG.Quotient(groups).Keys
    requires forall v :: v in ranks ==> LY.LongestDepth(GG.Quotient(groups), v, ranks[v])
    ensures LY.Ranked(GG.Quotient(groups), ranks)
  {
    hide LY.LongestDepth;
  }

  lemma IndexedNodes(groups: seq<GG.Siblings>, lanes: GG.Family, w: GG.ValidatedGraph, ranks: map<nat, nat>)
    requires GG.Describes(w, groups, lanes) && forall a: nat :: a in ranks <==> a < |groups|
    ensures NP.Sorted(groups, w.nodeGroup, ranks)
  {
  }

  lemma SomeGroup(groups: seq<GG.Siblings>, lanes: GG.Family, w: GG.ValidatedGraph, ranks: map<nat, nat>)
    requires GG.Describes(w, groups, lanes) && w.nodeGroup != map[] && forall a: nat :: a in ranks <==> a < |groups|
    ensures ranks != map[]
  {
    var u :| u in w.nodeGroup;
    assert w.nodeGroup[u] < |groups|;
    assert w.nodeGroup[u] in ranks;
  }

  // ------------------------------------------------------------ the column table

  function Doglegs(s: Setting): set<EdgeKey>
    requires Consistent(s)
  {
    set e | e in s.edges && IsDogleg(s, e)
  }

  /** Every dogleg leaves its row as it should. */
  ghost predicate RowsOk(s: Setting, rows: EdgeRows)
    requires Consistent(s)
  {
    && rows.Keys == Doglegs(s)
    && forall e :: e in rows ==> DoglegRow(s.places[e.source], s.places[e.target], s.maxRow, rows[e])
  }

  lemma RowsOkKnown(s: Setting, rows: EdgeRows)
    requires Consistent(s) && RowsOk(s, rows)
    ensures RowsKnown(s, rows)
  {
    hide Consistent, IsDogleg;
  }

  method ChooseDoglegRows(s: Setting) returns (rows: EdgeRows)
    requires Consistent(s)
    ensures RowsOk(s, rows) && PrivateRowsDiffer(s.maxRow, rows)
  {
    hide IsDogleg, DoglegRow, PrivateRowsDiffer;
    var doglegs := Doglegs(s);
    forall e | e in doglegs ensures e.source in s.places && e.target in s.places {
      InOrder(s, e);
    }
    RowsWithin(s);
    rows := DoglegRouteRows(doglegs, s.places, s.maxRow);
  }

  lemma RowsWithin(s: Setting)
    requires Consistent(s)
    ensures forall n :: n in s.places ==> s.places[n].row <= s.maxRow
  {
  }

  /** The boundary holds what its edges need, in an order the validator accepts. */
  ghost predicate BoundaryOk(s: Setting, rows: EdgeRows, b: nat, order: seq<Item>)
    requires Consistent(s) && RowsKnown(s, rows)
  {
    && (forall item :: item in order <==> NeededBy(s, |s.edges|, b, item))
    && IsBoundaryOrder(s, rows, b, Elements(order), order)
  }

  ghost predicate BoundariesBelow(s: Setting, rows: EdgeRows, items: Boundaries, n: nat)
    requires Consistent(s) && RowsKnown(s, rows)
  {
    forall b: nat :: (b in items <==> b < n) && (b < n ==> BoundaryOk(s, rows, b, items[b]))
  }

  /** No candidate order of the boundary passes the validator. */
  ghost predicate NoOrderAt(s: Setting, rows: EdgeRows, b: nat)
    requires Consistent(s) && RowsKnown(s, rows)
  {
    exists base, orders :: (forall item :: item in base <==> NeededBy(s, |s.edges|, b, item)) && Distinct(base)
      && Exhausted(s, rows, b, base, orders)
  }

  lemma ActiveIsNeeded(s: Setting, values: ItemSets, b: nat)
    requires Consistent(s) && forall item :: item in SetAt(values, b) <==> NeededBy(s, |s.edges|, b, item)
    ensures ActiveItems(s, b) <= SetAt(values, b)
  {
    hide Consistent, Bundled, HasRivals, SourceItem, TargetItem;
    forall item | item in ActiveItems(s, b) ensures item in SetAt(values, b) {
      var e :| e in ShortEdges(s, Some(b)) && (item == SourceItem(s, e) || item == TargetItem(s, e));
      ShortEnds(s, e);
      var i :| 0 <= i < |s.edges| && s.edges[i] == e;
      assert Needs(s, s.edges[i], b, item);
    }
  }

  method OrderBoundaries(s: Setting, rows: EdgeRows) returns (items: Boundaries, stuck: Option<nat>)
    requires Consistent(s) && RowsKnown(s, rows)
    ensures stuck.None? ==> BoundariesBelow(s, rows, items, s.last)
    ensures stuck.Some? ==> stuck.value < s.last && NoOrderAt(s, rows, stuck.value)
  {
    hide Consistent, RowsKnown, NeededBy, IsBoundaryOrder, Exhausted, ActiveItems;
    var values := BoundaryItems(s);
    items, stuck := map[], None;
    var b: nat := 0;
    while b < s.last
      invariant b <= s.last && BoundariesBelow(s, rows, items, b)
    {
      ActiveIsNeeded(s, values, b);
      BothColumns(s, b);
      var order := OrderBoundary(s, rows, b, SetAt(values, b));
      if order.None? {
        assert NoOrderAt(s, rows, b) by { NothingWorks(s, rows, b, SetAt(values, b)); }
        return items, Some(b);
      }
      assert BoundaryOk(s, rows, b, order.value) by { BoundaryIsOk(s, rows, b, SetAt(values, b), order.value); }
      items := items[b := order.value];
      b := b + 1;
    }
  }

  lemma BothColumns(s: Setting, b: nat)
    requires Consistent(s) && b < s.last
    ensures b in s.widths && b + 1 in s.widths
  {
  }

  lemma NothingWorks(s: Setting, rows: EdgeRows, b: nat, items: set<Item>)
    requires Consistent(s) && RowsKnown(s, rows)
    requires forall item :: item in items <==> NeededBy(s, |s.edges|, b, item)
    requires exists base, orders :: Arrangement(items, base) && Exhausted(s, rows, b, base, orders)
    ensures NoOrderAt(s, rows, b)
  {
    hide Consistent, RowsKnown, NeededBy, Exhausted;
    var base, orders :| Arrangement(items, base) && Exhausted(s, rows, b, base, orders);
    assert forall item :: item in base <==> item in Elements(base);
  }

  lemma BoundaryIsOk(s: Setting, rows: EdgeRows, b: nat, items: set<Item>, order: seq<Item>)
    requires Consistent(s) && RowsKnown(s, rows) && IsBoundaryOrder(s, rows, b, items, order)
    requires forall item :: item in items <==> NeededBy(s, |s.edges|, b, item)
    ensures BoundaryOk(s, rows, b, order)
  {
    hide Consistent, RowsKnown, NeededBy, PartValid, CandidateOf;
    assert forall item :: item in order <==> item in Elements(order);
  }

  /** The column table of the whole drawing. */
  ghost predicate Tabled(s: Setting, rows: EdgeRows, f: Frame) {
    && Consistent(s) && RowsOk(s, rows) && RowsKnown(s, rows)
    && f.widths == s.widths && f.places == s.places && BoundariesBelow(s, rows, f.items, s.last)
    && f == FrameOf(f.widths, f.items, f.places) && Framed(f)
  }

  lemma ItemsAreDistinct(s: Setting, rows: EdgeRows, items: Boundaries)
    requires Consistent(s) && RowsKnown(s, rows) && BoundariesBelow(s, rows, items, s.last)
    ensures DistinctItems(items)
  {
    hide Consistent, RowsKnown, NeededBy, PartValid, CandidateOf;
    forall c | c in items ensures Distinct(items[c]) {
      assert BoundaryOk(s, rows, c, items[c]);
    }
  }

  lemma PlacesInColumns(s: Setting)
    requires Consistent(s)
    ensures forall n :: n in s.places ==> s.places[n].column in s.widths
  {
  }

  /** Every edge finds its tracks. */
  lemma EdgeHasTracks(s: Setting, rows: EdgeRows, f: Frame, e: EdgeKey)
    requires Tabled(s, rows, f) && e in s.edges
    ensures HasTracks(s, f, e) && Ends(f, e) && LastBoundary(s, e) in f.widths
  {
    hide Bundled, HasRivals, RowsOk, RowsKnown, IsBoundaryOrder, SourceItem, TargetItem, Starts, Tracks, FrameOf,
         Consistent;
    InOrder(s, e);
    BothColumns(s, SourceColumn(s, e));
    BothColumns(s, LastBoundary(s, e));
    var i :| 0 <= i < |s.edges| && s.edges[i] == e;
    assert Needs(s, s.edges[i], SourceColumn(s, e), SourceItem(s, e));
    assert Needs(s, s.edges[i], LastBoundary(s, e), TargetItem(s, e));
    assert BoundaryOk(s, rows, SourceColumn(s, e), f.items[SourceColumn(s, e)]);
    assert BoundaryOk(s, rows, LastBoundary(s, e), f.items[LastBoundary(s, e)]);
  }

  // --------------------------------------------------------------- long edges

  function LongsBelow(s: Setting, n: nat): seq<Drawing>
    requires Consistent(s) && n <= |s.edges|
  {
    if n == 0 then [] else
      var e := s.edges[n - 1];
      LongsBelow(s, n - 1) + (if Short(s, e) then [] else [LongDrawing(s, e)])
  }

  function LongDrawings(s: Setting): seq<Drawing>
    requires Consistent(s)
  {
    LongsBelow(s, |s.edges|)
  }

  ghost predicate IsLong(s: Setting, d: Drawing)
    requires Consistent(s)
  {
    d.edge in s.edges && !Short(s, d.edge) && d == LongDrawing(s, d.edge)
  }

  ghost predicate LongBelow(s: Setting, n: nat, e: EdgeKey)
    requires Consistent(s) && n <= |s.edges|
  {
    exists k :: 0 <= k < n && s.edges[k] == e && !Short(s, s.edges[k])
  }

  lemma {:induction false} LongsBelowAre(s: Setting, n: nat)
    requires Consistent(s) && n <= |s.edges|
    ensures DrawnOnce(LongsBelow(s, n))
    ensures forall i :: 0 <= i < |LongsBelow(s, n)| ==> IsLong(s, LongsBelow(s, n)[i])
    ensures forall e :: Lists(LongsBelow(s, n), e) <==> LongBelow(s, n, e)
  {
    hide Short, LongDrawing, Consistent, Lists, LongBelow;
    if n == 0 {
      forall e ensures !Lists([], e) && !LongBelow(s, 0, e) {
        NothingListed(e);
        NothingLong(s, e);
      }
    } else {
      forall x ensures LongBelow(s, n, x) <==> LongBelow(s, n - 1, x) || (x == s.edges[n - 1] && !Short(s, x)) {
        LongOneMore(s, n - 1, x);
      }
      LongsBelowAre(s, n - 1);
      var front, e := LongsBelow(s, n - 1), s.edges[n - 1];
      LongIsEarlier(s, n - 1);
      assert front + [] == front;
      if !Short(s, e) {
        LongEdge(s, e);
        forall x ensures Lists(front + [LongDrawing(s, e)], x) <==> Lists(front, x) || x == e {
          ListsSnoc(front, LongDrawing(s, e), x);
        }
        forall i | 0 <= i < |front| ensures front[i].edge != e {
          ListedAt(front, i);
        }
      }
    }
  }

  lemma LongEdge(s: Setting, e: EdgeKey)
    requires Consistent(s) && e in s.edges
    ensures LongDrawing(s, e).edge == e
  {
  }

  lemma NothingLong(s: Setting, e: EdgeKey)
    requires Consistent(s)
    ensures !LongBelow(s, 0, e)
  {
  }

  lemma LongOneMore(s: Setting, n: nat, e: EdgeKey)
    requires Consistent(s) && n < |s.edges|
    ensures LongBelow(s, n + 1, e) <==> LongBelow(s, n, e) || (e == s.edges[n] && !Short(s, e))
  {
    hide Short, Consistent;
  }

  lemma LongIsEarlier(s: Setting, n: nat)
    requires Consistent(s) && n < |s.edges|
    ensures !LongBelow(s, n, s.edges[n])
  {
    hide Short;
  }

  lemma LongDrawingsAre(s: Setting)
    requires Consistent(s)
    ensures DrawnOnce(LongDrawings(s))
    ensures forall i :: 0 <= i < |LongDrawings(s)| ==> IsLong(s, LongDrawings(s)[i])
    ensures forall e :: Lists(LongDrawings(s), e) <==> e in s.edges && !Short(s, e)
  {
    hide Short, LongsBelow, Consistent;
    LongsBelowAre(s, |s.edges|);
  }

  /** The rows that doglegs use are in use from the start. */
  function RowsInUse(rows: EdgeRows): RA.Rows {
    map r | r in rows.Values :: set e | e in rows && rows[e] == r
  }

  lemma InUseByDoglegs(rows: EdgeRows, r: nat, e: EdgeKey)
    ensures e in RA.RowOf(RowsInUse(rows), r) <==> e in rows && rows[e] == r
  {
  }

  function WorkOf(s: Setting, rows: EdgeRows, f: Frame): Work
    requires Consistent(s) && RowsKnown(s, rows) && forall e :: e in s.edges ==> Ends(f, e)
  {
    Work(f, ShortDrawings(s, rows, None), LongDrawings(s), s.maxRow, RowsInUse(rows), AnchorsOf(f, Elements(s.edges)))
  }

  lemma AllEnds(s: Setting, rows: EdgeRows, f: Frame)
    requires Tabled(s, rows, f)
    ensures forall e :: e in s.edges ==> Ends(f, e)
  {
    hide Tabled, Ends;
    forall e | e in s.edges ensures Ends(f, e) {
      EdgeHasTracks(s, rows, f, e);
    }
  }

  lemma ShortsAreBridgeable(s: Setting, rows: EdgeRows, f: Frame)
    requires Tabled(s, rows, f)
    ensures AllBridgeable(f, ShortDrawings(s, rows, None))
  {
    hide ShortDrawings, HasTracks, Consistent, Framed, RowsKnown, RowsOk, ShortDrawing, Ends, Bridgeable, Short,
         BoundariesBelow, FrameOf;
    var drawings := ShortDrawings(s, rows, None);
    ShortDrawingsAre(s, rows, None);
    forall i | 0 <= i < |drawings| ensures Bridgeable(f, drawings[i]) {
      assert IsShort(s, rows, None, drawings[i]);
      EdgeHasTracks(s, rows, f, drawings[i].edge);
      ShortIsBridgeable(s, rows, f, drawings[i].edge);
    }
  }

  lemma LongsAreBridgeable(s: Setting, rows: EdgeRows, f: Frame)
    requires Tabled(s, rows, f)
    ensures AllLong(f, LongDrawings(s))
  {
    hide LongDrawings, HasTracks, Consistent, Framed, RowsKnown, RowsOk, Ends, Bridgeable, Short, BoundariesBelow,
         FrameOf;
    var drawings := LongDrawings(s);
    LongDrawingsAre(s);
    forall i | 0 <= i < |drawings| ensures Bridgeable(f, drawings[i]) && drawings[i].Long? {
      assert IsLong(s, drawings[i]);
      EdgeHasTracks(s, rows, f, drawings[i].edge);
      LongIsBridgeable(s, f, drawings[i].edge);
    }
  }

  lemma DoglegIsShort(s: Setting, e: EdgeKey)
    requires Consistent(s) && e in s.edges && IsDogleg(s, e)
    ensures Short(s, e)
  {
  }

  /** Long edges are placed, distinct, and on no row yet. */
  lemma LongsAreRoutable(s: Setting, rows: EdgeRows, f: Frame)
    requires Tabled(s, rows, f)
    ensures RA.Routable(EdgeList(LongDrawings(s)), f.places, s.maxRow, RowsInUse(rows))
  {
    hide LongDrawings, Consistent, Framed, RowsKnown, Short, BoundariesBelow, FrameOf, IsDogleg, RowsInUse,
         LongDrawing, DoglegRow, NP.Apart;
    var drawings, used := LongDrawings(s), RowsInUse(rows);
    LongDrawingsAre(s);
    RowsWithin(s);
    forall r: nat, e | e in RA.RowOf(used, r)
      ensures e in rows && e in s.edges && IsDogleg(s, e) && RA.Placed(e, f.places)
    {
      InUseByDoglegs(rows, r, e);
      InOrder(s, e);
    }
    forall r: nat ensures RA.AllPlaced(RA.RowOf(used, r), f.places) {
    }
    forall e | e in EdgeList(drawings) ensures RA.Placed(e, f.places) && forall r: nat :: e !in RA.RowOf(used, r) {
      var i :| 0 <= i < |drawings| && EdgeList(drawings)[i] == e;
      assert IsLong(s, drawings[i]);
      InOrder(s, e);
      forall r: nat ensures e !in RA.RowOf(used, r) {
        if e in RA.RowOf(used, r) {
          DoglegIsShort(s, e);
        }
      }
    }
  }

  lemma WorkIsWorkable(s: Setting, rows: EdgeRows, f: Frame)
    requires Tabled(s, rows, f)
    ensures forall e :: e in s.edges ==> Ends(f, e)
    ensures Workable(WorkOf(s, rows, f))
  {
    hide Tabled, RA.Routable, AllLong, AllBridgeable, Ends, ShortDrawings, LongDrawings, Consistent, RowsKnown,
         RowsInUse, Anchor;
    assert Consistent(s) && RowsKnown(s, rows) by { TabledParts(s, rows, f); }
    AllEnds(s, rows, f);
    ShortsAreBridgeable(s, rows, f);
    LongsAreBridgeable(s, rows, f);
    LongsAreRoutable(s, rows, f);
    ShortDrawingsAre(s, rows, None);
    LongDrawingsAre(s);
    var w := WorkOf(s, rows, f);
    forall i | 0 <= i < |w.drawn| ensures w.drawn[i].edge in w.anchors {
      assert IsShort(s, rows, None, w.drawn[i]);
    }
    forall i | 0 <= i < |w.longs| ensures w.longs[i].edge in w.anchors {
      assert IsLong(s, w.longs[i]);
    }
  }

  lemma TabledParts(s: Setting, rows: EdgeRows, f: Frame)
    requires Tabled(s, rows, f)
    ensures Consistent(s) && RowsKnown(s, rows) && RowsOk(s, rows) && Framed(f) && f.places == s.places
  {
  }

  // ------------------------------------------------------- the finished drawing

  datatype Plan = Plan(setting: Setting, rows: EdgeRows, frame: Frame, drawings: seq<Drawing>, cells: Cells)

  /** How building a layout ends; each error names the stage that raised it. */
  datatype Outcome =
    | Built(plan: Plan)
    | Empty
    | Refused
    | TooNarrow
    | NoOrder(setting: Setting, rows: EdgeRows, boundary: nat)
    | NoRow(setting: Setting, rows: EdgeRows, frame: Frame)
    | BadDrawing(plan: Plan)

  ghost predicate RoutedPlan(s: Setting, rows: EdgeRows, f: Frame, chosen: seq<nat>)
    requires Tabled(s, rows, f)
  {
    WorkIsWorkable(s, rows, f);
    var w := WorkOf(s, rows, f);
    |chosen| == |w.longs| && exists base: nat :: PrivateFrom(w, base) && Routed(w, base, chosen)
  }

  ghost predicate StuckPlan(s: Setting, rows: EdgeRows, f: Frame)
    requires Tabled(s, rows, f)
  {
    WorkIsWorkable(s, rows, f);
    var w := WorkOf(s, rows, f);
    exists base: nat, some: seq<nat> :: PrivateFrom(w, base) && Routed(w, base, some) && Stuck(w, base, some)
  }

  /** Everything drawn by the stages before the final check. */
  ghost predicate Drafted(plan: Plan) {
    && Tabled(plan.setting, plan.rows, plan.frame)
    && exists chosen: seq<nat> :: RoutedPlan(plan.setting, plan.rows, plan.frame, chosen) && DraftOf(plan, chosen)
  }

  ghost predicate DraftOf(plan: Plan, chosen: seq<nat>)
    requires Tabled(plan.setting, plan.rows, plan.frame)
    requires RoutedPlan(plan.setting, plan.rows, plan.frame, chosen)
  {
    WorkIsWorkable(plan.setting, plan.rows, plan.frame);
    var w := WorkOf(plan.setting, plan.rows, plan.frame);
    plan.drawings == Routes(w, chosen) && plan.cells == CellsWith(w, chosen)
  }

  /** The check of all routes together. */
  ghost predicate PassesCheck(plan: Plan)
    requires forall e :: e in plan.setting.edges ==> Ends(plan.frame, e)
  {
    RR.Acceptable(plan.cells, AnchorsOf(plan.frame, Elements(plan.setting.edges)), Elements(plan.setting.edges))
  }

  /** A finished layout: drawable edge by edge, shown as it should be, and clear of labels. */
  ghost predicate Finished(plan: Plan) {
    && (forall e :: e in plan.setting.edges ==> Ends(plan.frame, e))
    && Framed(plan.frame) && plan.frame.places == plan.setting.places
    && AllDrawable(plan.frame, plan.drawings) && DrawnOnce(plan.drawings)
    && (forall e :: Lists(plan.drawings, e) <==> e in plan.setting.edges)
    && AllBridgeable(plan.frame, plan.drawings) && plan.cells == DrawAll(plan.frame, plan.drawings)
    && PassesCheck(plan) && Clear(plan.frame, plan.cells)
  }

  lemma AnchorIsBridge(f: Frame, d: Drawing)
    requires Bridgeable(f, d)
    ensures Anchor(f, d.edge) == (BridgeOf(f, d).Source(), BridgeOf(f, d).Target())
  {
  }

  lemma OnRowsAre(f: Frame, longs: seq<Drawing>, chosen: seq<nat>)
    requires AllLong(f, longs) && |chosen| == |longs|
    ensures forall i :: 0 <= i < |longs| ==>
      OnRows(f, longs, chosen)[i].edge == longs[i].edge && OnRows(f, longs, chosen)[i] == OnRow(f, longs[i], chosen[i])
    ensures forall e :: Lists(OnRows(f, longs, chosen), e) <==> Lists(longs, e)
  {
    hide Bridgeable;
    var moved := OnRows(f, longs, chosen);
    forall e ensures Lists(moved, e) <==> Lists(longs, e) {
      if Lists(longs, e) {
        var i :| 0 <= i < |longs| && longs[i].edge == e;
        assert moved[i].edge == e;
      }
    }
  }

  /** Every edge is drawn exactly once, short ones first. */
  lemma DraftedOnce(s: Setting, rows: EdgeRows, f: Frame, chosen: seq<nat>)
    requires Tabled(s, rows, f) && Workable(WorkOf(s, rows, f)) && |chosen| == |LongDrawings(s)|
    requires forall e :: e in s.edges ==> Ends(f, e)
    ensures DrawnOnce(Routes(WorkOf(s, rows, f), chosen))
    ensures forall e :: Lists(Routes(WorkOf(s, rows, f), chosen), e) <==> e in s.edges
  {
    hide Tabled, Workable, Ends, ShortDrawings, LongDrawings, Consistent, RowsKnown, OnRows, ShortEdges, Short, Lists,
         AllLong;
    TabledParts(s, rows, f);
    var w := WorkOf(s, rows, f);
    assert AllLong(f, w.longs) by { LongsAreBridgeable(s, rows, f); }
    ShortDrawingsAre(s, rows, None);
    LongDrawingsAre(s);
    OnRowsAre(f, w.longs, chosen);
    var moved := OnRows(f, w.longs, chosen);
    forall e ensures Lists(w.drawn + moved, e) <==> e in s.edges {
      ListsConcat(w.drawn, moved, e);
      ShortOrLong(s, e);
    }
    assert DrawnOnce(w.drawn + moved) by { OnceTogether(s, rows, w.drawn, w.longs, moved); }
  }

  lemma ShortOrLong(s: Setting, e: EdgeKey)
    requires Consistent(s)
    ensures e in ShortEdges(s, None) <==> e in s.edges && Short(s, e)
  {
    hide Short, Consistent;
  }

  lemma OnceTogether(s: Setting, rows: EdgeRows, drawn: seq<Drawing>, longs: seq<Drawing>, moved: seq<Drawing>)
    requires Consistent(s) && RowsKnown(s, rows) && DrawnOnce(drawn) && DrawnOnce(longs) && |moved| == |longs|
    requires forall i :: 0 <= i < |drawn| ==> IsShort(s, rows, None, drawn[i])
    requires forall i :: 0 <= i < |longs| ==> IsLong(s, longs[i]) && moved[i].edge == longs[i].edge
    ensures DrawnOnce(drawn + moved)
  {
    hide Short, Consistent, RowsKnown, ShortDrawing, LongDrawing;
    var all := drawn + moved;
    forall i, j | 0 <= i < j < |all| ensures all[i].edge != all[j].edge {
      if j < |drawn| {
        assert all[i] == drawn[i] && all[j] == drawn[j];
      } else if i < |drawn| {
        assert IsShort(s, rows, None, drawn[i]) && IsLong(s, longs[j - |drawn|]);
      } else {
        assert longs[i - |drawn|].edge != longs[j - |drawn|].edge;
      }
    }
  }

  lemma AcceptedPath(cells: Cells, f: Frame, edges: set<EdgeKey>, e: EdgeKey) returns (path: seq<Point>)
    requires (forall x :: x in edges ==> Ends(f, x)) && e in edges
    requires RR.Acceptable(cells, AnchorsOf(f, edges), edges)
    ensures SimplePath(EdgeRoute(cells, e), Anchor(f, e).0, Anchor(f, e).1, path)
  {
    hide SimplePath, EdgeRoute, Ends, Anchor, RR.SemanticallyExact, RR.BySource, RR.BuiltSwitches, RR.WellFormed;
    var paths: RR.Paths :| RR.AcceptedBy(cells, AnchorsOf(f, edges), edges, paths);
    path := paths[e];
  }

  lemma DoglegLeaves(s: Setting, rows: EdgeRows, f: Frame, e: EdgeKey)
    requires Tabled(s, rows, f) && e in s.edges && ShortDrawing(s, rows, e).Dogleg?
      && Bridgeable(f, ShortDrawing(s, rows, e))
    ensures LeavesRow(f, ShortDrawing(s, rows, e))
  {
    hide Bundled, IsDogleg, HasRivals, BoundariesBelow, Framed, FrameOf, Consistent, NearestOther;
    InOrder(s, e);
    LeavesTheRow(s.places[e.source], s.places[e.target], s.maxRow, rows[e]);
  }

  /** Doglegs that pass the final check run forward. */
  lemma ShortIsDrawable(plan: Plan, i: nat)
    requires Tabled(plan.setting, plan.rows, plan.frame) && AllBridgeable(plan.frame, plan.drawings)
    requires (forall e :: e in plan.setting.edges ==> Ends(plan.frame, e)) && PassesCheck(plan)
    requires DrawnOnce(plan.drawings) && plan.cells == DrawAll(plan.frame, plan.drawings) && i < |plan.drawings|
    requires plan.drawings[i].edge in plan.setting.edges
    requires plan.drawings[i] == ShortDrawing(plan.setting, plan.rows, plan.drawings[i].edge)
    ensures Drawable(plan.frame, plan.drawings[i])
  {
    hide Tabled, RR.Acceptable, DrawAll, EdgeRoute, SimplePath, BridgeOf, LeavesRow, Ends, Anchor, Track, DrawnOnce,
         ShortDrawing, DoglegForward;
    TabledParts(plan.setting, plan.rows, plan.frame);
    var d := plan.drawings[i];
    ShortIsNotLong(plan.setting, plan.rows, d.edge);
    if d.Dogleg? {
      DoglegLeaves(plan.setting, plan.rows, plan.frame, d.edge);
      assert d.edge in Elements(plan.setting.edges);
      var path := AcceptedPath(plan.cells, plan.frame, Elements(plan.setting.edges), d.edge);
      AnchorIsBridge(plan.frame, d);
      AcceptedDoglegIsForward(plan.frame, plan.drawings, i, path);
    }
  }

  lemma ShortIsNotLong(s: Setting, rows: EdgeRows, e: EdgeKey)
    requires Consistent(s) && RowsKnown(s, rows) && e in s.edges
    ensures !ShortDrawing(s, rows, e).Long?
  {
  }

  lemma LongIsDrawable(w: Work, base: nat, chosen: seq<nat>, n: nat)
    requires Workable(w) && PrivateFrom(w, base) && Routed(w, base, chosen) && n < |chosen| == |w.longs|
    ensures Drawable(w.frame, OnRows(w.frame, w.longs, chosen)[n])
  {
    hide Workable, Routed, Ends, Track;
    LongsOf(w);
    RoutedRowsAreFree(w, base, chosen, n);
    OnRowsAre(w.frame, w.longs, chosen);
  }

  lemma LongsOf(w: Work)
    requires Workable(w)
    ensures AllLong(w.frame, w.longs)
  {
  }

  /** What a draft consists of. */
  lemma DraftParts(plan: Plan, chosen: seq<nat>)
    requires Tabled(plan.setting, plan.rows, plan.frame)
    requires RoutedPlan(plan.setting, plan.rows, plan.frame, chosen) && DraftOf(plan, chosen)
    ensures Consistent(plan.setting) && RowsKnown(plan.setting, plan.rows)
    ensures forall e :: e in plan.setting.edges ==> Ends(plan.frame, e)
    ensures var w := WorkOf(plan.setting, plan.rows, plan.frame);
      && Workable(w) && AllLong(w.frame, w.longs) && |chosen| == |w.longs|
      && plan.drawings == w.drawn + OnRows(w.frame, w.longs, chosen)
    ensures AllBridgeable(plan.frame, plan.drawings) && plan.cells == DrawAll(plan.frame, plan.drawings)
    ensures DrawnOnce(plan.drawings) && forall e :: Lists(plan.drawings, e) <==> e in plan.setting.edges
  {
    hide Tabled, Workable, Ends, ShortDrawings, LongDrawings, Consistent, RowsKnown, OnRows, Lists, Routed, DrawAll,
         DrawnOnce, AllLong, Bridgeable, RowsInUse;
    var s, rows, f := plan.setting, plan.rows, plan.frame;
    TabledParts(s, rows, f);
    WorkIsWorkable(s, rows, f);
    LongsOf(WorkOf(s, rows, f));
    DraftedOnce(s, rows, f, chosen);
  }

  lemma DraftIsDrawable(plan: Plan, chosen: seq<nat>)
    requires Tabled(plan.setting, plan.rows, plan.frame)
    requires RoutedPlan(plan.setting, plan.rows, plan.frame, chosen) && DraftOf(plan, chosen)
    requires (forall e :: e in plan.setting.edges ==> Ends(plan.frame, e)) && PassesCheck(plan)
    ensures AllDrawable(plan.frame, plan.drawings)
  {
    hide Tabled, Workable, Ends, ShortDrawings, LongDrawings, Consistent, RowsKnown, OnRows, Lists, Routed, Drawable,
         DrawAll, DrawnOnce, PassesCheck, AllLong, Bridgeable, ShortDrawing, RowsInUse, DraftOf, PrivateFrom;
    var s, rows, f := plan.setting, plan.rows, plan.frame;
    DraftParts(plan, chosen);
    var w := WorkOf(s, rows, f);
    var base: nat :| PrivateFrom(w, base) && Routed(w, base, chosen);
    ShortDrawingsAre(s, rows, None);
    forall i | 0 <= i < |plan.drawings| ensures Drawable(f, plan.drawings[i]) {
      if i < |w.drawn| {
        assert plan.drawings[i] == w.drawn[i] && IsShort(s, rows, None, w.drawn[i]);
        ShortIsDrawable(plan, i);
      } else {
        LongIsDrawable(w, base, chosen, i - |w.drawn|);
      }
    }
  }

  lemma DraftIsFinished(plan: Plan, chosen: seq<nat>)
    requires Tabled(plan.setting, plan.rows, plan.frame)
    requires RoutedPlan(plan.setting, plan.rows, plan.frame, chosen) && DraftOf(plan, chosen)
    requires (forall e :: e in plan.setting.edges ==> Ends(plan.frame, e)) && PassesCheck(plan)
    ensures Finished(plan)
  {
    hide Tabled, Ends, RoutedPlan, DraftOf, PassesCheck, Workable, Drawable, DrawAll, Clear, Lists, WorkOf, Bridgeable;
    TabledParts(plan.setting, plan.rows, plan.frame);
    DraftParts(plan, chosen);
    DraftIsDrawable(plan, chosen);
    LayoutIsClear(plan.frame, plan.drawings);
  }

  /** The edges of the setting are the relation of the graph. */
  lemma EdgesAreRelated(groups: seq<GG.Siblings>, lanes: GG.Family, s: Setting, u: Node, v: Node)
    requires IsSetting(groups, lanes, s)
    ensures EdgeKey(u, v) in s.edges <==> GG.Related(groups, u, v)
  {
    hide GG.Covers, GG.Indexes, GG.Reverses, LY.Ranked, NP.PlacedAll, Distinct, ColumnNodes;
    if GG.Related(groups, u, v) {
      RelatedIsCovered(groups, u, v);
    }
  }

  lemma RelatedIsCovered(groups: seq<GG.Siblings>, u: Node, v: Node)
    requires GG.Related(groups, u, v)
    ensures GG.Covers(GG.Nodes(groups), u)
  {
    var a, b :| 0 <= a < |groups| && 0 <= b < |groups| && u in groups[a].nodes && v in groups[b].nodes
      && b in groups[a].targets;
    assert u in GG.Nodes(groups)[a];
  }

  /** Draw the short edges, then the long ones, and check everything together. */
  method DrawAndCheck(s: Setting, rows: EdgeRows, f: Frame) returns (outcome: Outcome)
    requires Tabled(s, rows, f)
    ensures outcome.Built? || outcome.NoRow? || outcome.BadDrawing?
    ensures outcome.Built? ==> outcome.plan.setting == s && Drafted(outcome.plan) && Finished(outcome.plan)
    ensures outcome.NoRow? ==> outcome == NoRow(s, rows, f) && StuckPlan(s, rows, f)
    ensures outcome.BadDrawing? ==> outcome.plan.setting == s && Drafted(outcome.plan)
    ensures outcome.BadDrawing? ==>
      (forall e :: e in s.edges ==> Ends(outcome.plan.frame, e)) && !PassesCheck(outcome.plan)
  {
    hide Tabled, Workable, Ends, ShortDrawings, LongDrawings, Consistent, RowsKnown, Routed, Stuck, PrivateFrom,
         DrawAll, OnRows, Anchor, RR.Acceptable, Finished, AllBridgeable, RowsInUse;
    TabledParts(s, rows, f);
    WorkIsWorkable(s, rows, f);
    var w := WorkOf(s, rows, f);
    ShortsAreBridgeable(s, rows, f);
    var cells := BuildCells(f, ShortDrawings(s, rows, None));
    var canvas := new Canvas();
    canvas.cells := cells;
    var chosen := RouteLongEdges(w, canvas);
    if chosen.None? {
      return NoRow(s, rows, f);
    }
    LongsOf(w);
    var plan := Plan(s, rows, f, w.drawn + OnRows(f, w.longs, chosen.value), canvas.cells);
    assert RoutedPlan(s, rows, f, chosen.value);
    assert DraftOf(plan, chosen.value);
    AnchorElements(s, f);
    var verdict := RR.ValidateCandidate(canvas.cells, AnchorsOf(f, Elements(s.edges)), Elements(s.edges));
    if verdict != RR.Valid {
      return BadDrawing(plan);
    }
    DraftIsFinished(plan, chosen.value);
    return Built(plan);
  }

  lemma AnchorElements(s: Setting, f: Frame)
    requires forall e :: e in s.edges ==> Ends(f, e)
    ensures forall e :: e in Elements(s.edges) ==> Ends(f, e)
    ensures Elements(s.edges) <= AnchorsOf(f, Elements(s.edges)).Keys
  {
    hide Ends;
    AnchorKeys(f, Elements(s.edges));
  }

  ghost predicate OrderMissing(groups: seq<GG.Siblings>, lanes: GG.Family, s: Setting, rows: EdgeRows, b: nat) {
    IsSetting(groups, lanes, s) && RowsOk(s, rows) && RowsKnown(s, rows) && b < s.last && NoOrderAt(s, rows, b)
  }

  ghost predicate RowMissing(groups: seq<GG.Siblings>, lanes: GG.Family, s: Setting, rows: EdgeRows, f: Frame) {
    IsSetting(groups, lanes, s) && Tabled(s, rows, f) && StuckPlan(s, rows, f)
  }

  ghost predicate CheckFailed(groups: seq<GG.Siblings>, lanes: GG.Family, plan: Plan) {
    && IsSetting(groups, lanes, plan.setting) && Drafted(plan)
    && (forall e :: e in plan.setting.edges ==> Ends(plan.frame, e)) && !PassesCheck(plan)
  }

  /** From a graph to a drawing: a finished layout shows exactly the relation of the graph,
      every route drawn as a path of its own, and no route runs through a label. */
  method BuildLayout(groups: seq<GG.Siblings>, lanes: GG.Family, position: nat -> nat, format: set<Node> -> int)
    returns (outcome: Outcome)
    ensures outcome.Refused? <==> !GG.Acceptable(groups, lanes)
    ensures outcome.Empty? <==> groups == [] && GG.Acceptable(groups, lanes)
    ensures outcome.Built? ==>
      IsSetting(groups, lanes, outcome.plan.setting) && Drafted(outcome.plan) && Finished(outcome.plan)
    ensures outcome.Built? ==> forall u, v :: EdgeKey(u, v) in outcome.plan.setting.edges <==> GG.Related(groups, u, v)
    ensures outcome.TooNarrow? <==> GG.Acceptable(groups, lanes) && Narrow(groups, format)
    ensures outcome.NoOrder? ==> OrderMissing(groups, lanes, outcome.setting, outcome.rows, outcome.boundary)
    ensures outcome.NoRow? ==> RowMissing(groups, lanes, outcome.setting, outcome.rows, outcome.frame)
    ensures outcome.BadDrawing? ==> CheckFailed(groups, lanes, outcome.plan)
  {
    hide GG.Acceptable, GG.Describes, Consistent, RowsOk, RowsKnown, Finished, Drafted, BoundariesBelow, NoOrderAt,
         StuckPlan, Tabled, LY.Ranked, ColumnNodes, PassesCheck, DistinctItems, FrameOf, Framed, Ends, GG.Related;
    var validated := GG.ValidateGraph(groups, lanes);
    if validated.None? {
      return Refused;
    }
    NoGroups(groups, lanes, validated.value);
    if validated.value.nodeGroup == map[] {
      return Empty;
    }
    var prepared := Prepare(groups, validated.value, lanes, position, format);
    if prepared.None? {
      return TooNarrow;
    }
    var s := prepared.value;
    var rows := ChooseDoglegRows(s);
    RowsOkKnown(s, rows);
    var items, stuck := OrderBoundaries(s, rows);
    if stuck.Some? {
      return NoOrder(s, rows, stuck.value);
    }
    ItemsAreDistinct(s, rows, items);
    PlacesInColumns(s);
    var f := BuildFrame(s.widths, items, s.places);
    assert Tabled(s, rows, f) by { NowTabled(s, rows, items, f); }
    outcome := DrawAndCheck(s, rows, f);
    if outcome.Built? {
      forall u, v ensures EdgeKey(u, v) in outcome.plan.setting.edges <==> GG.Related(groups, u, v) {
        EdgesAreRelated(groups, lanes, s, u, v);
      }
    }
  }

  lemma NowTabled(s: Setting, rows: EdgeRows, items: Boundaries, f: Frame)
    requires Consistent(s) && RowsOk(s, rows) && RowsKnown(s, rows) && BoundariesBelow(s, rows, items, s.last)
    requires f == FrameOf(s.widths, items, s.places) && Framed(f)
    ensures Tabled(s, rows, f)
  {
    hide Consistent, RowsOk, RowsKnown, BoundariesBelow, Framed, Starts, Tracks;
  }

  lemma NoGroups(groups: seq<GG.Siblings>, lanes: GG.Family, w: GG.ValidatedGraph)
    requires GG.Acceptable(groups, lanes) && GG.Describes(w, groups, lanes)
    ensures w.nodeGroup == map[] <==> groups == []
  {
    hide GG.LanesOk, GG.Expansion, GG.Reverses, DG.Acyclic, Distinct;
    forall u | u in w.nodeGroup ensures |groups| > 0 {
      assert w.nodeGroup[u] < |GG.Nodes(groups)|;
    }
    if groups != [] {
      assert GG.Nodes(groups)[0] != [];
      var u := GG.Nodes(groups)[0][0];
      assert u in GG.Nodes(groups)[0];
      assert u in w.nodeGroup;
    }
  }

  /** The targets a finished drawing must lead to. */
  ghost function Targets(plan: Plan, u: Node): set<Node> {
    RR.TargetsOf(Elements(plan.setting.edges), u)
  }

  ghost predicate ShowsRelation(groups: seq<GG.Siblings>, plan: Plan, paths: RR.Paths) {
    && RR.WellFormed(paths)
    && (forall e :: e in paths <==> GG.Related(groups, e.source, e.target))
    && (forall u, v :: v in Targets(plan, u) <==> GG.Related(groups, u, v))
    && (forall u, v :: v in Targets(plan, u) ==> EdgeKey(u, v) in paths)
    && (forall u, v :: Targets(plan, u) != {} ==>
          (GG.Related(groups, u, v) <==> LineLeads(plan, paths, u, v)))
  }

  /** One cell further along a line, or over to another line of the switch at this cell. */
  ghost predicate LineStep(plan: Plan, paths: RR.Paths, s: RR.Position, t: RR.Position) {
    && s.edge in paths && t.edge in paths && s.point in paths[s.edge] && t.point in paths[t.edge]
    && if s.edge == t.edge
       then exists i :: 0 < i < |paths[s.edge]| && paths[s.edge][i - 1] == s.point && paths[s.edge][i] == t.point
       else s.point == t.point && t.point in plan.cells
            && t.edge in SW.SwitchEdges(RR.LastPerEdge(plan.cells[t.point]))
  }

  ghost predicate IsWay(plan: Plan, paths: RR.Paths, way: seq<RR.Position>) {
    forall i :: 0 < i < |way| ==> LineStep(plan, paths, way[i - 1], way[i])
  }

  /** From the right border of the one label to the left border of the other. */
  ghost predicate Joins(plan: Plan, paths: RR.Paths, s: RR.Position, t: RR.Position, u: Node, v: Node) {
    && s.edge in paths && t.edge in paths && Ends(plan.frame, s.edge) && Ends(plan.frame, t.edge)
    && s.edge.source == u && s.point == Anchor(plan.frame, s.edge).0
    && t.edge.target == v && t.point == Anchor(plan.frame, t.edge).1
  }

  ghost predicate LineLeads(plan: Plan, paths: RR.Paths, u: Node, v: Node) {
    exists way :: way != [] && IsWay(plan, paths, way) && Joins(plan, paths, way[0], way[|way| - 1], u, v)
  }

  lemma MoveIsStep(plan: Plan, paths: RR.Paths, s: RR.Position, t: RR.Position)
    requires RR.WellFormed(paths)
    ensures RR.Moves(paths, RR.BuiltSwitches(plan.cells))(s, t) <==> LineStep(plan, paths, s, t)
  {
    hide SW.SwitchEdges, RR.LastPerEdge;
  }

  lemma WayIsTrail(plan: Plan, paths: RR.Paths, way: seq<RR.Position>)
    requires RR.WellFormed(paths)
    ensures way != [] && IsWay(plan, paths, way) <==> CN.Trail(RR.Moves(paths, RR.BuiltSwitches(plan.cells)), way)
  {
    hide RR.WellFormed, RR.Moves, RR.BuiltSwitches, LineStep;
    forall i | 0 < i < |way|
      ensures LineStep(plan, paths, way[i - 1], way[i])
        <==> RR.Moves(paths, RR.BuiltSwitches(plan.cells))(way[i - 1], way[i])
    {
      MoveIsStep(plan, paths, way[i - 1], way[i]);
    }
  }

  lemma BordersAreEnds(plan: Plan, paths: RR.Paths, s: RR.Position, t: RR.Position, u: Node, v: Node)
    requires Witnesses(plan, paths) && RR.WellFormed(paths)
    requires forall n :: n in Targets(plan, u) ==> EdgeKey(u, n) in paths
    ensures Joins(plan, paths, s, t, u, v) <==>
      s in RR.Starts(paths, u, Targets(plan, u)) && RR.AtEnd(paths, t) && t.edge.target == v
  {
    hide EdgeRoute, Anchor, Ends, RR.BuiltSwitches, RR.SemanticallyExact, RR.BySource;
    WitnessedPaths(plan, paths);
    TargetEdges(Elements(plan.setting.edges), u, s.edge.target);
    if s.edge.source == u {
      assert s.edge == EdgeKey(u, s.edge.target);
    }
  }

  lemma LeadsIsArrives(plan: Plan, paths: RR.Paths, u: Node, v: Node)
    requires Witnesses(plan, paths) && RR.WellFormed(paths)
    requires forall n :: n in Targets(plan, u) ==> EdgeKey(u, n) in paths
    ensures LineLeads(plan, paths, u, v) <==>
      RR.Arrives(paths, RR.BuiltSwitches(plan.cells), RR.Starts(paths, u, Targets(plan, u)), v)
  {
    hide Witnesses, RR.BuiltSwitches, RR.Moves, RR.Starts, RR.AtEnd, Joins, IsWay, Targets;
    var r := RR.Moves(paths, RR.BuiltSwitches(plan.cells));
    var starts := RR.Starts(paths, u, Targets(plan, u));
    if way :| way != [] && IsWay(plan, paths, way) && Joins(plan, paths, way[0], way[|way| - 1], u, v) {
      WayIsTrail(plan, paths, way);
      BordersAreEnds(plan, paths, way[0], way[|way| - 1], u, v);
      assert CN.Connected(r, way[0], way[|way| - 1]);
      assert CN.FromSome(r, starts, way[|way| - 1]);
    }
    if t :| RR.AtEnd(paths, t) && t.edge.target == v && CN.FromSome(r, starts, t) {
      var s :| s in starts && CN.Connected(r, s, t);
      var way :| CN.Trail(r, way) && way[0] == s && way[|way| - 1] == t;
      WayIsTrail(plan, paths, way);
      BordersAreEnds(plan, paths, s, t, u, v);
    }
  }

  lemma ArrivesIff(cells: Cells, anchors: Anchors, edges: set<EdgeKey>, paths: RR.Paths, u: Node, v: Node)
    requires RR.AcceptedBy(cells, anchors, edges, paths) && RR.TargetsOf(edges, u) != {}
    ensures RR.WellFormed(paths) && forall n :: n in RR.TargetsOf(edges, u) ==> EdgeKey(u, n) in paths
    ensures v in RR.TargetsOf(edges, u) <==>
      RR.Arrives(paths, RR.BuiltSwitches(cells), RR.Starts(paths, u, RR.TargetsOf(edges, u)), v)
  {
    hide SimplePath, EdgeRoute, RR.WellFormed, RR.BuiltSwitches, RR.Arrives, RR.Starts, RR.TargetsOf, RR.BySource;
    forall n ensures n in RR.TargetsOf(edges, u) <==> EdgeKey(u, n) in edges {
      TargetEdges(edges, u, n);
    }
    TargetEdges(edges, u, v);
  }

  /** The route of the edge is this path between its own anchors. */
  ghost predicate RunsAlong(plan: Plan, e: EdgeKey, path: seq<Point>) {
    && Ends(plan.frame, e)
    && SimplePath(EdgeRoute(plan.cells, e), Anchor(plan.frame, e).0, Anchor(plan.frame, e).1, path)
  }

  ghost predicate Witnesses(plan: Plan, paths: RR.Paths) {
    && (forall e :: e in plan.setting.edges ==> Ends(plan.frame, e))
    && RR.AcceptedBy(plan.cells, AnchorsOf(plan.frame, Elements(plan.setting.edges)), Elements(plan.setting.edges),
      paths)
  }

  lemma WitnessedPaths(plan: Plan, paths: RR.Paths)
    requires Witnesses(plan, paths)
    ensures RR.WellFormed(paths) && paths.Keys == Elements(plan.setting.edges)
    ensures forall e :: e in paths ==> paths[e] != []
    ensures forall e :: e in paths ==> e in plan.setting.edges && RunsAlong(plan, e, paths[e])
  {
    hide SimplePath, EdgeRoute, Anchor, Ends, RR.BuiltSwitches, RR.SemanticallyExact, RR.BySource, Distinct;
  }

  lemma WitnessedTargets(plan: Plan, paths: RR.Paths, u: Node, v: Node)
    requires Witnesses(plan, paths) && Targets(plan, u) != {}
    ensures RR.WellFormed(paths) && forall n :: n in Targets(plan, u) ==> EdgeKey(u, n) in paths
    ensures v in Targets(plan, u) <==>
      RR.Arrives(paths, RR.BuiltSwitches(plan.cells), RR.Starts(paths, u, Targets(plan, u)), v)
  {
    hide RR.AcceptedBy, RR.Arrives, RR.Starts, RR.TargetsOf, RR.BuiltSwitches, RR.WellFormed, Ends, AnchorsOf;
    ArrivesIff(plan.cells, AnchorsOf(plan.frame, Elements(plan.setting.edges)), Elements(plan.setting.edges), paths,
      u, v);
  }

  /** Whoever follows the lines of a finished drawing from a node, switching edges where
      they join, ends at exactly the nodes that the graph relates to it. */
  lemma FinishedShowsRelation(groups: seq<GG.Siblings>, lanes: GG.Family, plan: Plan) returns (paths: RR.Paths)
    requires IsSetting(groups, lanes, plan.setting) && Finished(plan)
    ensures ShowsRelation(groups, plan, paths)
    ensures forall e :: e in paths ==> e in plan.setting.edges && RunsAlong(plan, e, paths[e])
  {
    hide IsSetting, GG.Related, RunsAlong, RR.WellFormed, RR.BuiltSwitches, RR.Arrives, RR.Starts, Witnesses,
         RR.TargetsOf, Finished, LineLeads;
    paths := FinishedPaths(plan);
    WitnessedPaths(plan, paths);
    forall u, v
      ensures EdgeKey(u, v) in paths <==> GG.Related(groups, u, v)
      ensures v in Targets(plan, u) <==> EdgeKey(u, v) in paths
    {
      EdgesAreRelated(groups, lanes, plan.setting, u, v);
      TargetEdges(Elements(plan.setting.edges), u, v);
    }
    forall u, v | Targets(plan, u) != {}
      ensures v in Targets(plan, u) <==> LineLeads(plan, paths, u, v)
    {
      WitnessedTargets(plan, paths, u, v);
      LeadsIsArrives(plan, paths, u, v);
    }
    forall e ensures e in paths <==> GG.Related(groups, e.source, e.target) {
      assert e == EdgeKey(e.source, e.target);
    }
  }

  lemma FinishedPaths(plan: Plan) returns (paths: RR.Paths)
    requires Finished(plan)
    ensures Witnesses(plan, paths)
  {
    hide RR.AcceptedBy, AnchorsOf, Ends, Framed, AllDrawable, DrawnOnce, Lists, AllBridgeable, DrawAll, Clear;
    paths :| RR.AcceptedBy(plan.cells, AnchorsOf(plan.frame, Elements(plan.setting.edges)),
      Elements(plan.setting.edges), paths);
  }

  lemma TargetEdges(edges: set<EdgeKey>, u: Node, v: Node)
    ensures v in RR.TargetsOf(edges, u) <==> EdgeKey(u, v) in edges
    ensures u in RR.BySource(edges) <==> RR.TargetsOf(edges, u) != {}
    ensures u in RR.BySource(edges) ==> RR.BySource(edges)[u] == RR.TargetsOf(edges, u)
  {
    if v in RR.TargetsOf(edges, u) {
      var e :| e in edges && e.source == u && e.target == v;
      assert e == EdgeKey(u, v);
    }
    if w :| w in RR.TargetsOf(edges, u) {
      var e :| e in edges && e.source == u && e.target == w;
      assert e.source == u;
    }
    if u in RR.BySource(edges) {
      var e :| e in edges && e.source == u;
      assert e.target in RR.TargetsOf(edges, u);
    }
  }
}
