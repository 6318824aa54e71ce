/** One valid order of tracks per boundary, and the column table it gives. */
module BoundaryTracks {
  import opened Collections
  import opened RoutePath
  import opened RouteDrawing
  import opened RouteGeometry
  import opened Layout
  import opened BoundaryPlan
  import opened Switches
  import GG = GroupGraph
  import BO = BoundaryOrder
  import RR = RenderedReachability
  import NP = NodePlacement

  type Anchors = map<EdgeKey, (Point, Point)>

  type EdgeRows = map<EdgeKey, nat>

  ghost predicate RowsKnown(s: Setting, rows: EdgeRows)
    requires Consistent(s)
  {
    forall e :: e in s.edges && IsDogleg(s, e) ==> e in rows
  }

  // ------------------------------------------------------------ short drawings

  function ShortDrawing(s: Setting, rows: EdgeRows, e: EdgeKey): (d: Drawing)
    requires Consistent(s) && RowsKnown(s, rows) && e in s.edges
    ensures d.edge == e
  {
    if Bundled(s, e) then Adjacent(e, SourceItem(s, e), Some(Relation(s, e)))
    else if IsDogleg(s, e) then Dogleg(e, SourceItem(s, e), TargetItem(s, e), rows[e])
    else Adjacent(e, SourceItem(s, e), None)
  }

  function LongDrawing(s: Setting, e: EdgeKey): Drawing
    requires Consistent(s) && e in s.edges
  {
    Long(e, SourceItem(s, e), TargetItem(s, e), 0)
  }

  /** Edges between neighbouring columns, of one boundary or of all. */
  predicate Between(s: Setting, boundary: Option<nat>, e: EdgeKey)
    requires Consistent(s) && e in s.edges
  {
    Short(s, e) && (boundary.Some? ==> SourceColumn(s, e) == boundary.value)
  }

  function ShortsBelow(s: Setting, rows: EdgeRows, boundary: Option<nat>, bundled: bool, n: nat): seq<Drawing>
    requires Consistent(s) && RowsKnown(s, rows) && n <= |s.edges|
  {
    if n == 0 then [] else
      var e := s.edges[n - 1];
      ShortsBelow(s, rows, boundary, bundled, n - 1)
      + (if Between(s, boundary, e) && Bundled(s, e) == bundled then [ShortDrawing(s, rows, e)] else [])
  }

  /** Bundles are drawn first. */
  function ShortDrawings(s: Setting, rows: EdgeRows, boundary: Option<nat>): seq<Drawing>
    requires Consistent(s) && RowsKnown(s, rows)
  {
    ShortsBelow(s, rows, boundary, true, |s.edges|) + ShortsBelow(s, rows, boundary, false, |s.edges|)
  }

  function ShortEdges(s: Setting, boundary: Option<nat>): set<EdgeKey>
    requires Consistent(s)
  {
    set e | e in s.edges && Between(s, boundary, e)
  }

  ghost predicate IsShort(s: Setting, rows: EdgeRows, boundary: Option<nat>, d: Drawing)
    requires Consistent(s) && RowsKnown(s, rows)
  {
    d.edge in s.edges && Between(s, boundary, d.edge) && d == ShortDrawing(s, rows, d.edge)
  }

  ghost predicate Lists(drawings: seq<Drawing>, e: EdgeKey) {
    exists i :: 0 <= i < |drawings| && drawings[i].edge == e
  }

  lemma ListsSnoc(drawings: seq<Drawing>, d: Drawing, e: EdgeKey)
    ensures Lists(drawings + [d], e) <==> Lists(drawings, e) || d.edge == e
  {
    var more := drawings + [d];
    if Lists(drawings, e) {
      var i :| 0 <= i < |drawings| && drawings[i].edge == e;
      assert more[i].edge == e;
    }
    if d.edge == e {
      assert more[|drawings|].edge == e;
    }
  }

  lemma ListsConcat(a: seq<Drawing>, b: seq<Drawing>, e: EdgeKey)
    ensures Lists(a + b, e) <==> Lists(a, e) || Lists(b, e)
  {
    var c := a + b;
    assert forall i :: 0 <= i < |a| ==> c[i] == a[i];
    assert forall i :: 0 <= i < |b| ==> c[|a| + i] == b[i];
  }

  ghost predicate Picked(s: Setting, boundary: Option<nat>, bundled: bool, n: nat, e: EdgeKey)
    requires Consistent(s) && n <= |s.edges|
  {
    exists k :: 0 <= k < n && s.edges[k] == e && Between(s, boundary, s.edges[k]) && Bundled(s, s.edges[k]) == bundled
  }

  lemma PickedOneMore(s: Setting, boundary: Option<nat>, bundled: bool, n: nat, e: EdgeKey)
    requires Consistent(s) && n < |s.edges|
    ensures Picked(s, boundary, bundled, n + 1, e) <==>
      Picked(s, boundary, bundled, n, e) || (e == s.edges[n] && Between(s, boundary, e) && Bundled(s, e) == bundled)
  {
    hide Bundled, Between, Consistent;
  }

  lemma NothingPicked(s: Setting, boundary: Option<nat>, bundled: bool, e: EdgeKey)
    requires Consistent(s)
    ensures !Picked(s, boundary, bundled, 0, e)
  {
    hide Bundled, Between, Consistent;
  }

  lemma {:induction false} ShortsBelowAre(s: Setting, rows: EdgeRows, boundary: Option<nat>, bundled: bool, n: nat)
    requires Consistent(s) && RowsKnown(s, rows) && n <= |s.edges|
    ensures var drawings := ShortsBelow(s, rows, boundary, bundled, n);
      && DrawnOnce(drawings)
      && (forall i :: 0 <= i < |drawings| ==>
        IsShort(s, rows, boundary, drawings[i]) && Bundled(s, drawings[i].edge) == bundled)
      && (forall e :: Lists(drawings, e) <==> Picked(s, boundary, bundled, n, e))
  {
    hide Bundled, Between, ShortDrawing, Consistent, Lists, RowsKnown, Picked;
    if n == 0 {
      forall e ensures !Lists([], e) && !Picked(s, boundary, bundled, 0, e) {
        NothingListed(e);
        NothingPicked(s, boundary, bundled, e);
      }
    } else {
      forall x ensures Picked(s, boundary, bundled, n, x) <==>
        Picked(s, boundary, bundled, n - 1, x) ||
        (x == s.edges[n - 1] && Between(s, boundary, x) && Bundled(s, x) == bundled)
      {
        PickedOneMore(s, boundary, bundled, n - 1, x);
      }
      ShortsBelowAre(s, rows, boundary, bundled, n - 1);
      var front := ShortsBelow(s, rows, boundary, bundled, n - 1);
      var e := s.edges[n - 1];
      PickedIsEarlier(s, boundary, bundled, n - 1);
      assert front + [] == front;
      if Between(s, boundary, e) && Bundled(s, e) == bundled {
        forall x ensures Lists(front + [ShortDrawing(s, rows, e)], x) <==> Lists(front, x) || x == e {
          ListsSnoc(front, ShortDrawing(s, rows, e), x);
        }
        forall i | 0 <= i < |front| ensures front[i].edge != e {
          assert Lists(front, front[i].edge) by { ListedAt(front, i); }
        }
      }
    }
  }

  lemma NothingListed(e: EdgeKey)
    ensures !Lists([], e)
  {
  }

  lemma ListedAt(drawings: seq<Drawing>, i: nat)
    requires i < |drawings|
    ensures Lists(drawings, drawings[i].edge)
  {
  }

  lemma PickedIsEarlier(s: Setting, boundary: Option<nat>, bundled: bool, n: nat)
    requires Consistent(s) && n < |s.edges|
    ensures !Picked(s, boundary, bundled, n, s.edges[n])
  {
    hide Bundled, Between;
  }

  /** Every short edge is drawn once, as its kind demands, and nothing else is drawn. */
  lemma ShortDrawingsAre(s: Setting, rows: EdgeRows, boundary: Option<nat>)
    requires Consistent(s) && RowsKnown(s, rows)
    ensures var drawings := ShortDrawings(s, rows, boundary);
      && DrawnOnce(drawings)
      && (forall i :: 0 <= i < |drawings| ==> IsShort(s, rows, boundary, drawings[i]))
      && (forall e :: Lists(drawings, e) <==> e in ShortEdges(s, boundary))
  {
    hide Bundled, Between, ShortDrawing, Consistent, Lists, RowsKnown, ShortsBelow;
    var a, b := ShortsBelow(s, rows, boundary, true, |s.edges|), ShortsBelow(s, rows, boundary, false, |s.edges|);
    ShortsBelowAre(s, rows, boundary, true, |s.edges|);
    ShortsBelowAre(s, rows, boundary, false, |s.edges|);
    forall e ensures Lists(a + b, e) <==> e in ShortEdges(s, boundary) {
      ListsConcat(a, b, e);
    }
    assert DrawnOnce(a + b) by { DistinctHalves(s, a, b); }
  }

  lemma DistinctHalves(s: Setting, a: seq<Drawing>, b: seq<Drawing>)
    requires Consistent(s) && DrawnOnce(a) && DrawnOnce(b)
    requires forall i :: 0 <= i < |a| ==> a[i].edge in s.edges && Bundled(s, a[i].edge)
    requires forall i :: 0 <= i < |b| ==> b[i].edge in s.edges && !Bundled(s, b[i].edge)
    ensures DrawnOnce(a + b)
  {
    hide Bundled, Consistent;
  }

  // ------------------------------------------------------------------- frames

  function FrameOf(widths: Widths, items: Boundaries, places: NP.Places): Frame {
    KnownColumns(widths);
    var ordered := Ascending(widths.Keys);
    Frame(widths, items, Starts(widths, items, ordered, |ordered|),
          Tracks(widths, items, ordered, Predecessor(|ordered|)), places)
  }

  method BuildFrame(widths: Widths, items: Boundaries, places: NP.Places) returns (f: Frame)
    requires DistinctItems(items) && forall n :: n in places ==> places[n].column in widths
    ensures f == FrameOf(widths, items, places) && Framed(f)
  {
    hide DistinctItems, Geometry;
    var starts, tracks := ColumnGeometry(widths, items);
    GeometryHolds(widths, items, starts, tracks);
    assert starts.Keys == widths.Keys by { GeometryColumns(widths, items, starts, tracks); }
    f := Frame(widths, items, starts, tracks, places);
  }

  lemma GeometryColumns(widths: Widths, items: Boundaries, starts: map<nat, int>, tracks: map<(nat, Item), int>)
    requires Geometry(widths, items, starts, tracks)
    ensures starts.Keys == widths.Keys
  {
  }

  lemma FrameIsFramed(widths: Widths, items: Boundaries, places: NP.Places)
    requires DistinctItems(items) && forall n :: n in places ==> places[n].column in widths
    ensures Framed(FrameOf(widths, items, places))
  {
    hide DistinctItems, Geometry, Starts, Tracks, Ascending;
    KnownColumns(widths);
    var f := FrameOf(widths, items, places);
    GeometryHolds(widths, items, f.starts, f.tracks);
    GeometryColumns(widths, items, f.starts, f.tracks);
  }

  /** The frame shows (part of) the setting and has the tracks of an edge. */
  ghost predicate HasTracks(s: Setting, f: Frame, e: EdgeKey)
    requires Consistent(s) && e in s.edges
  {
    && e.source in f.places && e.target in f.places
    && f.places[e.source] == s.places[e.source] && f.places[e.target] == s.places[e.target]
    && Tracked(f.items, SourceColumn(s, e), SourceItem(s, e)) && Tracked(f.items, LastBoundary(s, e), TargetItem(s, e))
  }

  lemma ShortIsBridgeable(s: Setting, rows: EdgeRows, f: Frame, e: EdgeKey)
    requires Consistent(s) && RowsKnown(s, rows) && e in s.edges && Framed(f) && HasTracks(s, f, e) && Short(s, e)
    ensures Bridgeable(f, ShortDrawing(s, rows, e))
  {
    hide TracksInGaps, Bundled, Consistent, Tracked, RowsKnown;
    InOrder(s, e);
    TrackInGap(f.widths, f.items, f.starts, f.tracks, SourceColumn(s, e), SourceItem(s, e), s.places[e.target].column);
    TrackInGap(f.widths, f.items, f.starts, f.tracks, SourceColumn(s, e), TargetItem(s, e), s.places[e.target].column);
  }

  lemma InOrder(s: Setting, e: EdgeKey)
    requires Consistent(s) && e in s.edges
    ensures e.source in s.places && e.target in s.places && s.places[e.source].column < s.places[e.target].column
    ensures s.places[e.source].column <= s.last && s.places[e.target].column <= s.last
    ensures s.places[e.source].row <= s.maxRow && s.places[e.target].row <= s.maxRow
  {
  }

  lemma LongIsBridgeable(s: Setting, f: Frame, e: EdgeKey)
    requires Consistent(s) && e in s.edges && Framed(f) && HasTracks(s, f, e) && !Short(s, e)
    requires LastBoundary(s, e) in f.widths
    ensures Bridgeable(f, LongDrawing(s, e))
  {
    hide TracksInGaps, Bundled, Consistent, Tracked;
    InOrder(s, e);
    TrackInGap(f.widths, f.items, f.starts, f.tracks, SourceColumn(s, e), SourceItem(s, e), s.places[e.target].column);
    TrackInGap(f.widths, f.items, f.starts, f.tracks, LastBoundary(s, e), TargetItem(s, e), s.places[e.target].column);
  }

  /** Where the route of an edge starts and ends. */
  function Anchor(f: Frame, e: EdgeKey): (Point, Point)
    requires Ends(f, e)
  {
    (Point(f.starts[f.places[e.source].column] + f.widths[f.places[e.source].column], f.places[e.source].row),
     Point(f.starts[f.places[e.target].column] - 1, f.places[e.target].row))
  }

  function AnchorsOf(f: Frame, edges: set<EdgeKey>): Anchors
    requires forall e :: e in edges ==> Ends(f, e)
  {
    map e | e in edges && Ends(f, e) :: Anchor(f, e)
  }

  // ------------------------------------------------ the orders of one boundary

  /** The items that the edges between the two columns use. */
  function ActiveItems(s: Setting, b: nat): set<Item>
    requires Consistent(s)
  {
    (set e | e in ShortEdges(s, Some(b)) :: SourceItem(s, e))
      + (set e | e in ShortEdges(s, Some(b)) :: TargetItem(s, e))
  }

  function NearWidths(s: Setting, b: nat): Widths
    requires b in s.widths && b + 1 in s.widths
  {
    map[b := s.widths[b]][b + 1 := s.widths[b + 1]]
  }

  function NearPlaces(s: Setting, b: nat): NP.Places {
    map n | n in s.places && (s.places[n].column == b || s.places[n].column == b + 1) :: s.places[n]
  }

  /** The two columns on their own, with tracks for this order of items. */
  function BoundaryFrame(s: Setting, b: nat, order: seq<Item>): Frame
    requires b in s.widths && b + 1 in s.widths
  {
    FrameOf(NearWidths(s, b), map[b := order], NearPlaces(s, b))
  }

  /** Each item once, and the active ones among them. */
  ghost predicate GoodOrder(s: Setting, b: nat, order: seq<Item>)
    requires Consistent(s)
  {
    b in s.widths && b + 1 in s.widths && Distinct(order) && ActiveItems(s, b) <= Elements(order)
  }

  lemma NearPlacesFit(s: Setting, b: nat)
    requires b in s.widths && b + 1 in s.widths
    ensures forall n :: n in NearPlaces(s, b) ==> NearPlaces(s, b)[n].column in NearWidths(s, b)
  {
  }

  lemma ActiveOf(s: Setting, b: nat, e: EdgeKey)
    requires Consistent(s) && e in ShortEdges(s, Some(b))
    ensures SourceItem(s, e) in ActiveItems(s, b) && TargetItem(s, e) in ActiveItems(s, b)
    ensures e in s.edges && Short(s, e) && SourceColumn(s, e) == b == LastBoundary(s, e)
    ensures e.source in NearPlaces(s, b) && e.target in NearPlaces(s, b)
  {
    hide Consistent, SourceItem, TargetItem;
    InOrder(s, e);
  }

  lemma ShortHasTracks(s: Setting, b: nat, order: seq<Item>, e: EdgeKey)
    requires Consistent(s) && GoodOrder(s, b, order) && e in ShortEdges(s, Some(b))
    ensures HasTracks(s, BoundaryFrame(s, b, order), e) && Short(s, e) && Ends(BoundaryFrame(s, b, order), e)
  {
    hide Starts, Tracks, Ascending, Consistent, Distinct, SourceItem, TargetItem, ActiveItems, ShortEdges;
    ActiveOf(s, b, e);
    InOrder(s, e);
    assert SourceItem(s, e) in Elements(order) && TargetItem(s, e) in Elements(order);
    BoundaryIsFramed(s, b, order);
  }

  lemma BoundaryIsFramed(s: Setting, b: nat, order: seq<Item>)
    requires Consistent(s) && GoodOrder(s, b, order)
    ensures Framed(BoundaryFrame(s, b, order))
    ensures BoundaryFrame(s, b, order).starts.Keys == BoundaryFrame(s, b, order).widths.Keys
  {
    hide Starts, Tracks, Ascending, Consistent, ActiveItems, Distinct, NearPlaces, NearWidths;
    NearPlacesFit(s, b);
    FrameIsFramed(NearWidths(s, b), map[b := order], NearPlaces(s, b));
  }

  lemma BoundaryIsBridgeable(s: Setting, rows: EdgeRows, b: nat, order: seq<Item>)
    requires Consistent(s) && RowsKnown(s, rows) && GoodOrder(s, b, order)
    ensures AllBridgeable(BoundaryFrame(s, b, order), ShortDrawings(s, rows, Some(b)))
    ensures forall e :: e in ShortEdges(s, Some(b)) ==> Ends(BoundaryFrame(s, b, order), e)
  {
    hide BoundaryFrame, ShortDrawings, HasTracks, Consistent, ActiveItems, Distinct, Framed, RowsKnown, ShortDrawing,
         Ends, Bridgeable, Between;
    var f, drawings := BoundaryFrame(s, b, order), ShortDrawings(s, rows, Some(b));
    BoundaryIsFramed(s, b, order);
    ShortDrawingsAre(s, rows, Some(b));
    forall e | e in ShortEdges(s, Some(b)) ensures Ends(f, e) {
      ShortHasTracks(s, b, order, e);
    }
    forall i | 0 <= i < |drawings| ensures Bridgeable(f, drawings[i]) {
      assert IsShort(s, rows, Some(b), drawings[i]);
      ShortHasTracks(s, b, order, drawings[i].edge);
      ShortIsBridgeable(s, rows, f, drawings[i].edge);
    }
  }

  /** Drawn on their own, the edges of the boundary are what they should be. */
  ghost predicate OrderValid(s: Setting, rows: EdgeRows, b: nat, order: seq<Item>)
    requires Consistent(s) && RowsKnown(s, rows) && GoodOrder(s, b, order)
  {
    BoundaryIsBridgeable(s, rows, b, order);
    var f, edges := BoundaryFrame(s, b, order), ShortEdges(s, Some(b));
    edges == {} || RR.Acceptable(DrawAll(f, ShortDrawings(s, rows, Some(b))), AnchorsOf(f, edges), edges)
  }

  method OrderIsValid(s: Setting, rows: EdgeRows, b: nat, order: seq<Item>) returns (ok: bool)
    requires Consistent(s) && RowsKnown(s, rows) && GoodOrder(s, b, order)
    ensures ok <==> OrderValid(s, rows, b, order)
  {
    hide Consistent, GoodOrder, RowsKnown, ShortDrawings, ShortEdges, FrameOf, Framed, Ends, NearPlaces, NearWidths,
      RR.Acceptable, DrawAll, DistinctItems, AllBridgeable, Anchor;
    BoundaryIsBridgeable(s, rows, b, order);
    NearFrame(s, b, order);
    var f := BuildFrame(NearWidths(s, b), map[b := order], NearPlaces(s, b));
    var edges := ShortEdges(s, Some(b));
    if edges == {} {
      return true;
    }
    var cells := BuildCells(f, ShortDrawings(s, rows, Some(b)));
    AnchorKeys(f, edges);
    var verdict := RR.ValidateCandidate(cells, AnchorsOf(f, edges), edges);
    return verdict == RR.Valid;
  }

  lemma NearFrame(s: Setting, b: nat, order: seq<Item>)
    requires Consistent(s) && GoodOrder(s, b, order)
    ensures b in s.widths && b + 1 in s.widths && DistinctItems(map[b := order])
    ensures forall n :: n in NearPlaces(s, b) ==> NearPlaces(s, b)[n].column in NearWidths(s, b)
  {
    NearPlacesFit(s, b);
  }

  lemma AnchorKeys(f: Frame, edges: set<EdgeKey>)
    requires forall e :: e in edges ==> Ends(f, e)
    ensures AnchorsOf(f, edges).Keys == edges
  {
    hide Ends;
  }

  // --------------------------------------------------------- candidate orders

  ghost predicate CandidateOf(base: seq<Item>, active: set<Item>, order: seq<Item>) {
    BO.Permutes(order, base) && BO.KeepsPassive(order, base, active)
  }

  /** The active items of a candidate, in its order. */
  function ActivePart(base: seq<Item>, active: set<Item>, order: seq<Item>): seq<Item>
    requires |order| == |base|
  {
    BO.PositionsAreExact(base, active);
    BO.Picked(order, BO.Positions(base, active))
  }

  lemma PermutedItems(p: seq<Item>, q: seq<Item>)
    requires BO.Permutes(p, q) && Distinct(q)
    ensures Distinct(p) && Elements(p) == Elements(q)
  {
    BO.PermutationLength(p, q);
    forall x ensures x in p <==> x in q {
      assert x in p <==> x in multiset(p);
      assert x in q <==> x in multiset(q);
    }
    assert Elements(p) == Elements(q);
    DistinctSize(q);
    if !Distinct(p) {
      RepetitionShrinks(p);
    }
  }

  lemma ActivePartIsGood(s: Setting, b: nat, base: seq<Item>, order: seq<Item>)
    requires Consistent(s) && b in s.widths && b + 1 in s.widths && Distinct(base)
    requires ActiveItems(s, b) <= Elements(base) && CandidateOf(base, ActiveItems(s, b), order)
    ensures |order| == |base| && GoodOrder(s, b, ActivePart(base, ActiveItems(s, b), order))
  {
    hide Consistent, ActiveItems;
    var active := ActiveItems(s, b);
    BO.PermutationLength(order, base);
    BO.PositionsAreExact(base, active);
    PermutedItems(order, base);
    var positions := BO.Positions(base, active);
    var part := ActivePart(base, active, order);
    assert Distinct(part) by { PickedDistinct(order, positions); }
    forall x | x in active ensures x in part {
      assert x in Elements(order);
      var i :| 0 <= i < |order| && order[i] == x;
      assert base[i] in active;
      var k :| 0 <= k < |positions| && positions[k] == i;
      assert part[k] == x;
    }
  }

  lemma PickedDistinct(order: seq<Item>, positions: seq<nat>)
    requires Distinct(order) && Increasing(positions) && forall k :: 0 <= k < |positions| ==> positions[k] < |order|
    ensures Distinct(BO.Picked(order, positions))
  {
  }

  /** The order passes the validator once passive items are set aside. */
  ghost predicate PartValid(s: Setting, rows: EdgeRows, b: nat, base: seq<Item>, order: seq<Item>)
    requires Consistent(s) && RowsKnown(s, rows)
  {
    && |order| == |base| && GoodOrder(s, b, ActivePart(base, ActiveItems(s, b), order))
    && OrderValid(s, rows, b, ActivePart(base, ActiveItems(s, b), order))
  }

  ghost predicate Arrangement(items: set<Item>, base: seq<Item>) {
    Distinct(base) && Elements(base) == items
  }

  /** Different candidates, and all of them unless the cap was reached. */
  ghost predicate Candidates(base: seq<Item>, active: set<Item>, orders: seq<seq<Item>>) {
    && orders != [] && |orders| <= BO.MAX_CANDIDATES && Distinct(orders)
    && (forall o :: o in orders ==> CandidateOf(base, active, o))
    && (|orders| < BO.MAX_CANDIDATES ==>
          forall p :: BO.Permutes(p, base) && BO.KeepsPassive(p, base, active) ==> p in orders)
  }

  // ------------------------------------------------------- comparing orders

  predicate Runs(cells: Cells, p: Point, direction: int) {
    p in cells && exists i :: 0 <= i < |cells[p]| && cells[p][i].vertical == direction
  }

  function RightOf(p: Point): Point {
    Point(p.x + 1, p.y)
  }

  predicate Neighbouring(cells: Cells, p: Point) {
    (Runs(cells, p, 1) || Runs(cells, p, -1)) && (Runs(cells, RightOf(p), 1) || Runs(cells, RightOf(p), -1))
  }

  predicate Opposed(cells: Cells, p: Point) {
    || (Runs(cells, p, 1) && Runs(cells, RightOf(p), -1))
    || (Runs(cells, p, -1) && Runs(cells, RightOf(p), 1))
  }

  predicate HasBits(contributions: seq<Contribution>, bits: Bits) {
    exists i :: 0 <= i < |contributions| && contributions[i].bits * bits != {}
  }

  predicate Meets(contributions: seq<Contribution>) {
    && |EdgesOf(contributions)| >= 2
    && HasBits(contributions, {Left, Right}) && HasBits(contributions, {Up, Down})
  }

  /** Opposing neighbours, neighbouring verticals, and cells where lines cross. */
  function CellQuality(cells: Cells): seq<nat> {
    [|set p | p in cells && Opposed(cells, p)|,
     |set p | p in cells && Neighbouring(cells, p)|,
     |set p | p in cells && Meets(cells[p])|]
  }

  /** The quality of a full order, drawn on its own. */
  function Quality(s: Setting, rows: EdgeRows, b: nat, order: seq<Item>): seq<nat>
    requires Consistent(s) && RowsKnown(s, rows) && GoodOrder(s, b, order)
  {
    BoundaryIsBridgeable(s, rows, b, order);
    CellQuality(DrawAll(BoundaryFrame(s, b, order), ShortDrawings(s, rows, Some(b))))
  }

  ghost predicate Better(s: Setting, rows: EdgeRows, b: nat, order: seq<Item>, other: seq<Item>)
    requires Consistent(s) && RowsKnown(s, rows)
  {
    && GoodOrder(s, b, order) && GoodOrder(s, b, other)
    && Less(Quality(s, rows, b, order), Quality(s, rows, b, other))
  }

  lemma CandidateIsGood(s: Setting, b: nat, base: seq<Item>, order: seq<Item>)
    requires Consistent(s) && b in s.widths && b + 1 in s.widths && Distinct(base)
    requires ActiveItems(s, b) <= Elements(base) && CandidateOf(base, ActiveItems(s, b), order)
    ensures GoodOrder(s, b, order)
  {
    hide Consistent, ActiveItems, Elements, Distinct, BO.Permutes;
    PermutedItems(order, base);
  }

  // ------------------------------------------------------- choosing an order

  /** The candidate passes the validator, and no candidate of better quality does. */
  ghost predicate BestOrder(s: Setting, rows: EdgeRows, b: nat, base: seq<Item>, orders: seq<seq<Item>>,
                            order: seq<Item>)
    requires Consistent(s) && RowsKnown(s, rows)
  {
    && Candidates(base, ActiveItems(s, b), orders) && order in orders && PartValid(s, rows, b, base, order)
    && (forall o :: o in orders && Better(s, rows, b, o, order) ==> !PartValid(s, rows, b, base, o))
  }

  /** A best valid candidate order of exactly these items. */
  ghost predicate IsBoundaryOrder(s: Setting, rows: EdgeRows, b: nat, items: set<Item>, order: seq<Item>)
    requires Consistent(s) && RowsKnown(s, rows)
  {
    && Arrangement(items, order)
    && exists base, orders :: Arrangement(items, base) && BestOrder(s, rows, b, base, orders, order)
  }

  /** None of the candidates is valid. */
  ghost predicate Exhausted(s: Setting, rows: EdgeRows, b: nat, base: seq<Item>, orders: seq<seq<Item>>)
    requires Consistent(s) && RowsKnown(s, rows)
  {
    && Candidates(base, ActiveItems(s, b), orders)
    && forall o :: o in orders ==> !PartValid(s, rows, b, base, o)
  }

  /** The first valid candidate in the order of quality. */
  method OrderBoundary(s: Setting, rows: EdgeRows, b: nat, items: set<Item>) returns (order: Option<seq<Item>>)
    requires Consistent(s) && RowsKnown(s, rows) && b in s.widths && b + 1 in s.widths && ActiveItems(s, b) <= items
    ensures order.Some? ==> IsBoundaryOrder(s, rows, b, items, order.value)
    ensures order.None? ==> exists base, orders :: Arrangement(items, base) && Exhausted(s, rows, b, base, orders)
  {
    hide Consistent, GoodOrder, OrderValid, RowsKnown, ActiveItems, BO.Permutes, BO.KeepsPassive, ActivePart, Distinct,
      Quality, Less;
    var base := Listing(items);
    var active := ActiveItems(s, b);
    var orders := BO.CandidateOrders(base, active);
    assert Candidates(base, active, orders);
    forall o | o in orders ensures GoodOrder(s, b, o) {
      CandidateIsGood(s, b, base, o);
    }
    var ranked := map o | o in orders :: Quality(s, rows, b, o);
    var todo := ranked.Keys;
    while todo != {}
      invariant todo <= ranked.Keys
      invariant forall o :: o in orders && o !in todo ==> !PartValid(s, rows, b, base, o)
      decreases |todo|
    {
      ghost var best := BestExists(todo, ranked);
      var candidate :| IsBest(todo, ranked, candidate);
      assert IsBest(todo, ranked, candidate);
      assert CandidateOf(base, active, candidate);
      ActivePartIsGood(s, b, base, candidate);
      var ok := OrderIsValid(s, rows, b, ActivePart(base, active, candidate));
      if ok {
        PermutedItems(candidate, base);
        assert BestOrder(s, rows, b, base, orders, candidate);
        return Some(candidate);
      }
      todo := todo - {candidate};
    }
    assert Exhausted(s, rows, b, base, orders);
    return None;
  }

  // --------------------------------------------------------- what the order means

  /** Two short edges are drawn with one bundle mark exactly when they leave on one track. */
  lemma BundleMarks(s: Setting, rows: EdgeRows, e: EdgeKey, f: EdgeKey)
    requires Consistent(s) && RowsKnown(s, rows) && GG.Disjoint(GG.Nodes(s.groups))
    requires e in s.edges && f in s.edges && e != f && Short(s, e) && Short(s, f)
    ensures var d, g := ShortDrawing(s, rows, e), ShortDrawing(s, rows, f);
      (d.Adjacent? && g.Adjacent? && d.bundle.Some? && d.bundle == g.bundle) <==> SourceItem(s, e) == SourceItem(s, f)
  {
    hide HasRivals, OnOneLane, Bundled, Consistent, Short;
    SharedTrack(s, e, f);
    BundledIff(s, e);
    BundledIff(s, f);
    if Relation(s, e) == Relation(s, f) {
      BundledTogether(s, e, f);
    }
  }

  /** Every edge leaves its source on its own source track and reaches its target on its own
      target track, or has one track for both, alone or with its bundle. */
  lemma EndsOnOwnTracks(s: Setting, rows: EdgeRows, e: EdgeKey)
    requires Consistent(s) && RowsKnown(s, rows) && e in s.edges
    ensures var d := if Short(s, e) then ShortDrawing(s, rows, e) else LongDrawing(s, e);
      match d
      case Adjacent(x, item, bundle) => x == e && (bundle.None? ==> item == EdgeItem(e))
      case Dogleg(x, a, b, row) => x == e && a == DoglegSource(e) && b == DoglegTarget(e) && row == rows[e]
      case Long(x, a, b, _) => x == e && (a == b == EdgeItem(e) || (a == DoglegSource(e) && b == DoglegTarget(e)))
  {
    hide Consistent, Bundled, HasRivals;
    BundledIsShort(s, e);
  }

  lemma BundledIff(s: Setting, e: EdgeKey)
    requires Consistent(s) && e in s.edges
    ensures Bundled(s, e) ==> Short(s, e) && OnOneLane(s, Relation(s, e))
  {
    hide Consistent, OnOneLane, RelationLanes;
    BundledIsShort(s, e);
    LanesAreFew(s, Relation(s, e));
  }

  lemma BundledTogether(s: Setting, e: EdgeKey, f: EdgeKey)
    requires Consistent(s) && e in s.edges && f in s.edges && e != f && Relation(s, e) == Relation(s, f)
    ensures Bundled(s, e) <==> Bundled(s, f)
    ensures Bundled(s, e) <==> Short(s, e) && OnOneLane(s, Relation(s, e))
  {
    hide OnOneLane, RelationLanes;
    LanesAreFew(s, Relation(s, e));
    TwoElements(RelationEdges(s, Relation(s, e)), e, f);
  }

  /** Lines at a cell and at the next cell of its row. */
  predicate NextTo(cells: Cells, p: Point, a: Contribution, b: Contribution) {
    && p in cells && a in cells[p] && Point(p.x + 1, p.y) in cells && b in cells[Point(p.x + 1, p.y)]
  }

  /** One goes down and the other up. */
  ghost predicate RunsAgainst(cells: Cells, p: Point) {
    exists a, b :: NextTo(cells, p, a, b) && a.vertical == -b.vertical && a.vertical in [1, -1]
  }

  ghost predicate RunsBeside(cells: Cells, p: Point) {
    exists a, b :: NextTo(cells, p, a, b) && a.vertical in [1, -1] && b.vertical in [1, -1]
  }

  /** Lines of two edges, one line across and one down. */
  ghost predicate Corner(cells: Cells, p: Point) {
    && p in cells && (exists c, d :: c in cells[p] && d in cells[p] && c.edge != d.edge)
    && (exists g :: g in cells[p] && (Left in g.bits || Right in g.bits))
    && (exists h :: h in cells[p] && (Up in h.bits || Down in h.bits))
  }

  /** The three counts that rank an order vanish exactly when no two lines run against each
      other in neighbouring columns, run side by side, or meet at a right angle. */
  lemma QualityCounts(cells: Cells)
    ensures |CellQuality(cells)| == 3
    ensures CellQuality(cells)[0] == 0 <==> !exists p :: RunsAgainst(cells, p)
    ensures CellQuality(cells)[1] == 0 <==> !exists p :: RunsBeside(cells, p)
    ensures CellQuality(cells)[2] == 0 <==> !exists p :: Corner(cells, p)
  {
    hide Opposed, Neighbouring, Meets, RunsAgainst, RunsBeside, Corner;
    var opposed := set p | p in cells && Opposed(cells, p);
    var near := set p | p in cells && Neighbouring(cells, p);
    var met := set p | p in cells && Meets(cells[p]);
    forall p
      ensures (p in opposed <==> RunsAgainst(cells, p)) && (p in near <==> RunsBeside(cells, p))
      ensures p in met <==> Corner(cells, p)
    {
      SideBySide(cells, p);
      Corners(cells, p);
    }
    EmptyIff(opposed);
    EmptyIff(near);
    EmptyIff(met);
    assert CellQuality(cells) == [|opposed|, |near|, |met|];
  }

  lemma EmptyIff(points: set<Point>)
    ensures |points| == 0 <==> !exists p :: p in points
  {
  }

  lemma RunsAre(cells: Cells, p: Point, direction: int)
    ensures Runs(cells, p, direction) <==> p in cells && exists c :: c in cells[p] && c.vertical == direction
  {
    if p in cells {
      if c :| c in cells[p] && c.vertical == direction {
        var i :| 0 <= i < |cells[p]| && cells[p][i] == c;
      }
    }
  }

  lemma SideBySide(cells: Cells, p: Point)
    ensures p in cells && Opposed(cells, p) <==> RunsAgainst(cells, p)
    ensures p in cells && Neighbouring(cells, p) <==> RunsBeside(cells, p)
  {
    hide Runs;
    RunsAre(cells, p, 1);
    RunsAre(cells, p, -1);
    RunsAre(cells, RightOf(p), 1);
    RunsAre(cells, RightOf(p), -1);
  }

  lemma HasBitsIff(contributions: seq<Contribution>, x: Direction, y: Direction)
    ensures HasBits(contributions, {x, y}) <==> exists g :: g in contributions && (x in g.bits || y in g.bits)
  {
    if g :| g in contributions && (x in g.bits || y in g.bits) {
      var i :| 0 <= i < |contributions| && contributions[i] == g;
      assert (if x in g.bits then x else y) in g.bits * {x, y};
    }
    if HasBits(contributions, {x, y}) {
      var i :| 0 <= i < |contributions| && contributions[i].bits * {x, y} != {};
      var z :| z in contributions[i].bits * {x, y};
      assert contributions[i] in contributions;
    }
  }

  lemma Corners(cells: Cells, p: Point)
    ensures p in cells && Meets(cells[p]) <==> Corner(cells, p)
  {
    hide HasBits;
    if p in cells {
      HasBitsIff(cells[p], Left, Right);
      HasBitsIff(cells[p], Up, Down);
      var edges := EdgesOf(cells[p]);
      if |edges| >= 2 {
        var e :| e in edges;
        var f := Another(edges, e);
        var c :| c in cells[p] && c.edge == e;
        var d :| d in cells[p] && d.edge == f;
        assert c.edge != d.edge;
      }
      if c, d :| c in cells[p] && d in cells[p] && c.edge != d.edge {
        TwoElements(edges, c.edge, d.edge);
      }
    }
  }
}
