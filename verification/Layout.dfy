/** The finished drawing: all routes together against all node labels. */
module Layout {
  import opened Collections
  import opened RoutePath
  import opened RouteShapes
  import opened RouteDrawing
  import opened RouteGeometry

  /** Column geometry with the place of every node. */
  datatype Frame = Frame(widths: Widths, items: Boundaries, starts: map<nat, int>, tracks: map<(nat, Item), int>,
                         places: map<Node, Placement>)

  /** How one edge is drawn. */
  datatype Drawing =
    | Adjacent(edge: EdgeKey, item: Item, bundle: Option<(nat, nat)>)
    | Dogleg(edge: EdgeKey, sourceItem: Item, targetItem: Item, row: nat)
    | Long(edge: EdgeKey, sourceItem: Item, targetItem: Item, row: nat)

  ghost predicate Framed(f: Frame) {
    && Geometry(f.widths, f.items, f.starts, f.tracks) && f.starts.Keys == f.widths.Keys
    && forall n :: n in f.places ==> f.places[n].column in f.widths
  }

  predicate Ends(f: Frame, e: EdgeKey) {
    && e.source in f.places && e.target in f.places
    && f.places[e.source].column in f.widths && f.places[e.target].column in f.widths
    && f.places[e.source].column in f.starts && f.places[e.target].column in f.starts
    && f.places[e.source].column < f.places[e.target].column
  }

  /** No node on the row in a column strictly between the ends. */
  predicate RowIsFree(f: Frame, e: EdgeKey, row: nat)
    requires Ends(f, e)
  {
    forall n :: n in f.places && f.places[e.source].column < f.places[n].column < f.places[e.target].column ==>
      f.places[n].row != row
  }

  predicate Track(f: Frame, column: nat, item: Item) {
    (column, item) in f.tracks && Tracked(f.items, column, item)
  }

  /** The ends and the tracks are there, so that the strokes can be drawn. */
  predicate Bridgeable(f: Frame, d: Drawing) {
    && Ends(f, d.edge)
    && var source, target := f.places[d.edge.source], f.places[d.edge.target];
      match d
      case Adjacent(_, item, _) => target.column == source.column + 1 && Track(f, source.column, item)
      case Dogleg(_, a, b, _) =>
        target.column == source.column + 1 && Track(f, source.column, a) && Track(f, source.column, b) && a != b
      case Long(_, a, b, row) =>
        && source.column + 1 < target.column && (target.column - 1) in f.widths
        && Track(f, source.column, a) && Track(f, target.column - 1, b)
  }

  /** Doglegs run forward, and long routes on a row without labels. */
  predicate Drawable(f: Frame, d: Drawing) {
    && Bridgeable(f, d)
    && (d.Dogleg? ==> DoglegForward(f, d))
    && (d.Long? ==> RowIsFree(f, d.edge, d.row))
  }

  predicate DoglegForward(f: Frame, d: Drawing)
    requires Bridgeable(f, d) && d.Dogleg?
  {
    var c := f.places[d.edge.source].column;
    f.tracks[(c, d.sourceItem)] < f.tracks[(c, d.targetItem)]
  }

  function BridgeOf(f: Frame, d: Drawing): Bridge
    requires Bridgeable(f, d)
  {
    var source, target := f.places[d.edge.source], f.places[d.edge.target];
    match d
    case Adjacent(_, item, _) =>
      RouteBridge(source, target, f.widths, f.starts, f.tracks[(source.column, item)], target.row,
                  f.tracks[(source.column, item)])
    case Dogleg(_, a, b, row) =>
      RouteBridge(source, target, f.widths, f.starts, f.tracks[(source.column, a)], row, f.tracks[(source.column, b)])
    case Long(_, a, b, row) =>
      RouteBridge(source, target, f.widths, f.starts, f.tracks[(source.column, a)], row,
                  f.tracks[(target.column - 1, b)])
  }

  predicate AllBridgeable(f: Frame, drawings: seq<Drawing>) {
    forall i :: 0 <= i < |drawings| ==> Bridgeable(f, drawings[i])
  }

  predicate AllDrawable(f: Frame, drawings: seq<Drawing>) {
    forall i :: 0 <= i < |drawings| ==> Drawable(f, drawings[i])
  }

  function DrawOne(f: Frame, cells: Cells, d: Drawing): Cells
    requires Bridgeable(f, d)
  {
    if d.Adjacent? then AdjacentDrawn(cells, d.edge, d.bundle, BridgeOf(f, d))
    else BridgeDrawn(cells, d.edge, BridgeOf(f, d))
  }

  function DrawAll(f: Frame, drawings: seq<Drawing>): Cells
    requires AllBridgeable(f, drawings)
  {
    if drawings == [] then map[] else
      var n := |drawings| - 1;
      DrawOne(f, DrawAll(f, drawings[..n]), drawings[n])
  }

  /** Draw every edge into one map of cells. */
  method BuildCells(f: Frame, drawings: seq<Drawing>) returns (cells: Cells)
    requires AllBridgeable(f, drawings)
    ensures cells == DrawAll(f, drawings)
  {
    hide AdjacentDrawn, BridgeDrawn;
    var canvas := new Canvas();
    var i: nat := 0;
    while i < |drawings|
      invariant i <= |drawings| && AllBridgeable(f, drawings[..i]) && canvas.cells == DrawAll(f, drawings[..i])
    {
      assert drawings[..i + 1][..i] == drawings[..i];
      var d := drawings[i];
      if d.Adjacent? {
        canvas.RouteAdjacent(d.edge, BridgeOf(f, d), d.bundle);
      } else {
        canvas.RouteBridge(d.edge, BridgeOf(f, d));
      }
      i := i + 1;
    }
    assert drawings[..i] == drawings;
    return canvas.cells;
  }

  lemma OneMoreBits(f: Frame, cells: Cells, d: Drawing, e: EdgeKey, p: Point)
    requires Bridgeable(f, d)
    ensures BitsAt(DrawOne(f, cells, d), e, p) ==
      BitsAt(cells, e, p) + (if e == d.edge then BridgeOf(f, d).Bits(p) else {})
    ensures WellDrawn(cells) ==> WellDrawn(DrawOne(f, cells, d))
  {
    hide BitsAt, WellDrawn, AdjacentDrawn, BridgeDrawn;
    if d.Adjacent? {
      AdjacentDrawnBits(cells, d.edge, d.bundle, BridgeOf(f, d), e, p);
    } else {
      BridgeDrawnBits(cells, d.edge, BridgeOf(f, d), e, p);
    }
  }

  /** Every bit of the drawing was put there by a route of its edge. */
  lemma {:induction false} BitsComeFromARoute(f: Frame, drawings: seq<Drawing>, e: EdgeKey, p: Point) returns (i: nat)
    requires AllBridgeable(f, drawings) && BitsAt(DrawAll(f, drawings), e, p) != {}
    ensures i < |drawings| && drawings[i].edge == e && BridgeOf(f, drawings[i]).Bits(p) != {}
  {
    hide DrawOne, BridgeOf, BitsAt, Bridgeable;
    NothingDrawn(e, p);
    var n := |drawings| - 1;
    OneMoreBits(f, DrawAll(f, drawings[..n]), drawings[n], e, p);
    if BitsAt(DrawAll(f, drawings[..n]), e, p) != {} {
      i := BitsComeFromARoute(f, drawings[..n], e, p);
    } else {
      i := n;
    }
  }

  lemma NothingDrawn(e: EdgeKey, p: Point)
    ensures BitsAt(map[], e, p) == {} && WellDrawn(map[])
  {
  }

  lemma {:induction false} DrawingIsWellDrawn(f: Frame, drawings: seq<Drawing>)
    requires AllBridgeable(f, drawings)
    ensures WellDrawn(DrawAll(f, drawings))
  {
    hide DrawOne, BridgeOf, WellDrawn, Bridgeable;
    var e, p := EdgeKey("", ""), Point(0, 0);
    if drawings == [] {
      NothingDrawn(e, p);
    } else {
      var n := |drawings| - 1;
      DrawingIsWellDrawn(f, drawings[..n]);
      OneMoreBits(f, DrawAll(f, drawings[..n]), drawings[n], e, p);
    }
  }

  lemma BridgeIsOrdered(f: Frame, d: Drawing)
    requires Framed(f) && Drawable(f, d)
    ensures Ordered(BridgeOf(f, d))
  {
    hide TracksInGaps, Tracked;
    var source, target := f.places[d.edge.source], f.places[d.edge.target];
    match d
    case Adjacent(_, item, _) =>
      TrackInGap(f.widths, f.items, f.starts, f.tracks, source.column, item, target.column);
    case Dogleg(_, a, b, _) =>
      TrackInGap(f.widths, f.items, f.starts, f.tracks, source.column, a, target.column);
      TrackInGap(f.widths, f.items, f.starts, f.tracks, source.column, b, target.column);
    case Long(_, a, b, _) =>
      var last: nat := target.column - 1;
      TrackInGap(f.widths, f.items, f.starts, f.tracks, source.column, a, last);
      TrackInGap(f.widths, f.items, f.starts, f.tracks, last, b, target.column);
  }

  /** The cell is left of the right edge of the column. */
  predicate LeftOf(f: Frame, p: Point, c: nat) {
    c in f.widths && c in f.starts && p.x < f.starts[c] + f.widths[c]
  }

  lemma OneRouteIsClear(f: Frame, d: Drawing, n: Node, p: Point)
    requires Framed(f) && Drawable(f, d) && n in f.places && BridgeOf(f, d).Bits(p) != {}
    ensures f.places[n].column in f.starts && !OnLabel(f.widths, f.starts, f.places[n], p)
    ensures 0 <= p.x && 0 <= p.y
    ensures exists c :: LeftOf(f, p, c)
  {
    hide TracksInGaps, Tracked, Ordered, HorizontalBits, VerticalBits, OnLabel;
    var source, target := f.places[d.edge.source], f.places[d.edge.target];
    BridgeIsOrdered(f, d);
    RoutesStayInside(f.widths, f.items, f.starts, f.tracks, source, target, BridgeOf(f, d), p);
    assert LeftOf(f, p, target.column);
    if d.Long? {
      LongRouteAvoidsLabels(f.widths, f.items, f.starts, f.tracks, source, target, d.sourceItem, d.targetItem, d.row,
                            f.places[n], p);
    } else {
      RoutesAvoidLabels(f.widths, f.items, f.starts, f.tracks, source, target, BridgeOf(f, d), f.places[n], p);
    }
  }

  /** No cell lies on a label, and none leaves the canvas. */
  ghost predicate Clear(f: Frame, cells: Cells) {
    forall p, e, n :: p in cells && Mentions(cells[p], e) && n in f.places ==> CellIsClear(f, p, n)
  }

  ghost predicate CellIsClear(f: Frame, p: Point, n: Node) {
    && n in f.places && f.places[n].column in f.widths && f.places[n].column in f.starts
    && !OnLabel(f.widths, f.starts, f.places[n], p)
    && 0 <= p.x && 0 <= p.y && exists c :: LeftOf(f, p, c)
  }

  lemma LayoutIsClear(f: Frame, drawings: seq<Drawing>)
    requires Framed(f) && AllDrawable(f, drawings)
    ensures AllBridgeable(f, drawings) && Clear(f, DrawAll(f, drawings))
  {
    hide DrawOne, BridgeOf, Drawable, Geometry, OnLabel, LeftOf, Bridgeable, DrawAll, WellDrawn;
    DrawableIsBridgeable(f, drawings);
    var cells: Cells := DrawAll(f, drawings);
    DrawingIsWellDrawn(f, drawings);
    forall p, e, n | p in cells && Mentions(cells[p], e) && n in f.places ensures CellIsClear(f, p, n) {
      MentionedIsDrawn(cells, p, e);
      var i := BitsComeFromARoute(f, drawings, e, p);
      OneRouteIsClear(f, drawings[i], n, p);
    }
  }

  lemma MentionedIsDrawn(cells: Cells, p: Point, e: EdgeKey)
    requires WellDrawn(cells) && p in cells && Mentions(cells[p], e)
    ensures BitsAt(cells, e, p) != {}
  {
    var k :| 0 <= k < |cells[p]| && cells[p][k].edge == e;
    UnionCovers(cells[p], e, k);
  }

  lemma DrawableIsBridgeable(f: Frame, drawings: seq<Drawing>)
    requires AllDrawable(f, drawings)
    ensures AllBridgeable(f, drawings)
  {
    hide Bridgeable;
  }

  // ----------------------------------------------------- what acceptance implies

  ghost predicate DrawnOnce(drawings: seq<Drawing>) {
    forall i, j :: 0 <= i < j < |drawings| ==> drawings[i].edge != drawings[j].edge
  }

  /** Edges drawn once have exactly the bits of their own bridge. */
  lemma {:induction false} OwnBits(f: Frame, drawings: seq<Drawing>, i: nat, p: Point)
    requires AllBridgeable(f, drawings) && DrawnOnce(drawings) && i < |drawings|
    ensures BitsAt(DrawAll(f, drawings), drawings[i].edge, p) == BridgeOf(f, drawings[i]).Bits(p)
  {
    hide DrawOne, BridgeOf, BitsAt, Bridgeable;
    var n := |drawings| - 1;
    var e := drawings[i].edge;
    var before := DrawAll(f, drawings[..n]);
    OneMoreBits(f, before, drawings[n], e, p);
    if i < n {
      OwnBits(f, drawings[..n], i, p);
    } else if BitsAt(before, e, p) != {} {
      var k := BitsComeFromARoute(f, drawings[..n], e, p);
    }
  }

  lemma OwnRoute(f: Frame, drawings: seq<Drawing>, i: nat)
    requires AllBridgeable(f, drawings) && DrawnOnce(drawings) && i < |drawings|
    ensures Draws(EdgeRoute(DrawAll(f, drawings), drawings[i].edge), BridgeOf(f, drawings[i]))
  {
    hide DrawAll, BridgeOf, BitsAt, Bridgeable, WellDrawn, EdgeRoute;
    var cells, e := DrawAll(f, drawings), drawings[i].edge;
    DrawingIsWellDrawn(f, drawings);
    forall p
      ensures At(EdgeRoute(cells, e), p) == BridgeOf(f, drawings[i]).Bits(p)
      ensures p in EdgeRoute(cells, e) ==> EdgeRoute(cells, e)[p] != {}
    {
      OwnBits(f, drawings, i, p);
      RouteByBits(cells, e, p);
    }
  }

  /** Where the dogleg leaves its row. */
  predicate LeavesRow(f: Frame, d: Drawing)
    requires Bridgeable(f, d) && d.Dogleg?
  {
    var source, target := f.places[d.edge.source], f.places[d.edge.target];
    if source.row == target.row then d.row != source.row else d.row == source.row
  }

  /** A dogleg that is recognised as a path runs forward. */
  lemma AcceptedDoglegIsForward(f: Frame, drawings: seq<Drawing>, i: nat, path: seq<Point>)
    requires Framed(f) && AllBridgeable(f, drawings) && DrawnOnce(drawings) && i < |drawings|
    requires drawings[i].Dogleg? && LeavesRow(f, drawings[i])
    requires SimplePath(EdgeRoute(DrawAll(f, drawings), drawings[i].edge), BridgeOf(f, drawings[i]).Source(),
                        BridgeOf(f, drawings[i]).Target(), path)
    ensures DoglegForward(f, drawings[i])
  {
    hide DrawAll, EdgeRoute, SimplePath, TracksInGaps, Tracked, Draws;
    var d := drawings[i];
    var source, target := f.places[d.edge.source], f.places[d.edge.target];
    TrackInGap(f.widths, f.items, f.starts, f.tracks, source.column, d.sourceItem, target.column);
    TrackInGap(f.widths, f.items, f.starts, f.tracks, source.column, d.targetItem, target.column);
    TracksDiffer(f.widths, f.items, f.starts, f.tracks, source.column, target.column, d.sourceItem, d.targetItem);
    OwnRoute(f, drawings, i);
    if !DoglegForward(f, d) {
      CrossedBridgeBranches(EdgeRoute(DrawAll(f, drawings), d.edge), BridgeOf(f, d));
    }
  }
}
