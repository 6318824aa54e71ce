/** Drawing edges as direction bits into a shared map of cells. */
module RouteDrawing {
  import opened Collections
  import opened RoutePath
  import opened RouteShapes

  type Node = string

  datatype EdgeKey = EdgeKey(source: Node, target: Node)

  /** The bundle is the pair of sibling groups whose edges share a track. */
  datatype Contribution = Contribution(edge: EdgeKey, bits: Bits, bundle: Option<(nat, nat)>, vertical: int)

  type Cells = map<Point, seq<Contribution>>

  function Add(cells: Cells, p: Point, c: Contribution): Cells {
    cells[p := (if p in cells then cells[p] else []) + [c]]
  }

  /** All bits one edge contributes to a cell. */
  function Union(contributions: seq<Contribution>, edge: EdgeKey): Bits {
    if contributions == [] then {} else
      var last := contributions[|contributions| - 1];
      Union(contributions[..|contributions| - 1], edge) + (if last.edge == edge then last.bits else {})
  }

  predicate Mentions(contributions: seq<Contribution>, edge: EdgeKey) {
    exists i :: 0 <= i < |contributions| && contributions[i].edge == edge
  }

  function BitsAt(cells: Cells, edge: EdgeKey, p: Point): Bits {
    if p in cells then Union(cells[p], edge) else {}
  }

  /** The cells and bits of one edge. */
  function EdgeRoute(cells: Cells, edge: EdgeKey): Route {
    map p | p in cells && Mentions(cells[p], edge) :: Union(cells[p], edge)
  }

  /** Nothing draws empty bits. */
  ghost predicate WellDrawn(cells: Cells) {
    forall p, i :: p in cells && 0 <= i < |cells[p]| ==> cells[p][i].bits != {}
  }

  lemma UnionSnoc(contributions: seq<Contribution>, c: Contribution, edge: EdgeKey)
    ensures Union(contributions + [c], edge) == Union(contributions, edge) + (if c.edge == edge then c.bits else {})
  {
    assert (contributions + [c])[..|contributions|] == contributions;
  }

  lemma {:induction false} UnionCovers(contributions: seq<Contribution>, edge: EdgeKey, i: nat)
    requires i < |contributions| && contributions[i].edge == edge
    ensures contributions[i].bits <= Union(contributions, edge)
  {
    var n := |contributions| - 1;
    if i < n {
      UnionCovers(contributions[..n], edge, i);
    }
  }

  lemma AddBits(cells: Cells, p: Point, c: Contribution, edge: EdgeKey, q: Point)
    ensures BitsAt(Add(cells, p, c), edge, q) ==
      BitsAt(cells, edge, q) + (if q == p && c.edge == edge then c.bits else {})
  {
    if q == p {
      UnionSnoc(if p in cells then cells[p] else [], c, edge);
    }
  }

  lemma AddWellDrawn(cells: Cells, p: Point, c: Contribution)
    requires WellDrawn(cells) && c.bits != {}
    ensures WellDrawn(Add(cells, p, c))
  {
  }

  /** In well-drawn cells an edge's route is described by its bits alone. */
  lemma RouteByBits(cells: Cells, edge: EdgeKey, p: Point)
    requires WellDrawn(cells)
    ensures At(EdgeRoute(cells, edge), p) == BitsAt(cells, edge, p)
    ensures p in EdgeRoute(cells, edge) ==> EdgeRoute(cells, edge)[p] != {}
  {
    if p in cells {
      if Mentions(cells[p], edge) {
        var i :| 0 <= i < |cells[p]| && cells[p][i].edge == edge;
        UnionCovers(cells[p], edge, i);
      } else {
        UnionOfOthers(cells[p], edge);
      }
    }
  }

  lemma {:induction false} UnionOfOthers(contributions: seq<Contribution>, edge: EdgeKey)
    requires !Mentions(contributions, edge)
    ensures Union(contributions, edge) == {}
  {
    if contributions != [] {
      var n := |contributions| - 1;
      var rest := contributions[..n];
      assert !Mentions(rest, edge);
      UnionOfOthers(rest, edge);
      assert contributions[n].edge != edge;
    }
  }

  // ------------------------------------------------------------------ strokes

  /** The cells after drawing columns `low` up to but not including `x` of a row. */
  function RowUpTo(cells: Cells, edge: EdgeKey, bundle: Option<(nat, nat)>, low: int, high: int, y: int, x: int): Cells
    requires low <= x
    decreases x - low
  {
    if x == low then cells else
      var before := RowUpTo(cells, edge, bundle, low, high, y, x - 1);
      var bits := HorizontalBits(low, high, y, Point(x - 1, y));
      if bits == {} then before else Add(before, Point(x - 1, y), Contribution(edge, bits, bundle, 0))
  }

  function ColumnUpTo(cells: Cells, edge: EdgeKey, bundle: Option<(nat, nat)>, direction: int,
                      x: int, low: int, high: int, y: int): Cells
    requires low <= y
    decreases y - low
  {
    if y == low then cells else
      var before := ColumnUpTo(cells, edge, bundle, direction, x, low, high, y - 1);
      var bits := VerticalBits(x, low, high, Point(x, y - 1));
      if bits == {} then before else Add(before, Point(x, y - 1), Contribution(edge, bits, bundle, direction))
  }

  function Min(a: int, b: int): int { if b < a then b else a }

  function Max(a: int, b: int): int { if b < a then a else b }

  function Row(cells: Cells, edge: EdgeKey, bundle: Option<(nat, nat)>, x1: int, x2: int, y: int): Cells {
    RowUpTo(cells, edge, bundle, Min(x1, x2), Max(x1, x2), y, Max(x1, x2) + 1)
  }

  function Column(cells: Cells, edge: EdgeKey, bundle: Option<(nat, nat)>, x: int, y1: int, y2: int): Cells {
    ColumnUpTo(cells, edge, bundle, if y2 > y1 then 1 else if y2 < y1 then -1 else 0,
               x, Min(y1, y2), Max(y1, y2), Max(y1, y2) + 1)
  }

  lemma {:induction false} RowUpToBits(cells: Cells, edge: EdgeKey, bundle: Option<(nat, nat)>,
                                       low: int, high: int, y: int, x: int, e: EdgeKey, p: Point)
    requires low <= x
    ensures BitsAt(RowUpTo(cells, edge, bundle, low, high, y, x), e, p) ==
      BitsAt(cells, e, p) + (if e == edge && low <= p.x < x && p.y == y then HorizontalBits(low, high, y, p) else {})
    ensures WellDrawn(cells) ==> WellDrawn(RowUpTo(cells, edge, bundle, low, high, y, x))
    decreases x - low
  {
    hide BitsAt, WellDrawn, HorizontalBits, Add;
    if x > low {
      RowUpToBits(cells, edge, bundle, low, high, y, x - 1, e, p);
      var before := RowUpTo(cells, edge, bundle, low, high, y, x - 1);
      var c := Contribution(edge, HorizontalBits(low, high, y, Point(x - 1, y)), bundle, 0);
      AddBits(before, Point(x - 1, y), c, e, p);
      if WellDrawn(before) && c.bits != {} {
        AddWellDrawn(before, Point(x - 1, y), c);
      }
    }
  }

  lemma {:induction false} ColumnUpToBits(cells: Cells, edge: EdgeKey, bundle: Option<(nat, nat)>, direction: int,
                                          x: int, low: int, high: int, y: int, e: EdgeKey, p: Point)
    requires low <= y
    ensures BitsAt(ColumnUpTo(cells, edge, bundle, direction, x, low, high, y), e, p) ==
      BitsAt(cells, e, p) + (if e == edge && low <= p.y < y && p.x == x then VerticalBits(x, low, high, p) else {})
    ensures WellDrawn(cells) ==> WellDrawn(ColumnUpTo(cells, edge, bundle, direction, x, low, high, y))
    decreases y - low
  {
    hide BitsAt, WellDrawn, VerticalBits, Add;
    if y > low {
      ColumnUpToBits(cells, edge, bundle, direction, x, low, high, y - 1, e, p);
      var before := ColumnUpTo(cells, edge, bundle, direction, x, low, high, y - 1);
      var c := Contribution(edge, VerticalBits(x, low, high, Point(x, y - 1)), bundle, direction);
      AddBits(before, Point(x, y - 1), c, e, p);
      if WellDrawn(before) && c.bits != {} {
        AddWellDrawn(before, Point(x, y - 1), c);
      }
    }
  }

  lemma RowBits(cells: Cells, edge: EdgeKey, bundle: Option<(nat, nat)>, x1: int, x2: int, y: int, e: EdgeKey, p: Point)
    ensures BitsAt(Row(cells, edge, bundle, x1, x2, y), e, p) ==
      BitsAt(cells, e, p) + (if e == edge then HorizontalBits(x1, x2, y, p) else {})
    ensures WellDrawn(cells) ==> WellDrawn(Row(cells, edge, bundle, x1, x2, y))
  {
    hide BitsAt, WellDrawn, RowUpTo;
    RowUpToBits(cells, edge, bundle, Min(x1, x2), Max(x1, x2), y, Max(x1, x2) + 1, e, p);
  }

  lemma ColumnBits(cells: Cells, edge: EdgeKey, bundle: Option<(nat, nat)>, x: int, y1: int, y2: int, e: EdgeKey,
                   p: Point)
    ensures BitsAt(Column(cells, edge, bundle, x, y1, y2), e, p) ==
      BitsAt(cells, e, p) + (if e == edge then VerticalBits(x, y1, y2, p) else {})
    ensures WellDrawn(cells) ==> WellDrawn(Column(cells, edge, bundle, x, y1, y2))
  {
    hide BitsAt, WellDrawn, ColumnUpTo;
    ColumnUpToBits(cells, edge, bundle, if y2 > y1 then 1 else if y2 < y1 then -1 else 0,
                   x, Min(y1, y2), Max(y1, y2), Max(y1, y2) + 1, e, p);
  }

  // ------------------------------------------------------------- whole routes

  /** Source row, source track, crossing row, target track, target row. */
  function BridgeDrawn(cells: Cells, edge: EdgeKey, b: Bridge): Cells {
    var c1 := Row(cells, edge, None, b.sourceX, b.sourceTrack, b.sourceRow);
    var c2 := Column(c1, edge, None, b.sourceTrack, b.sourceRow, b.row);
    var c3 := Row(c2, edge, None, b.sourceTrack, b.targetTrack, b.row);
    var c4 := Column(c3, edge, None, b.targetTrack, b.row, b.targetRow);
    Row(c4, edge, None, b.targetTrack, b.targetX, b.targetRow)
  }

  function AdjacentDrawn(cells: Cells, edge: EdgeKey, bundle: Option<(nat, nat)>, b: Bridge): Cells {
    var c1 := Row(cells, edge, bundle, b.sourceX, b.sourceTrack, b.sourceRow);
    var c2 := Column(c1, edge, bundle, b.sourceTrack, b.sourceRow, b.targetRow);
    Row(c2, edge, bundle, b.sourceTrack, b.targetX, b.targetRow)
  }

  lemma BridgeDrawnBits(cells: Cells, edge: EdgeKey, b: Bridge, e: EdgeKey, p: Point)
    ensures BitsAt(BridgeDrawn(cells, edge, b), e, p) == BitsAt(cells, e, p) + (if e == edge then b.Bits(p) else {})
    ensures WellDrawn(cells) ==> WellDrawn(BridgeDrawn(cells, edge, b))
  {
    hide BitsAt, WellDrawn, Row, Column, HorizontalBits, VerticalBits;
    var c1 := Row(cells, edge, None, b.sourceX, b.sourceTrack, b.sourceRow);
    var c2 := Column(c1, edge, None, b.sourceTrack, b.sourceRow, b.row);
    var c3 := Row(c2, edge, None, b.sourceTrack, b.targetTrack, b.row);
    var c4 := Column(c3, edge, None, b.targetTrack, b.row, b.targetRow);
    RowBits(cells, edge, None, b.sourceX, b.sourceTrack, b.sourceRow, e, p);
    ColumnBits(c1, edge, None, b.sourceTrack, b.sourceRow, b.row, e, p);
    RowBits(c2, edge, None, b.sourceTrack, b.targetTrack, b.row, e, p);
    ColumnBits(c3, edge, None, b.targetTrack, b.row, b.targetRow, e, p);
    RowBits(c4, edge, None, b.targetTrack, b.targetX, b.targetRow, e, p);
  }

  /** An adjacent route is the bridge with one track, crossing at the target row. */
  function AdjacentBridge(sourceX: int, track: int, targetX: int, sourceRow: int, targetRow: int): Bridge {
    Bridge(sourceX, track, track, targetX, sourceRow, targetRow, targetRow)
  }

  lemma AdjacentDrawnBits(cells: Cells, edge: EdgeKey, bundle: Option<(nat, nat)>, b: Bridge, e: EdgeKey, p: Point)
    requires b == AdjacentBridge(b.sourceX, b.sourceTrack, b.targetX, b.sourceRow, b.targetRow)
    ensures BitsAt(AdjacentDrawn(cells, edge, bundle, b), e, p) ==
      BitsAt(cells, e, p) + (if e == edge then b.Bits(p) else {})
    ensures WellDrawn(cells) ==> WellDrawn(AdjacentDrawn(cells, edge, bundle, b))
  {
    hide BitsAt, WellDrawn, Row, Column;
    var c1 := Row(cells, edge, bundle, b.sourceX, b.sourceTrack, b.sourceRow);
    var c2 := Column(c1, edge, bundle, b.sourceTrack, b.sourceRow, b.targetRow);
    RowBits(cells, edge, bundle, b.sourceX, b.sourceTrack, b.sourceRow, e, p);
    ColumnBits(c1, edge, bundle, b.sourceTrack, b.sourceRow, b.targetRow, e, p);
    RowBits(c2, edge, bundle, b.sourceTrack, b.targetX, b.targetRow, e, p);
    NoStroke(b, p);
    hide HorizontalBits, VerticalBits;
  }

  lemma NoStroke(b: Bridge, p: Point)
    ensures HorizontalBits(b.sourceTrack, b.sourceTrack, b.row, p) == {}
    ensures VerticalBits(b.targetTrack, b.targetRow, b.targetRow, p) == {}
  {
  }

  /** A drawn edge that was absent before leaves exactly the bridge's bits. */
  lemma FreshEdgeDraws(before: Cells, after: Cells, edge: EdgeKey, b: Bridge)
    requires WellDrawn(after)
    requires forall p :: BitsAt(before, edge, p) == {}
    requires forall p :: BitsAt(after, edge, p) == BitsAt(before, edge, p) + b.Bits(p)
    ensures Draws(EdgeRoute(after, edge), b)
  {
    hide BitsAt, WellDrawn, EdgeRoute;
    forall p
      ensures At(EdgeRoute(after, edge), p) == b.Bits(p)
      ensures p in EdgeRoute(after, edge) ==> EdgeRoute(after, edge)[p] != {}
    {
      RouteByBits(after, edge, p);
    }
  }

  // ------------------------------------------------------- collecting the bits

  predicate Drawn(cells: Cells, edge: EdgeKey) {
    exists p :: p in cells && Mentions(cells[p], edge)
  }

  /** Every drawn edge with the union of its bits in each cell. */
  ghost predicate Collected(cells: Cells, routes: map<EdgeKey, Route>) {
    forall e :: (e in routes <==> Drawn(cells, e)) && (e in routes ==> routes[e] == EdgeRoute(cells, e))
  }

  lemma MentionsSnoc(contributions: seq<Contribution>, c: Contribution, edge: EdgeKey)
    ensures Mentions(contributions + [c], edge) <==> Mentions(contributions, edge) || c.edge == edge
  {
    var longer := contributions + [c];
    if Mentions(contributions, edge) {
      var i :| 0 <= i < |contributions| && contributions[i].edge == edge;
      assert longer[i].edge == edge;
    }
    if c.edge == edge {
      assert longer[|contributions|].edge == edge;
    }
  }

  function CellAt(cells: Cells, p: Point): seq<Contribution> {
    if p in cells then cells[p] else []
  }

  lemma AddCell(cells: Cells, p: Point, c: Contribution, edge: EdgeKey)
    ensures Mentions(Add(cells, p, c)[p], edge) <==> Mentions(CellAt(cells, p), edge) || c.edge == edge
    ensures Union(Add(cells, p, c)[p], edge) ==
      At(EdgeRoute(cells, edge), p) + (if c.edge == edge then c.bits else {})
  {
    MentionsSnoc(CellAt(cells, p), c, edge);
    UnionSnoc(CellAt(cells, p), c, edge);
    if !Mentions(CellAt(cells, p), edge) {
      UnionOfOthers(CellAt(cells, p), edge);
    }
  }

  lemma AddDrawn(cells: Cells, p: Point, c: Contribution, edge: EdgeKey)
    ensures Drawn(Add(cells, p, c), edge) <==> Drawn(cells, edge) || c.edge == edge
  {
    hide Union, Mentions;
    var more := Add(cells, p, c);
    AddCell(cells, p, c, edge);
    if c.edge == edge {
      assert Mentions(more[p], edge);
    } else if Drawn(cells, edge) {
      var q :| q in cells && Mentions(cells[q], edge);
      assert q in more && Mentions(more[q], edge);
    } else {
      assert !Mentions([], edge) by { NothingMentioned(edge); }
      assert forall q :: q in more ==> !Mentions(more[q], edge);
    }
  }

  lemma NothingMentioned(edge: EdgeKey)
    ensures !Mentions([], edge)
  {
  }

  lemma RouteCell(cells: Cells, edge: EdgeKey, q: Point)
    ensures q in EdgeRoute(cells, edge) <==> Mentions(CellAt(cells, q), edge)
    ensures q in EdgeRoute(cells, edge) ==> EdgeRoute(cells, edge)[q] == Union(CellAt(cells, q), edge)
  {
  }

  lemma AddRoute(cells: Cells, p: Point, c: Contribution, edge: EdgeKey)
    ensures EdgeRoute(Add(cells, p, c), edge) ==
      if c.edge == edge then EdgeRoute(cells, edge)[p := At(EdgeRoute(cells, edge), p) + c.bits]
      else EdgeRoute(cells, edge)
  {
    hide Union, Mentions, EdgeRoute;
    var more := Add(cells, p, c);
    AddCell(cells, p, c, edge);
    var route, expected := EdgeRoute(more, edge),
      if c.edge == edge then EdgeRoute(cells, edge)[p := At(EdgeRoute(cells, edge), p) + c.bits]
      else EdgeRoute(cells, edge);
    forall q ensures (q in route <==> q in expected) && (q in route ==> route[q] == expected[q]) {
      RouteCell(more, edge, q);
      RouteCell(cells, edge, q);
    }
  }

  lemma CollectOne(cells: Cells, p: Point, c: Contribution, routes: map<EdgeKey, Route>)
    requires Collected(cells, routes)
    ensures var route := if c.edge in routes then routes[c.edge] else map[];
      Collected(Add(cells, p, c), routes[c.edge := route[p := At(route, p) + c.bits]])
  {
    hide Drawn, EdgeRoute, At;
    assert c.edge !in routes ==> EdgeRoute(cells, c.edge) == map[] by {
      if c.edge !in routes {
        DrawnByRoute(cells, c.edge);
      }
    }
    forall e
      ensures EdgeRoute(Add(cells, p, c), e) ==
        if c.edge == e then EdgeRoute(cells, e)[p := At(EdgeRoute(cells, e), p) + c.bits] else EdgeRoute(cells, e)
      ensures Drawn(Add(cells, p, c), e) <==> Drawn(cells, e) || c.edge == e
    {
      AddRoute(cells, p, c, e);
      AddDrawn(cells, p, c, e);
    }
  }

  /** Cells with the same contributions (empty lists aside) have the same routes. */
  lemma SameContributions(a: Cells, b: Cells, routes: map<EdgeKey, Route>)
    requires Collected(a, routes)
    requires forall p :: CellAt(a, p) == CellAt(b, p)
    ensures Collected(b, routes)
  {
    hide Union, Mentions, EdgeRoute, Drawn;
    forall e ensures EdgeRoute(a, e) == EdgeRoute(b, e) && (Drawn(a, e) <==> Drawn(b, e)) {
      forall p ensures (p in EdgeRoute(a, e) <==> p in EdgeRoute(b, e))
        && (p in EdgeRoute(a, e) ==> EdgeRoute(a, e)[p] == EdgeRoute(b, e)[p])
      {
        RouteCell(a, e, p);
        RouteCell(b, e, p);
      }
      DrawnByRoute(a, e);
      DrawnByRoute(b, e);
    }
  }

  lemma DrawnByRoute(cells: Cells, edge: EdgeKey)
    ensures Drawn(cells, edge) <==> EdgeRoute(cells, edge) != map[]
  {
    if Drawn(cells, edge) {
      var p :| p in cells && Mentions(cells[p], edge);
      assert p in EdgeRoute(cells, edge);
    }
  }

  method CollectRoutedEdgeBits(cells: Cells) returns (routes: map<EdgeKey, Route>)
    ensures Collected(cells, routes)
  {
    routes := map[];
    ghost var seen: Cells := map[];
    hide Collected, At;
    NothingCollected();
    var todo := cells.Keys;
    while todo != {}
      invariant todo <= cells.Keys && Collected(seen, routes)
      invariant forall p :: p in todo ==> p !in seen
      invariant forall p :: p !in todo ==> CellAt(seen, p) == CellAt(cells, p)
    {
      var point :| point in todo;
      var i := 0;
      while i < |cells[point]|
        invariant 0 <= i <= |cells[point]| && Collected(seen, routes)
        invariant CellAt(seen, point) == cells[point][..i]
        invariant forall p :: p in todo && p != point ==> p !in seen
        invariant forall p :: p !in todo ==> CellAt(seen, p) == CellAt(cells, p)
      {
        var c := cells[point][i];
        CollectOne(seen, point, c, routes);
        var route := if c.edge in routes then routes[c.edge] else map[];
        routes := routes[c.edge := route[point := At(route, point) + c.bits]];
        PrefixStep(cells[point], i);
        seen := Add(seen, point, c);
        i := i + 1;
      }
      assert cells[point][..i] == cells[point];
      todo := todo - {point};
    }
    SameContributions(seen, cells, routes);
  }

  lemma NothingCollected()
    ensures Collected(map[], map[])
  {
  }

  /** The mutable cell map that the routing functions draw into. */
  class Canvas {
    var cells: Cells

    constructor ()
      ensures cells == map[]
    {
      cells := map[];
    }

    method Horizontal(edge: EdgeKey, x1: int, x2: int, y: int, bundle: Option<(nat, nat)>)
      modifies this
      ensures cells == Row(old(cells), edge, bundle, x1, x2, y)
    {
      var low, high := Min(x1, x2), Max(x1, x2);
      ghost var start := cells;
      var x := low;
      while x < high + 1
        invariant low <= x <= high + 1
        invariant cells == RowUpTo(start, edge, bundle, low, high, y, x)
      {
        var bits := {};
        if x > low {
          bits := bits + {Left};
        }
        if x < high {
          bits := bits + {Right};
        }
        assert bits == HorizontalBits(low, high, y, Point(x, y));
        if bits != {} {
          cells := Add(cells, Point(x, y), Contribution(edge, bits, bundle, 0));
        }
        x := x + 1;
      }
    }

    method Vertical(edge: EdgeKey, x: int, y1: int, y2: int, bundle: Option<(nat, nat)>)
      modifies this
      ensures cells == Column(old(cells), edge, bundle, x, y1, y2)
    {
      var direction := if y2 > y1 then 1 else if y2 < y1 then -1 else 0;
      var low, high := Min(y1, y2), Max(y1, y2);
      ghost var start := cells;
      var y := low;
      while y < high + 1
        invariant low <= y <= high + 1
        invariant cells == ColumnUpTo(start, edge, bundle, direction, x, low, high, y)
      {
        var bits := {};
        if y > low {
          bits := bits + {Up};
        }
        if y < high {
          bits := bits + {Down};
        }
        assert bits == VerticalBits(x, low, high, Point(x, y));
        if bits != {} {
          cells := Add(cells, Point(x, y), Contribution(edge, bits, bundle, direction));
        }
        y := y + 1;
      }
    }

    method RouteAdjacent(edge: EdgeKey, b: Bridge, bundle: Option<(nat, nat)>)
      modifies this
      ensures cells == AdjacentDrawn(old(cells), edge, bundle, b)
    {
      Horizontal(edge, b.sourceX, b.sourceTrack, b.sourceRow, bundle);
      Vertical(edge, b.sourceTrack, b.sourceRow, b.targetRow, bundle);
      Horizontal(edge, b.sourceTrack, b.targetX, b.targetRow, bundle);
    }

    /** Both the dogleg and the long route draw these five strokes. */
    method RouteBridge(edge: EdgeKey, b: Bridge)
      modifies this
      ensures cells == BridgeDrawn(old(cells), edge, b)
    {
      Horizontal(edge, b.sourceX, b.sourceTrack, b.sourceRow, None);
      Vertical(edge, b.sourceTrack, b.sourceRow, b.row, None);
      Horizontal(edge, b.sourceTrack, b.targetTrack, b.row, None);
      Vertical(edge, b.targetTrack, b.row, b.targetRow, None);
      Horizontal(edge, b.targetTrack, b.targetX, b.targetRow, None);
    }
  }
}
