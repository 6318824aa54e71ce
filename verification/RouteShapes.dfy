/** Which right-angled routes are simple paths. */
module RouteShapes {
  import opened Collections
  import opened RoutePath

  function At(route: Route, p: Point): Bits {
    if p in route then route[p] else {}
  }

  /** Bits of a horizontal stroke between two columns of cells, drawn either way. */
  function HorizontalBits(x1: int, x2: int, y: int, p: Point): Bits {
    var low, high := if x2 < x1 then x2 else x1, if x2 < x1 then x1 else x2;
    if p.y != y || p.x < low || high < p.x then {} else
      (if low < p.x then {Left} else {}) + (if p.x < high then {Right} else {})
  }

  function VerticalBits(x: int, y1: int, y2: int, p: Point): Bits {
    var low, high := if y2 < y1 then y2 else y1, if y2 < y1 then y1 else y2;
    if p.x != x || p.y < low || high < p.y then {} else
      (if low < p.y then {Up} else {}) + (if p.y < high then {Down} else {})
  }

  // From the source anchor along its row to the source track, along that track to
  // the crossing row, across to the target track, along it, and to the target anchor.
  datatype Bridge = Bridge(sourceX: int, sourceTrack: int, targetTrack: int, targetX: int,
                           sourceRow: int, row: int, targetRow: int)
  {
    function Source(): Point { Point(sourceX, sourceRow) }

    function Target(): Point { Point(targetX, targetRow) }

    function Bits(p: Point): Bits {
      HorizontalBits(sourceX, sourceTrack, sourceRow, p)
      + VerticalBits(sourceTrack, sourceRow, row, p)
      + HorizontalBits(sourceTrack, targetTrack, row, p)
      + VerticalBits(targetTrack, row, targetRow, p)
      + HorizontalBits(targetTrack, targetX, targetRow, p)
    }
  }

  /** `route` holds exactly the non-empty bits that the bridge prescribes. */
  ghost predicate Draws(route: Route, bridge: Bridge) {
    forall p :: At(route, p) == bridge.Bits(p) && (p in route ==> route[p] != {})
  }

  // ------------------------------------------------- growing a path cell by cell

  function Ahead(p: Point, d: Direction, n: nat): Point {
    match d
    case Left => Point(p.x - n, p.y)
    case Right => Point(p.x + n, p.y)
    case Up => Point(p.x, p.y - n)
    case Down => Point(p.x, p.y + n)
  }

  /** Bits of a straight run of `n` steps from `p`. */
  function RunBits(p: Point, d: Direction, n: nat, q: Point): Bits {
    var end := Ahead(p, d, n);
    if d == Left || d == Right then HorizontalBits(p.x, end.x, p.y, q) else VerticalBits(p.x, p.y, end.y, q)
  }

  function Grow(route: Route, p: Point, d: Direction): Route
    requires p in route
  {
    route[p := route[p] + {d}][Step(p, d) := {Opposite(d)}]
  }

  lemma GrowCells(route: Route, path: seq<Point>, p: Point, d: Direction)
    requires p in route && Step(p, d) !in route && Distinct(path) && Elements(path) == route.Keys
    ensures Distinct(path + [Step(p, d)])
    ensures Elements(path + [Step(p, d)]) == Grow(route, p, d).Keys
    ensures forall i :: 0 <= i < |path| ==> path[i] in route && path[i] != Step(p, d)
  {
    hide Step, Opposite;
    ElementsOfSnoc(path, Step(p, d));
    forall i | 0 <= i < |path| ensures path[i] in route {
      assert path[i] in Elements(path);
    }
  }

  lemma GrowFollowsBits(route: Route, path: seq<Point>, d: Direction, i: nat)
    requires path != [] && Distinct(path) && i <= |path|
    requires path[|path| - 1] in route && Step(path[|path| - 1], d) !in route
    requires i < |path| ==> path[i] in route && FollowsBits(route, path, i)
    ensures var longer := path + [Step(path[|path| - 1], d)];
      var grown := Grow(route, path[|path| - 1], d);
      longer[i] in grown && FollowsBits(grown, longer, i)
  {
    hide Step, Opposite, FollowsBits;
    if i == |path| {
      GrowTip(route, path, d);
    } else if i == |path| - 1 {
      GrowEnd(route, path, d);
    } else {
      GrowKeepsInterior(route, path, Step(path[|path| - 1], d), i, d);
    }
  }

  lemma GrowPath(route: Route, source: Point, end: Point, path: seq<Point>, d: Direction)
    requires SimplePath(route, source, end, path) && Step(end, d) !in route
    ensures end in route
    ensures SimplePath(Grow(route, end, d), source, Step(end, d), path + [Step(end, d)])
  {
    hide Step, Opposite, FollowsBits, Adjacent, Distinct, Elements, Grow;
    GrowCells(route, path, end, d);
    var longer := path + [Step(end, d)];
    forall i | 0 <= i < |longer|
      ensures longer[i] in Grow(route, end, d) && FollowsBits(Grow(route, end, d), longer, i)
    {
      GrowFollowsBits(route, path, d, i);
    }
    forall i | 0 <= i < |longer| - 1 ensures Adjacent(longer[i], longer[i + 1]) {
      if i < |path| - 1 {
        assert Adjacent(path[i], path[i + 1]);
      } else {
        StepIsAdjacent(end, d);
      }
    }
  }

  lemma StepIsAdjacent(p: Point, d: Direction)
    ensures Adjacent(p, Step(p, d))
  {
  }

  lemma GrowKeepsInterior(route: Route, path: seq<Point>, next: Point, i: nat, d: Direction)
    requires i + 1 < |path| && path[i] in route && FollowsBits(route, path, i)
    requires path[|path| - 1] in route && path[i] != path[|path| - 1] && path[i] != next
    requires next == Step(path[|path| - 1], d)
    ensures path[i] in Grow(route, path[|path| - 1], d)
    ensures FollowsBits(Grow(route, path[|path| - 1], d), path + [next], i)
  {
    hide Step, Opposite;
  }

  lemma GrowEnd(route: Route, path: seq<Point>, d: Direction)
    requires path != [] && path[|path| - 1] in route && FollowsBits(route, path, |path| - 1)
    ensures FollowsBits(Grow(route, path[|path| - 1], d), path + [Step(path[|path| - 1], d)], |path| - 1)
  {
    hide Opposite, Step;
    var n := |path| - 1;
    StepFacts(path[n], d, d);
    forall e ensures Step(path[n], e) == Step(path[n], d) <==> e == d {
      StepFacts(path[n], d, e);
    }
  }

  lemma GrowTip(route: Route, path: seq<Point>, d: Direction)
    requires path != [] && path[|path| - 1] in route
    ensures FollowsBits(Grow(route, path[|path| - 1], d), path + [Step(path[|path| - 1], d)], |path|)
  {
    hide Opposite, Step;
    var end := path[|path| - 1];
    forall e ensures Step(Step(end, d), e) == end <==> e == Opposite(d) {
      StepFacts(end, d, e);
    }
  }

  lemma GrowAt(route: Route, p: Point, d: Direction, q: Point)
    requires p in route && Step(p, d) !in route
    ensures At(Grow(route, p, d), q) ==
      At(route, q) + (if q == p then {d} else if q == Step(p, d) then {Opposite(d)} else {})
  {
    hide Opposite;
  }

  lemma AheadFacts(p: Point, d: Direction, i: nat)
    ensures Ahead(p, d, 0) == p && Ahead(p, d, 1) == Step(p, d)
    ensures Ahead(Step(p, d), d, i) == Ahead(p, d, i + 1)
    ensures i > 0 ==> Ahead(p, d, i) != p
    ensures i > 1 ==> Ahead(p, d, i) != Step(p, d)
  {
  }

  lemma EmptyRun(p: Point, d: Direction, q: Point)
    ensures RunBits(p, d, 0, q) == {}
  {
  }

  /** Growing a simple path by a straight run over fresh cells. */
  lemma {:induction false} GrowRun(route: Route, source: Point, end: Point, path: seq<Point>, d: Direction, n: nat)
    returns (longer: Route, longerPath: seq<Point>)
    requires SimplePath(route, source, end, path)
    requires forall i :: 1 <= i <= n ==> Ahead(end, d, i) !in route
    ensures SimplePath(longer, source, Ahead(end, d, n), longerPath)
    ensures forall q :: At(longer, q) == At(route, q) + RunBits(end, d, n, q)
    ensures forall q :: q in longer ==> q in route || RunBits(end, d, n, q) != {}
    decreases n
  {
    hide SimplePath, RunBits, At, Step, Opposite, Ahead;
    AheadFacts(end, d, 0);
    if n == 0 {
      longer, longerPath := route, path;
      forall q ensures At(route, q) == At(route, q) + RunBits(end, d, 0, q) {
        EmptyRun(end, d, q);
      }
    } else {
      var next := Step(end, d);
      assert Ahead(end, d, 1) !in route;
      GrowPath(route, source, end, path, d);
      var grown := Grow(route, end, d);
      forall i | 1 <= i <= n - 1 ensures Ahead(next, d, i) !in grown {
        AheadFacts(end, d, i);
        AheadFacts(end, d, i + 1);
      }
      longer, longerPath := GrowRun(grown, source, next, path + [next], d, n - 1);
      AheadFacts(end, d, n - 1);
      forall q ensures At(longer, q) == At(route, q) + RunBits(end, d, n, q) {
        GrowAt(route, end, d, q);
        RunSplits(end, d, n, q);
      }
      forall q | q in longer && q !in route ensures RunBits(end, d, n, q) != {} {
        RunSplits(end, d, n, q);
        assert Opposite(d) in {Opposite(d)};
      }
    }
  }

  lemma RunSplits(p: Point, d: Direction, n: nat, q: Point)
    requires n > 0
    ensures RunBits(p, d, n, q) == RunBits(Step(p, d), d, n - 1, q)
      + (if q == p then {d} else if q == Step(p, d) then {Opposite(d)} else {})
  {
  }

  // ------------------------------------------------------------- the theorem

  /** Tracks in order and strictly between the anchors; with one shared track
      the crossing row must already be the target row. */
  predicate Ordered(b: Bridge) {
    && b.sourceX < b.sourceTrack <= b.targetTrack < b.targetX
    && (b.sourceTrack == b.targetTrack ==> b.row == b.targetRow)
  }

  function Distance(a: int, b: int): nat {
    if a < b then b - a else a - b
  }

  function Vertically(from: int, to: int): Direction {
    if from < to then Down else Up
  }

  lemma HorizontalRun(x1: int, x2: int, y: int, q: Point)
    requires x1 <= x2
    ensures Ahead(Point(x1, y), Right, x2 - x1) == Point(x2, y)
    ensures RunBits(Point(x1, y), Right, x2 - x1, q) == HorizontalBits(x1, x2, y, q)
    ensures HorizontalBits(x1, x2, y, q) != {} ==> q.y == y && x1 <= q.x <= x2
  {
  }

  lemma VerticalRun(x: int, y1: int, y2: int, q: Point)
    ensures Ahead(Point(x, y1), Vertically(y1, y2), Distance(y1, y2)) == Point(x, y2)
    ensures RunBits(Point(x, y1), Vertically(y1, y2), Distance(y1, y2), q) == VerticalBits(x, y1, y2, q)
    ensures VerticalBits(x, y1, y2, q) != {} ==> q.x == x && y1 != y2
  {
  }

  lemma GrowRight(route: Route, source: Point, path: seq<Point>, x1: int, x2: int, y: int)
    returns (longer: Route, longerPath: seq<Point>)
    requires SimplePath(route, source, Point(x1, y), path) && x1 <= x2
    requires forall x :: x1 < x <= x2 ==> Point(x, y) !in route
    ensures SimplePath(longer, source, Point(x2, y), longerPath)
    ensures forall q :: At(longer, q) == At(route, q) + HorizontalBits(x1, x2, y, q)
    ensures forall q :: q in longer ==> q in route || (q.y == y && x1 <= q.x <= x2)
  {
    hide SimplePath, At, HorizontalBits, RunBits;
    longer, longerPath := GrowRun(route, source, Point(x1, y), path, Right, x2 - x1);
    forall q
      ensures At(longer, q) == At(route, q) + HorizontalBits(x1, x2, y, q)
      ensures q in longer ==> q in route || (q.y == y && x1 <= q.x <= x2)
    {
      HorizontalRun(x1, x2, y, q);
    }
    HorizontalRun(x1, x2, y, source);
  }

  lemma GrowVertically(route: Route, source: Point, path: seq<Point>, x: int, y1: int, y2: int)
    returns (longer: Route, longerPath: seq<Point>)
    requires SimplePath(route, source, Point(x, y1), path)
    requires forall y :: y != y1 && y1 != y2 ==> Point(x, y) !in route
    ensures SimplePath(longer, source, Point(x, y2), longerPath)
    ensures forall q :: At(longer, q) == At(route, q) + VerticalBits(x, y1, y2, q)
    ensures forall q :: q in longer ==> q in route || q.x == x
  {
    hide SimplePath, At, VerticalBits, RunBits;
    longer, longerPath := GrowRun(route, source, Point(x, y1), path, Vertically(y1, y2), Distance(y1, y2));
    forall q
      ensures At(longer, q) == At(route, q) + VerticalBits(x, y1, y2, q)
      ensures q in longer ==> q in route || q.x == x
    {
      VerticalRun(x, y1, y2, q);
    }
    VerticalRun(x, y1, y2, source);
  }

  /** No cell of a route between two different anchors is empty. */
  lemma NoEmptyCell(route: Route, source: Point, target: Point, path: seq<Point>, p: Point)
    requires SimplePath(route, source, target, path) && source != target && p in route
    ensures route[p] != {}
  {
    assert p in Elements(path);
    var i :| 0 <= i < |path| && path[i] == p;
    assert FollowsBits(route, path, i);
    if i + 1 < |path| {
      assert Adjacent(path[i], path[i + 1]);
    } else {
      assert Adjacent(path[i - 1], path[i]) && FollowsBits(route, path, i - 1);
      var d :| Step(path[i - 1], d) == path[i];
      StepFacts(path[i - 1], d, d);
    }
  }

  /** Two routes without empty cells are equal when their bits agree. */
  lemma SameBitsSameRoute(r: Route, s: Route)
    requires forall p :: At(r, p) == At(s, p)
    requires forall p :: p in r ==> r[p] != {}
    requires forall p :: p in s ==> s[p] != {}
    ensures r == s
  {
    forall p ensures p in r <==> p in s {
      assert At(r, p) == At(s, p);
    }
    forall p | p in r ensures r[p] == s[p] {
      assert At(r, p) == At(s, p);
    }
  }

  lemma OnlySourceCell(source: Point)
    ensures SimplePath(map[source := {}], source, source, [source])
  {
  }

  /** Draw the five strokes one after the other; each starts on fresh cells. */
  lemma GrowBridge(b: Bridge) returns (built: Route, path: seq<Point>)
    requires Ordered(b)
    ensures SimplePath(built, b.Source(), b.Target(), path)
    ensures forall q :: At(built, q) == b.Bits(q)
  {
    hide SimplePath, HorizontalBits, VerticalBits, At;
    var source := b.Source();
    var start: Route := map[source := {}];
    OnlySourceCell(source);
    var r1, p1 := GrowRight(start, source, [source], b.sourceX, b.sourceTrack, b.sourceRow);
    var r2, p2 := GrowVertically(r1, source, p1, b.sourceTrack, b.sourceRow, b.row);
    var r3, p3 := GrowRight(r2, source, p2, b.sourceTrack, b.targetTrack, b.row);
    var r4, p4 := GrowVertically(r3, source, p3, b.targetTrack, b.row, b.targetRow);
    built, path := GrowRight(r4, source, p4, b.targetTrack, b.targetX, b.targetRow);
    forall q ensures At(built, q) == b.Bits(q) {
      StartIsBlank(source, q);
    }
  }

  lemma StartIsBlank(source: Point, q: Point)
    ensures At(map[source := {}], q) == {}
  {
  }

  /** Routes whose tracks are in order are simple paths, whatever the rows and widths. */
  lemma OrderedBridgeIsSimple(route: Route, b: Bridge) returns (path: seq<Point>)
    requires Draws(route, b) && Ordered(b)
    ensures SimplePath(route, b.Source(), b.Target(), path)
  {
    hide SimplePath, HorizontalBits, VerticalBits;
    var built;
    built, path := GrowBridge(b);
    forall p | p in built ensures built[p] != {} {
      NoEmptyCell(built, b.Source(), b.Target(), path, p);
    }
    SameBitsSameRoute(route, built);
  }

  lemma ThreeBitsBranch(route: Route, source: Point, target: Point, p: Point, d: Direction)
    requires p in route && {Left, Right, d} <= route[p] && d in {Up, Down}
    ensures forall path :: !SimplePath(route, source, target, path)
  {
    hide SimplePath, Step, Opposite;
    assert |{Left, Right, d}| == 3;
    SubsetSize({Left, Right, d}, route[p]);
    FaultyCells(route, source, target);
  }

  /** Where crossed tracks leave a cell with three directions. */
  function Knot(b: Bridge): Point {
    Point(if b.sourceRow == b.targetRow then b.sourceTrack else b.targetTrack, b.sourceRow)
  }

  predicate Crossed(b: Bridge) {
    && b.sourceX < b.targetTrack < b.sourceTrack < b.targetX
    && (if b.sourceRow == b.targetRow then b.row != b.sourceRow else b.row == b.sourceRow)
  }

  lemma KnotBits(b: Bridge)
    requires Crossed(b)
    ensures {Left, Right} <= b.Bits(Knot(b))
    ensures Up in b.Bits(Knot(b)) || Down in b.Bits(Knot(b))
  {
    var p := Knot(b);
    assert {Left, Right} <= HorizontalBits(b.sourceX, b.sourceTrack, b.sourceRow, p)
      + HorizontalBits(b.sourceTrack, b.targetTrack, b.row, p)
      + HorizontalBits(b.targetTrack, b.targetX, b.targetRow, p);
  }

  lemma CrossedBridgeBranches(route: Route, b: Bridge)
    requires Draws(route, b) && Crossed(b)
    ensures forall path :: !SimplePath(route, b.Source(), b.Target(), path)
  {
    hide SimplePath, HorizontalBits, VerticalBits;
    KnotBits(b);
    assert At(route, Knot(b)) == b.Bits(Knot(b));
    ThreeBitsBranch(route, b.Source(), b.Target(), Knot(b), if Up in b.Bits(Knot(b)) then Up else Down);
  }
}
