/** Recognising one simple path in a map from cells to direction bits. */
module RoutePath {
  import opened Collections

  // The bit mask of a cell (1, 2, 4, 8 for left, right, up, down) is a set of directions.
  datatype Direction = Left | Right | Up | Down

  type Bits = set<Direction>

  datatype Point = Point(x: int, y: int)

  type Route = map<Point, Bits>

  function Step(p: Point, d: Direction): Point {
    match d
    case Left => Point(p.x - 1, p.y)
    case Right => Point(p.x + 1, p.y)
    case Up => Point(p.x, p.y - 1)
    case Down => Point(p.x, p.y + 1)
  }

  function Opposite(d: Direction): Direction {
    match d
    case Left => Right
    case Right => Left
    case Up => Down
    case Down => Up
  }

  lemma StepFacts(p: Point, d: Direction, e: Direction)
    ensures Step(p, d) != p && Step(Step(p, d), Opposite(d)) == p
    ensures Step(p, d) == Step(p, e) ==> d == e
    ensures Step(Step(p, d), e) == p ==> e == Opposite(d)
  {
  }

  predicate BitAt(route: Route, p: Point, d: Direction) {
    p in route && d in route[p]
  }

  predicate ReciprocalAt(route: Route, p: Point)
    requires p in route
  {
    forall d :: d in route[p] ==> BitAt(route, Step(p, d), Opposite(d))
  }

  predicate Reciprocal(route: Route) {
    forall p :: p in route ==> ReciprocalAt(route, p)
  }

  /** `path` visits its cells once, and each cell has exactly the bits towards
      its two path neighbours (one at either end). */
  ghost predicate FollowsBits(route: Route, path: seq<Point>, i: nat)
    requires i < |path| && path[i] in route
  {
    forall d :: d in route[path[i]] <==>
      (i > 0 && Step(path[i], d) == path[i - 1]) || (i + 1 < |path| && Step(path[i], d) == path[i + 1])
  }

  ghost predicate Adjacent(p: Point, q: Point) {
    exists d :: Step(p, d) == q
  }

  /** The bits of `route` are one non-branching path that covers every cell. */
  ghost predicate SimplePath(route: Route, source: Point, target: Point, path: seq<Point>) {
    && path != [] && path[0] == source && path[|path| - 1] == target
    && Distinct(path) && Elements(path) == route.Keys
    && (forall i :: 0 <= i < |path| ==> path[i] in route && FollowsBits(route, path, i))
    && (forall i :: 0 <= i < |path| - 1 ==> Adjacent(path[i], path[i + 1]))
  }

  datatype RouteError = Dangling | Branching | MissingAnchor | NotSimple | Looping | ExtraGeometry

  datatype PathResult = Accepted(path: seq<Point>) | Rejected(reason: RouteError)

  /** The ways on from `p` that do not lead straight back. */
  function Choices(route: Route, p: Point, previous: Option<Point>): set<Direction>
    requires p in route
  {
    set d | d in route[p] && previous != Some(Step(p, d))
  }

  // ------------------------------------------------- facts about simple paths

  lemma SimplePathIsReciprocal(route: Route, source: Point, target: Point, path: seq<Point>, p: Point)
    requires SimplePath(route, source, target, path) && p in route
    ensures ReciprocalAt(route, p)
  {
    assert p in Elements(path);
    var i :| 0 <= i < |path| && path[i] == p;
    assert FollowsBits(route, path, i);
    forall d | d in route[p] ensures BitAt(route, Step(p, d), Opposite(d)) {
      StepFacts(p, d, d);
      var j := if i > 0 && Step(p, d) == path[i - 1] then i - 1 else i + 1;
      assert path[j] == Step(p, d) && FollowsBits(route, path, j);
    }
  }

  lemma AtMostTwo(s: Bits, d: Direction, e: Direction)
    requires s <= {d, e}
    ensures |s| <= 2
  {
    SubsetSize(s, {d, e});
  }

  lemma SimplePathDoesNotBranch(route: Route, source: Point, target: Point, path: seq<Point>, p: Point)
    requires SimplePath(route, source, target, path) && p in route
    ensures |route[p]| <= 2
  {
    hide FollowsBits, Adjacent, Distinct;
    assert p in Elements(path);
    var i :| 0 <= i < |path| && path[i] == p;
    CellDoesNotBranch(route, path, i);
  }

  lemma CellDoesNotBranch(route: Route, path: seq<Point>, i: nat)
    requires i < |path| && path[i] in route && FollowsBits(route, path, i)
    ensures |route[path[i]]| <= 2
  {
    var p := path[i];
    var back := Towards(p, if i > 0 then path[i - 1] else p);
    var ahead := Towards(p, if i + 1 < |path| then path[i + 1] else p);
    AtMostTwo(route[p], back, ahead);
  }

  /** The direction of a neighbouring cell (any direction if it is no neighbour). */
  ghost function Towards(p: Point, q: Point): (d: Direction)
    ensures forall e :: Step(p, e) == q ==> e == d
  {
    if exists e :: Step(p, e) == q then var e :| Step(p, e) == q; e else Left
  }

  function Before(path: seq<Point>, i: nat): Option<Point>
    requires i < |path|
  {
    if i == 0 then None else Some(path[i - 1])
  }

  /** A proper prefix of a simple path has exactly one way on, and it is the path's. */
  lemma PrefixContinues(route: Route, source: Point, target: Point, path: seq<Point>, i: nat) returns (d: Direction)
    requires SimplePath(route, source, target, path) && i + 1 < |path|
    ensures path[i] in route && path[i] != target
    ensures Choices(route, path[i], Before(path, i)) == {d} && Step(path[i], d) == path[i + 1]
  {
    assert Adjacent(path[i], path[i + 1]) && FollowsBits(route, path, i);
    d :| Step(path[i], d) == path[i + 1];
    forall e ensures e in Choices(route, path[i], Before(path, i)) <==> e == d {
      StepFacts(path[i], d, e);
    }
  }

  // --------------------------------------------------------- the recogniser

  /** The cells walked so far form a path whose interior is fully accounted for. */
  ghost predicate Walked(route: Route, source: Point, path: seq<Point>) {
    && path != [] && path[0] == source && Distinct(path)
    && (forall i :: 0 <= i < |path| ==> path[i] in route)
    && (forall i :: 0 <= i < |path| - 1 ==> FollowsBits(route, path, i) && Adjacent(path[i], path[i + 1]))
  }

  /** A neighbour of the last cell that is already on the walk is the cell before it. */
  lemma OnlyTheCellBefore(route: Route, source: Point, path: seq<Point>, d: Direction, j: nat)
    requires Reciprocal(route) && Walked(route, source, path)
    requires d in route[path[|path| - 1]]
    requires j < |path| && path[j] == Step(path[|path| - 1], d)
    ensures j == |path| - 2
  {
    var n := |path| - 1;
    StepFacts(path[n], d, d);
    assert ReciprocalAt(route, path[n]);
    assert BitAt(route, path[j], Opposite(d));
    assert FollowsBits(route, path, j);
    hide Step, Opposite, Reciprocal, ReciprocalAt;
    assert j < n;
  }

  /** Beyond the end of the walk every cell keeps its bits accounted for. */
  lemma FollowsBitsExtends(route: Route, path: seq<Point>, next: Point, i: nat)
    requires i + 1 < |path| && path[i] in route && FollowsBits(route, path, i)
    ensures FollowsBits(route, path + [next], i)
  {
  }

  lemma LastFollowsBits(route: Route, source: Point, path: seq<Point>, d: Direction)
    requires Reciprocal(route) && Walked(route, source, path)
    requires Choices(route, path[|path| - 1], Before(path, |path| - 1)) == {d}
    ensures FollowsBits(route, path + [Step(path[|path| - 1], d)], |path| - 1)
  {
    var n := |path| - 1;
    var current := path[n];
    var choices := Choices(route, current, Before(path, |path| - 1));
    assert d in choices;
    forall e ensures e in route[current] <==> Before(path, |path| - 1) == Some(Step(current, e)) || e == d {
      BackBit(route, source, path, e);
      assert e in route[current] && Before(path, |path| - 1) != Some(Step(current, e)) <==> e in choices;
    }
    forall e ensures Step(current, e) == Step(current, d) <==> e == d {
      StepFacts(current, d, e);
    }
    hide Step, Reciprocal, Walked;
  }

  /** The next cell is new: its bits would otherwise already be used up. */
  lemma WalkOn(route: Route, source: Point, path: seq<Point>, d: Direction)
    requires Reciprocal(route) && Walked(route, source, path)
    requires Choices(route, path[|path| - 1], Before(path, |path| - 1)) == {d}
    ensures Walked(route, source, path + [Step(path[|path| - 1], d)])
  {
    var n := |path| - 1;
    var next := Step(path[n], d);
    assert d in Choices(route, path[n], Before(path, |path| - 1));
    assert ReciprocalAt(route, path[n]);
    forall j | 0 <= j < |path| ensures path[j] != next {
      if path[j] == next {
        OnlyTheCellBefore(route, source, path, d, j);
      }
    }
    LastFollowsBits(route, source, path, d);
    hide Step, Reciprocal, Choices, ReciprocalAt;
    WalkedExtends(route, source, path, next);
  }

  lemma WalkedExtends(route: Route, source: Point, path: seq<Point>, next: Point)
    requires Walked(route, source, path) && next in route && next !in path
    requires FollowsBits(route, path + [next], |path| - 1) && Adjacent(path[|path| - 1], next)
    ensures Walked(route, source, path + [next])
  {
    var longer := path + [next];
    forall i | 0 <= i < |longer| - 1 ensures FollowsBits(route, longer, i) && Adjacent(longer[i], longer[i + 1]) {
      if i + 1 < |path| {
        FollowsBitsExtends(route, path, next, i);
        assert Adjacent(path[i], path[i + 1]);
      }
    }
  }

  /** The last cell has the bit back to where the walk came from. */
  lemma BackBit(route: Route, source: Point, path: seq<Point>, e: Direction)
    requires Reciprocal(route) && Walked(route, source, path)
    ensures |path| > 1 && Step(path[|path| - 1], e) == path[|path| - 2] ==> e in route[path[|path| - 1]]
  {
    if |path| > 1 && Step(path[|path| - 1], e) == path[|path| - 2] {
      var i := |path| - 2;
      assert FollowsBits(route, path, i) && Adjacent(path[i], path[i + 1]);
      var b :| Step(path[i], b) == path[i + 1];
      StepFacts(path[i], b, b);
      StepFacts(path[i + 1], e, Opposite(b));
      assert ReciprocalAt(route, path[i]);
    }
  }

  lemma LastBitLeadsBack(route: Route, source: Point, path: seq<Point>, e: Direction)
    requires Reciprocal(route) && Walked(route, source, path) && Elements(path) == route.Keys
    requires e in route[path[|path| - 1]] && Step(path[|path| - 1], e) in route
    ensures |path| > 1 && Step(path[|path| - 1], e) == path[|path| - 2]
  {
    assert Step(path[|path| - 1], e) in Elements(path);
    var j :| 0 <= j < |path| && path[j] == Step(path[|path| - 1], e);
    OnlyTheCellBefore(route, source, path, e, j);
  }

  /** The walk has met every cell, so its last cell has no way on. */
  lemma LastIsAnEnd(route: Route, source: Point, path: seq<Point>)
    requires Reciprocal(route) && Walked(route, source, path) && Elements(path) == route.Keys
    ensures FollowsBits(route, path, |path| - 1)
  {
    var last := path[|path| - 1];
    assert ReciprocalAt(route, last);
    forall e | e in route[last] ensures |path| > 1 && Step(last, e) == path[|path| - 2] {
      assert BitAt(route, Step(last, e), Opposite(e));
      LastBitLeadsBack(route, source, path, e);
    }
    forall e ensures |path| > 1 && Step(last, e) == path[|path| - 2] ==> e in route[last] {
      BackBit(route, source, path, e);
    }
    hide Step, Reciprocal, ReciprocalAt, Opposite, Elements, Walked;
  }

  lemma WalkEnds(route: Route, source: Point, target: Point, path: seq<Point>)
    requires Reciprocal(route) && Walked(route, source, path)
    requires path[|path| - 1] == target && |path| == |route|
    ensures SimplePath(route, source, target, path)
  {
    hide Step, Reciprocal, Elements, FollowsBits, Distinct, Adjacent;
    WalkFits(route, source, path);
    LastIsAnEnd(route, source, path);
  }

  /** The loop guard against longer paths than cells can never fire. */
  lemma WalkFits(route: Route, source: Point, path: seq<Point>)
    requires Walked(route, source, path)
    ensures path[|path| - 1] in route && |path| <= |route|
    ensures |path| == |route| ==> Elements(path) == route.Keys
  {
    DistinctSize(path);
    assert Elements(path) <= route.Keys;
    SubsetSize(Elements(path), route.Keys);
  }

  /** Every simple path of the route starts with what has been walked. */
  ghost predicate OnEveryPath(route: Route, source: Point, target: Point, path: seq<Point>) {
    forall p :: SimplePath(route, source, target, p) ==> path <= p
  }

  lemma StillOnEveryPath(route: Route, source: Point, target: Point, path: seq<Point>, d: Direction)
    requires path != [] && path[|path| - 1] in route && path[|path| - 1] != target
    requires Choices(route, path[|path| - 1], Before(path, |path| - 1)) == {d}
    requires OnEveryPath(route, source, target, path)
    ensures OnEveryPath(route, source, target, path + [Step(path[|path| - 1], d)])
  {
    hide SimplePath, Choices;
    forall p | SimplePath(route, source, target, p) ensures path + [Step(path[|path| - 1], d)] <= p {
      OneStepOn(route, source, target, path, d, p);
    }
  }

  lemma OneStepOn(route: Route, source: Point, target: Point, path: seq<Point>, d: Direction, p: seq<Point>)
    requires path != [] && path <= p && path[|path| - 1] in route && path[|path| - 1] != target
    requires Choices(route, path[|path| - 1], Before(path, |path| - 1)) == {d} && SimplePath(route, source, target, p)
    ensures path + [Step(path[|path| - 1], d)] <= p
  {
    hide FollowsBits, Adjacent, Distinct, Elements, Choices;
    assert |path| < |p|;
    var e := PrefixContinues(route, source, target, p, |path| - 1);
    assert e in {d};
  }

  /** A stuck or forking walk refutes every path. */
  lemma NoWayOn(route: Route, source: Point, target: Point, path: seq<Point>)
    requires path != [] && path[|path| - 1] in route && path[|path| - 1] != target
    requires |Choices(route, path[|path| - 1], Before(path, |path| - 1))| != 1
    requires OnEveryPath(route, source, target, path)
    ensures forall p :: !SimplePath(route, source, target, p)
  {
    forall p ensures !SimplePath(route, source, target, p) {
      if SimplePath(route, source, target, p) {
        assert path <= p;
        var d := PrefixContinues(route, source, target, p, |path| - 1);
      }
    }
  }

  lemma WrongLength(route: Route, source: Point, target: Point, path: seq<Point>)
    requires Walked(route, source, path) && path[|path| - 1] == target && |path| != |route|
    requires OnEveryPath(route, source, target, path)
    ensures forall p :: !SimplePath(route, source, target, p)
  {
    forall p ensures !SimplePath(route, source, target, p) {
      if SimplePath(route, source, target, p) {
        assert path <= p;
        assert p[|path| - 1] == p[|p| - 1];
        DistinctSize(p);
      }
    }
  }

  /** Report a bit without its reciprocal, then a cell with more than two bits. */
  method CheckCells(route: Route) returns (error: Option<RouteError>)
    ensures error == None <==> Reciprocal(route) && forall p :: p in route ==> |route[p]| <= 2
    ensures error == Some(Dangling) <==> !Reciprocal(route)
    ensures error in {None, Some(Dangling), Some(Branching)}
  {
    var todo := route.Keys;
    while todo != {}
      invariant todo <= route.Keys
      invariant forall p :: p in route.Keys - todo ==> ReciprocalAt(route, p)
    {
      var p :| p in todo;
      if exists d :: d in route[p] && !BitAt(route, Step(p, d), Opposite(d)) {
        return Some(Dangling);
      }
      todo := todo - {p};
    }
    todo := route.Keys;
    while todo != {}
      invariant todo <= route.Keys
      invariant forall p :: p in route.Keys - todo ==> |route[p]| <= 2
    {
      var p :| p in todo;
      if |route[p]| > 2 {
        return Some(Branching);
      }
      todo := todo - {p};
    }
    return None;
  }

  lemma FaultyCells(route: Route, source: Point, target: Point)
    requires !Reciprocal(route) || exists p :: p in route && |route[p]| > 2
    ensures forall path :: !SimplePath(route, source, target, path)
  {
    forall path ensures !SimplePath(route, source, target, path) {
      if SimplePath(route, source, target, path) {
        forall p | p in route ensures ReciprocalAt(route, p) && |route[p]| <= 2 {
          SimplePathIsReciprocal(route, source, target, path, p);
          SimplePathDoesNotBranch(route, source, target, path, p);
        }
      }
    }
  }

  /** Accepts exactly the routes whose bits are one simple path between the anchors. */
  method FindPath(route: Route, source: Point, target: Point) returns (result: PathResult)
    ensures result.Accepted? ==> SimplePath(route, source, target, result.path)
    ensures result.Rejected? ==> forall p :: !SimplePath(route, source, target, p)
    ensures result != Rejected(Looping)
  {
    var error := CheckCells(route);
    if error.Some? {
      FaultyCells(route, source, target);
      return Rejected(error.value);
    }
    if source !in route || target !in route {
      return Rejected(MissingAnchor);
    }
    result := WalkFrom(route, source, target);
  }

  lemma WalkStarts(route: Route, source: Point, target: Point)
    requires source in route
    ensures Walked(route, source, [source]) && OnEveryPath(route, source, target, [source])
  {
    hide Reciprocal, Adjacent;
  }

  method WalkFrom(route: Route, source: Point, target: Point) returns (result: PathResult)
    requires Reciprocal(route) && source in route && target in route
    ensures result.Accepted? ==> SimplePath(route, source, target, result.path)
    ensures result.Rejected? ==> forall p :: !SimplePath(route, source, target, p)
    ensures result != Rejected(Looping)
  {
    hide Walked, OnEveryPath, SimplePath, Reciprocal, Step, Choices;
    var path, previous, current := [source], None, source;
    WalkStarts(route, source, target);
    while current != target
      invariant path != [] && current == path[|path| - 1] && previous == Before(path, |path| - 1) && current in route
      invariant Walked(route, source, path) && OnEveryPath(route, source, target, path)
      decreases |route| - |path|
    {
      WalkFits(route, source, path);
      var choices := Choices(route, current, previous);
      if |choices| != 1 {
        NoWayOn(route, source, target, path);
        return Rejected(NotSimple);
      }
      var d := TheOnly(choices);
      WalkOn(route, source, path, d);
      StillOnEveryPath(route, source, target, path, d);
      previous, current := Some(current), Step(current, d);
      path := path + [current];
      WalkFits(route, source, path);
      if |path| > |route| {
        return Rejected(Looping);
      }
    }
    if |path| != |route| {
      WrongLength(route, source, target, path);
      return Rejected(ExtraGeometry);
    }
    WalkEnds(route, source, target, path);
    return Accepted(path);
  }

  function TheOnly(s: Bits): (d: Direction)
    requires |s| == 1
    ensures s == {d}
  {
    assert exists d :: s == {d} by {
      var d :| d in s;
      Singleton(s, d);
    }
    var d :| s == {d};
    d
  }

  lemma Singleton(s: Bits, d: Direction)
    requires |s| == 1 && d in s
    ensures s == {d}
  {
    SubsetSize({d}, s);
  }

  lemma NextAgrees(route: Route, source: Point, target: Point, p: seq<Point>, q: seq<Point>, i: nat)
    requires SimplePath(route, source, target, p) && SimplePath(route, source, target, q)
    requires i + 1 < |p| && i + 1 < |q| && p[i] == q[i] && Before(p, i) == Before(q, i)
    ensures p[i + 1] == q[i + 1]
  {
    var d := PrefixContinues(route, source, target, p, i);
    var e := PrefixContinues(route, source, target, q, i);
    hide SimplePath, Choices, Step;
    assert d in {e};
  }

  lemma EndsAgree(route: Route, source: Point, target: Point, p: seq<Point>, q: seq<Point>)
    requires SimplePath(route, source, target, p) && SimplePath(route, source, target, q)
    ensures |p| == |q| && |p| > 0 && p[0] == q[0]
  {
    hide FollowsBits, Adjacent;
    DistinctSize(p);
    DistinctSize(q);
  }

  /** A route has at most one simple path between two anchors. */
  lemma SimplePathIsUnique(route: Route, source: Point, target: Point, p: seq<Point>, q: seq<Point>)
    requires SimplePath(route, source, target, p) && SimplePath(route, source, target, q)
    ensures p == q
  {
    hide SimplePath;
    EndsAgree(route, source, target, p, q);
    var i := 0;
    while i + 1 < |p|
      invariant 0 <= i < |p| && forall j :: 0 <= j <= i ==> p[j] == q[j]
    {
      NextAgrees(route, source, target, p, q, i);
      i := i + 1;
    }
  }
}
