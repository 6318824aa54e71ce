/** Does the drawing lead from every source to exactly its semantic targets? */
module RenderedReachability {
  import opened Collections
  import opened RoutePath
  import opened RouteDrawing
  import opened Connectivity
  import opened Switches

  /** Only the last contribution of each edge in the cell. */
  function LastPerEdge(contributions: seq<Contribution>): seq<Contribution> {
    if contributions == [] then [] else
      var n := |contributions| - 1;
      Dropping(LastPerEdge(contributions[..n]), contributions[n].edge) + [contributions[n]]
  }

  function Dropping(contributions: seq<Contribution>, edge: EdgeKey): seq<Contribution> {
    if contributions == [] then [] else
      (if contributions[0].edge == edge then [] else [contributions[0]]) + Dropping(contributions[1..], edge)
  }

  type Paths = map<EdgeKey, seq<Point>>

  type SwitchMap = map<Point, set<EdgeKey>>

  function SwitchesAt(switches: SwitchMap, p: Point): set<EdgeKey> {
    if p in switches then switches[p] else {}
  }

  /** The switch map of the validator, built from last contributions. */
  function BuiltSwitches(cells: Cells): SwitchMap {
    map p | p in cells && SwitchEdges(LastPerEdge(cells[p])) != {} :: SwitchEdges(LastPerEdge(cells[p]))
  }

  /** A position on the drawing: some edge's route at some cell. */
  datatype Position = Position(edge: EdgeKey, point: Point)

  ghost predicate WellFormed(paths: Paths) {
    forall e :: e in paths ==> paths[e] != [] && Distinct(paths[e])
  }

  function IndexOn(path: seq<Point>, p: Point): (i: nat)
    requires p in path
    ensures i < |path| && path[i] == p
  {
    if path[0] == p then 0 else 1 + IndexOn(path[1..], p)
  }

  predicate OnPath(paths: Paths, s: Position) {
    s.edge in paths && s.point in paths[s.edge]
  }

  predicate AtEnd(paths: Paths, s: Position) {
    OnPath(paths, s) && IndexOn(paths[s.edge], s.point) == |paths[s.edge]| - 1
  }

  /** One cell further along the same edge. */
  predicate Follows(paths: Paths, s: Position, t: Position) {
    && OnPath(paths, s) && t.edge == s.edge && !AtEnd(paths, s)
    && t.point == paths[s.edge][IndexOn(paths[s.edge], s.point) + 1]
  }

  /** Across to another edge at a switch cell that its path visits. */
  predicate Crosses(paths: Paths, switches: SwitchMap, s: Position, t: Position) {
    && OnPath(paths, s) && OnPath(paths, t)
    && t.point == s.point && t.edge != s.edge && t.edge in SwitchesAt(switches, s.point)
  }

  ghost function Moves(paths: Paths, switches: SwitchMap): (Position, Position) -> bool {
    (s, t) => Follows(paths, s, t) || Crosses(paths, switches, s, t)
  }

  function Starts(paths: Paths, source: Node, targets: set<Node>): set<Position>
    requires forall n :: n in targets ==> EdgeKey(source, n) in paths && paths[EdgeKey(source, n)] != []
  {
    set n | n in targets :: Position(EdgeKey(source, n), paths[EdgeKey(source, n)][0])
  }

  ghost predicate Arrives(paths: Paths, switches: SwitchMap, starts: set<Position>, target: Node) {
    exists s :: AtEnd(paths, s) && s.edge.target == target && FromSome(Moves(paths, switches), starts, s)
  }

  function Universe(paths: Paths): set<Position> {
    set e, p | e in paths && p in paths[e] :: Position(e, p)
  }

  function Onward(paths: Paths, switches: SwitchMap, s: Position): set<Position>
    requires OnPath(paths, s)
  {
    (if AtEnd(paths, s) then {} else {Position(s.edge, paths[s.edge][IndexOn(paths[s.edge], s.point) + 1])})
    + set other | other in SwitchesAt(switches, s.point) && other != s.edge && OnPath(paths, Position(other, s.point))
        :: Position(other, s.point)
  }

  lemma OnwardIsMoves(paths: Paths, switches: SwitchMap, s: Position, t: Position)
    requires OnPath(paths, s)
    ensures t in Onward(paths, switches, s) <==> Moves(paths, switches)(s, t)
    ensures t in Onward(paths, switches, s) ==> OnPath(paths, t)
  {
    if Crosses(paths, switches, s, t) {
      assert t == Position(t.edge, s.point);
    }
    if Follows(paths, s, t) {
      assert t == Position(s.edge, t.point);
    }
  }

  lemma InUniverse(paths: Paths, s: Position)
    ensures s in Universe(paths) <==> OnPath(paths, s)
  {
    assert s == Position(s.edge, s.point);
  }

  lemma VisitPosition(paths: Paths, switches: SwitchMap, starts: set<Position>,
                      visited: set<Position>, rest: set<Position>, s: Position)
    requires Exploring(Moves(paths, switches), starts, visited, rest + {s})
    requires s in Universe(paths)
    ensures OnPath(paths, s)
    ensures Exploring(Moves(paths, switches), starts, visited + {s}, rest + Onward(paths, switches, s))
    ensures Onward(paths, switches, s) <= Universe(paths)
  {
    hide Exploring, Onward;
    InUniverse(paths, s);
    forall t ensures t in Onward(paths, switches, s) <==> Moves(paths, switches)(s, t) {
      OnwardIsMoves(paths, switches, s, t);
    }
    forall t | t in Onward(paths, switches, s) ensures t in Universe(paths) {
      OnwardIsMoves(paths, switches, s, t);
      InUniverse(paths, t);
    }
    ExploringVisit(Moves(paths, switches), starts, visited, rest, s, Onward(paths, switches, s));
  }

  function ArrivedAmong(paths: Paths, visited: set<Position>): set<Node> {
    set s | s in visited && AtEnd(paths, s) :: s.edge.target
  }

  lemma ArrivedOneMore(paths: Paths, visited: set<Position>, s: Position)
    ensures ArrivedAmong(paths, visited + {s}) ==
      ArrivedAmong(paths, visited) + (if AtEnd(paths, s) then {s.edge.target} else {})
  {
    hide AtEnd;
  }

  lemma ArrivedAmongAll(paths: Paths, switches: SwitchMap, starts: set<Position>, visited: set<Position>)
    requires Exploring(Moves(paths, switches), starts, visited, {})
    ensures forall n :: n in ArrivedAmong(paths, visited) <==> Arrives(paths, switches, starts, n)
  {
    hide AtEnd, Exploring;
    ExploringDone(Moves(paths, switches), starts, visited);
    hide FromSome;
  }

  /** The worklist over positions: every target whose end was visited. */
  method Explore(paths: Paths, switches: SwitchMap, starts: set<Position>) returns (reached: set<Node>)
    requires starts <= Universe(paths)
    ensures forall n :: n in reached <==> Arrives(paths, switches, starts, n)
  {
    hide Exploring, Elements, Universe, Onward, AtEnd, OnPath, ArrivedAmong, Arrives, Follows, Crosses, FromSome;
    var pending := Listing(starts);
    var visited: set<Position> := {};
    reached := {};
    NothingArrived(paths);
    ExploringStart(Moves(paths, switches), starts);
    while pending != []
      invariant Exploring(Moves(paths, switches), starts, visited, Elements(pending))
      invariant visited <= Universe(paths) && Elements(pending) <= Universe(paths)
      invariant reached == ArrivedAmong(paths, visited)
      decreases Universe(paths) - visited, |pending|
    {
      var state, rest := pending[|pending| - 1], pending[..|pending| - 1];
      ElementsOfPopLast(pending);
      if state in visited {
        ExploringSkip(Moves(paths, switches), starts, visited, Elements(rest), state);
        pending := rest;
        continue;
      }
      VisitPosition(paths, switches, starts, visited, Elements(rest), state);
      ArrivedOneMore(paths, visited, state);
      visited := visited + {state};
      if AtEnd(paths, state) {
        reached := reached + {state.edge.target};
      }
      var more := Listing(Onward(paths, switches, state));
      ElementsOfConcat(rest, more);
      pending := rest + more;
    }
    EmptyElements<Position>();
    ArrivedAmongAll(paths, switches, starts, visited);
  }

  lemma NothingArrived(paths: Paths)
    ensures ArrivedAmong(paths, {}) == {}
  {
  }

  /** All targets that the drawing of one source leads to. */
  method ReachedFrom(paths: Paths, switches: SwitchMap, source: Node, targets: set<Node>) returns (reached: set<Node>)
    requires WellFormed(paths) && forall n :: n in targets ==> EdgeKey(source, n) in paths
    ensures forall n :: n in reached <==> Arrives(paths, switches, Starts(paths, source, targets), n)
  {
    reached := Explore(paths, switches, Starts(paths, source, targets));
  }

  method BuildSwitches(cells: Cells) returns (switches: SwitchMap)
    ensures switches == BuiltSwitches(cells)
  {
    switches := map[];
    var todo := cells.Keys;
    hide SwitchEdges, LastPerEdge;
    while todo != {}
      invariant todo <= cells.Keys
      invariant switches == map p | p in cells && p !in todo && SwitchEdges(LastPerEdge(cells[p])) != {}
        :: SwitchEdges(LastPerEdge(cells[p]))
    {
      var p :| p in todo;
      var edges := SwitchEdgesForCell(LastPerEdge(cells[p]));
      if edges != {} {
        switches := switches[p := edges];
      }
      todo := todo - {p};
    }
  }

  /** For every source with targets, the drawing arrives at exactly those targets. */
  ghost predicate SemanticallyExact(paths: Paths, switches: SwitchMap, expected: map<Node, set<Node>>)
    requires WellFormed(paths)
    requires forall s, n :: s in expected && n in expected[s] ==> EdgeKey(s, n) in paths
  {
    forall s, n :: s in expected && expected[s] != {} ==>
      (n in expected[s] <==> Arrives(paths, switches, Starts(paths, s, expected[s]), n))
  }

  method ValidateReachability(paths: Paths, cells: Cells, expected: map<Node, set<Node>>) returns (ok: bool)
    requires WellFormed(paths)
    requires forall s, n :: s in expected && n in expected[s] ==> EdgeKey(s, n) in paths
    ensures ok <==> SemanticallyExact(paths, BuiltSwitches(cells), expected)
  {
    var switches := BuildSwitches(cells);
    var todo := expected.Keys;
    hide Starts, Arrives, BuiltSwitches;
    while todo != {}
      invariant todo <= expected.Keys
      invariant forall s, n :: s in expected.Keys - todo && expected[s] != {} ==>
        (n in expected[s] <==> Arrives(paths, switches, Starts(paths, s, expected[s]), n))
    {
      var source :| source in todo;
      if expected[source] != {} {
        var reached := ReachedFrom(paths, switches, source, expected[source]);
        if reached != expected[source] {
          return false;
        }
      }
      todo := todo - {source};
    }
    return true;
  }

  // ---------------------------------------------------- the candidate validator

  datatype Verdict = Valid | Unexpected | Missing | BadRoute(reason: RouteError) | ChangedReachability

  ghost predicate PathsOf(routes: map<EdgeKey, Route>, anchors: map<EdgeKey, (Point, Point)>, paths: Paths) {
    && paths.Keys == routes.Keys
    && forall e :: e in paths ==> e in anchors && SimplePath(routes[e], anchors[e].0, anchors[e].1, paths[e])
  }

  lemma PathsAreWellFormed(routes: map<EdgeKey, Route>, anchors: map<EdgeKey, (Point, Point)>, paths: Paths)
    requires PathsOf(routes, anchors, paths)
    ensures WellFormed(paths)
  {
  }

  function TargetsOf(expected: set<EdgeKey>, source: Node): set<Node> {
    set e | e in expected && e.source == source :: e.target
  }

  function BySource(expected: set<EdgeKey>): map<Node, set<Node>> {
    map s | s in (set e | e in expected :: e.source) :: TargetsOf(expected, s)
  }

  lemma BySourceEdges(expected: set<EdgeKey>, s: Node, n: Node)
    ensures s in BySource(expected) && n in BySource(expected)[s] <==> EdgeKey(s, n) in expected
  {
    if EdgeKey(s, n) in expected {
      assert s in (set e | e in expected :: e.source);
    }
    if n in TargetsOf(expected, s) {
      var e :| e in expected && e.source == s && e.target == n;
      assert e == EdgeKey(s, n);
    }
  }

  /** Run the path recogniser on every route; stop at the first failure. */
  method FindPaths(routes: map<EdgeKey, Route>, anchors: map<EdgeKey, (Point, Point)>)
    returns (paths: Paths, error: Option<RouteError>)
    requires routes.Keys <= anchors.Keys
    ensures error.None? ==> PathsOf(routes, anchors, paths)
    ensures error.Some? ==>
      exists e :: e in routes && forall p :: !SimplePath(routes[e], anchors[e].0, anchors[e].1, p)
  {
    paths, error := map[], None;
    var todo := routes.Keys;
    hide SimplePath;
    while todo != {}
      invariant todo <= routes.Keys && paths.Keys == routes.Keys - todo
      invariant forall e :: e in paths ==> SimplePath(routes[e], anchors[e].0, anchors[e].1, paths[e])
    {
      var e :| e in todo;
      var result := FindPath(routes[e], anchors[e].0, anchors[e].1);
      if result.Rejected? {
        return paths, Some(result.reason);
      }
      paths := paths[e := result.path];
      todo := todo - {e};
    }
  }

  /** Drawn edges are the expected ones, each is a simple path between its anchors,
      and following paths and switches connects exactly the expected pairs. */
  ghost predicate Acceptable(cells: Cells, anchors: map<EdgeKey, (Point, Point)>, expected: set<EdgeKey>) {
    && (forall e :: e in expected <==> Drawn(cells, e))
    && exists paths: Paths :: AcceptedBy(cells, anchors, expected, paths)
  }

  ghost predicate AcceptedBy(cells: Cells, anchors: map<EdgeKey, (Point, Point)>, expected: set<EdgeKey>,
                             paths: Paths) {
    && paths.Keys == expected
    && (forall e :: e in expected ==>
          e in anchors && SimplePath(EdgeRoute(cells, e), anchors[e].0, anchors[e].1, paths[e]))
    && WellFormed(paths)
    && (forall s, n :: s in BySource(expected) && n in BySource(expected)[s] ==> EdgeKey(s, n) in paths)
    && SemanticallyExact(paths, BuiltSwitches(cells), BySource(expected))
  }

  lemma AcceptedPathsAgree(cells: Cells, anchors: map<EdgeKey, (Point, Point)>, expected: set<EdgeKey>,
                           routes: map<EdgeKey, Route>, paths: Paths, others: Paths)
    requires Collected(cells, routes) && routes.Keys == expected && PathsOf(routes, anchors, paths)
    requires AcceptedBy(cells, anchors, expected, others)
    ensures paths == others
  {
    hide SimplePath, EdgeRoute, Drawn, SemanticallyExact, BySource, BuiltSwitches;
    forall e | e in paths ensures paths[e] == others[e] {
      SimplePathIsUnique(EdgeRoute(cells, e), anchors[e].0, anchors[e].1, paths[e], others[e]);
    }
  }

  method ValidateCandidate(cells: Cells, anchors: map<EdgeKey, (Point, Point)>, expected: set<EdgeKey>)
    returns (verdict: Verdict)
    requires expected <= anchors.Keys
    ensures verdict == Valid <==> Acceptable(cells, anchors, expected)
  {
    hide SimplePath, EdgeRoute, Drawn, WellFormed, SemanticallyExact, BuiltSwitches, BySource;
    var routes := CollectRoutedEdgeBits(cells);
    if routes.Keys - expected != {} {
      assert exists e :: e in routes.Keys - expected;
      return Unexpected;
    }
    if expected - routes.Keys != {} {
      assert exists e :: e in expected - routes.Keys;
      return Missing;
    }
    assert routes.Keys == expected;
    var paths, error := FindPaths(routes, anchors);
    if error.Some? {
      return BadRoute(error.value);
    }
    PathsAreWellFormed(routes, anchors, paths);
    forall s, n ensures s in BySource(expected) && n in BySource(expected)[s] <==> EdgeKey(s, n) in expected {
      BySourceEdges(expected, s, n);
    }
    var ok := ValidateReachability(paths, cells, BySource(expected));
    if ok {
      assert AcceptedBy(cells, anchors, expected, paths);
      return Valid;
    }
    forall others | AcceptedBy(cells, anchors, expected, others) ensures false {
      AcceptedPathsAgree(cells, anchors, expected, routes, paths, others);
    }
    return ChangedReachability;
  }

  // ----------------------------------------------------- the last word of an edge

  lemma {:induction false} DroppingOne(contributions: seq<Contribution>, edge: EdgeKey)
    ensures forall c :: c in Dropping(contributions, edge) <==> c in contributions && c.edge != edge
    ensures OncePerEdge(contributions) ==> OncePerEdge(Dropping(contributions, edge))
  {
    if contributions != [] {
      DroppingOne(contributions[1..], edge);
      var rest := Dropping(contributions[1..], edge);
      assert forall c :: c in rest ==> c in contributions[1..];
      assert OncePerEdge(contributions) ==> OncePerEdge(contributions[1..]);
      if OncePerEdge(contributions) && contributions[0].edge != edge {
        forall i, j | 0 <= i < j < |[contributions[0]] + rest|
          ensures ([contributions[0]] + rest)[i].edge != ([contributions[0]] + rest)[j].edge
        {
          assert ([contributions[0]] + rest)[j] in contributions[1..];
        }
      }
    }
  }

  ghost predicate OncePerEdge(contributions: seq<Contribution>) {
    forall i, j :: 0 <= i < j < |contributions| ==> contributions[i].edge != contributions[j].edge
  }

  /** Switches are built from exactly one contribution per edge and cell: the last one. */
  lemma {:induction false} LastPerEdgeIsLast(contributions: seq<Contribution>, c: Contribution)
    ensures OncePerEdge(LastPerEdge(contributions))
    ensures c in LastPerEdge(contributions) <==>
      exists i :: 0 <= i < |contributions| && contributions[i] == c && IsLast(contributions, i)
  {
    if contributions != [] {
      var n := |contributions| - 1;
      var front, last := contributions[..n], contributions[n];
      LastPerEdgeIsLast(front, c);
      var before := LastPerEdge(front);
      DroppingOne(before, last.edge);
      var rest := Dropping(before, last.edge);
      forall i, j | 0 <= i < j < |rest + [last]| ensures (rest + [last])[i].edge != (rest + [last])[j].edge {
        assert rest[i] in rest;
      }
      assert IsLast(contributions, n);
      forall i | 0 <= i < n ensures IsLast(contributions, i) <==> IsLast(front, i) && front[i].edge != last.edge {
      }
      if c in rest {
        var i :| 0 <= i < |front| && front[i] == c && IsLast(front, i);
        assert IsLast(contributions, i) && contributions[i] == c;
      }
      if i :| 0 <= i < |contributions| && contributions[i] == c && IsLast(contributions, i) {
        if i < n {
          assert front[i] == c && IsLast(front, i);
        }
      }
    }
  }

  predicate IsLast(contributions: seq<Contribution>, i: nat)
    requires i < |contributions|
  {
    forall j :: i < j < |contributions| ==> contributions[j].edge != contributions[i].edge
  }
}
