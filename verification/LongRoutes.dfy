/** Long edges, one after the other, each on the best row that the validator accepts. */
module LongRoutes {
  import opened Collections
  import opened Connectivity
  import opened RoutePath
  import opened RouteShapes
  import opened RouteDrawing
  import opened Switches
  import opened Layout
  import RR = RenderedReachability
  import RA = RowAllocation

  type Anchors = map<EdgeKey, (Point, Point)>

  // ------------------------------------------------ validating one candidate

  function Kept(contributions: seq<Contribution>, edges: set<EdgeKey>): seq<Contribution> {
    if contributions == [] then [] else
      var n := |contributions| - 1;
      Kept(contributions[..n], edges) + (if contributions[n].edge in edges then [contributions[n]] else [])
  }

  /** The part of the drawing that belongs to some edges. */
  function Restricted(cells: Cells, edges: set<EdgeKey>): Cells {
    map p | p in cells && Kept(cells[p], edges) != [] :: Kept(cells[p], edges)
  }

  ghost predicate IsComponent(cells: Cells, edge: EdgeKey, component: set<EdgeKey>) {
    forall e :: e in component <==> Connected(Interacts(cells), edge, e)
  }

  /** The edges that interact with this one are drawn as they should be. */
  ghost predicate LocallyValid(cells: Cells, anchors: Anchors, edge: EdgeKey) {
    exists component: set<EdgeKey> ::
      IsComponent(cells, edge, component) && RR.Acceptable(Restricted(cells, component), anchors, component)
  }

  lemma ComponentIsUnique(cells: Cells, edge: EdgeKey, a: set<EdgeKey>, b: set<EdgeKey>)
    requires IsComponent(cells, edge, a) && IsComponent(cells, edge, b)
    ensures a == b
  {
  }

  lemma EdgeIsMentioned(cells: Cells, e: EdgeKey)
    ensures e in AllEdges(cells) <==> exists p :: p in cells && Mentions(cells[p], e)
  {
    if p :| p in cells && Mentions(cells[p], e) {
      var i :| 0 <= i < |cells[p]| && cells[p][i].edge == e;
      assert cells[p][i] in cells[p];
      assert e in EdgesOf(cells[p]);
    }
    if e in AllEdges(cells) {
      var p :| p in cells && e in EdgesOf(cells[p]);
      var c :| c in cells[p] && c.edge == e;
      assert Mentions(cells[p], e);
    }
  }

  /** Drawing one more edge adds no other edge. */
  lemma DrawnEdges(f: Frame, cells: Cells, d: Drawing)
    requires Bridgeable(f, d) && WellDrawn(cells)
    ensures AllEdges(DrawOne(f, cells, d)) <= AllEdges(cells) + {d.edge}
  {
    hide DrawOne, BridgeOf, Bridgeable, AllEdges, BitsAt, WellDrawn;
    var more := DrawOne(f, cells, d);
    forall e | e in AllEdges(more) && e != d.edge ensures e in AllEdges(cells) {
      EdgeIsMentioned(more, e);
      var p :| p in more && Mentions(more[p], e);
      OneMoreBits(f, cells, d, e, p);
      MentionedIsDrawn(more, p, e);
      BitsAreMentioned(cells, p, e);
      EdgeIsMentioned(cells, e);
    }
  }

  lemma BitsAreMentioned(cells: Cells, p: Point, e: EdgeKey)
    requires BitsAt(cells, e, p) != {}
    ensures p in cells && Mentions(cells[p], e)
  {
    if !Mentions(cells[p], e) {
      UnionOfOthers(cells[p], e);
    }
  }

  /** Draw the candidate on a copy and judge the edges it interacts with. */
  method CandidateIsValid(f: Frame, cells: Cells, d: Drawing, anchors: Anchors) returns (ok: bool)
    requires Bridgeable(f, d) && d.Long? && WellDrawn(cells) && AllEdges(cells) + {d.edge} <= anchors.Keys
    ensures ok <==> LocallyValid(DrawOne(f, cells, d), anchors, d.edge)
  {
    hide BridgeOf, Bridgeable, BridgeDrawn, AllEdges, WellDrawn, Restricted, RR.Acceptable, IsComponent;
    var trial := new Canvas();
    trial.cells := cells;
    trial.RouteBridge(d.edge, BridgeOf(f, d));
    DrawnEdges(f, cells, d);
    var component := InteractionComponent(trial.cells, d.edge);
    assert IsComponent(trial.cells, d.edge, component) by { IsTheComponent(trial.cells, d.edge, component); }
    var verdict := RR.ValidateCandidate(Restricted(trial.cells, component), anchors, component);
    forall other | IsComponent(trial.cells, d.edge, other) ensures other == component {
      ComponentIsUnique(trial.cells, d.edge, component, other);
    }
    return verdict == RR.Valid;
  }

  lemma IsTheComponent(cells: Cells, edge: EdgeKey, component: set<EdgeKey>)
    requires forall e :: e in component <==> Connected(Interacts(cells), edge, e)
    ensures IsComponent(cells, edge, component)
  {
  }

  // ------------------------------------------------------- preferring a row

  predicate Crossing(a: Contribution, b: Contribution) {
    && a.edge.source != b.edge.source && a.edge.target != b.edge.target
    && (|| (a.bits * {Left, Right} != {} && b.bits * {Up, Down} != {})
        || (a.bits * {Up, Down} != {} && b.bits * {Left, Right} != {}))
  }

  /** Pairs of old and new contributions that cross without sharing an end. */
  function CrossingCost(proposed: Cells, cells: Cells): nat {
    |set p, i, j | p in proposed && p in cells && 0 <= i < |proposed[p]| && 0 <= j < |cells[p]|
      && Crossing(proposed[p][i], cells[p][j]) :: (p, i, j)|
  }

  function RowScore(source: nat, target: nat, row: nat): seq<nat> {
    [Max(Max(Min(source, target) - row, row - Max(source, target)), 0),
     Distance(source, row) + Distance(target, row),
     (if row == source then 0 else 1) + (if row == target then 0 else 1),
     Distance(row, source),
     row]
  }

  function RowKey(f: Frame, cells: Cells, d: Drawing): seq<nat>
    requires Bridgeable(f, d) && d.Long?
  {
    [CrossingCost(DrawOne(f, map[], d), cells)]
      + RowScore(f.places[d.edge.source].row, f.places[d.edge.target].row, d.row)
  }

  /** The same route on another row. */
  function OnRow(f: Frame, d: Drawing, row: nat): (moved: Drawing)
    requires Bridgeable(f, d) && d.Long?
    ensures Bridgeable(f, moved) && moved.Long? && moved.edge == d.edge && moved.row == row
  {
    Long(d.edge, d.sourceItem, d.targetItem, row)
  }

  predicate Better(f: Frame, cells: Cells, d: Drawing, q: nat, r: nat)
    requires Bridgeable(f, d) && d.Long?
  {
    Less(RowKey(f, cells, OnRow(f, d, q)), RowKey(f, cells, OnRow(f, d, r)))
  }

  ghost predicate RowIsValid(f: Frame, cells: Cells, d: Drawing, anchors: Anchors, r: nat)
    requires Bridgeable(f, d) && d.Long?
  {
    LocallyValid(DrawOne(f, cells, OnRow(f, d, r)), anchors, d.edge)
  }

  /** The first valid row in the order of preference. */
  ghost predicate BestValid(f: Frame, cells: Cells, d: Drawing, anchors: Anchors, rows: set<nat>, r: nat)
    requires Bridgeable(f, d) && d.Long?
  {
    && r in rows && RowIsValid(f, cells, d, anchors, r)
    && forall q: nat :: q in rows && Better(f, cells, d, q, r) ==> !RowIsValid(f, cells, d, anchors, q)
  }

  ghost predicate NoneValid(f: Frame, cells: Cells, d: Drawing, anchors: Anchors, rows: set<nat>)
    requires Bridgeable(f, d) && d.Long?
  {
    forall q: nat :: q in rows ==> !RowIsValid(f, cells, d, anchors, q)
  }

  method ChooseRow(f: Frame, cells: Cells, d: Drawing, anchors: Anchors, rows: set<nat>) returns (row: Option<nat>)
    requires Bridgeable(f, d) && d.Long? && WellDrawn(cells) && AllEdges(cells) + {d.edge} <= anchors.Keys
    ensures row.Some? ==> BestValid(f, cells, d, anchors, rows, row.value)
    ensures row.None? ==> NoneValid(f, cells, d, anchors, rows)
  {
    hide RowKey, Less, LocallyValid, DrawOne, WellDrawn, AllEdges, Bridgeable, OnRow;
    var keys := map r: nat | r in rows :: RowKey(f, cells, OnRow(f, d, r));
    var todo := rows;
    while todo != {}
      invariant todo <= rows
      invariant forall q: nat :: q in rows && q !in todo ==> !RowIsValid(f, cells, d, anchors, q)
      decreases |todo|
    {
      ghost var best := BestExists(todo, keys);
      var r: nat :| IsBest(todo, keys, r);
      assert IsBest(todo, keys, r);
      var ok := CandidateIsValid(f, cells, OnRow(f, d, r), anchors);
      if ok {
        return Some(r);
      }
      StrictSubsetSize(todo - {r}, todo, r);
      todo := todo - {r};
    }
    return None;
  }

  // -------------------------------------------------------- all long edges

  /** The drawing so far, the long edges still without a row, and the rows in use. */
  datatype Work = Work(frame: Frame, drawn: seq<Drawing>, longs: seq<Drawing>, maxRow: nat, used: RA.Rows,
                       anchors: Anchors)

  function EdgeList(drawings: seq<Drawing>): seq<EdgeKey> {
    seq(|drawings|, i requires 0 <= i < |drawings| => drawings[i].edge)
  }

  ghost predicate AllLong(f: Frame, longs: seq<Drawing>) {
    AllBridgeable(f, longs) && forall i :: 0 <= i < |longs| ==> longs[i].Long?
  }

  ghost predicate Workable(w: Work) {
    && AllBridgeable(w.frame, w.drawn) && AllLong(w.frame, w.longs)
    && RA.Routable(EdgeList(w.longs), w.frame.places, w.maxRow, w.used)
    && (forall i :: 0 <= i < |w.drawn| ==> w.drawn[i].edge in w.anchors)
    && (forall i :: 0 <= i < |w.longs| ==> w.longs[i].edge in w.anchors)
  }

  function OnRows(f: Frame, longs: seq<Drawing>, rows: seq<nat>): (moved: seq<Drawing>)
    requires |rows| <= |longs| && AllLong(f, longs)
    ensures |moved| == |rows| && AllBridgeable(f, moved)
  {
    seq(|rows|, i requires 0 <= i < |rows| => OnRow(f, longs[i], rows[i]))
  }

  /** The first long edges on their rows, on top of what was drawn before. */
  ghost function Routes(w: Work, rows: seq<nat>): (drawings: seq<Drawing>)
    requires Workable(w) && |rows| <= |w.longs|
    ensures AllBridgeable(w.frame, drawings)
  {
    w.drawn + OnRows(w.frame, w.longs, rows)
  }

  ghost function CellsWith(w: Work, rows: seq<nat>): Cells
    requires Workable(w) && |rows| <= |w.longs|
  {
    DrawAll(w.frame, Routes(w, rows))
  }

  ghost function InUse(w: Work, rows: seq<nat>): RA.Rows
    requires |rows| <= |w.longs|
  {
    if rows == [] then w.used else
      var n := |rows| - 1;
      var before := InUse(w, rows[..n]);
      before[rows[n] := RA.RowOf(before, rows[n]) + {w.longs[n].edge}]
  }

  /** Rows up to the fallback row that are free of nodes and of routes to be mistaken for. */
  ghost predicate IsShared(w: Work, base: nat, rows: seq<nat>, r: nat)
    requires |rows| < |w.longs|
  {
    var e, places := w.longs[|rows|].edge, w.frame.places;
    && r <= w.maxRow + 1 && r < base && RA.Placed(e, places) && RA.RowsPlaced(InUse(w, rows), places)
    && RA.Suitable(e, r, InUse(w, rows), places)
  }

  ghost function SharedRows(w: Work, base: nat, rows: seq<nat>): set<nat>
    requires |rows| < |w.longs|
  {
    set r: nat | r < base && IsShared(w, base, rows, r)
  }

  /** The best valid shared row, or the private row when no shared row is valid. */
  ghost predicate Settled(w: Work, base: nat, rows: seq<nat>, r: nat)
    requires Workable(w) && |rows| < |w.longs|
  {
    var d, cells, shared := w.longs[|rows|], CellsWith(w, rows), SharedRows(w, base, rows);
    || BestValid(w.frame, cells, d, w.anchors, shared, r)
    || (r == base + |rows| && NoneValid(w.frame, cells, d, w.anchors, shared)
      && RowIsValid(w.frame, cells, d, w.anchors, r))
  }

  ghost predicate Stuck(w: Work, base: nat, rows: seq<nat>)
    requires Workable(w)
  {
    && |rows| < |w.longs|
    && NoneValid(w.frame, CellsWith(w, rows), w.longs[|rows|], w.anchors, SharedRows(w, base, rows))
    && !RowIsValid(w.frame, CellsWith(w, rows), w.longs[|rows|], w.anchors, base + |rows|)
  }

  ghost predicate Routed(w: Work, base: nat, rows: seq<nat>)
    requires Workable(w)
  {
    |rows| <= |w.longs| && forall n: nat :: n < |rows| ==> Settled(w, base, rows[..n], rows[n])
  }

  lemma RoutedSnoc(w: Work, base: nat, rows: seq<nat>, r: nat)
    requires Workable(w) && |rows| < |w.longs| && Routed(w, base, rows) && Settled(w, base, rows, r)
    ensures Routed(w, base, rows + [r])
  {
    hide Workable, Settled;
    var more := rows + [r];
    forall n: nat | n < |more| ensures Settled(w, base, more[..n], more[n]) {
      if n < |rows| {
        assert more[..n] == rows[..n];
      } else {
        assert more[..n] == rows;
      }
    }
  }

  lemma RoutesSnoc(w: Work, rows: seq<nat>, r: nat)
    requires Workable(w) && |rows| < |w.longs|
    ensures Routes(w, rows + [r]) == Routes(w, rows) + [OnRow(w.frame, w.longs[|rows|], r)]
    ensures CellsWith(w, rows + [r]) == DrawOne(w.frame, CellsWith(w, rows), OnRow(w.frame, w.longs[|rows|], r))
  {
    hide DrawOne, Bridgeable;
    var more := Routes(w, rows + [r]);
    var last := OnRow(w.frame, w.longs[|rows|], r);
    assert more == Routes(w, rows) + [last];
    assert more[..|more| - 1] == Routes(w, rows);
  }

  lemma InUseSnoc(w: Work, rows: seq<nat>, r: nat)
    requires |rows| < |w.longs|
    ensures InUse(w, rows + [r]) == InUse(w, rows)[r := RA.RowOf(InUse(w, rows), r) + {w.longs[|rows|].edge}]
  {
    assert (rows + [r])[..|rows|] == rows;
  }

  // ------------------------------------------------ what a finished routing is

  function ChosenRows(longs: seq<Drawing>, rows: seq<nat>): map<EdgeKey, nat>
    requires |rows| <= |longs|
  {
    if rows == [] then map[] else
      var n := |rows| - 1;
      ChosenRows(longs, rows[..n])[longs[n].edge := rows[n]]
  }

  /** Settled rows are an allocation: private rows hold one route, and routes that share
      a row and touch share an end. */
  lemma {:induction false} RoutedIsAllocated(w: Work, base: nat, rows: seq<nat>)
    requires Workable(w) && Routed(w, base, rows) && RA.AboveAll(base, w.maxRow, w.used)
    ensures RA.Allocated(EdgeList(w.longs), |rows|, w.frame.places, w.used, base, InUse(w, rows),
      ChosenRows(w.longs, rows))
    decreases |rows|
  {
    hide RA.Allocated, RA.Routable, RA.Suitable, RA.RowsPlaced, CellsWith, BestValid, NoneValid, RowIsValid, AllLong;
    var edges, places := EdgeList(w.longs), w.frame.places;
    if rows == [] {
      RA.NothingAllocated(edges, places, w.maxRow, w.used, base);
    } else {
      var n := |rows| - 1;
      var front, r := rows[..n], rows[n];
      RoutedFront(w, base, rows);
      RoutedIsAllocated(w, base, front);
      RA.NextEdge(edges, n, places, w.maxRow, w.used, base, InUse(w, front), ChosenRows(w.longs, front));
      assert Settled(w, base, front, r);
      BestIsShared(w, base, front, r);
      RA.Allocate(edges, n, places, w.used, base, InUse(w, front), ChosenRows(w.longs, front), r);
    }
  }

  lemma RoutedFront(w: Work, base: nat, rows: seq<nat>)
    requires Workable(w) && rows != [] && Routed(w, base, rows)
    ensures Routed(w, base, rows[..|rows| - 1]) && Settled(w, base, rows[..|rows| - 1], rows[|rows| - 1])
  {
    hide Workable, Settled;
    var front := rows[..|rows| - 1];
    forall n: nat | n < |front| ensures Settled(w, base, front[..n], front[n]) {
      assert front[..n] == rows[..n];
    }
  }

  lemma BestIsShared(w: Work, base: nat, rows: seq<nat>, r: nat)
    requires Workable(w) && |rows| < |w.longs| && Settled(w, base, rows, r)
    ensures IsShared(w, base, rows, r) || r == base + |rows|
  {
    hide IsShared, RowIsValid, CellsWith, Workable;
  }

  /** No long route runs through a label. */
  lemma RoutedRowsAreFree(w: Work, base: nat, rows: seq<nat>, n: nat)
    requires Workable(w) && Routed(w, base, rows) && RA.AboveAll(base, w.maxRow, w.used) && n < |rows| <= |w.longs|
    ensures Ends(w.frame, w.longs[n].edge) && RowIsFree(w.frame, w.longs[n].edge, rows[n])
  {
    hide RA.Allocated, Routed, InUse, ChosenRows, RA.Routable;
    RoutedIsAllocated(w, base, rows);
    RoutableLongs(w);
    ChosenRow(w, rows, n);
    LongIsLong(w, n);
    AllocatedRowIsFree(w.frame, EdgeList(w.longs), |rows|, w.used, base, InUse(w, rows), ChosenRows(w.longs, rows),
                       w.longs[n].edge);
  }

  lemma RoutableLongs(w: Work)
    requires Workable(w)
    ensures RA.Routable(EdgeList(w.longs), w.frame.places, w.maxRow, w.used)
  {
  }

  lemma AllocatedRowIsFree(f: Frame, edges: seq<EdgeKey>, n: nat, used: RA.Rows, base: nat, rows: RA.Rows,
                           chosen: map<EdgeKey, nat>, e: EdgeKey)
    requires n <= |edges| && RA.Allocated(edges, n, f.places, used, base, rows, chosen) && e in chosen && Ends(f, e)
    ensures RowIsFree(f, e, chosen[e])
  {
    hide RA.RowOk, RA.RowsPlaced;
  }

  lemma {:induction false} ChosenRow(w: Work, rows: seq<nat>, n: nat)
    requires |rows| <= |w.longs| && n < |rows| && RA.Routable(EdgeList(w.longs), w.frame.places, w.maxRow, w.used)
    ensures w.longs[n].edge in ChosenRows(w.longs, rows) && ChosenRows(w.longs, rows)[w.longs[n].edge] == rows[n]
    decreases |rows|
  {
    var m := |rows| - 1;
    if n < m {
      ChosenRow(w, rows[..m], n);
      assert EdgeList(w.longs)[n] != EdgeList(w.longs)[m];
    }
  }

  // ------------------------------------------------------------------ the loop

  lemma ReadyToChoose(w: Work, rows: seq<nat>)
    requires Workable(w) && |rows| < |w.longs|
    ensures WellDrawn(CellsWith(w, rows)) && AllEdges(CellsWith(w, rows)) + {w.longs[|rows|].edge} <= w.anchors.Keys
  {
    hide DrawAll, WellDrawn, AllEdges, BitsAt, RA.Routable;
    var cells, drawings := CellsWith(w, rows), Routes(w, rows);
    DrawingIsWellDrawn(w.frame, drawings);
    forall e | e in AllEdges(cells) ensures e in w.anchors {
      EdgeIsMentioned(cells, e);
      var p :| p in cells && Mentions(cells[p], e);
      MentionedIsDrawn(cells, p, e);
      var i := BitsComeFromARoute(w.frame, drawings, e, p);
    }
  }

  lemma {:induction false} InUseIsPlaced(w: Work, rows: seq<nat>, e: EdgeKey)
    requires Workable(w) && |rows| <= |w.longs|
    requires forall r: nat :: e !in RA.RowOf(w.used, r)
    requires forall i :: 0 <= i < |rows| ==> w.longs[i].edge != e
    ensures RA.RowsPlaced(InUse(w, rows), w.frame.places)
    ensures forall r: nat :: e !in RA.RowOf(InUse(w, rows), r)
    decreases |rows|
  {
    hide AllLong;
    if rows != [] {
      var n := |rows| - 1;
      InUseIsPlaced(w, rows[..n], e);
      assert EdgeList(w.longs)[n] in EdgeList(w.longs);
      PlacedAfter(InUse(w, rows[..n]), rows[n], w.longs[n].edge, w.frame.places, e, InUse(w, rows));
    }
  }

  lemma PlacedAfter(rows: RA.Rows, r: nat, e: EdgeKey, places: RA.Places, other: EdgeKey, next: RA.Rows)
    requires RA.RowsPlaced(rows, places) && RA.Placed(e, places)
    requires other != e && forall q: nat :: other !in RA.RowOf(rows, q)
    requires next == rows[r := RA.RowOf(rows, r) + {e}]
    ensures RA.RowsPlaced(next, places)
    ensures forall q: nat :: other !in RA.RowOf(next, q)
  {
    forall q: nat ensures RA.AllPlaced(RA.RowOf(next, q), places) && other !in RA.RowOf(next, q) {
      assert RA.AllPlaced(RA.RowOf(rows, q), places) && other !in RA.RowOf(rows, q);
    }
  }

  lemma NextIsNew(w: Work, n: nat)
    requires Workable(w) && n < |w.longs|
    ensures RA.Placed(w.longs[n].edge, w.frame.places)
    ensures forall r: nat :: w.longs[n].edge !in RA.RowOf(w.used, r)
    ensures forall i :: 0 <= i < n ==> w.longs[i].edge != w.longs[n].edge
  {
    hide AllLong;
    assert EdgeList(w.longs)[n] in EdgeList(w.longs);
    assert forall i :: 0 <= i < n ==> EdgeList(w.longs)[i] == w.longs[i].edge;
  }

  ghost predicate PrivateFrom(w: Work, base: nat) {
    RA.AboveAll(base, w.maxRow, w.used) && (base == w.maxRow + 1 || base - 1 in w.used)
  }

  /** Route the long edges in place; None when an edge has no valid row, its own included. */
  method RouteLongEdges(w: Work, canvas: Canvas) returns (result: Option<seq<nat>>)
    requires Workable(w) && canvas.cells == DrawAll(w.frame, w.drawn)
    modifies canvas
    ensures result.Some? ==> |result.value| == |w.longs| && canvas.cells == CellsWith(w, result.value)
    ensures result.Some? ==> exists base: nat :: PrivateFrom(w, base) && Routed(w, base, result.value)
    ensures result.None? ==> exists base: nat, rows: seq<nat> ::
      PrivateFrom(w, base) && Routed(w, base, rows) && Stuck(w, base, rows)
  {
    hide DrawAll, Workable, WellDrawn, AllEdges, RA.Suitable, RA.RowsPlaced, LocallyValid, Bridgeable, Settled,
         Routed, Stuck, InUse, CellsWith, BridgeOf, BridgeDrawn, BestValid, NoneValid, RowIsValid;
    var base := RA.PrivateBase(w.maxRow, w.used);
    var rows: seq<nat> := [];
    var inUse: RA.Rows := w.used;
    StartsRouted(w, base);
    while |rows| < |w.longs|
      invariant |rows| <= |w.longs| && Routed(w, base, rows)
      invariant inUse == InUse(w, rows) && canvas.cells == CellsWith(w, rows)
    {
      LongIsLong(w, |rows|);
      var d := w.longs[|rows|];
      NextIsNew(w, |rows|);
      InUseIsPlaced(w, rows, d.edge);
      ReadyToChoose(w, rows);
      var candidates := RA.LongRouteCandidates(d.edge, w.frame.places, w.maxRow, inUse, 1);
      var shared := set r: nat | r in candidates && r < base;
      assert shared == SharedRows(w, base, rows);
      var row := ChooseRow(w.frame, canvas.cells, d, w.anchors, shared);
      if row.None? {
        var own := base + |rows|;
        var ok := CandidateIsValid(w.frame, canvas.cells, OnRow(w.frame, d, own), w.anchors);
        assert ok <==> RowIsValid(w.frame, CellsWith(w, rows), d, w.anchors, own) by { SameJudgement(w, rows, own); }
        if !ok {
          assert Stuck(w, base, rows) by { NowStuck(w, base, rows); }
          return None;
        }
        row := Some(own);
      }
      SettledNow(w, base, rows, row.value);
      RoutedSnoc(w, base, rows, row.value);
      RoutesSnoc(w, rows, row.value);
      InUseSnoc(w, rows, row.value);
      canvas.RouteBridge(d.edge, BridgeOf(w.frame, OnRow(w.frame, d, row.value)));
      inUse := inUse[row.value := RA.RowOf(inUse, row.value) + {d.edge}];
      rows := rows + [row.value];
    }
    return Some(rows);
  }

  lemma StartsRouted(w: Work, base: nat)
    requires Workable(w)
    ensures Routed(w, base, []) && InUse(w, []) == w.used && CellsWith(w, []) == DrawAll(w.frame, w.drawn)
  {
    assert Routes(w, []) == w.drawn;
  }

  lemma LongIsLong(w: Work, n: nat)
    requires Workable(w) && n < |w.longs|
    ensures Bridgeable(w.frame, w.longs[n]) && w.longs[n].Long?
  {
  }

  lemma SameJudgement(w: Work, rows: seq<nat>, r: nat)
    requires Workable(w) && |rows| < |w.longs|
    ensures Bridgeable(w.frame, w.longs[|rows|]) && w.longs[|rows|].Long?
    ensures RowIsValid(w.frame, CellsWith(w, rows), w.longs[|rows|], w.anchors, r) <==>
      LocallyValid(DrawOne(w.frame, CellsWith(w, rows), OnRow(w.frame, w.longs[|rows|], r)), w.anchors,
        w.longs[|rows|].edge)
  {
    hide LocallyValid, DrawOne, CellsWith;
  }

  lemma NowStuck(w: Work, base: nat, rows: seq<nat>)
    requires Workable(w) && |rows| < |w.longs|
    requires NoneValid(w.frame, CellsWith(w, rows), w.longs[|rows|], w.anchors, SharedRows(w, base, rows))
    requires !RowIsValid(w.frame, CellsWith(w, rows), w.longs[|rows|], w.anchors, base + |rows|)
    ensures Stuck(w, base, rows)
  {
  }

  lemma SettledNow(w: Work, base: nat, rows: seq<nat>, r: nat)
    requires Workable(w) && |rows| < |w.longs|
    requires Bridgeable(w.frame, w.longs[|rows|]) && w.longs[|rows|].Long?
    requires BestValid(w.frame, CellsWith(w, rows), w.longs[|rows|], w.anchors, SharedRows(w, base, rows), r)
      || (r == base + |rows|
        && NoneValid(w.frame, CellsWith(w, rows), w.longs[|rows|], w.anchors, SharedRows(w, base, rows))
          && RowIsValid(w.frame, CellsWith(w, rows), w.longs[|rows|], w.anchors, r))
    ensures Settled(w, base, rows, r)
  {
    hide CellsWith, BestValid, NoneValid, RowIsValid, SharedRows;
  }

  // --------------------------------------------------------- what the costs mean

  /** With equal crossings the row of the source beats every other, a row between the ends
      beats one outside, and of two outside rows the nearer one wins. */
  lemma RowPreference(source: nat, target: nat, q: nat, r: nat)
    ensures q == source && r != source ==> Less(RowScore(source, target, q), RowScore(source, target, r))
    ensures (source <= q <= target || target <= q <= source) && (r < Min(source, target) || r > Max(source, target)) ==>
      Less(RowScore(source, target, q), RowScore(source, target, r))
    ensures (r < q && q < source && q < target) || (source < q && target < q && q < r) ==>
      Less(RowScore(source, target, q), RowScore(source, target, r))
  {
    hide Less;
    var a, b := RowScore(source, target, q), RowScore(source, target, r);
    if a[0] < b[0] {
      LessAt(a, b, 0);
    } else if q == source && r != source {
      assert a[0] == b[0] && a[1] == b[1] && a[2] <= b[2];
      LessAt(a, b, if a[2] < b[2] then 2 else 3);
    }
  }

  /** The first difference decides. */
  lemma {:induction false} LessAt(a: seq<nat>, b: seq<nat>, k: nat)
    requires k < |a| && k < |b| && a[..k] == b[..k] && a[k] < b[k]
    ensures Less(a, b)
  {
    if k > 0 {
      assert a[0] == a[..k][0] == b[..k][0] == b[0];
      assert a[1..][..k - 1] == a[..k][1..] && b[1..][..k - 1] == b[..k][1..];
      LessAt(a[1..], b[1..], k - 1);
    }
  }

  /** Fewer crossings beat everything; equal ones leave it to the row. */
  lemma CrossingsFirst(f: Frame, cells: Cells, d: Drawing, q: nat, r: nat)
    requires Bridgeable(f, d) && d.Long?
    ensures var a, b := CrossingCost(DrawOne(f, map[], OnRow(f, d, q)), cells),
                        CrossingCost(DrawOne(f, map[], OnRow(f, d, r)), cells);
      var source, target := f.places[d.edge.source].row, f.places[d.edge.target].row;
      Better(f, cells, d, q, r) <==>
        a < b || (a == b && Less(RowScore(source, target, q), RowScore(source, target, r)))
  {
    hide CrossingCost, DrawOne, RowScore;
    var x, y := OnRow(f, d, q), OnRow(f, d, r);
    var source, target := f.places[d.edge.source].row, f.places[d.edge.target].row;
    var a, b := CrossingCost(DrawOne(f, map[], x), cells), CrossingCost(DrawOne(f, map[], y), cells);
    assert RowKey(f, cells, x) == [a] + RowScore(source, target, q);
    assert RowKey(f, cells, y) == [b] + RowScore(source, target, r);
    assert ([a] + RowScore(source, target, q))[1..] == RowScore(source, target, q);
    assert ([b] + RowScore(source, target, r))[1..] == RowScore(source, target, r);
  }

  /** A proposed route costs nothing exactly when it meets no line of an edge with other ends
      at a right angle. */
  lemma NoCrossing(proposed: Cells, cells: Cells)
    ensures CrossingCost(proposed, cells) == 0 <==>
      !exists p, a, b :: p in proposed && p in cells && a in proposed[p] && b in cells[p] && MeetsAcross(a, b)
  {
    var all := set p, i, j | p in proposed && p in cells && 0 <= i < |proposed[p]| && 0 <= j < |cells[p]|
      && Crossing(proposed[p][i], cells[p][j]) :: (p, i, j);
    if all != {} {
      var x :| x in all;
      CrossingIsAcross(proposed[x.0][x.1], cells[x.0][x.2]);
      assert proposed[x.0][x.1] in proposed[x.0] && cells[x.0][x.2] in cells[x.0];
    }
    if p, a, b :| p in proposed && p in cells && a in proposed[p] && b in cells[p] && MeetsAcross(a, b) {
      var i :| 0 <= i < |proposed[p]| && proposed[p][i] == a;
      var j :| 0 <= j < |cells[p]| && cells[p][j] == b;
      CrossingIsAcross(a, b);
      assert (p, i, j) in all;
    }
  }

  predicate MeetsAcross(a: Contribution, b: Contribution) {
    && a.edge.source != b.edge.source && a.edge.target != b.edge.target
    && exists d, e :: d in a.bits && e in b.bits && Horizontal(d) != Horizontal(e)
  }

  predicate Horizontal(d: Direction) {
    d == Left || d == Right
  }

  lemma CrossingIsAcross(a: Contribution, b: Contribution)
    ensures Crossing(a, b) <==> MeetsAcross(a, b)
  {
    if d, e :| d in a.bits && e in b.bits && Horizontal(d) != Horizontal(e) {
      if Horizontal(d) {
        assert d in a.bits * {Left, Right} && e in b.bits * {Up, Down};
      } else {
        assert d in a.bits * {Up, Down} && e in b.bits * {Left, Right};
      }
    }
    if Crossing(a, b) {
      if a.bits * {Left, Right} != {} && b.bits * {Up, Down} != {} {
        var d :| d in a.bits * {Left, Right};
        var e :| e in b.bits * {Up, Down};
        assert Horizontal(d) != Horizontal(e);
      } else {
        var d :| d in a.bits * {Up, Down};
        var e :| e in b.bits * {Left, Right};
        assert Horizontal(d) != Horizontal(e);
      }
    }
  }

  /** The restricted drawing shows these edges as before, and no other. */
  lemma RestrictedRoutes(cells: Cells, edges: set<EdgeKey>, e: EdgeKey, p: Point)
    ensures BitsAt(Restricted(cells, edges), e, p) == if e in edges then BitsAt(cells, e, p) else {}
  {
    if p in cells {
      KeptBits(cells[p], edges, e);
    }
  }

  lemma {:induction false} KeptBits(contributions: seq<Contribution>, edges: set<EdgeKey>, e: EdgeKey)
    ensures Union(Kept(contributions, edges), e) == if e in edges then Union(contributions, e) else {}
  {
    if contributions != [] {
      var n := |contributions| - 1;
      KeptBits(contributions[..n], edges, e);
      var kept := Kept(contributions[..n], edges);
      assert kept + [] == kept;
      if contributions[n].edge in edges {
        assert (kept + [contributions[n]])[..|kept|] == kept;
      }
    }
  }
}
