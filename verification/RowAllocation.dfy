/** Rows for routes that span several columns, and which of them may share a row. */
module RowAllocation {
  import opened Collections
  import opened Connectivity
  import opened RouteDrawing
  import opened RouteGeometry

  type Places = map<Node, Placement>

  type Rows = map<nat, set<EdgeKey>>

  predicate Placed(e: EdgeKey, places: Places) {
    e.source in places && e.target in places
  }

  /** The boundaries an edge crosses, from its source column to before its target column. */
  predicate Overlaps(e: EdgeKey, f: EdgeKey, places: Places)
    requires Placed(e, places) && Placed(f, places)
  {
    && places[e.source].column <= places[f.target].column - 1
    && places[f.source].column <= places[e.target].column - 1
    && places[e.source].column <= places[e.target].column - 1
    && places[f.source].column <= places[f.target].column - 1
  }

  ghost predicate AllPlaced(row: set<EdgeKey>, places: Places) {
    forall e :: e in row ==> Placed(e, places)
  }

  /** Two routes of one row that run beside each other somewhere. */
  ghost function Beside(row: set<EdgeKey>, places: Places): (EdgeKey, EdgeKey) -> bool
    requires AllPlaced(row, places)
  {
    (e, f) => e in row && f in row && Overlaps(e, f, places)
  }

  /** The routes that overlap with `e`, directly or through others on the row. */
  ghost function Component(e: EdgeKey, row: set<EdgeKey>, places: Places): set<EdgeKey>
    requires AllPlaced(row, places)
  {
    set f | f in row && Connected(Beside(row, places), e, f)
  }

  /** A group of routes may be drawn on top of each other. */
  predicate Joined(edges: set<EdgeKey>) {
    || (forall e, f :: e in edges && f in edges ==> e.source == f.source)
    || (forall e, f :: e in edges && f in edges ==> e.target == f.target)
  }

  // -------------------------------------------------------------- compatibility

  ghost predicate Growing(e: EdgeKey, row: set<EdgeKey>, places: Places, done: set<EdgeKey>, pending: set<EdgeKey>,
                          remaining: set<EdgeKey>)
    requires AllPlaced(row, places)
  {
    && done + pending + remaining == row && done !! pending && (done + pending) !! remaining
    && Exploring(Beside(row, places), {e}, done, pending)
  }

  lemma GrowStart(e: EdgeKey, row: set<EdgeKey>, places: Places)
    requires AllPlaced(row, places) && e in row
    ensures Growing(e, row, places, {}, {e}, row - {e})
  {
    hide Exploring, Beside;
    ExploringStart(Beside(row, places), {e});
    assert {e} + (row - {e}) == row;
  }

  lemma GrowStep(e: EdgeKey, row: set<EdgeKey>, places: Places, done: set<EdgeKey>, rest: set<EdgeKey>,
                 remaining: set<EdgeKey>, current: EdgeKey, connected: set<EdgeKey>)
    requires AllPlaced(row, places) && current !in rest
    requires Growing(e, row, places, done, rest + {current}, remaining)
    requires connected <= remaining
    requires forall f :: f in remaining && Placed(f, places) ==> (f in connected <==> Overlaps(current, f, places))
    ensures Growing(e, row, places, done + {current}, rest + connected, remaining - connected)
  {
    hide Exploring;
    var r := Beside(row, places);
    ExploringVisit(r, {e}, done, rest, current, connected);
  }

  lemma GrowEnd(e: EdgeKey, row: set<EdgeKey>, places: Places, done: set<EdgeKey>, remaining: set<EdgeKey>)
    requires AllPlaced(row, places) && e in row && Growing(e, row, places, done, {}, remaining)
    ensures done == Component(e, row, places)
  {
    hide Exploring;
    ExploringDone(Beside(row, places), {e}, done);
    forall f | f in row ensures f in done <==> Connected(Beside(row, places), e, f) {
      assert FromSome(Beside(row, places), {e}, f) <==> Connected(Beside(row, places), e, f);
    }
  }

  lemma AllPlacedIn(row: set<EdgeKey>, places: Places, current: EdgeKey, remaining: set<EdgeKey>)
    requires AllPlaced(row, places) && current in row && remaining <= row
    ensures Placed(current, places) && forall f :: f in remaining ==> Placed(f, places)
  {
  }

  ghost predicate IsUnion(component: set<EdgeKey>, done: set<EdgeKey>, pending: set<EdgeKey>) {
    component == done + pending
  }

  lemma MovedOver(component: set<EdgeKey>, done: set<EdgeKey>, rest: set<EdgeKey>, current: EdgeKey,
                  connected: set<EdgeKey>)
    requires IsUnion(component, done, rest + {current})
    ensures IsUnion(component + connected, done + {current}, rest + connected)
  {
  }

  lemma UnionStart(e: EdgeKey)
    ensures IsUnion({e}, {}, {e})
  {
  }

  lemma UnionEnd(component: set<EdgeKey>, done: set<EdgeKey>)
    requires IsUnion(component, done, {})
    ensures component == done
  {
  }

  /** Grow the overlap component of `edge` on the row and look for a common end. */
  method LongRowIsCompatible(edge: EdgeKey, existing: set<EdgeKey>, places: Places) returns (ok: bool)
    requires AllPlaced(existing + {edge}, places) && edge !in existing
    ensures ok <==> Joined(Component(edge, existing + {edge}, places))
  {
    hide Growing, Overlaps, IsUnion;
    ghost var row := existing + {edge};
    var component, pending, remaining := {edge}, {edge}, existing;
    ghost var done: set<EdgeKey> := {};
    GrowStart(edge, row, places);
    assert row - {edge} == existing;
    assert IsUnion({edge}, {}, {edge}) by { UnionStart(edge); }
    while pending != {}
      invariant Growing(edge, row, places, done, pending, remaining)
      invariant remaining <= row && pending <= row && IsUnion(component, done, pending)
      decreases |remaining|, |pending|
    {
      var current :| current in pending;
      var rest := pending - {current};
      assert pending == rest + {current};
      AllPlacedIn(row, places, current, remaining);
      var connected := set f | f in remaining && Overlaps(current, f, places);
      GrowStep(edge, row, places, done, rest, remaining, current, connected);
      SubsetSize(remaining - connected, remaining);
      StrictSubsetSize(rest, pending, current);
      if connected == {} {
        assert rest + connected == rest && remaining - connected == remaining;
      }
      MovedOver(component, done, rest, current, connected);
      component, pending, remaining := component + connected, rest + connected, remaining - connected;
      done := done + {current};
    }
    GrowEnd(edge, row, places, done, remaining);
    UnionEnd(component, done);
    return Joined(component);
  }

  // ------------------------------------------------------------- shared rows

  /** Every long route of the row overlaps only with routes that share one end with it. */
  ghost predicate RowOk(row: set<EdgeKey>, long: set<EdgeKey>, places: Places)
    requires AllPlaced(row, places)
  {
    forall e :: e in long && e in row ==> Joined(Component(e, row, places))
  }

  lemma {:induction false} ConnectedBack(row: set<EdgeKey>, places: Places, e: EdgeKey, f: EdgeKey)
    requires AllPlaced(row, places) && Connected(Beside(row, places), e, f)
    ensures Connected(Beside(row, places), f, e)
  {
    var r := Beside(row, places);
    var p :| Trail(r, p) && p[0] == e && p[|p| - 1] == f;
    var i := |p| - 1;
    ConnectedSelf(r, f);
    while i > 0
      invariant 0 <= i < |p| && Connected(r, f, p[i])
    {
      assert r(p[i - 1], p[i]);
      assert r(p[i], p[i - 1]);
      ConnectedStep(r, f, p[i], p[i - 1]);
      i := i - 1;
    }
  }

  lemma ConnectedTrans<T(!new)>(r: (T, T) -> bool, a: T, b: T, c: T)
    requires Connected(r, a, b) && Connected(r, b, c)
    ensures Connected(r, a, c)
  {
    var p :| Trail(r, p) && p[0] == b && p[|p| - 1] == c;
    var i := 0;
    while i < |p| - 1
      invariant 0 <= i < |p| && Connected(r, a, p[i])
    {
      assert r(p[i + 1 - 1], p[i + 1]);
      ConnectedStep(r, a, p[i], p[i + 1]);
      i := i + 1;
    }
  }

  /** A trail that meets `x` connects its start with `x`; one that does not is an old trail. */
  lemma OldOrThrough(row: set<EdgeKey>, places: Places, x: EdgeKey, e: EdgeKey, f: EdgeKey)
    requires AllPlaced(row + {x}, places) && e in row && Connected(Beside(row + {x}, places), e, f)
    ensures AllPlaced(row, places)
    ensures Connected(Beside(row, places), e, f) || Connected(Beside(row + {x}, places), e, x)
  {
    var r := Beside(row + {x}, places);
    var p :| Trail(r, p) && p[0] == e && p[|p| - 1] == f;
    var i := 0;
    ConnectedSelf(Beside(row, places), e);
    ConnectedSelf(r, e);
    while i < |p| - 1
      invariant 0 <= i < |p| && Connected(r, e, p[i])
      invariant Connected(r, e, x) || (p[i] in row && Connected(Beside(row, places), e, p[i]))
    {
      assert r(p[i + 1 - 1], p[i + 1]);
      ConnectedStep(r, e, p[i], p[i + 1]);
      if p[i + 1] != x && !Connected(r, e, x) {
        ConnectedStep(Beside(row, places), e, p[i], p[i + 1]);
      }
      i := i + 1;
    }
  }

  lemma OldStaysConnected(row: set<EdgeKey>, places: Places, x: EdgeKey, e: EdgeKey, f: EdgeKey)
    requires AllPlaced(row + {x}, places) && AllPlaced(row, places) && Connected(Beside(row, places), e, f)
    ensures Connected(Beside(row + {x}, places), e, f)
  {
    var p :| Trail(Beside(row, places), p) && p[0] == e && p[|p| - 1] == f;
    assert Trail(Beside(row + {x}, places), p);
  }

  /** One more route: untouched groups stay as they were, its own group is `x`'s. */
  lemma ComponentAfter(row: set<EdgeKey>, places: Places, x: EdgeKey, e: EdgeKey)
    requires AllPlaced(row + {x}, places) && e in row && x !in row
    ensures AllPlaced(row, places)
    ensures Component(e, row + {x}, places) == Component(x, row + {x}, places)
      || Component(e, row + {x}, places) == Component(e, row, places)
  {
    var more := row + {x};
    var r := Beside(more, places);
    if Connected(r, e, x) {
      ConnectedBack(more, places, e, x);
      forall f | f in more ensures Connected(r, e, f) <==> Connected(r, x, f) {
        if Connected(r, e, f) { ConnectedTrans(r, x, e, f); }
        if Connected(r, x, f) { ConnectedTrans(r, e, x, f); }
      }
    } else {
      forall f | f in more ensures Connected(r, e, f) <==> f in row && Connected(Beside(row, places), e, f) {
        if Connected(r, e, f) { OldOrThrough(row, places, x, e, f); }
        if f in row && Connected(Beside(row, places), e, f) { OldStaysConnected(row, places, x, e, f); }
      }
    }
  }

  /** A compatible route keeps every long route of the row well joined. */
  lemma AddKeepsRow(row: set<EdgeKey>, long: set<EdgeKey>, places: Places, x: EdgeKey)
    requires AllPlaced(row + {x}, places) && x !in row && AllPlaced(row, places) && RowOk(row, long, places)
    requires Joined(Component(x, row + {x}, places))
    ensures RowOk(row + {x}, long + {x}, places)
  {
    hide Component, Joined;
    forall e | e in row && e in long ensures Joined(Component(e, row + {x}, places)) {
      ComponentAfter(row, places, x, e);
    }
  }

  // --------------------------------------------------------------- candidates

  function RowOf(rows: Rows, r: nat): set<EdgeKey> {
    if r in rows then rows[r] else {}
  }

  ghost predicate RowsPlaced(rows: Rows, places: Places) {
    forall r: nat :: AllPlaced(RowOf(rows, r), places)
  }

  /** Rows holding a node in a column strictly between the ends of the edge. */
  function Occupied(e: EdgeKey, places: Places): set<nat>
    requires Placed(e, places)
  {
    set n | n in places && places[e.source].column < places[n].column < places[e.target].column :: places[n].row
  }

  /** The row is free of nodes on the way and of routes that could be mistaken. */
  ghost predicate Suitable(e: EdgeKey, r: nat, rows: Rows, places: Places)
    requires Placed(e, places) && RowsPlaced(rows, places)
  {
    r !in Occupied(e, places) && Joined(Component(e, RowOf(rows, r) + {e}, places))
  }

  method LongRouteCandidates(e: EdgeKey, places: Places, maxNodeRow: nat, rows: Rows, fallbackRows: nat)
    returns (available: set<nat>)
    requires Placed(e, places) && RowsPlaced(rows, places) && forall r: nat :: e !in RowOf(rows, r)
    ensures forall r: nat :: r in available <==>
      r <= maxNodeRow + (if fallbackRows > 1 then fallbackRows else 1) && Suitable(e, r, rows, places)
  {
    hide Joined, Occupied, Component;
    var stop := maxNodeRow + (if fallbackRows > 1 then fallbackRows else 1) + 1;
    available := {};
    var r: nat := 0;
    while r < stop
      invariant r <= stop
      invariant forall q: nat :: q in available <==> q < r && Suitable(e, q, rows, places)
    {
      assert AllPlaced(RowOf(rows, r), places) && e !in RowOf(rows, r);
      var compatible := LongRowIsCompatible(e, RowOf(rows, r), places);
      if r !in Occupied(e, places) && compatible {
        available := available + {r};
      }
      r := r + 1;
    }
  }

  // ---------------------------------------------------------------- allocation

  function Holding(chosen: map<EdgeKey, nat>, r: nat): set<EdgeKey> {
    set e | e in chosen && chosen[e] == r
  }

  /** The first `n` edges have a row each, on top of the rows in use before. */
  ghost predicate Allocated(edges: seq<EdgeKey>, n: nat, places: Places, used: Rows, base: nat,
                            rows: Rows, chosen: map<EdgeKey, nat>)
    requires n <= |edges|
  {
    && chosen.Keys == Elements(edges[..n]) && RowsPlaced(rows, places)
    && (forall e :: e in chosen ==> Placed(e, places))
    && (forall r: nat :: RowOf(rows, r) == RowOf(used, r) + Holding(chosen, r))
    && (forall r: nat :: RowOk(RowOf(rows, r), chosen.Keys, places))
    && (forall e :: e in chosen ==> chosen[e] !in Occupied(e, places) && chosen[e] < base + n)
    && (forall e, f :: e in chosen && f in chosen && e != f && chosen[e] == chosen[f] ==> chosen[e] < base)
  }

  lemma Allocate(edges: seq<EdgeKey>, n: nat, places: Places, used: Rows, base: nat, rows: Rows,
                 chosen: map<EdgeKey, nat>, r: nat)
    requires n < |edges| && Allocated(edges, n, places, used, base, rows, chosen)
    requires Placed(edges[n], places) && edges[n] !in chosen && (forall q: nat :: edges[n] !in RowOf(used, q))
    requires Suitable(edges[n], r, rows, places) && (r < base || r == base + n)
    ensures Allocated(edges, n + 1, places, used, base, rows[r := RowOf(rows, r) + {edges[n]}], chosen[edges[n] := r])
  {
    hide Joined, Component, Occupied;
    var e := edges[n];
    var next := rows[r := RowOf(rows, r) + {e}];
    var more := chosen[e := r];
    PrefixStep(edges, n);
    assert more.Keys == chosen.Keys + {e};
    RowsAfter(places, used, rows, chosen, e, r);
  }

  lemma RowsAfter(places: Places, used: Rows, rows: Rows, chosen: map<EdgeKey, nat>, e: EdgeKey, r: nat)
    requires RowsPlaced(rows, places) && Placed(e, places) && e !in chosen && (forall q: nat :: e !in RowOf(used, q))
    requires forall q: nat :: RowOf(rows, q) == RowOf(used, q) + Holding(chosen, q)
    requires forall q: nat :: RowOk(RowOf(rows, q), chosen.Keys, places)
    requires Joined(Component(e, RowOf(rows, r) + {e}, places))
    ensures var next := rows[r := RowOf(rows, r) + {e}];
      && RowsPlaced(next, places)
      && (forall q: nat :: RowOf(next, q) == RowOf(used, q) + Holding(chosen[e := r], q))
      && (forall q: nat :: RowOk(RowOf(next, q), chosen.Keys + {e}, places))
  {
    hide Joined, Component, Holding;
    var next := rows[r := RowOf(rows, r) + {e}];
    forall q: nat ensures RowOf(next, q) == RowOf(used, q) + Holding(chosen[e := r], q)
      && AllPlaced(RowOf(next, q), places) && e !in RowOf(rows, q)
    {
      HoldingAfter(chosen, e, r, q);
      NotHeld(chosen, e, q);
      assert RowOf(rows, q) == RowOf(used, q) + Holding(chosen, q);
      assert AllPlaced(RowOf(rows, q), places);
    }
    AddKeepsRow(RowOf(rows, r), chosen.Keys, places, e);
    forall q: nat ensures RowOk(RowOf(next, q), chosen.Keys + {e}, places) {
      assert RowOk(RowOf(rows, q), chosen.Keys, places);
      if q != r {
        assert e !in RowOf(next, q);
      }
    }
  }

  lemma NotHeld(chosen: map<EdgeKey, nat>, e: EdgeKey, q: nat)
    requires e !in chosen
    ensures e !in Holding(chosen, q)
  {
  }

  lemma HoldingAfter(chosen: map<EdgeKey, nat>, e: EdgeKey, r: nat, q: nat)
    requires e !in chosen
    ensures Holding(chosen[e := r], q) == if q == r then Holding(chosen, q) + {e} else Holding(chosen, q)
  {
  }

  lemma AloneIsSuitable(e: EdgeKey, r: nat, rows: Rows, places: Places)
    requires Placed(e, places) && RowsPlaced(rows, places) && RowOf(rows, r) == {} && r !in Occupied(e, places)
    ensures Suitable(e, r, rows, places)
  {
    assert {} + {e} == {e};
  }

  /** The highest row in use, nodes included. */
  predicate AboveAll(base: nat, maxNodeRow: nat, used: Rows) {
    maxNodeRow < base && forall r :: r in used ==> r < base
  }

  method PrivateBase(maxNodeRow: nat, used: Rows) returns (base: nat)
    ensures AboveAll(base, maxNodeRow, used)
    ensures base == maxNodeRow + 1 || (base - 1) in used
  {
    var top: nat := maxNodeRow;
    var todo := used.Keys;
    while todo != {}
      invariant todo <= used.Keys && top >= maxNodeRow && (top == maxNodeRow || top in used)
      invariant forall r :: r in used && r !in todo ==> r <= top
      decreases |todo|
    {
      var r: nat :| r in todo;
      if r > top {
        top := r;
      }
      todo := todo - {r};
    }
    base := top + 1;
  }

  ghost predicate Routable(edges: seq<EdgeKey>, places: Places, maxNodeRow: nat, used: Rows) {
    && Distinct(edges) && RowsPlaced(used, places)
    && (forall n :: n in places ==> places[n].row <= maxNodeRow)
    && (forall e :: e in edges ==> Placed(e, places) && forall r: nat :: e !in RowOf(used, r))
  }

  lemma NothingAllocated(edges: seq<EdgeKey>, places: Places, maxNodeRow: nat, used: Rows, base: nat)
    requires Routable(edges, places, maxNodeRow, used)
    ensures Allocated(edges, 0, places, used, base, used, map[])
  {
    forall r: nat ensures RowOf(used, r) == RowOf(used, r) + Holding(map[], r) {
      assert Holding(map[], r) == {};
    }
  }

  lemma NextEdge(edges: seq<EdgeKey>, n: nat, places: Places, maxNodeRow: nat, used: Rows, base: nat,
                 rows: Rows, chosen: map<EdgeKey, nat>)
    requires n < |edges| && Routable(edges, places, maxNodeRow, used) && AboveAll(base, maxNodeRow, used)
    requires Allocated(edges, n, places, used, base, rows, chosen)
    ensures Placed(edges[n], places) && edges[n] !in chosen && RowsPlaced(rows, places)
    ensures forall r: nat :: edges[n] !in RowOf(used, r) && edges[n] !in RowOf(rows, r)
    ensures Suitable(edges[n], base + n, rows, places)
  {
    hide RowOk;
    var e := edges[n];
    assert e in edges;
    LaterIsNew(edges, n);
    forall r: nat ensures e !in RowOf(rows, r) {
      NotHeld(chosen, e, r);
      assert RowOf(rows, r) == RowOf(used, r) + Holding(chosen, r);
    }
    assert RowOf(rows, base + n) == RowOf(used, base + n) + Holding(chosen, base + n);
    AloneIsSuitable(e, base + n, rows, places);
  }

  lemma LaterIsNew(edges: seq<EdgeKey>, n: nat)
    requires Distinct(edges) && n < |edges|
    ensures edges[n] !in Elements(edges[..n])
  {
  }

  /** Each route lies in exactly one row, private rows hold one route each, rows in use
      before only gained routes, and no row passes through a node on the way. */
  lemma AllocationIsSafe(edges: seq<EdgeKey>, places: Places, used: Rows, base: nat, rows: Rows,
                         chosen: map<EdgeKey, nat>, maxNodeRow: nat, e: EdgeKey, r: nat)
    requires Allocated(edges, |edges|, places, used, base, rows, chosen) && AboveAll(base, maxNodeRow, used)
    requires e in edges && (forall q: nat :: e !in RowOf(used, q))
    ensures e in chosen && (e in RowOf(rows, r) <==> chosen[e] == r)
    ensures Placed(e, places) && chosen[e] !in Occupied(e, places)
    ensures AllPlaced(RowOf(rows, r), places)
    ensures e in RowOf(rows, r) ==> Joined(Component(e, RowOf(rows, r), places))
    ensures chosen[e] >= base ==> RowOf(rows, chosen[e]) == {e}
  {
    hide Occupied, Joined, Component;
    assert edges[..|edges|] == edges;
    assert e in Elements(edges);
    assert RowOf(rows, r) == RowOf(used, r) + Holding(chosen, r);
    assert RowOf(rows, chosen[e]) == RowOf(used, chosen[e]) + Holding(chosen, chosen[e]);
    assert RowOk(RowOf(rows, r), chosen.Keys, places);
    assert AllPlaced(RowOf(rows, r), places);
  }

  /** The route runs through the gap right of this column. */
  predicate Passes(e: EdgeKey, places: Places, m: nat)
    requires Placed(e, places)
  {
    places[e.source].column <= m < places[e.target].column
  }

  /** Two routes in one row that pass a common boundary start or end together. */
  lemma SharedRowSharesEnd(edges: seq<EdgeKey>, places: Places, used: Rows, base: nat, rows: Rows,
                           chosen: map<EdgeKey, nat>, e: EdgeKey, f: EdgeKey)
    requires Allocated(edges, |edges|, places, used, base, rows, chosen)
    requires e in chosen && f in RowOf(rows, chosen[e])
    ensures Placed(e, places) && Placed(f, places)
    ensures (exists m :: Passes(e, places, m) && Passes(f, places, m)) ==> e.source == f.source || e.target == f.target
  {
    var row := RowOf(rows, chosen[e]);
    assert row == RowOf(used, chosen[e]) + Holding(chosen, chosen[e]);
    assert AllPlaced(row, places) && e in row && RowOk(row, chosen.Keys, places);
    if m :| Passes(e, places, m) && Passes(f, places, m) {
      ConnectedSelf(Beside(row, places), e);
      ConnectedStep(Beside(row, places), e, e, f);
      assert Joined(Component(e, row, places));
    }
  }
}
