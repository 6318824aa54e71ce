/** Column starts, track positions, dogleg rows, and the routes they guarantee. */
module RouteGeometry {
  import opened Collections
  import opened RoutePath
  import opened RouteShapes
  import opened RouteDrawing

  datatype Item =
    | EdgeItem(edge: EdgeKey)
    | BundleItem(sources: seq<Node>, targets: seq<Node>)
    | SeparatorItem(boundary: nat)
    | DoglegSource(edge: EdgeKey)
    | DoglegTarget(edge: EdgeKey)

  type Widths = map<nat, nat>

  type Boundaries = map<nat, seq<Item>>

  datatype Placement = Placement(column: nat, row: nat)

  function ItemsAt(items: Boundaries, column: nat): seq<Item> {
    if column in items then items[column] else []
  }

  function Gap(items: Boundaries, column: nat): nat {
    if |ItemsAt(items, column)| + 2 < 3 then 3 else |ItemsAt(items, column)| + 2
  }

  /** Start of the k-th column: widths and gaps of all earlier columns. */
  function StartAt(widths: Widths, items: Boundaries, ordered: seq<nat>, k: nat): nat
    requires k <= |ordered| && forall i :: 0 <= i < k ==> ordered[i] in widths
  {
    if k == 0 then 0 else
      StartAt(widths, items, ordered, k - 1) + widths[ordered[k - 1]] + Gap(items, ordered[k - 1])
  }

  ghost predicate DistinctItems(items: Boundaries) {
    forall c :: c in items ==> Distinct(items[c])
  }

  predicate Known(widths: Widths, ordered: seq<nat>) {
    forall i :: 0 <= i < |ordered| ==> ordered[i] in widths
  }

  function Starts(widths: Widths, items: Boundaries, ordered: seq<nat>, n: nat): map<nat, int>
    requires n <= |ordered| && Known(widths, ordered)
  {
    if n == 0 then map[] else
      Starts(widths, items, ordered, n - 1)[ordered[n - 1] := StartAt(widths, items, ordered, n - 1)]
  }

  /** One track per item, one cell apart, right of the column. */
  function Lay(items: seq<Item>, column: nat, gapStart: int, before: map<(nat, Item), int>, n: nat)
    : map<(nat, Item), int>
    requires n <= |items|
  {
    if n == 0 then before else
      Lay(items, column, gapStart, before, n - 1)[(column, items[n - 1]) := gapStart + 1 + (n - 1)]
  }

  function Tracks(widths: Widths, items: Boundaries, ordered: seq<nat>, n: nat): map<(nat, Item), int>
    requires n <= |ordered| && Known(widths, ordered)
  {
    if n == 0 then map[] else
      var column := ordered[n - 1];
      Lay(ItemsAt(items, column), column, StartAt(widths, items, ordered, n - 1) + widths[column],
          Tracks(widths, items, ordered, n - 1), |ItemsAt(items, column)|)
  }

  function Predecessor(n: nat): nat {
    if n == 0 then 0 else n - 1
  }

  lemma KnownColumns(widths: Widths)
    ensures Known(widths, Ascending(widths.Keys)) && Increasing(Ascending(widths.Keys))
    ensures Elements(Ascending(widths.Keys)) == widths.Keys
  {
    AscendingIsSorted(widths.Keys);
    forall i | 0 <= i < |Ascending(widths.Keys)| ensures Ascending(widths.Keys)[i] in widths {
      assert Ascending(widths.Keys)[i] in Elements(Ascending(widths.Keys));
    }
  }

  method LayTracks(items: seq<Item>, column: nat, gapStart: int, before: map<(nat, Item), int>)
    returns (tracks: map<(nat, Item), int>)
    ensures tracks == Lay(items, column, gapStart, before, |items|)
  {
    tracks := before;
    var i := 0;
    while i < |items|
      invariant 0 <= i <= |items| && tracks == Lay(items, column, gapStart, before, i)
    {
      tracks := tracks[(column, items[i]) := gapStart + 1 + i];
      i := i + 1;
    }
  }

  /** Columns from left to right behind a moving cursor; the last has no gap. */
  method ColumnGeometry(widths: Widths, items: Boundaries)
    returns (starts: map<nat, int>, tracks: map<(nat, Item), int>)
    ensures Known(widths, Ascending(widths.Keys))
    ensures starts == Starts(widths, items, Ascending(widths.Keys), |Ascending(widths.Keys)|)
    ensures tracks == Tracks(widths, items, Ascending(widths.Keys), Predecessor(|Ascending(widths.Keys)|))
  {
    hide Increasing, Elements, Ascending, ItemsAt;
    starts, tracks := map[], map[];
    var cursor := 0;
    var ordered := Ascending(widths.Keys);
    KnownColumns(widths);
    var n := 0;
    while n < |ordered|
      invariant 0 <= n <= |ordered|
      invariant n < |ordered| ==> cursor == StartAt(widths, items, ordered, n)
      invariant starts == Starts(widths, items, ordered, n)
      invariant tracks == Tracks(widths, items, ordered, if n == |ordered| then Predecessor(n) else n)
    {
      var column := ordered[n];
      starts := starts[column := cursor];
      if n < |ordered| - 1 {
        var gapStart := cursor + widths[column];
        tracks := LayTracks(ItemsAt(items, column), column, gapStart, tracks);
        cursor := gapStart + Gap(items, column);
      }
      n := n + 1;
    }
  }

  // ------------------------------------------------------ what the numbers mean

  lemma {:induction false} StartsValue(widths: Widths, items: Boundaries, ordered: seq<nat>, n: nat, k: nat)
    requires k < n <= |ordered| && Known(widths, ordered) && Increasing(ordered)
    ensures ordered[k] in Starts(widths, items, ordered, n)
    ensures Starts(widths, items, ordered, n)[ordered[k]] == StartAt(widths, items, ordered, k)
  {
    if k < n - 1 {
      StartsValue(widths, items, ordered, n - 1, k);
      assert ordered[k] < ordered[n - 1];
    }
  }

  lemma {:induction false} LayValue(items: seq<Item>, column: nat, gapStart: int, before: map<(nat, Item), int>,
                                    n: nat, i: nat)
    requires i < n <= |items| && Distinct(items)
    ensures (column, items[i]) in Lay(items, column, gapStart, before, n)
    ensures Lay(items, column, gapStart, before, n)[(column, items[i])] == gapStart + 1 + i
  {
    if i < n - 1 {
      LayValue(items, column, gapStart, before, n - 1, i);
      assert items[i] != items[n - 1];
    }
  }

  lemma {:induction false} LayKeeps(items: seq<Item>, column: nat, gapStart: int, before: map<(nat, Item), int>,
                                    n: nat, key: (nat, Item))
    requires n <= |items| && key in before && key.0 != column
    ensures key in Lay(items, column, gapStart, before, n)
    ensures Lay(items, column, gapStart, before, n)[key] == before[key]
  {
    if n > 0 {
      LayKeeps(items, column, gapStart, before, n - 1, key);
    }
  }

  lemma {:induction false} TracksValue(widths: Widths, items: Boundaries, ordered: seq<nat>, n: nat, k: nat, i: nat)
    requires k < n <= |ordered| && Known(widths, ordered) && Increasing(ordered) && DistinctItems(items)
    requires i < |ItemsAt(items, ordered[k])|
    ensures (ordered[k], ItemsAt(items, ordered[k])[i]) in Tracks(widths, items, ordered, n)
    ensures Tracks(widths, items, ordered, n)[(ordered[k], ItemsAt(items, ordered[k])[i])] ==
      StartAt(widths, items, ordered, k) + widths[ordered[k]] + 1 + i
  {
    var column := ordered[n - 1];
    var gapStart := StartAt(widths, items, ordered, n - 1) + widths[column];
    var before := Tracks(widths, items, ordered, n - 1);
    if k < n - 1 {
      TracksValue(widths, items, ordered, n - 1, k, i);
      assert ordered[k] < ordered[n - 1];
      LayKeeps(ItemsAt(items, column), column, gapStart, before, |ItemsAt(items, column)|,
               (ordered[k], ItemsAt(items, ordered[k])[i]));
    } else {
      LayValue(ItemsAt(items, column), column, gapStart, before, |ItemsAt(items, column)|, i);
    }
  }

  lemma {:induction false} StartsGrow(widths: Widths, items: Boundaries, ordered: seq<nat>, k: nat, l: nat)
    requires k < l <= |ordered| && Known(widths, ordered)
    ensures StartAt(widths, items, ordered, k) + widths[ordered[k]] + Gap(items, ordered[k])
      <= StartAt(widths, items, ordered, l)
    decreases l
  {
    if k < l - 1 {
      StartsGrow(widths, items, ordered, k, l - 1);
    }
  }

  ghost predicate ColumnsApart(widths: Widths, starts: map<nat, int>)
    requires starts.Keys == widths.Keys
  {
    forall c, d :: c in widths && d in widths && c < d ==> starts[c] + widths[c] + 3 <= starts[d]
  }

  ghost predicate TracksInGaps(widths: Widths, items: Boundaries, starts: map<nat, int>, tracks: map<(nat, Item), int>)
    requires starts.Keys == widths.Keys
  {
    forall c, d, i :: c in widths && d in widths && c < d && 0 <= i < |ItemsAt(items, c)| ==>
      (c, ItemsAt(items, c)[i]) in tracks
      && tracks[(c, ItemsAt(items, c)[i])] == starts[c] + widths[c] + 1 + i
      && tracks[(c, ItemsAt(items, c)[i])] < starts[d] - 1
  }

  /** The finished column table: what every caller of the geometry relies on. */
  ghost predicate Geometry(widths: Widths, items: Boundaries, starts: map<nat, int>, tracks: map<(nat, Item), int>) {
    && starts.Keys == widths.Keys
    && (forall c :: c in starts ==> starts[c] >= 0)
    && ColumnsApart(widths, starts)
    && TracksInGaps(widths, items, starts, tracks)
  }

  lemma GeometryHolds(widths: Widths, items: Boundaries, starts: map<nat, int>, tracks: map<(nat, Item), int>)
    requires DistinctItems(items) && Known(widths, Ascending(widths.Keys))
    requires starts == Starts(widths, items, Ascending(widths.Keys), |Ascending(widths.Keys)|)
    requires tracks == Tracks(widths, items, Ascending(widths.Keys), Predecessor(|Ascending(widths.Keys)|))
    ensures Geometry(widths, items, starts, tracks)
  {
    hide DistinctItems, Known, Starts, Tracks, Ascending, ItemsAt, Gap;
    StartsExist(widths, items, starts);
    forall c, d | c in widths && d in widths && c < d ensures starts[c] + widths[c] + 3 <= starts[d] {
      ColumnsInOrder(widths, items, starts, c, d);
    }
    forall c, d, i | c in widths && d in widths && c < d && 0 <= i < |ItemsAt(items, c)|
      ensures (c, ItemsAt(items, c)[i]) in tracks
        && tracks[(c, ItemsAt(items, c)[i])] == starts[c] + widths[c] + 1 + i
        && tracks[(c, ItemsAt(items, c)[i])] < starts[d] - 1
    {
      TrackValue(widths, items, starts, tracks, c, d, i);
    }
  }

  /** Neighbouring columns are as far apart as their tracks need, and never closer than 3. */
  lemma GapIsExact(widths: Widths, items: Boundaries, starts: map<nat, int>, c: nat, d: nat)
    requires Known(widths, Ascending(widths.Keys)) && c in widths && d in widths && c < d
    requires starts == Starts(widths, items, Ascending(widths.Keys), |Ascending(widths.Keys)|)
    requires forall m :: m in widths ==> m <= c || d <= m
    ensures c in starts && d in starts
    ensures var tracks := if c in items then |items[c]| else 0;
      starts[d] == starts[c] + widths[c] + (if tracks > 1 then tracks + 2 else 3)
    ensures (forall m :: m in widths ==> c <= m) ==> starts[c] == 0
  {
    hide Increasing, Elements, Known, Starts;
    var ordered := Ascending(widths.Keys);
    KnownColumns(widths);
    var k := Index(widths, c);
    var l := Index(widths, d);
    StartsValue(widths, items, ordered, |ordered|, k);
    StartsValue(widths, items, ordered, |ordered|, l);
    Between(widths, k, l);
    if k > 0 {
      Between(widths, 0, k);
    }
  }

  lemma Between(widths: Widths, k: nat, l: nat)
    requires k < |Ascending(widths.Keys)| && l < |Ascending(widths.Keys)|
    ensures var ordered := Ascending(widths.Keys);
      && ordered[k] in widths && ordered[l] in widths && (ordered[k] < ordered[l] <==> k < l)
      && (k + 1 < l ==> ordered[k + 1] in widths && ordered[k] < ordered[k + 1] < ordered[l])
  {
    KnownColumns(widths);
    var ordered := Ascending(widths.Keys);
    forall i | 0 <= i < |ordered| ensures ordered[i] in widths {
      assert ordered[i] in Elements(ordered);
    }
  }

  lemma StartsExist(widths: Widths, items: Boundaries, starts: map<nat, int>)
    requires Known(widths, Ascending(widths.Keys))
    requires starts == Starts(widths, items, Ascending(widths.Keys), |Ascending(widths.Keys)|)
    ensures starts.Keys == widths.Keys && forall c :: c in starts ==> starts[c] >= 0
  {
    hide Known, Starts, Increasing, Elements;
    var ordered := Ascending(widths.Keys);
    KnownColumns(widths);
    StartsKeys(widths, items, ordered, |ordered|);
    assert ordered[..|ordered|] == ordered;
    forall c | c in widths ensures starts[c] >= 0 {
      var k := Index(widths, c);
      StartsValue(widths, items, ordered, |ordered|, k);
    }
  }

  lemma TrackValue(widths: Widths, items: Boundaries, starts: map<nat, int>, tracks: map<(nat, Item), int>,
                   c: nat, d: nat, i: nat)
    requires DistinctItems(items) && Known(widths, Ascending(widths.Keys))
    requires starts == Starts(widths, items, Ascending(widths.Keys), |Ascending(widths.Keys)|)
    requires tracks == Tracks(widths, items, Ascending(widths.Keys), Predecessor(|Ascending(widths.Keys)|))
    requires c in widths && d in widths && c < d && i < |ItemsAt(items, c)|
    ensures c in starts && d in starts && (c, ItemsAt(items, c)[i]) in tracks
    ensures tracks[(c, ItemsAt(items, c)[i])] == starts[c] + widths[c] + 1 + i
    ensures tracks[(c, ItemsAt(items, c)[i])] < starts[d] - 1
  {
    hide DistinctItems, Increasing, Elements, Known, Starts, Tracks;
    var ordered := Ascending(widths.Keys);
    KnownColumns(widths);
    ColumnsInOrder(widths, items, starts, c, d);
    var k := Index(widths, c);
    StartsValue(widths, items, ordered, |ordered|, k);
    TracksValue(widths, items, ordered, |ordered| - 1, k, i);
  }

  lemma Index(widths: Widths, c: nat) returns (k: nat)
    requires c in widths
    ensures k < |Ascending(widths.Keys)| && Ascending(widths.Keys)[k] == c
    ensures forall d :: d in widths && c < d ==> k + 1 < |Ascending(widths.Keys)|
  {
    KnownColumns(widths);
    var ordered := Ascending(widths.Keys);
    assert c in Elements(ordered);
    k :| 0 <= k < |ordered| && ordered[k] == c;
    forall d | d in widths && c < d ensures k + 1 < |ordered| {
      assert d in Elements(ordered);
      var l :| 0 <= l < |ordered| && ordered[l] == d;
    }
  }

  lemma ColumnsInOrder(widths: Widths, items: Boundaries, starts: map<nat, int>, c: nat, d: nat)
    requires Known(widths, Ascending(widths.Keys)) && c in widths && d in widths && c < d
    requires starts == Starts(widths, items, Ascending(widths.Keys), |Ascending(widths.Keys)|)
    ensures c in starts && d in starts && starts[c] + widths[c] + Gap(items, c) <= starts[d]
    ensures Gap(items, c) >= 3
  {
    var ordered := Ascending(widths.Keys);
    KnownColumns(widths);
    var k := Index(widths, c);
    var l := Index(widths, d);
    StartsValue(widths, items, ordered, |ordered|, k);
    StartsValue(widths, items, ordered, |ordered|, l);
    StartsGrow(widths, items, ordered, k, l);
  }

  lemma {:induction false} StartsKeys(widths: Widths, items: Boundaries, ordered: seq<nat>, n: nat)
    requires n <= |ordered| && Known(widths, ordered)
    ensures Starts(widths, items, ordered, n).Keys == Elements(ordered[..n])
  {
    if n == 0 {
      assert ordered[..0] == [];
    } else {
      StartsKeys(widths, items, ordered, n - 1);
      PrefixStep(ordered, n - 1);
    }
  }

  // ------------------------------------------------------------- dogleg rows

  predicate AtLeastAsNear(row: nat, best: nat, r: nat) {
    Distance(best, row) < Distance(r, row) || (Distance(best, row) == Distance(r, row) && best <= r)
  }

  /** The nearest other row that carries nodes; the upper one wins a tie. */
  predicate NearestOther(row: nat, maxRow: nat, best: nat) {
    && best <= maxRow && best != row
    && forall r: nat :: r <= maxRow && r != row ==> AtLeastAsNear(row, best, r)
  }

  method NearestRow(row: nat, maxRow: nat) returns (best: Option<nat>)
    requires row <= maxRow
    ensures best == None <==> maxRow == 0
    ensures best.Some? ==> NearestOther(row, maxRow, best.value)
  {
    best := None;
    var r: nat := 0;
    while r <= maxRow
      invariant r <= maxRow + 1
      invariant best == None <==> r == 0 || (r == 1 && row == 0)
      invariant best.Some? ==> best.value < r && best.value != row
      invariant best.Some? ==> forall q: nat :: q < r && q != row ==> AtLeastAsNear(row, best.value, q)
    {
      if r != row && (best.None? || Distance(r, row) < Distance(best.value, row)) {
        if best.Some? {
          forall q: nat | q < r && q != row ensures AtLeastAsNear(row, r, q) {
            assert AtLeastAsNear(row, best.value, q);
          }
        }
        best := Some(r);
      }
      r := r + 1;
    }
  }

  /** Edges between different rows cross on the source row; edges along one row
      leave it for the nearest row with nodes, or for a private row below all nodes. */
  ghost predicate DoglegRow(source: Placement, target: Placement, maxRow: nat, row: nat) {
    if source.row != target.row then row == source.row
    else if maxRow > 0 then NearestOther(source.row, maxRow, row)
    else row > maxRow
  }

  ghost predicate DoglegRows(placements: map<Node, Placement>, maxRow: nat, rows: map<EdgeKey, nat>)
    requires forall e :: e in rows ==> e.source in placements && e.target in placements
  {
    forall e :: e in rows ==> DoglegRow(placements[e.source], placements[e.target], maxRow, rows[e])
  }

  ghost predicate PrivateRowsDiffer(maxRow: nat, rows: map<EdgeKey, nat>) {
    forall e, f :: e in rows && f in rows && e != f && rows[e] > maxRow ==> rows[e] != rows[f]
  }

  /** The edges are visited in some order; the program sorts them. */
  method DoglegRouteRows(doglegs: set<EdgeKey>, placements: map<Node, Placement>, maxRow: nat)
    returns (rows: map<EdgeKey, nat>)
    requires forall e :: e in doglegs ==> e.source in placements && e.target in placements
    requires forall n :: n in placements ==> placements[n].row <= maxRow
    ensures rows.Keys == doglegs && DoglegRows(placements, maxRow, rows) && PrivateRowsDiffer(maxRow, rows)
  {
    rows := map[];
    var privateRow := maxRow + 1;
    var todo := doglegs;
    while todo != {}
      invariant todo <= doglegs && rows.Keys == doglegs - todo && privateRow > maxRow
      invariant DoglegRows(placements, maxRow, rows) && PrivateRowsDiffer(maxRow, rows)
      invariant forall e :: e in rows ==> rows[e] < privateRow
    {
      var key :| key in todo;
      todo := todo - {key};
      var source, target := placements[key.source], placements[key.target];
      if source.row != target.row {
        rows := rows[key := source.row];
      } else {
        var visible := NearestRow(source.row, maxRow);
        if visible.Some? {
          rows := rows[key := visible.value];
        } else {
          rows := rows[key := privateRow];
          privateRow := privateRow + 1;
        }
      }
    }
  }

  // ------------------------------------------------- routes over this geometry

  function RouteBridge(source: Placement, target: Placement, widths: Widths, starts: map<nat, int>,
                       sourceTrack: int, row: int, targetTrack: int): Bridge
    requires source.column in widths && source.column in starts && target.column in starts
  {
    Bridge(starts[source.column] + widths[source.column], sourceTrack, targetTrack,
           starts[target.column] - 1, source.row, row, target.row)
  }

  /** Nothing of this edge has been drawn yet. */
  ghost predicate Undrawn(cells: Cells, edge: EdgeKey) {
    WellDrawn(cells) && forall p :: BitsAt(cells, edge, p) == {}
  }

  lemma BridgeDrawnDraws(cells: Cells, edge: EdgeKey, b: Bridge)
    requires Undrawn(cells, edge)
    ensures Draws(EdgeRoute(BridgeDrawn(cells, edge, b), edge), b)
  {
    hide BitsAt, WellDrawn, EdgeRoute, BridgeDrawn, Draws;
    forall p ensures BitsAt(BridgeDrawn(cells, edge, b), edge, p) == BitsAt(cells, edge, p) + b.Bits(p) {
      BridgeDrawnBits(cells, edge, b, edge, p);
    }
    BridgeDrawnBits(cells, edge, b, edge, Point(0, 0));
    FreshEdgeDraws(cells, BridgeDrawn(cells, edge, b), edge, b);
  }

  lemma AdjacentDrawnDraws(cells: Cells, edge: EdgeKey, bundle: Option<(nat, nat)>, b: Bridge)
    requires Undrawn(cells, edge)
    requires b == AdjacentBridge(b.sourceX, b.sourceTrack, b.targetX, b.sourceRow, b.targetRow)
    ensures Draws(EdgeRoute(AdjacentDrawn(cells, edge, bundle, b), edge), b)
  {
    hide BitsAt, WellDrawn, EdgeRoute, AdjacentDrawn, Draws;
    forall p ensures BitsAt(AdjacentDrawn(cells, edge, bundle, b), edge, p) == BitsAt(cells, edge, p) + b.Bits(p) {
      AdjacentDrawnBits(cells, edge, bundle, b, edge, p);
    }
    AdjacentDrawnBits(cells, edge, bundle, b, edge, Point(0, 0));
    FreshEdgeDraws(cells, AdjacentDrawn(cells, edge, bundle, b), edge, b);
  }

  /** An item of the boundary right of a column. */
  predicate Tracked(items: Boundaries, column: nat, item: Item) {
    item in ItemsAt(items, column)
  }

  lemma TrackInGap(widths: Widths, items: Boundaries, starts: map<nat, int>, tracks: map<(nat, Item), int>,
                   column: nat, item: Item, later: nat)
    requires Geometry(widths, items, starts, tracks) && Tracked(items, column, item)
    requires column in widths && later in widths && column < later
    ensures (column, item) in tracks
    ensures starts[column] + widths[column] < tracks[(column, item)] < starts[later] - 1
  {
    var i :| 0 <= i < |ItemsAt(items, column)| && ItemsAt(items, column)[i] == item;
  }

  /** Every adjacent route, bundled or not, is one simple path between its anchors. */
  lemma AdjacentRouteIsAccepted(widths: Widths, items: Boundaries, starts: map<nat, int>, tracks: map<(nat, Item), int>,
                                source: Placement, target: Placement, item: Item,
                                cells: Cells, edge: EdgeKey, bundle: Option<(nat, nat)>) returns (path: seq<Point>)
    requires Geometry(widths, items, starts, tracks) && Tracked(items, source.column, item)
    requires source.column in widths && target.column in widths && source.column < target.column
    requires Undrawn(cells, edge)
    ensures (source.column, item) in tracks
    ensures var t := tracks[(source.column, item)];
      var b := RouteBridge(source, target, widths, starts, t, target.row, t);
      SimplePath(EdgeRoute(AdjacentDrawn(cells, edge, bundle, b), edge), b.Source(), b.Target(), path)
  {
    hide Undrawn, SimplePath, Draws, AdjacentDrawn, Tracked;
    TrackInGap(widths, items, starts, tracks, source.column, item, target.column);
    var t := tracks[(source.column, item)];
    var b := RouteBridge(source, target, widths, starts, t, target.row, t);
    AdjacentDrawnDraws(cells, edge, bundle, b);
    path := OrderedBridgeIsSimple(EdgeRoute(AdjacentDrawn(cells, edge, bundle, b), edge), b);
  }

  /** Every long route is one simple path, whatever row it was given. */
  lemma LongRouteIsAccepted(widths: Widths, items: Boundaries, starts: map<nat, int>, tracks: map<(nat, Item), int>,
                            source: Placement, target: Placement, sourceItem: Item, targetItem: Item, row: int,
                            cells: Cells, edge: EdgeKey) returns (path: seq<Point>)
    requires Geometry(widths, items, starts, tracks) && Undrawn(cells, edge)
    requires source.column + 1 < target.column
    requires source.column in widths && target.column - 1 in widths && target.column in widths
    requires Tracked(items, source.column, sourceItem) && Tracked(items, target.column - 1, targetItem)
    ensures (source.column, sourceItem) in tracks && (target.column - 1 as nat, targetItem) in tracks
    ensures var b := RouteBridge(source, target, widths, starts, tracks[(source.column, sourceItem)], row,
                                 tracks[(target.column - 1 as nat, targetItem)]);
      SimplePath(EdgeRoute(BridgeDrawn(cells, edge, b), edge), b.Source(), b.Target(), path)
  {
    hide Undrawn, SimplePath, Draws, BridgeDrawn, Tracked;
    var last: nat := target.column - 1;
    TrackInGap(widths, items, starts, tracks, source.column, sourceItem, last);
    TrackInGap(widths, items, starts, tracks, last, targetItem, target.column);
    var b := RouteBridge(source, target, widths, starts, tracks[(source.column, sourceItem)], row,
                         tracks[(last, targetItem)]);
    BridgeDrawnDraws(cells, edge, b);
    path := OrderedBridgeIsSimple(EdgeRoute(BridgeDrawn(cells, edge, b), edge), b);
  }

  /** A dogleg is a simple path exactly when its source track is left of its target track. */
  lemma DoglegIsAcceptedIff(widths: Widths, items: Boundaries, starts: map<nat, int>, tracks: map<(nat, Item), int>,
                            source: Placement, target: Placement, sourceItem: Item, targetItem: Item,
                            maxRow: nat, row: nat, cells: Cells, edge: EdgeKey)
    requires Geometry(widths, items, starts, tracks) && Undrawn(cells, edge)
    requires source.column in widths && target.column in widths && source.column < target.column
    requires Tracked(items, source.column, sourceItem) && Tracked(items, source.column, targetItem)
    requires sourceItem != targetItem
    requires source.row <= maxRow && DoglegRow(source, target, maxRow, row)
    ensures (source.column, sourceItem) in tracks && (source.column, targetItem) in tracks
    ensures var b := RouteBridge(source, target, widths, starts, tracks[(source.column, sourceItem)], row,
                                 tracks[(source.column, targetItem)]);
      (exists path :: SimplePath(EdgeRoute(BridgeDrawn(cells, edge, b), edge), b.Source(), b.Target(), path))
      <==> tracks[(source.column, sourceItem)] < tracks[(source.column, targetItem)]
  {
    hide Undrawn, SimplePath, Draws, BridgeDrawn, Tracked, NearestOther;
    TrackInGap(widths, items, starts, tracks, source.column, sourceItem, target.column);
    TrackInGap(widths, items, starts, tracks, source.column, targetItem, target.column);
    TracksDiffer(widths, items, starts, tracks, source.column, target.column, sourceItem, targetItem);
    LeavesTheRow(source, target, maxRow, row);
    var b := RouteBridge(source, target, widths, starts, tracks[(source.column, sourceItem)], row,
                         tracks[(source.column, targetItem)]);
    var route := EdgeRoute(BridgeDrawn(cells, edge, b), edge);
    BridgeDrawnDraws(cells, edge, b);
    if b.sourceTrack < b.targetTrack {
      var path := OrderedBridgeIsSimple(route, b);
    } else {
      CrossedBridgeBranches(route, b);
    }
  }

  lemma LeavesTheRow(source: Placement, target: Placement, maxRow: nat, row: nat)
    requires source.row <= maxRow && DoglegRow(source, target, maxRow, row)
    ensures if source.row == target.row then row != source.row else row == source.row
  {
  }

  lemma TracksDiffer(widths: Widths, items: Boundaries, starts: map<nat, int>, tracks: map<(nat, Item), int>,
                     column: nat, later: nat, one: Item, other: Item)
    requires Geometry(widths, items, starts, tracks) && column in widths && later in widths && column < later
    requires Tracked(items, column, one) && Tracked(items, column, other) && one != other
    ensures (column, one) in tracks && (column, other) in tracks
    ensures tracks[(column, one)] != tracks[(column, other)]
  {
    var i :| 0 <= i < |ItemsAt(items, column)| && ItemsAt(items, column)[i] == one;
    var j :| 0 <= j < |ItemsAt(items, column)| && ItemsAt(items, column)[j] == other;
  }

  // ---------------------------------------------------- routes and node labels

  /** The cell lies on the label of a node placed there. */
  predicate OnLabel(widths: Widths, starts: map<nat, int>, node: Placement, p: Point)
    requires node.column in widths && node.column in starts
  {
    p.y == node.row && starts[node.column] <= p.x < starts[node.column] + widths[node.column]
  }

  lemma BridgeCell(b: Bridge, p: Point)
    requires Ordered(b) && b.Bits(p) != {}
    ensures b.sourceX <= p.x <= b.targetX
    ensures p.x <= b.sourceTrack || b.targetTrack <= p.x || p.y == b.row
    ensures Min(b.sourceRow, Min(b.row, b.targetRow)) <= p.y <= Max(b.sourceRow, Max(b.row, b.targetRow))
  {
  }

  /** Routes avoid every label: outside the gaps they run on a row that the
      columns in between leave free. */
  lemma RoutesAvoidLabels(widths: Widths, items: Boundaries, starts: map<nat, int>, tracks: map<(nat, Item), int>,
                          source: Placement, target: Placement, b: Bridge, node: Placement, p: Point)
    requires Geometry(widths, items, starts, tracks) && Ordered(b)
    requires source.column in widths && target.column in widths && node.column in widths
      && source.column < target.column
    requires b == RouteBridge(source, target, widths, starts, b.sourceTrack, b.row, b.targetTrack)
    requires source.column < node.column < target.column ==>
      b.sourceTrack < starts[node.column] && starts[node.column] + widths[node.column] <= b.targetTrack
      && node.row != b.row
    requires b.Bits(p) != {}
    ensures !OnLabel(widths, starts, node, p)
  {
    hide HorizontalBits, VerticalBits;
    BridgeCell(b, p);
  }

  /** A long route on a row that the columns in between leave free crosses no label. */
  lemma LongRouteAvoidsLabels(widths: Widths, items: Boundaries, starts: map<nat, int>, tracks: map<(nat, Item), int>,
                              source: Placement, target: Placement, sourceItem: Item, targetItem: Item, row: int,
                              node: Placement, p: Point)
    requires Geometry(widths, items, starts, tracks) && source.column + 1 < target.column
    requires source.column in widths && target.column - 1 in widths && target.column in widths && node.column in widths
    requires Tracked(items, source.column, sourceItem) && Tracked(items, target.column - 1, targetItem)
    requires source.column < node.column < target.column ==> node.row != row
    ensures (source.column, sourceItem) in tracks && (target.column - 1 as nat, targetItem) in tracks
    ensures var b := RouteBridge(source, target, widths, starts, tracks[(source.column, sourceItem)], row,
                                 tracks[(target.column - 1 as nat, targetItem)]);
      b.Bits(p) != {} ==> !OnLabel(widths, starts, node, p)
  {
    hide HorizontalBits, VerticalBits, Tracked, TracksInGaps;
    var last: nat := target.column - 1;
    TrackInGap(widths, items, starts, tracks, source.column, sourceItem, last);
    TrackInGap(widths, items, starts, tracks, last, targetItem, target.column);
    var b := RouteBridge(source, target, widths, starts, tracks[(source.column, sourceItem)], row,
                         tracks[(last, targetItem)]);
    if source.column < node.column < target.column {
      TrackInGap(widths, items, starts, tracks, source.column, sourceItem, node.column);
    }
    if b.Bits(p) != {} {
      RoutesAvoidLabels(widths, items, starts, tracks, source, target, b, node, p);
    }
  }

  /** Cells never leave the space between the first and the last column. */
  lemma RoutesStayInside(widths: Widths, items: Boundaries, starts: map<nat, int>, tracks: map<(nat, Item), int>,
                         source: Placement, target: Placement, b: Bridge, p: Point)
    requires Geometry(widths, items, starts, tracks) && Ordered(b)
    requires source.column in widths && target.column in widths && source.column < target.column
    requires b == RouteBridge(source, target, widths, starts, b.sourceTrack, b.row, b.targetTrack)
    requires b.row >= 0 && b.Bits(p) != {}
    ensures 0 <= p.x < starts[target.column] + widths[target.column]
    ensures 0 <= p.y <= Max(source.row, Max(b.row, target.row))
  {
    hide HorizontalBits, VerticalBits;
    BridgeCell(b, p);
  }
}
