/** The order of the groups of a column: near their predecessors, then improved by exchanges. */
module GroupOrder {
  import opened Collections
  import opened RouteGeometry
  import opened GroupGraph
  import opened Digraph

  type Places = map<Label, Placement>

  /** What the order depends on. `previous` is the node before a node on its lane;
      `position` is the place of a group in the order of the label texts. */
  datatype View = View(groups: seq<Siblings>, incoming: Adjacency, previous: map<Label, Label>, position: nat -> nat)

  predicate Within(v: View, order: seq<nat>) {
    forall k :: 0 <= k < |order| ==> order[k] < |v.groups|
  }

  // --------------------------------------------------------------------- lanes

  predicate FollowsAt(lanes: Family, l: nat, k: nat, u: Label, v: Label) {
    l < |lanes| && 0 < k < |lanes[l]| && lanes[l][k - 1] == u && lanes[l][k] == v
  }

  /** The next node on some lane. */
  ghost predicate Follows(lanes: Family, u: Label, v: Label) {
    exists l: nat, k: nat :: FollowsAt(lanes, l, k, u, v)
  }

  ghost predicate FollowsBefore(lanes: Family, l: nat, k: nat, u: Label, v: Label) {
    exists a: nat, b: nat :: FollowsAt(lanes, a, b, u, v) && (a < l || (a == l && b < k))
  }

  ghost predicate Listed(previous: map<Label, Label>, lanes: Family, l: nat, k: nat) {
    && (forall v :: v in previous ==> FollowsBefore(lanes, l, k, previous[v], v))
    && (forall a: nat, b: nat, u, v :: FollowsAt(lanes, a, b, u, v) && (a < l || (a == l && b < k)) ==> v in previous)
  }

  method LanePredecessors(lanes: Family) returns (previous: map<Label, Label>)
    requires Disjoint(lanes)
    ensures forall u, v :: v in previous && previous[v] == u <==> Follows(lanes, u, v)
  {
    hide Disjoint, FollowsBefore, Listed;
    previous := map[];
    NothingListed(lanes);
    var l: nat := 0;
    while l < |lanes|
      invariant l <= |lanes| && Listed(previous, lanes, l, 1)
    {
      var k: nat := 1;
      while k < |lanes[l]|
        invariant k >= 1 && Listed(previous, lanes, l, k)
      {
        OneMoreListed(previous, lanes, l, k);
        previous := previous[lanes[l][k] := lanes[l][k - 1]];
        k := k + 1;
      }
      LaneListed(previous, lanes, l, k);
      l := l + 1;
    }
    AllListed(previous, lanes);
  }

  lemma NothingListed(lanes: Family)
    ensures Listed(map[], lanes, 0, 1)
  {
  }

  lemma OneMoreListed(previous: map<Label, Label>, lanes: Family, l: nat, k: nat)
    requires Disjoint(lanes) && l < |lanes| && 0 < k < |lanes[l]| && Listed(previous, lanes, l, k)
    ensures Listed(previous[lanes[l][k] := lanes[l][k - 1]], lanes, l, k + 1)
  {
    assert FollowsAt(lanes, l, k, lanes[l][k - 1], lanes[l][k]);
  }

  lemma LaneListed(previous: map<Label, Label>, lanes: Family, l: nat, k: nat)
    requires l < |lanes| && k >= |lanes[l]| && Listed(previous, lanes, l, k)
    ensures Listed(previous, lanes, l + 1, 1)
  {
  }

  /** Lanes are disjoint, so a node follows at most one node. */
  lemma FollowsOnce(lanes: Family, u: Label, u': Label, v: Label)
    requires Disjoint(lanes) && Follows(lanes, u, v) && Follows(lanes, u', v)
    ensures u == u'
  {
    var a: nat, b: nat :| FollowsAt(lanes, a, b, u, v);
    var a': nat, b': nat :| FollowsAt(lanes, a', b', u', v);
    assert v in lanes[a] && v in lanes[a'];
    assert b == b';
  }

  lemma AllListed(previous: map<Label, Label>, lanes: Family)
    requires Disjoint(lanes) && Listed(previous, lanes, |lanes|, 1)
    ensures forall u, v :: v in previous && previous[v] == u <==> Follows(lanes, u, v)
  {
    hide Disjoint;
    forall u, v | Follows(lanes, u, v) ensures v in previous && previous[v] == u {
      FollowsOnce(lanes, previous[v], u, v);
    }
  }

  // ---------------------------------------------------------------------- rows

  /** The group points to some group or is pointed to. */
  predicate Linked(groups: seq<Siblings>, a: nat)
    requires a < |groups|
  {
    groups[a].targets != [] || exists b :: 0 <= b < |groups| && a in groups[b].targets
  }

  /** Rows between two groups: one is left free around linked groups. */
  function Spacing(v: View, a: nat, b: nat): nat
    requires a < |v.groups| && b < |v.groups|
  {
    if Linked(v.groups, a) || Linked(v.groups, b) then 1 else 0
  }

  /** The first row of the group at this point of the order. */
  function Start(v: View, order: seq<nat>, i: nat): nat
    requires Within(v, order) && i < |order|
  {
    if i == 0 then 0
    else Start(v, order, i - 1) + |v.groups[order[i - 1]].nodes| + Spacing(v, order[i - 1], order[i])
  }

  function NodeRows(nodes: seq<Label>, row: nat, m: nat): map<Label, nat>
    requires m <= |nodes|
  {
    if m == 0 then map[] else NodeRows(nodes, row, m - 1)[nodes[m - 1] := row + m - 1]
  }

  /** The rows of the first `n` groups of an order. */
  function Rows(v: View, order: seq<nat>, n: nat): map<Label, nat>
    requires Within(v, order) && n <= |order|
  {
    if n == 0 then map[] else
      var nodes := v.groups[order[n - 1]].nodes;
      Rows(v, order, n - 1) + NodeRows(nodes, Start(v, order, n - 1), |nodes|)
  }

  method AddRows(rows: map<Label, nat>, nodes: seq<Label>, row: nat) returns (rows': map<Label, nat>)
    ensures rows' == rows + NodeRows(nodes, row, |nodes|)
  {
    rows' := rows;
    var k := 0;
    while k < |nodes|
      invariant 0 <= k <= |nodes| && rows' == rows + NodeRows(nodes, row, k)
    {
      rows' := rows'[nodes[k] := row + k];
      k := k + 1;
    }
  }

  method OrderRows(v: View, order: seq<nat>) returns (rows: map<Label, nat>)
    requires Within(v, order)
    ensures rows == Rows(v, order, |order|)
  {
    hide Spacing, NodeRows;
    rows := map[];
    var row := 0;
    var i := 0;
    while i < |order|
      invariant 0 <= i <= |order| && rows == Rows(v, order, i)
      invariant i > 0 ==> row == Start(v, order, i - 1) + |v.groups[order[i - 1]].nodes|
      invariant i == 0 ==> row == 0
    {
      if i > 0 {
        row := row + Spacing(v, order[i - 1], order[i]);
      }
      rows := AddRows(rows, v.groups[order[i]].nodes, row);
      row := row + |v.groups[order[i]].nodes|;
      i := i + 1;
    }
  }

  lemma {:induction false} NodeRowsValue(nodes: seq<Label>, row: nat, m: nat, j: nat)
    requires j < m <= |nodes| && Distinct(nodes)
    ensures nodes[j] in NodeRows(nodes, row, m) && NodeRows(nodes, row, m)[nodes[j]] == row + j
  {
    if j < m - 1 {
      NodeRowsValue(nodes, row, m - 1, j);
      assert nodes[j] != nodes[m - 1];
    }
  }

  lemma {:induction false} NodeRowsOnly(nodes: seq<Label>, row: nat, m: nat)
    requires m <= |nodes|
    ensures forall u :: u in NodeRows(nodes, row, m) ==> u in nodes
  {
    if m > 0 {
      NodeRowsOnly(nodes, row, m - 1);
    }
  }

  lemma {:induction false} RowsValue(v: View, order: seq<nat>, n: nat, k: nat, j: nat)
    requires Within(v, order) && Distinct(order) && Disjoint(Nodes(v.groups)) && k < n <= |order|
    requires j < |v.groups[order[k]].nodes|
    ensures var u, rows := v.groups[order[k]].nodes[j], Rows(v, order, n);
      u in rows && rows[u] == Start(v, order, k) + j
  {
    hide NodeRows, Start;
    var nodes := v.groups[order[n - 1]].nodes;
    assert Nodes(v.groups)[order[n - 1]] == nodes && Nodes(v.groups)[order[k]] == v.groups[order[k]].nodes;
    if k == n - 1 {
      NodeRowsValue(nodes, Start(v, order, k), |nodes|, j);
    } else {
      RowsValue(v, order, n - 1, k, j);
      NodeRowsOnly(nodes, Start(v, order, n - 1), |nodes|);
      var u := v.groups[order[k]].nodes[j];
      assert u in Nodes(v.groups)[order[k]] && order[k] != order[n - 1];
    }
  }

  ghost predicate HasEdge(groups: seq<Siblings>, a: nat) {
    exists b :: Edge(Quotient(groups), a, b) || Edge(Quotient(groups), b, a)
  }

  /** Groups follow one another from row 0 on, each without gaps, with exactly one free row
      before and after a group that has an edge. */
  lemma GroupsAreSpaced(v: View, order: seq<nat>, k: nat, j: nat)
    requires Within(v, order) && Distinct(order) && Disjoint(Nodes(v.groups))
    requires k < |order| && j < |v.groups[order[k]].nodes|
    ensures var rows, nodes := Rows(v, order, |order|), v.groups[order[k]].nodes;
      && nodes[j] in rows
      && (j > 0 ==> nodes[j - 1] in rows && rows[nodes[j]] == rows[nodes[j - 1]] + 1)
      && (k == 0 && j == 0 ==> rows[nodes[j]] == 0)
      && (k > 0 && j == 0 ==> (
            var before := v.groups[order[k - 1]].nodes;
            && before != [] && before[|before| - 1] in rows
            && rows[nodes[0]] == rows[before[|before| - 1]] + 1
               + (if HasEdge(v.groups, order[k - 1]) || HasEdge(v.groups, order[k]) then 1 else 0)))
  {
    hide Rows;
    RowsValue(v, order, |order|, k, j);
    if j > 0 {
      RowsValue(v, order, |order|, k, j - 1);
    } else if k > 0 {
      var before := v.groups[order[k - 1]].nodes;
      assert Nodes(v.groups)[order[k - 1]] == before;
      RowsValue(v, order, |order|, k - 1, |before| - 1);
      LinkedHasEdge(v.groups, order[k - 1]);
      LinkedHasEdge(v.groups, order[k]);
    }
  }

  lemma LinkedHasEdge(groups: seq<Siblings>, a: nat)
    requires a < |groups|
    ensures Linked(groups, a) <==> HasEdge(groups, a)
  {
    var g := Quotient(groups);
    if groups[a].targets != [] {
      assert Edge(g, a, groups[a].targets[0]);
    }
    if b :| 0 <= b < |groups| && a in groups[b].targets {
      assert Edge(g, b, a);
    }
    if b :| Edge(g, a, b) || Edge(g, b, a) {
      assert Edge(g, a, b) ==> groups[a].targets != [];
    }
  }

  // ---------------------------------------------------------------------- sums

  ghost function Sum<T>(s: set<T>, f: T -> nat): nat {
    if s == {} then 0 else
      var x :| x in s;
      f(x) + Sum(s - {x}, f)
  }

  /** Any element may be taken out first. */
  lemma {:induction false} SumStep<T>(s: set<T>, f: T -> nat, x: T)
    requires x in s
    ensures Sum(s, f) == f(x) + Sum(s - {x}, f)
    decreases |s|
  {
    var y :| y in s && Sum(s, f) == f(y) + Sum(s - {y}, f);
    if y != x {
      SumStep(s - {y}, f, x);
      SumStep(s - {x}, f, y);
      assert s - {y} - {x} == s - {x} - {y};
    }
  }

  // ----------------------------------------------------------------- distances

  /** How far a placed source is from a row; unplaced sources do not count. */
  function FromRow(places: Places, row: nat): Label -> nat {
    u => if u !in places then 0 else if places[u].row < row then row - places[u].row else places[u].row - row
  }

  function Sources(v: View, u: Label): set<Label> {
    if u in v.incoming then v.incoming[u] else {}
  }

  ghost function FromSources(v: View, places: Places, rows: map<Label, nat>): Label -> nat {
    u => if u in rows then Sum(Sources(v, u), FromRow(places, rows[u])) else 0
  }

  ghost function Distance(v: View, places: Places, rows: map<Label, nat>): nat {
    Sum(rows.Keys, FromSources(v, places, rows))
  }

  method SourceDistance(v: View, places: Places, u: Label, row: nat) returns (d: nat)
    ensures d == Sum(Sources(v, u), FromRow(places, row))
  {
    d := 0;
    var todo := Sources(v, u);
    while todo != {}
      invariant d + Sum(todo, FromRow(places, row)) == Sum(Sources(v, u), FromRow(places, row))
    {
      var source :| source in todo;
      SumStep(todo, FromRow(places, row), source);
      if source in places {
        var apart := places[source].row - row;
        d := d + (if apart < 0 then -apart else apart);
      }
      todo := todo - {source};
    }
  }

  // --------------------------------------------------------------------- costs

  /** The distance of all short edges, then the order of texts. */
  ghost function Cost(v: View, places: Places, order: seq<nat>): seq<nat>
    requires Within(v, order)
  {
    [Distance(v, places, Rows(v, order, |order|))] + seq(|order|, i requires 0 <= i < |order| => v.position(order[i]))
  }

  method OrderCost(v: View, places: Places, order: seq<nat>) returns (cost: seq<nat>)
    requires Within(v, order)
    ensures cost == Cost(v, places, order)
  {
    var rows := OrderRows(v, order);
    var d := 0;
    var todo := rows.Keys;
    while todo != {}
      invariant todo <= rows.Keys
      invariant d + Sum(todo, FromSources(v, places, rows)) == Distance(v, places, rows)
    {
      var target :| target in todo;
      SumStep(todo, FromSources(v, places, rows), target);
      var near := SourceDistance(v, places, target, rows[target]);
      d := d + near;
      todo := todo - {target};
    }
    cost := [d] + seq(|order|, i requires 0 <= i < |order| => v.position(order[i]));
  }

  // ------------------------------------------------------------------- anchors

  datatype Anchor = Anchor(kind: nat, mean: real)

  function RowOf(places: Places): Label -> nat {
    u => if u in places then places[u].row else 0
  }

  function One(): Label -> nat {
    _ => 1
  }

  function PlacedSources(v: View, places: Places, u: Label): set<Label> {
    Sources(v, u) * places.Keys
  }

  /** How many sources of the first `n` nodes are placed, and the sum of their rows. */
  ghost function PlacedCount(v: View, places: Places, nodes: seq<Label>, n: nat): nat
    requires n <= |nodes|
  {
    if n == 0 then 0 else PlacedCount(v, places, nodes, n - 1) + Sum(PlacedSources(v, places, nodes[n - 1]), One())
  }

  ghost function PlacedRows(v: View, places: Places, nodes: seq<Label>, n: nat): nat
    requires n <= |nodes|
  {
    if n == 0 then 0
    else PlacedRows(v, places, nodes, n - 1) + Sum(PlacedSources(v, places, nodes[n - 1]), RowOf(places))
  }

  /** The same for the nodes before these on their lanes. */
  function LaneRows(v: View, places: Places, nodes: seq<Label>, n: nat): (nat, nat)
    requires n <= |nodes|
  {
    if n == 0 then (0, 0) else
      var u := nodes[n - 1];
      var before := LaneRows(v, places, nodes, n - 1);
      if u in v.previous && v.previous[u] in places then (before.0 + 1, before.1 + places[v.previous[u]].row)
      else before
  }

  /** Lanes first, then other sources; groups with neither come last. */
  ghost function AnchorOf(v: View, places: Places, a: nat): Anchor
    requires a < |v.groups|
  {
    var nodes := v.groups[a].nodes;
    var lane := LaneRows(v, places, nodes, |nodes|);
    var count, total := PlacedCount(v, places, nodes, |nodes|), PlacedRows(v, places, nodes, |nodes|);
    if lane.0 > 0 then Anchor(0, lane.1 as real / lane.0 as real)
    else if count > 0 then Anchor(1, total as real / count as real)
    else Anchor(2, 0.0)
  }

  method CountLaneRows(v: View, places: Places, nodes: seq<Label>) returns (count: nat, total: nat)
    ensures (count, total) == LaneRows(v, places, nodes, |nodes|)
  {
    count, total := 0, 0;
    var i := 0;
    while i < |nodes|
      invariant 0 <= i <= |nodes| && (count, total) == LaneRows(v, places, nodes, i)
    {
      var u := nodes[i];
      if u in v.previous && v.previous[u] in places {
        count, total := count + 1, total + places[v.previous[u]].row;
      }
      i := i + 1;
    }
  }

  method CountPlaced(places: Places, sources: set<Label>) returns (count: nat, total: nat)
    requires sources <= places.Keys
    ensures count == Sum(sources, One()) && total == Sum(sources, RowOf(places))
  {
    count, total := 0, 0;
    var todo := sources;
    while todo != {}
      invariant todo <= sources && count + Sum(todo, One()) == Sum(sources, One())
      invariant total + Sum(todo, RowOf(places)) == Sum(sources, RowOf(places))
    {
      var u :| u in todo;
      SumStep(todo, One(), u);
      SumStep(todo, RowOf(places), u);
      count, total := count + 1, total + places[u].row;
      todo := todo - {u};
    }
  }

  method CountSourceRows(v: View, places: Places, nodes: seq<Label>) returns (count: nat, total: nat)
    ensures count == PlacedCount(v, places, nodes, |nodes|) && total == PlacedRows(v, places, nodes, |nodes|)
  {
    hide Sum, RowOf, One, Sources;
    count, total := 0, 0;
    var i := 0;
    while i < |nodes|
      invariant 0 <= i <= |nodes|
      invariant count == PlacedCount(v, places, nodes, i) && total == PlacedRows(v, places, nodes, i)
    {
      var more, rows := CountPlaced(places, PlacedSources(v, places, nodes[i]));
      count, total := count + more, total + rows;
      i := i + 1;
    }
  }

  method GroupAnchor(v: View, places: Places, a: nat) returns (anchor: Anchor)
    requires a < |v.groups|
    ensures anchor == AnchorOf(v, places, a)
  {
    hide LaneRows, PlacedCount, PlacedRows;
    var count, total := CountLaneRows(v, places, v.groups[a].nodes);
    if count > 0 {
      return Anchor(0, total as real / count as real);
    }
    count, total := CountSourceRows(v, places, v.groups[a].nodes);
    return if count > 0 then Anchor(1, total as real / count as real) else Anchor(2, 0.0);
  }

  /** Sorting keys: anchors, then texts. */
  predicate Sooner(a: Anchor, p: nat, b: Anchor, q: nat) {
    a.kind < b.kind || (a.kind == b.kind && (a.mean < b.mean || (a.mean == b.mean && p < q)))
  }

  ghost predicate Comes(v: View, places: Places, a: nat, b: nat)
    requires a < |v.groups| && b < |v.groups|
  {
    Sooner(AnchorOf(v, places, a), v.position(a), AnchorOf(v, places, b), v.position(b))
  }

  /** Before anything is placed only the texts decide. */
  lemma FirstByText(v: View, a: nat, b: nat)
    requires a < |v.groups| && b < |v.groups|
    ensures Comes(v, map[], a, b) <==> v.position(a) < v.position(b)
  {
    NothingPlaced(v, v.groups[a].nodes, |v.groups[a].nodes|);
    NothingPlaced(v, v.groups[b].nodes, |v.groups[b].nodes|);
  }

  lemma {:induction false} NothingPlaced(v: View, nodes: seq<Label>, n: nat)
    requires n <= |nodes|
    ensures LaneRows(v, map[], nodes, n).0 == 0 && PlacedCount(v, map[], nodes, n) == 0
  {
    if n > 0 {
      NothingPlaced(v, nodes, n - 1);
      assert PlacedSources(v, map[], nodes[n - 1]) == {};
    }
  }

  ghost predicate Anchored(v: View, places: Places, order: seq<nat>) {
    && Within(v, order) && Distinct(order)
    && forall i, j :: 0 <= i < j < |order| ==> !Comes(v, places, order[j], order[i])
  }

  /** Groups behind their lane come first, then those behind other groups, then the rest;
      within these the mean row decides, and then the text. */
  lemma AnchorsAscend(v: View, places: Places, order: seq<nat>, i: nat, j: nat)
    requires Anchored(v, places, order) && i < j < |order|
    ensures var a, b := AnchorOf(v, places, order[i]), AnchorOf(v, places, order[j]);
      && a.kind <= b.kind
      && (a.kind == b.kind ==> a.mean <= b.mean)
      && (a == b ==> v.position(order[i]) <= v.position(order[j]))
  {
    hide AnchorOf;
    assert !Comes(v, places, order[j], order[i]);
  }

  method AnchorOrder(v: View, places: Places, members: set<nat>) returns (order: seq<nat>)
    requires forall a :: a in members ==> a < |v.groups|
    ensures Anchored(v, places, order) && Elements(order) == members
  {
    hide AnchorOf;
    order := [];
    var todo := members;
    while todo != {}
      invariant todo <= members && Anchored(v, places, order) && Elements(order) == members - todo
    {
      var a: nat :| a in todo;
      assert a !in Elements(order);
      var own := GroupAnchor(v, places, a);
      var i := 0;
      var found := false;
      while i < |order| && !found
        invariant 0 <= i <= |order| && (found ==> i < |order| && Comes(v, places, a, order[i]))
        invariant forall k :: 0 <= k < i ==> !Comes(v, places, a, order[k])
        decreases |order| - i, !found
      {
        var other := GroupAnchor(v, places, order[i]);
        if Sooner(own, v.position(a), other, v.position(order[i])) {
          found := true;
        } else {
          i := i + 1;
        }
      }
      InsertAnchored(v, places, order, a, i);
      order := order[..i] + [a] + order[i..];
      todo := todo - {a};
    }
  }

  lemma ComesBetween(v: View, places: Places, a: nat, b: nat, c: nat)
    requires a < |v.groups| && b < |v.groups| && c < |v.groups|
    requires Comes(v, places, a, b) && !Comes(v, places, c, b)
    ensures !Comes(v, places, c, a)
  {
    hide AnchorOf;
  }

  lemma ComesStrictly(v: View, places: Places, a: nat, b: nat)
    requires a < |v.groups| && b < |v.groups| && Comes(v, places, a, b)
    ensures !Comes(v, places, b, a)
  {
    hide AnchorOf;
  }

  lemma InsertAnchored(v: View, places: Places, order: seq<nat>, a: nat, i: nat)
    requires Anchored(v, places, order) && a < |v.groups| && a !in order && i <= |order|
    requires forall k :: 0 <= k < i ==> !Comes(v, places, a, order[k])
    requires i < |order| ==> Comes(v, places, a, order[i])
    ensures Anchored(v, places, order[..i] + [a] + order[i..])
    ensures Elements(order[..i] + [a] + order[i..]) == Elements(order) + {a}
  {
    hide Comes, Elements;
    var next := order[..i] + [a] + order[i..];
    forall k | i <= k < |order| ensures !Comes(v, places, order[k], a) {
      if k > i {
        ComesBetween(v, places, a, order[i], order[k]);
      } else {
        ComesStrictly(v, places, a, order[k]);
      }
    }
    InsertElements(order, a, i);
  }

  lemma InsertElements(order: seq<nat>, a: nat, i: nat)
    requires i <= |order|
    ensures Elements(order[..i] + [a] + order[i..]) == Elements(order) + {a}
  {
    assert order == order[..i] + order[i..];
    ElementsOfConcat(order[..i], order[i..]);
    ElementsOfConcat(order[..i] + [a], order[i..]);
    ElementsOfSnoc(order[..i], a);
  }

  // ------------------------------------------------------------------ exchanges

  function Exchange(order: seq<nat>, i: nat): seq<nat>
    requires i + 1 < |order|
  {
    order[i := order[i + 1]][i + 1 := order[i]]
  }

  ghost predicate Improves(v: View, places: Places, order: seq<nat>, i: nat)
    requires Within(v, order) && i + 1 < |order|
  {
    Less(Cost(v, places, Exchange(order, i)), Cost(v, places, order))
  }

  /** The first exchange from here on that lowers the cost, or the end of the order. */
  ghost function FirstExchange(v: View, places: Places, order: seq<nat>, i: nat): nat
    requires Within(v, order)
    decreases |order| - i
  {
    if i + 1 >= |order| then |order|
    else if Improves(v, places, order, i) then i
    else FirstExchange(v, places, order, i + 1)
  }

  /** At most `limit` exchanges, each the first that lowers the cost. */
  ghost function Descent(v: View, places: Places, order: seq<nat>, limit: nat): seq<nat>
    requires Within(v, order)
    decreases limit
  {
    var k := FirstExchange(v, places, order, 0);
    if limit == 0 || k + 1 >= |order| then order else Descent(v, places, Exchange(order, k), limit - 1)
  }

  method ImproveOrder(v: View, places: Places, start: seq<nat>) returns (order: seq<nat>)
    requires Within(v, start)
    ensures Within(v, order) && order == Descent(v, places, start, |start| * |start|)
  {
    hide Cost, Less;
    order := start;
    var limit := |start| * |start|;
    while limit > 0
      invariant limit >= 0 && Within(v, order)
      invariant Descent(v, places, order, limit) == Descent(v, places, start, |start| * |start|)
    {
      var before := OrderCost(v, places, order);
      var i := 0;
      while i + 1 < |order|
        invariant 0 <= i && FirstExchange(v, places, order, i) == FirstExchange(v, places, order, 0)
      {
        var score := OrderCost(v, places, Exchange(order, i));
        if Less(score, before) {
          break;
        }
        i := i + 1;
      }
      if i + 1 >= |order| {
        break;
      }
      order := Exchange(order, i);
      limit := limit - 1;
    }
  }

  /** The first column is sorted by texts; later ones are improved as well. */
  ghost predicate Ordering(v: View, places: Places, members: set<nat>, start: seq<nat>, order: seq<nat>) {
    && Anchored(v, places, start) && Elements(start) == members
    && order == if places == map[] then start else Descent(v, places, start, |start| * |start|)
  }

  method ColumnOrder(v: View, places: Places, members: set<nat>) returns (order: seq<nat>)
    requires forall a :: a in members ==> a < |v.groups|
    ensures exists start :: Ordering(v, places, members, start, order)
    ensures Within(v, order) && Distinct(order) && Elements(order) == members
  {
    hide Comes, Distinct, Elements;
    var start := AnchorOrder(v, places, members);
    order := start;
    if places != map[] {
      order := ImproveOrder(v, places, start);
    }
    DescentKeepsGroups(v, places, start, |start| * |start|);
    assert Ordering(v, places, members, start, order);
  }

  // --------------------------------------------------------- what exchanges do

  lemma ExchangeKeepsGroups(order: seq<nat>, i: nat)
    requires i + 1 < |order| && Distinct(order)
    ensures Distinct(Exchange(order, i)) && Elements(Exchange(order, i)) == Elements(order)
  {
    var next := Exchange(order, i);
    forall x ensures x in next <==> x in order {
      if x in order {
        var k :| 0 <= k < |order| && order[k] == x;
        assert next[if k == i then i + 1 else if k == i + 1 then i else k] == x;
      }
    }
  }

  lemma {:induction false} DescentKeepsGroups(v: View, places: Places, order: seq<nat>, limit: nat)
    requires Within(v, order) && Distinct(order)
    ensures Within(v, Descent(v, places, order, limit)) && Distinct(Descent(v, places, order, limit))
    ensures Elements(Descent(v, places, order, limit)) == Elements(order)
    decreases limit
  {
    hide Distinct, Elements, Improves;
    var k := FirstExchange(v, places, order, 0);
    if limit > 0 && k + 1 < |order| {
      ExchangeKeepsGroups(order, k);
      DescentKeepsGroups(v, places, Exchange(order, k), limit - 1);
    }
  }

  /** No exchange of neighbours lowers the cost. */
  ghost predicate Settled(v: View, places: Places, order: seq<nat>)
    requires Within(v, order)
  {
    forall i: nat :: i + 1 < |order| ==> !Improves(v, places, order, i)
  }

  /** From one order to another by the first exchange that lowers the cost. */
  ghost predicate StepDown(v: View, places: Places, a: seq<nat>, b: seq<nat>) {
    && Within(v, a)
    && var k := FirstExchange(v, places, a, 0);
    k + 1 < |a| && b == Exchange(a, k) && Improves(v, places, a, k)
  }

  ghost predicate Chain(v: View, places: Places, chain: seq<seq<nat>>) {
    && (forall i :: 0 <= i < |chain| ==> Within(v, chain[i]))
    && (forall i :: 0 <= i < |chain| - 1 ==> StepDown(v, places, chain[i], chain[i + 1]))
  }

  lemma {:induction false} FirstImproves(v: View, places: Places, order: seq<nat>, i: nat)
    requires Within(v, order) && i < |order|
    ensures var k := FirstExchange(v, places, order, i);
      && (k + 1 < |order| ==> Improves(v, places, order, k))
      && (forall j :: i <= j < k && j + 1 < |order| ==> !Improves(v, places, order, j))
    decreases |order| - i
  {
    hide Improves;
    if i + 1 < |order| && !Improves(v, places, order, i) {
      FirstImproves(v, places, order, i + 1);
    }
  }

  lemma ExchangeIsStep(v: View, places: Places, order: seq<nat>)
    requires Within(v, order) && FirstExchange(v, places, order, 0) + 1 < |order|
    ensures StepDown(v, places, order, Exchange(order, FirstExchange(v, places, order, 0)))
  {
    hide Improves, FirstExchange;
    FirstImproves(v, places, order, 0);
  }

  /** The descent ends where no exchange helps, or after `limit` exchanges, each a step down. */
  lemma {:induction false} DescentGoesDown(v: View, places: Places, order: seq<nat>, limit: nat)
    returns (chain: seq<seq<nat>>)
    requires Within(v, order)
    ensures chain != [] && chain[0] == order && chain[|chain| - 1] == Descent(v, places, order, limit)
    ensures Chain(v, places, chain)
    ensures |chain| == limit + 1 || (|chain| <= limit && Settled(v, places, chain[|chain| - 1]))
    decreases limit
  {
    hide Improves, StepDown;
    var k := FirstExchange(v, places, order, 0);
    if order != [] {
      FirstImproves(v, places, order, 0);
    }
    chain := [order];
    if limit > 0 && k + 1 < |order| {
      ExchangeIsStep(v, places, order);
      var rest := DescentGoesDown(v, places, Exchange(order, k), limit - 1);
      chain := chain + rest;
      forall i | 0 <= i < |chain| - 1 ensures StepDown(v, places, chain[i], chain[i + 1]) {
        if i > 0 {
          assert StepDown(v, places, rest[i - 1], rest[i]);
        }
      }
    }
  }

  lemma {:induction false} ChainGoesDown(v: View, places: Places, chain: seq<seq<nat>>, i: nat, j: nat)
    requires Chain(v, places, chain) && i < j < |chain|
    ensures Less(Cost(v, places, chain[j]), Cost(v, places, chain[i]))
    decreases j
  {
    hide Less, Cost, FirstExchange;
    assert StepDown(v, places, chain[j - 1], chain[j]);
    if i < j - 1 {
      ChainGoesDown(v, places, chain, i, j - 1);
      LessTrans(Cost(v, places, chain[j]), Cost(v, places, chain[j - 1]), Cost(v, places, chain[i]));
    }
  }

  /** The improvement never makes the drawing of the column worse. */
  lemma OrderIsNoWorse(v: View, places: Places, members: set<nat>, start: seq<nat>, order: seq<nat>)
    requires Ordering(v, places, members, start, order)
    ensures Within(v, order) && Distinct(order) && Elements(order) == members
    ensures order == start || Less(Cost(v, places, order), Cost(v, places, start))
    ensures Distance(v, places, Rows(v, order, |order|)) <= Distance(v, places, Rows(v, start, |start|))
  {
    hide Comes, Distance, Distinct, Elements, Rows, Descent, Chain, Settled;
    var limit := |start| * |start|;
    DescentKeepsGroups(v, places, start, limit);
    if order != start {
      var chain := DescentGoesDown(v, places, start, limit);
      ChainGoesDown(v, places, chain, 0, |chain| - 1);
      assert Cost(v, places, order)[0] <= Cost(v, places, start)[0];
    }
  }
}
