/** Columns and rows of the nodes. */
module NodePlacement {
  import opened Collections
  import opened RouteGeometry
  import opened GroupGraph
  import opened GroupOrder
  import RD = RouteDrawing

  type Node = RD.Node

  type Places = GroupOrder.Places

  /** No two nodes of a column are in one row. */
  ghost predicate Apart(places: Places) {
    forall u, v :: u in places && v in places && u != v && places[u].column == places[v].column ==>
      places[u].row != places[v].row
  }

  ghost predicate AbovePlaces(places: Places, column: nat, row: nat) {
    forall u :: u in places && places[u].column == column ==> places[u].row < row
  }

  ghost predicate WithinRows(places: Places, maxRow: nat) {
    forall u :: u in places ==> places[u].row <= maxRow
  }

  ghost predicate InOwnColumns(places: Places, nodeGroup: map<Node, nat>, ranks: map<nat, nat>) {
    forall u :: u in places ==> u in nodeGroup && nodeGroup[u] in ranks && places[u].column == ranks[nodeGroup[u]]
  }

  ghost predicate Placing(places: Places, nodeGroup: map<Node, nat>, ranks: map<nat, nat>, maxRow: nat) {
    Apart(places) && WithinRows(places, maxRow) && InOwnColumns(places, nodeGroup, ranks)
  }

  lemma PlaceOne(places: Places, nodeGroup: map<Node, nat>, ranks: map<nat, nat>, maxRow: nat, u: Node, row: nat)
    requires Placing(places, nodeGroup, ranks, maxRow) && u in nodeGroup && nodeGroup[u] in ranks
    requires AbovePlaces(places, ranks[nodeGroup[u]], row)
    ensures var next := places[u := Placement(ranks[nodeGroup[u]], row)];
      && Placing(next, nodeGroup, ranks, if row > maxRow then row else maxRow)
      && AbovePlaces(next, ranks[nodeGroup[u]], row + 1)
  {
  }

  lemma StillAbove(places: Places, column: nat, row: nat, higher: nat)
    requires AbovePlaces(places, column, row) && row <= higher
    ensures AbovePlaces(places, column, higher)
  {
  }

  function InColumn(column: nat, rows: map<Node, nat>): (places: Places)
    ensures places.Keys == rows.Keys
  {
    map u | u in rows :: Placement(column, rows[u])
  }

  lemma NodeInColumn(places: Places, next: Places, column: nat, nodes: seq<Node>, row: nat, i: nat)
    requires i < |nodes| && next == places + InColumn(column, NodeRows(nodes, row, i))
    ensures next[nodes[i] := Placement(column, row + i)] == places + InColumn(column, NodeRows(nodes, row, i + 1))
  {
  }

  lemma NothingInColumn(column: nat, nodes: seq<Node>, row: nat)
    ensures InColumn(column, NodeRows(nodes, row, 0)) == map[]
  {
  }

  lemma GroupInColumn(v: View, places: Places, next: Places, column: nat, order: seq<nat>, i: nat)
    requires Within(v, order) && i < |order| && next == places + InColumn(column, Rows(v, order, i))
    ensures var nodes := v.groups[order[i]].nodes;
      next + InColumn(column, NodeRows(nodes, Start(v, order, i), |nodes|)) ==
      places + InColumn(column, Rows(v, order, i + 1))
  {
    hide NodeRows, Start;
  }

  /** The nodes of one group, one row after the other. */
  method PlaceGroup(places: Places, nodeGroup: map<Node, nat>, ranks: map<nat, nat>, maxRow: nat,
                    nodes: seq<Node>, a: nat, row: nat)
    returns (places': Places, row': nat, maxRow': nat)
    requires Placing(places, nodeGroup, ranks, maxRow) && a in ranks && AbovePlaces(places, ranks[a], row)
    requires forall i :: 0 <= i < |nodes| ==> nodes[i] in nodeGroup && nodeGroup[nodes[i]] == a
    ensures Placing(places', nodeGroup, ranks, maxRow') && AbovePlaces(places', ranks[a], row')
    ensures row' == row + |nodes| && places' == places + InColumn(ranks[a], NodeRows(nodes, row, |nodes|))
  {
    hide Placing, AbovePlaces, InColumn, NodeRows;
    places', row', maxRow' := places, row, maxRow;
    NothingInColumn(ranks[a], nodes, row);
    var i := 0;
    while i < |nodes|
      invariant 0 <= i <= |nodes| && Placing(places', nodeGroup, ranks, maxRow') && AbovePlaces(places', ranks[a], row')
      invariant row' == row + i && places' == places + InColumn(ranks[a], NodeRows(nodes, row, i))
    {
      PlaceOne(places', nodeGroup, ranks, maxRow', nodes[i], row');
      NodeInColumn(places, places', ranks[a], nodes, row, i);
      places' := places'[nodes[i] := Placement(ranks[a], row')];
      maxRow' := if row' > maxRow' then row' else maxRow';
      row' := row' + 1;
      i := i + 1;
    }
  }

  ghost function NodesOf(groups: seq<Siblings>, chosen: set<nat>): set<Node>
    requires forall a :: a in chosen ==> a < |groups|
  {
    set a, u | a in chosen && u in groups[a].nodes :: u
  }

  lemma NodesOneMore(groups: seq<Siblings>, chosen: set<nat>, a: nat)
    requires a < |groups| && forall b :: b in chosen ==> b < |groups|
    ensures NodesOf(groups, chosen + {a}) == NodesOf(groups, chosen) + Elements(groups[a].nodes)
  {
    forall u ensures u in NodesOf(groups, chosen + {a}) <==> u in NodesOf(groups, chosen) + Elements(groups[a].nodes) {
      if u in groups[a].nodes {
        assert a in chosen + {a};
      }
      if u in NodesOf(groups, chosen) {
        var b :| b in chosen && u in groups[b].nodes;
        assert b in chosen + {a};
      }
    }
  }

  ghost predicate Sorted(groups: seq<Siblings>, nodeGroup: map<Node, nat>, ranks: map<nat, nat>) {
    Indexes(Nodes(groups), nodeGroup) && forall a: nat :: a in ranks <==> a < |groups|
  }

  /** One column: its groups in order, with a free row around linked groups. */
  method PlaceColumn(v: View, nodeGroup: map<Node, nat>, ranks: map<nat, nat>, places: Places, maxRow: nat,
                     column: nat, members: set<nat>)
    returns (places': Places, maxRow': nat, order: seq<nat>)
    requires Sorted(v.groups, nodeGroup, ranks) && Placing(places, nodeGroup, ranks, maxRow)
    requires forall a :: a in members ==> a in ranks && ranks[a] == column
    requires forall u :: u in places ==> places[u].column != column
    ensures Placing(places', nodeGroup, ranks, maxRow')
    ensures forall a :: a in members ==> a < |v.groups|
    ensures places'.Keys == places.Keys + NodesOf(v.groups, members)
    ensures Within(v, order) && exists start :: Ordering(v, places, members, start, order)
    ensures places' == places + InColumn(column, Rows(v, order, |order|))
  {
    hide Placing, Indexes, NodesOf, Ordering, Spacing, NodeRows, Rows, InColumn, Distinct;
    order := ColumnOrder(v, places, members);
    places', maxRow' := places, maxRow;
    var row: nat := 0;
    var i: nat := 0;
    NoRows(v, column, order);
    assert forall k :: 0 <= k < |order| ==> order[k] in Elements(order);
    while i < |order|
      invariant i <= |order| && Placing(places', nodeGroup, ranks, maxRow') && AbovePlaces(places', column, row)
      invariant forall k :: 0 <= k < |order| ==> order[k] < |v.groups| && order[k] in members
      invariant row == if i == 0 then 0 else Start(v, order, i - 1) + |v.groups[order[i - 1]].nodes|
      invariant places' == places + InColumn(column, Rows(v, order, i))
    {
      var a := order[i];
      if i > 0 {
        StillAbove(places', column, row, row + Spacing(v, order[i - 1], a));
        row := row + Spacing(v, order[i - 1], a);
      }
      GroupNodes(v.groups, nodeGroup, ranks, a);
      GroupInColumn(v, places, places', column, order, i);
      places', row, maxRow' := PlaceGroup(places', nodeGroup, ranks, maxRow', v.groups[a].nodes, a, row);
      i := i + 1;
    }
    RowsAreNodes(v, order, |order|);
    assert order[..|order|] == order;
  }

  lemma {:induction false} RowsAreNodes(v: View, order: seq<nat>, n: nat)
    requires Within(v, order) && n <= |order|
    ensures (forall a :: a in Elements(order[..n]) ==> a < |v.groups|)
    ensures Rows(v, order, n).Keys == NodesOf(v.groups, Elements(order[..n]))
  {
    hide NodesOf, Start;
    if n == 0 {
      NoNodes(v.groups);
      assert Elements(order[..0]) == {};
    } else {
      RowsAreNodes(v, order, n - 1);
      PrefixStep(order, n - 1);
      NodesOneMore(v.groups, Elements(order[..n - 1]), order[n - 1]);
      NodeRowsKeys(v.groups[order[n - 1]].nodes, Start(v, order, n - 1), |v.groups[order[n - 1]].nodes|);
    }
  }

  lemma {:induction false} NodeRowsKeys(nodes: seq<Node>, row: nat, m: nat)
    requires m <= |nodes|
    ensures NodeRows(nodes, row, m).Keys == Elements(nodes[..m])
    ensures m == |nodes| ==> NodeRows(nodes, row, m).Keys == Elements(nodes)
  {
    if m == 0 {
      assert Elements(nodes[..0]) == {};
    } else {
      NodeRowsKeys(nodes, row, m - 1);
      PrefixStep(nodes, m - 1);
    }
    assert m == |nodes| ==> nodes[..m] == nodes;
  }

  lemma NoRows(v: View, column: nat, order: seq<nat>)
    requires Within(v, order)
    ensures InColumn(column, Rows(v, order, 0)) == map[]
  {
  }

  lemma NoNodes(groups: seq<Siblings>)
    ensures NodesOf(groups, {}) == {}
  {
  }

  lemma GroupNodes(groups: seq<Siblings>, nodeGroup: map<Node, nat>, ranks: map<nat, nat>, a: nat)
    requires Sorted(groups, nodeGroup, ranks) && a < |groups|
    ensures forall i :: 0 <= i < |groups[a].nodes| ==>
      groups[a].nodes[i] in nodeGroup && nodeGroup[groups[a].nodes[i]] == a
  {
    assert Nodes(groups)[a] == groups[a].nodes;
  }

  /** Every node in the column of its group's rank and in a row of its own there. */
  ghost predicate PlacedAll(nodeGroup: map<Node, nat>, ranks: map<nat, nat>, places: Places, maxRow: nat) {
    places.Keys == nodeGroup.Keys && Placing(places, nodeGroup, ranks, maxRow)
  }

  function MembersOf(ranks: map<nat, nat>, column: nat): set<nat> {
    set a | a in ranks && ranks[a] == column
  }

  function Before(places: Places, column: nat): Places {
    map u | u in places && places[u].column < column :: places[u]
  }

  /** The column has its groups in an order chosen for the columns before it, from row 0 on. */
  ghost predicate ColumnOk(v: View, ranks: map<nat, nat>, places: Places, column: nat, order: seq<nat>) {
    && Within(v, order) && (exists start :: Ordering(v, Before(places, column), MembersOf(ranks, column), start, order))
    && forall u :: u in Rows(v, order, |order|) ==>
         u in places && places[u] == Placement(column, Rows(v, order, |order|)[u])
  }

  ghost predicate Arranged(v: View, ranks: map<nat, nat>, places: Places, columns: map<nat, seq<nat>>) {
    columns.Keys == (set a | a in ranks :: ranks[a]) && ColumnsOk(v, ranks, places, columns)
  }

  ghost predicate ColumnsOk(v: View, ranks: map<nat, nat>, places: Places, columns: map<nat, seq<nat>>) {
    forall c :: c in columns ==> ColumnOk(v, ranks, places, c, columns[c])
  }

  ghost predicate ViewOf(v: View, groups: seq<Siblings>, incoming: Adjacency, lanes: Family, position: nat -> nat) {
    && v == View(groups, incoming, v.previous, position)
    && forall u, w :: w in v.previous && v.previous[w] == u <==> Follows(lanes, u, w)
  }

  method PlaceNodes(groups: seq<Siblings>, nodeGroup: map<Node, nat>, incoming: Adjacency, lanes: Family,
                    position: nat -> nat, ranks: map<nat, nat>)
    returns (places: Places, columns: map<nat, seq<nat>>, maxRow: nat)
    requires Sorted(groups, nodeGroup, ranks) && Disjoint(lanes)
    ensures PlacedAll(nodeGroup, ranks, places, maxRow)
    ensures exists v :: ViewOf(v, groups, incoming, lanes, position) && Arranged(v, ranks, places, columns)
  {
    hide Placing, Indexes, NodesOf, MembersOf, Disjoint, ColumnsOk, Opened, Follows, Ordering, Rows;
    var previous := LanePredecessors(lanes);
    var v := View(groups, incoming, previous, position);
    places, columns, maxRow := map[], map[], 0;
    var todo := set a | a in ranks :: ranks[a];
    ghost var all, done := todo, {};
    StartPlacing(groups, nodeGroup, ranks);
    StartColumns(v, ranks, all);
    while todo != {}
      invariant Placing(places, nodeGroup, ranks, maxRow)
      invariant forall a: nat :: a in done <==> a in ranks && ranks[a] !in todo
      invariant forall a: nat :: a in done ==> a < |groups|
      invariant places.Keys == NodesOf(groups, done)
      invariant Opened(places, all, todo, columns.Keys)
      invariant ColumnsOk(v, ranks, places, columns)
    {
      var column := Least(todo);
      var members := MembersOf(ranks, column);
      ColumnIsNew(groups, nodeGroup, ranks, places, maxRow, done, todo, column, members);
      ghost var places0, maxRow0 := places, maxRow;
      var order;
      places, maxRow, order := PlaceColumn(v, nodeGroup, ranks, places, maxRow, column, members);
      ColumnDone(v, nodeGroup, ranks, places0, places, maxRow0, maxRow, columns, all, todo, order);
      NodesUnion(groups, done, members);
      assert columns[column := order].Keys == columns.Keys + {column};
      columns := columns[column := order];
      done := done + members;
      todo := todo - {column};
    }
    AllNodes(groups, nodeGroup, ranks, done);
    AllColumns(places, all, columns.Keys);
    assert ViewOf(v, groups, incoming, lanes, position) && Arranged(v, ranks, places, columns);
  }

  predicate Earlier(some: set<nat>, others: set<nat>) {
    forall c, d :: c in some && d in others ==> c < d
  }

  predicate InColumns(places: Places, columns: set<nat>) {
    forall u :: u in places ==> places[u].column in columns
  }

  /** All columns before those still to do are filled. */
  predicate Opened(places: Places, all: set<nat>, todo: set<nat>, columns: set<nat>) {
    todo <= all && columns == all - todo && Earlier(columns, todo) && InColumns(places, columns)
  }

  lemma StartColumns(v: View, ranks: map<nat, nat>, all: set<nat>)
    ensures Opened(map[], all, all, {}) && ColumnsOk(v, ranks, map[], map[])
  {
  }

  lemma AllColumns(places: Places, all: set<nat>, columns: set<nat>)
    requires Opened(places, all, {}, columns)
    ensures columns == all
  {
  }

  /** A new column changes nothing for the columns before it. */
  lemma ColumnDone(v: View, nodeGroup: map<Node, nat>, ranks: map<nat, nat>, places: Places, next: Places,
                   maxRow0: nat, maxRow: nat, columns: map<nat, seq<nat>>, all: set<nat>, todo: set<nat>,
                   order: seq<nat>)
    requires todo != {} && Opened(places, all, todo, columns.Keys) && ColumnsOk(v, ranks, places, columns)
    requires Placing(places, nodeGroup, ranks, maxRow0) && Placing(next, nodeGroup, ranks, maxRow)
    requires Within(v, order) && next == places + InColumn(Least(todo), Rows(v, order, |order|))
    requires exists start :: Ordering(v, places, MembersOf(ranks, Least(todo)), start, order)
    ensures Opened(next, all, todo - {Least(todo)}, columns.Keys + {Least(todo)})
    ensures ColumnsOk(v, ranks, next, columns[Least(todo) := order])
  {
    hide Ordering, Rows, MembersOf, Apart, WithinRows, ColumnOk;
    var column := Least(todo);
    OldKept(nodeGroup, ranks, places, next, maxRow, columns.Keys, column, Rows(v, order, |order|));
    forall c | c in columns ensures ColumnOk(v, ranks, next, c, columns[c]) {
      ColumnKept(v, ranks, places, next, c, columns[c]);
    }
    NewColumn(v, ranks, places, next, column, order);
  }

  /** Nodes already placed keep their places. */
  lemma OldKept(nodeGroup: map<Node, nat>, ranks: map<nat, nat>, places: Places, next: Places, maxRow: nat,
                columns: set<nat>, column: nat, rows: map<Node, nat>)
    requires Placing(next, nodeGroup, ranks, maxRow) && InOwnColumns(places, nodeGroup, ranks)
    requires InColumns(places, columns) && Earlier(columns, {column})
    requires next == places + InColumn(column, rows)
    ensures InColumns(next, columns + {column}) && Before(next, column) == places
    ensures forall c :: c in columns ==> Before(next, c) == Before(places, c)
    ensures forall u :: u in places ==> next[u] == places[u]
  {
    hide Apart, WithinRows;
    forall u | u in next && u !in places ensures next[u].column == column {
    }
    forall u | u in places ensures next[u] == places[u] {
      assert next[u].column == ranks[nodeGroup[u]];
    }
  }

  lemma ColumnKept(v: View, ranks: map<nat, nat>, places: Places, next: Places, c: nat, order: seq<nat>)
    requires ColumnOk(v, ranks, places, c, order) && Before(next, c) == Before(places, c)
    requires forall u :: u in places ==> u in next && next[u] == places[u]
    ensures ColumnOk(v, ranks, next, c, order)
  {
    hide Ordering, Rows, MembersOf, Before;
  }

  lemma NewColumn(v: View, ranks: map<nat, nat>, places: Places, next: Places, column: nat, order: seq<nat>)
    requires Within(v, order) && next == places + InColumn(column, Rows(v, order, |order|))
    requires Before(next, column) == places
    requires exists start :: Ordering(v, places, MembersOf(ranks, column), start, order)
    ensures ColumnOk(v, ranks, next, column, order)
  {
    hide Ordering, Rows, MembersOf, Before;
  }

  lemma StartPlacing(groups: seq<Siblings>, nodeGroup: map<Node, nat>, ranks: map<nat, nat>)
    ensures Placing(map[], nodeGroup, ranks, 0) && NodesOf(groups, {}) == {}
  {
  }

  lemma ColumnIsNew(groups: seq<Siblings>, nodeGroup: map<Node, nat>, ranks: map<nat, nat>, places: Places, maxRow: nat,
                    done: set<nat>, todo: set<nat>, column: nat, members: set<nat>)
    requires Sorted(groups, nodeGroup, ranks) && Placing(places, nodeGroup, ranks, maxRow)
    requires forall a: nat :: a in done <==> a in ranks && ranks[a] !in todo
    requires forall a: nat :: a in done ==> a < |groups|
    requires places.Keys == NodesOf(groups, done) && column in todo && members == MembersOf(ranks, column)
    ensures forall a :: a in members ==> a in ranks && ranks[a] == column
    ensures forall u :: u in places ==> places[u].column != column
    ensures forall a: nat :: a in done + members <==> a in ranks && ranks[a] !in todo - {column}
  {
    forall u | u in places ensures places[u].column != column {
      var a :| a in done && u in groups[a].nodes;
      assert u in Nodes(groups)[a];
      assert nodeGroup[u] == a;
    }
  }

  lemma NodesUnion(groups: seq<Siblings>, a: set<nat>, b: set<nat>)
    requires forall x :: x in a + b ==> x < |groups|
    ensures NodesOf(groups, a + b) == NodesOf(groups, a) + NodesOf(groups, b)
  {
    forall u ensures u in NodesOf(groups, a + b) <==> u in NodesOf(groups, a) + NodesOf(groups, b) {
      if u in NodesOf(groups, a) {
        var x :| x in a && u in groups[x].nodes;
        assert x in a + b;
      }
      if u in NodesOf(groups, b) {
        var x :| x in b && u in groups[x].nodes;
        assert x in a + b;
      }
    }
  }

  lemma AllNodes(groups: seq<Siblings>, nodeGroup: map<Node, nat>, ranks: map<nat, nat>, done: set<nat>)
    requires Sorted(groups, nodeGroup, ranks) && forall a: nat :: a in done <==> a in ranks
    ensures (forall a :: a in done ==> a < |groups|) && NodesOf(groups, done) == nodeGroup.Keys
  {
    forall u ensures u in NodesOf(groups, done) <==> u in nodeGroup {
      if u in nodeGroup {
        assert u in groups[nodeGroup[u]].nodes && nodeGroup[u] in done;
      }
      if u in NodesOf(groups, done) {
        var a :| a in done && u in groups[a].nodes;
        assert u in Nodes(groups)[a];
      }
    }
  }
}
