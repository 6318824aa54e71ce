/** Which edges may be switched between at a shared cell. */
module Switches {
  import opened Collections
  import opened RoutePath
  import opened RouteDrawing
  import opened Connectivity

  function EdgesOf(contributions: seq<Contribution>): set<EdgeKey> {
    set c | c in contributions :: c.edge
  }

  /** The bundle of the edge's first contribution. */
  function FirstBundle(contributions: seq<Contribution>, edge: EdgeKey): Option<(nat, nat)> {
    if contributions == [] then None
    else if contributions[0].edge == edge then contributions[0].bundle
    else FirstBundle(contributions[1..], edge)
  }

  predicate SharedDirection(contributions: seq<Contribution>, d: Direction) {
    forall e :: e in EdgesOf(contributions) ==> d in Union(contributions, e)
  }

  predicate SameSource(edges: set<EdgeKey>) {
    forall e, f :: e in edges && f in edges ==> e.source == f.source
  }

  predicate SameTarget(edges: set<EdgeKey>) {
    forall e, f :: e in edges && f in edges ==> e.target == f.target
  }

  predicate SameBundle(contributions: seq<Contribution>) {
    forall e, f :: e in EdgesOf(contributions) && f in EdgesOf(contributions) ==>
      FirstBundle(contributions, e) == FirstBundle(contributions, f) != None
  }

  /** Several edges join when they share an endpoint and a direction, or a bundle. */
  predicate IsSwitch(contributions: seq<Contribution>) {
    && |EdgesOf(contributions)| >= 2
    && (|| ((SameSource(EdgesOf(contributions)) || SameTarget(EdgesOf(contributions)))
            && exists d :: SharedDirection(contributions, d))
        || SameBundle(contributions))
  }

  function SwitchEdges(contributions: seq<Contribution>): set<EdgeKey> {
    if IsSwitch(contributions) then EdgesOf(contributions) else {}
  }

  datatype Merged = Merged(bits: Bits, bundle: Option<(nat, nat)>)

  ghost predicate MergedUpTo(contributions: seq<Contribution>, n: nat, edgeMap: map<EdgeKey, Merged>)
    requires n <= |contributions|
  {
    && edgeMap.Keys == EdgesOf(contributions[..n])
    && forall e :: e in edgeMap ==>
         edgeMap[e] == Merged(Union(contributions[..n], e), FirstBundle(contributions[..n], e))
  }

  lemma {:induction false} FirstBundleSnoc(contributions: seq<Contribution>, c: Contribution, edge: EdgeKey)
    ensures edge in EdgesOf(contributions) ==>
      FirstBundle(contributions + [c], edge) == FirstBundle(contributions, edge)
    ensures edge !in EdgesOf(contributions) && c.edge == edge ==> FirstBundle(contributions + [c], edge) == c.bundle
  {
    if contributions == [] {
      assert contributions + [c] == [c];
    } else {
      assert contributions[0] in contributions;
      FirstBundleSnoc(contributions[1..], c, edge);
      assert (contributions + [c])[1..] == contributions[1..] + [c];
      assert forall x :: x in contributions ==> x == contributions[0] || x in contributions[1..];
    }
  }

  lemma {:induction false} UnionOfAbsent(contributions: seq<Contribution>, edge: EdgeKey)
    requires edge !in EdgesOf(contributions)
    ensures Union(contributions, edge) == {}
  {
    assert !Mentions(contributions, edge) by {
      forall i | 0 <= i < |contributions| ensures contributions[i].edge != edge {
        assert contributions[i] in contributions;
      }
    }
    UnionOfOthers(contributions, edge);
  }

  lemma MergeOne(contributions: seq<Contribution>, n: nat, edgeMap: map<EdgeKey, Merged>)
    requires n < |contributions| && MergedUpTo(contributions, n, edgeMap)
    ensures var c := contributions[n];
      var merged := if c.edge in edgeMap then Merged(edgeMap[c.edge].bits + c.bits, edgeMap[c.edge].bundle)
                    else Merged(c.bits, c.bundle);
      MergedUpTo(contributions, n + 1, edgeMap[c.edge := merged])
  {
    var c := contributions[n];
    PrefixStep(contributions, n);
    hide EdgesOf, Union, FirstBundle;
    forall e
      ensures Union(contributions[..n + 1], e) ==
              Union(contributions[..n], e) + (if c.edge == e then c.bits else {})
    {
      UnionSnoc(contributions[..n], c, e);
    }
    forall e {:trigger FirstBundle(contributions[..n + 1], e)}
      ensures e in EdgesOf(contributions[..n]) ==>
        FirstBundle(contributions[..n + 1], e) == FirstBundle(contributions[..n], e)
      ensures e !in EdgesOf(contributions[..n]) && c.edge == e ==> FirstBundle(contributions[..n + 1], e) == c.bundle
    {
      FirstBundleSnoc(contributions[..n], c, e);
    }
    if c.edge !in edgeMap {
      UnionOfAbsent(contributions[..n], c.edge);
    }
  }

  /** The bits that every edge of the cell has. */
  method SharedBits(edgeMap: map<EdgeKey, Merged>) returns (shared: Bits)
    ensures forall d :: d in shared <==> forall e :: e in edgeMap ==> d in edgeMap[e].bits
  {
    shared := {Left, Right, Up, Down};
    forall d ensures d in shared {
      assert d == Left || d == Right || d == Up || d == Down;
    }
    var todo := edgeMap.Keys;
    while todo != {}
      invariant todo <= edgeMap.Keys
      invariant forall d :: d in shared <==> forall e :: e in edgeMap.Keys - todo ==> d in edgeMap[e].bits
    {
      var e :| e in todo;
      shared := shared * edgeMap[e].bits;
      todo := todo - {e};
    }
  }

  method MergeContributions(contributions: seq<Contribution>) returns (edgeMap: map<EdgeKey, Merged>)
    ensures edgeMap.Keys == EdgesOf(contributions)
    ensures forall e :: e in edgeMap ==> edgeMap[e] == Merged(Union(contributions, e), FirstBundle(contributions, e))
  {
    edgeMap := map[];
    var n := 0;
    while n < |contributions|
      invariant 0 <= n <= |contributions| && MergedUpTo(contributions, n, edgeMap)
    {
      MergeOne(contributions, n, edgeMap);
      var c := contributions[n];
      var merged := if c.edge in edgeMap then Merged(edgeMap[c.edge].bits + c.bits, edgeMap[c.edge].bundle)
                    else Merged(c.bits, c.bundle);
      edgeMap := edgeMap[c.edge := merged];
      n := n + 1;
    }
    assert contributions[..n] == contributions;
  }

  method SwitchEdgesForCell(contributions: seq<Contribution>) returns (edges: set<EdgeKey>)
    ensures edges == SwitchEdges(contributions)
  {
    hide EdgesOf, Union, FirstBundle;
    var edgeMap := MergeContributions(contributions);
    if |edgeMap.Keys| < 2 {
      return {};
    }
    var shared := SharedBits(edgeMap);
    forall d ensures d in shared <==> SharedDirection(contributions, d) {
    }
    var sameBundle := forall e, f :: e in edgeMap && f in edgeMap ==> edgeMap[e].bundle == edgeMap[f].bundle != None;
    if ((SameSource(edgeMap.Keys) || SameTarget(edgeMap.Keys)) && shared != {}) || sameBundle {
      return edgeMap.Keys;
    }
    return {};
  }

  // ----------------------------------------------------- interaction component

  /** Both edges switch at one of these points. */
  predicate MeetAt(cells: Cells, points: set<Point>, e: EdgeKey, f: EdgeKey) {
    exists p :: p in points && p in cells && e in SwitchEdges(cells[p]) && f in SwitchEdges(cells[p])
  }

  ghost function Interacts(cells: Cells): (EdgeKey, EdgeKey) -> bool {
    (e, f) => e != f && MeetAt(cells, cells.Keys, e, f)
  }

  function AllEdges(cells: Cells): set<EdgeKey> {
    set p, e | p in cells && e in EdgesOf(cells[p]) :: e
  }

  lemma MeetAtOneMore(cells: Cells, points: set<Point>, p: Point, e: EdgeKey, f: EdgeKey)
    requires p in cells
    ensures MeetAt(cells, points + {p}, e, f) <==>
      MeetAt(cells, points, e, f) || (e in SwitchEdges(cells[p]) && f in SwitchEdges(cells[p]))
  {
    hide SwitchEdges;
    if e in SwitchEdges(cells[p]) && f in SwitchEdges(cells[p]) {
      assert p in points + {p};
    }
    if MeetAt(cells, points, e, f) {
      var q :| q in points && q in cells && e in SwitchEdges(cells[q]) && f in SwitchEdges(cells[q]);
      assert q in points + {p};
    }
  }

  ghost predicate AdjacentAt(cells: Cells, points: set<Point>, adjacency: map<EdgeKey, set<EdgeKey>>) {
    forall e, f :: e in adjacency && f in adjacency[e] <==> e != f && MeetAt(cells, points, e, f)
  }

  /** For every edge the others it meets at some switch cell. */
  method Adjacency(cells: Cells) returns (adjacency: map<EdgeKey, set<EdgeKey>>)
    ensures AdjacentAt(cells, cells.Keys, adjacency)
  {
    hide SwitchEdges;
    adjacency := map[];
    var todo := cells.Keys;
    while todo != {}
      invariant todo <= cells.Keys
      invariant AdjacentAt(cells, cells.Keys - todo, adjacency)
    {
      var p :| p in todo;
      var edges := SwitchEdgesForCell(cells[p]);
      var before := adjacency;
      adjacency := map e | e in before.Keys + edges ::
        (if e in before then before[e] else {}) + (if e in edges then edges - {e} else {});
      forall e, f ensures e in adjacency && f in adjacency[e] <==>
        e != f && MeetAt(cells, (cells.Keys - todo) + {p}, e, f)
      {
        MeetAtOneMore(cells, cells.Keys - todo, p, e, f);
      }
      assert cells.Keys - (todo - {p}) == (cells.Keys - todo) + {p};
      todo := todo - {p};
    }
    assert cells.Keys - todo == cells.Keys;
  }

  lemma Widen(cells: Cells, adjacency: map<EdgeKey, set<EdgeKey>>, start: EdgeKey,
              component: set<EdgeKey>, rest: set<EdgeKey>, edge: EdgeKey, more: set<EdgeKey>)
    requires AdjacentAt(cells, cells.Keys, adjacency)
    requires Exploring(Interacts(cells), {start}, component, rest + {edge})
    requires more == (if edge in adjacency then adjacency[edge] else {}) - (component + {edge})
    ensures Exploring(Interacts(cells), {start}, component + {edge}, rest + more)
    ensures more <= AllEdges(cells)
  {
    hide Exploring;
    forall f | f in more ensures f in AllEdges(cells) {
      assert MeetAt(cells, cells.Keys, edge, f);
    }
    hide MeetAt;
    ExploringVisit(Interacts(cells), {start}, component, rest, edge, more);
  }

  method InteractionComponent(cells: Cells, start: EdgeKey) returns (component: set<EdgeKey>)
    ensures forall e :: e in component <==> Connected(Interacts(cells), start, e)
    ensures component <= AllEdges(cells) + {start}
  {
    hide Exploring, AdjacentAt, AllEdges, Elements;
    var adjacency := Adjacency(cells);
    var pending := [start];
    component := {};
    ghost var r := Interacts(cells);
    ExploringStart(r, {start});
    SingleElement(start);
    ghost var universe := AllEdges(cells) + {start};
    while pending != []
      invariant Exploring(r, {start}, component, Elements(pending))
      invariant component <= universe && Elements(pending) <= universe
      decreases universe - component, |pending|
    {
      var edge, rest := pending[|pending| - 1], pending[..|pending| - 1];
      ElementsOfPopLast(pending);
      if edge in component {
        ExploringSkip(r, {start}, component, Elements(rest), edge);
        pending := rest;
        continue;
      }
      var more := (if edge in adjacency then adjacency[edge] else {}) - (component + {edge});
      Widen(cells, adjacency, start, component, Elements(rest), edge, more);
      var queued := Listing(more);
      ElementsOfConcat(rest, queued);
      component := component + {edge};
      pending := rest + queued;
    }
    EmptyElements<EdgeKey>();
    ExploringDone(r, {start}, component);
  }

  lemma SingleElement<T>(x: T)
    ensures Elements([x]) == {x}
  {
  }

  lemma EmptyElements<T>()
    ensures Elements<T>([]) == {}
  {
  }

  // ------------------------------------------------------------ what a switch is

  ghost predicate OneSource(contributions: seq<Contribution>) {
    forall c, d :: c in contributions && d in contributions ==> c.edge.source == d.edge.source
  }

  ghost predicate OneTarget(contributions: seq<Contribution>) {
    forall c, d :: c in contributions && d in contributions ==> c.edge.target == d.edge.target
  }

  ghost predicate Several(contributions: seq<Contribution>) {
    exists c, d :: c in contributions && d in contributions && c.edge != d.edge
  }

  /** Every edge at the cell has a line in this direction. */
  ghost predicate AllRun(contributions: seq<Contribution>, d: Direction) {
    forall c :: c in contributions ==> exists a :: a in contributions && a.edge == c.edge && d in a.bits
  }

  ghost predicate OneBundle(contributions: seq<Contribution>) {
    exists bundle :: forall c :: c in contributions ==> FirstBundle(contributions, c.edge) == Some(bundle)
  }

  lemma {:induction false} UnionIff(contributions: seq<Contribution>, e: EdgeKey, d: Direction)
    ensures d in Union(contributions, e) <==> exists a :: a in contributions && a.edge == e && d in a.bits
  {
    if contributions != [] {
      var front, last := contributions[..|contributions| - 1], contributions[|contributions| - 1];
      UnionIff(front, e, d);
      assert contributions == front + [last];
    }
  }

  /** An edge switches at a cell exactly when it is drawn there with another, and all edges
      there have one source or one target and a common direction, or belong to one bundle. */
  lemma SwitchIff(contributions: seq<Contribution>, e: EdgeKey)
    ensures e in SwitchEdges(contributions) <==>
      && (exists c :: c in contributions && c.edge == e) && Several(contributions)
      && (((OneSource(contributions) || OneTarget(contributions)) && exists d :: AllRun(contributions, d))
          || OneBundle(contributions))
  {
    hide Union, FirstBundle, SameSource, SameTarget, SameBundle, SharedDirection, Several, AllRun, OneSource, OneTarget,
      OneBundle;
    if contributions != [] {
      EndsIff(contributions);
      BundleIff(contributions);
      forall d ensures SharedDirection(contributions, d) <==> AllRun(contributions, d) {
        RunsIff(contributions, d);
      }
      SeveralEdges(contributions);
      assert e in EdgesOf(contributions) <==> exists c :: c in contributions && c.edge == e;
    }
  }

  lemma SeveralEdges(contributions: seq<Contribution>)
    ensures |EdgesOf(contributions)| >= 2 <==> Several(contributions)
  {
    var edges := EdgesOf(contributions);
    if c, d :| c in contributions && d in contributions && c.edge != d.edge {
      SubsetSize({c.edge, d.edge}, edges);
    }
    if |edges| >= 2 {
      var e :| e in edges;
      assert edges - {e} != {};
      var f :| f in edges - {e};
      var c :| c in contributions && c.edge == e;
      var d :| d in contributions && d.edge == f;
    }
  }

  lemma EndsIff(contributions: seq<Contribution>)
    requires contributions != []
    ensures SameSource(EdgesOf(contributions)) <==> OneSource(contributions)
    ensures SameTarget(EdgesOf(contributions)) <==> OneTarget(contributions)
  {
    var first := contributions[0];
    assert first.edge in EdgesOf(contributions);
    if SameSource(EdgesOf(contributions)) {
      assert forall c :: c in contributions ==> c.edge in EdgesOf(contributions) && c.edge.source == first.edge.source;
    }
    if SameTarget(EdgesOf(contributions)) {
      assert forall c :: c in contributions ==> c.edge in EdgesOf(contributions) && c.edge.target == first.edge.target;
    }
  }

  lemma BundleIff(contributions: seq<Contribution>)
    requires contributions != []
    ensures SameBundle(contributions) <==> OneBundle(contributions)
  {
    hide FirstBundle;
    var first := contributions[0];
    assert first.edge in EdgesOf(contributions);
    if SameBundle(contributions) {
      var bundle := FirstBundle(contributions, first.edge).value;
      assert forall c :: c in contributions ==>
        c.edge in EdgesOf(contributions) && FirstBundle(contributions, c.edge) == Some(bundle);
    }
  }

  lemma RunsIff(contributions: seq<Contribution>, d: Direction)
    ensures SharedDirection(contributions, d) <==> AllRun(contributions, d)
  {
    hide Union;
    forall e ensures d in Union(contributions, e) <==> exists a :: a in contributions && a.edge == e && d in a.bits {
      UnionIff(contributions, e, d);
    }
    if SharedDirection(contributions, d) {
      forall c | c in contributions ensures exists a :: a in contributions && a.edge == c.edge && d in a.bits {
        assert c.edge in EdgesOf(contributions);
      }
    }
  }
}
