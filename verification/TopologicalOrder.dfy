/** Deterministic topological order: the smallest ready node goes next. */
module TopologicalOrder {
  import opened Collections
  import opened Digraph

  /** The graph restricted to the given nodes. */
  function Induced(g: Graph, nodes: set<nat>): Graph {
    map u | u in nodes && u in g :: g[u] * nodes
  }

  function OpenPredecessors(g: Graph, nodes: set<nat>, done: set<nat>, v: nat): set<nat> {
    set u | u in nodes && u !in done && Edge(g, u, v)
  }

  function Ready(g: Graph, nodes: set<nat>, done: set<nat>): set<nat> {
    set v | v in nodes && v !in done && OpenPredecessors(g, nodes, done, v) == {}
  }

  function Order(g: Graph, nodes: set<nat>, done: set<nat>): seq<nat>
    decreases nodes - done
  {
    var ready := Ready(g, nodes, done);
    if ready == {} then [] else [Least(ready)] + Order(g, nodes, done + {Least(ready)})
  }

  lemma {:induction false} OrderIsDistinct(g: Graph, nodes: set<nat>, done: set<nat>)
    ensures Distinct(Order(g, nodes, done))
    ensures Elements(Order(g, nodes, done)) <= nodes - done
    decreases nodes - done
  {
    var ready := Ready(g, nodes, done);
    if ready != {} {
      var m := Least(ready);
      OrderIsDistinct(g, nodes, done + {m});
      var rest := Order(g, nodes, done + {m});
      ElementsOfCons(m, rest);
      forall i | 0 <= i < |rest| ensures rest[i] != m {
        assert rest[i] in Elements(rest);
      }
    }
  }

  /** Every predecessor of a listed node is listed before it. */
  lemma {:induction false} OrderRespectsEdges(g: Graph, nodes: set<nat>, done: set<nat>, i: nat, u: nat)
    requires i < |Order(g, nodes, done)| && u in nodes && Edge(g, u, Order(g, nodes, done)[i])
    ensures u in done || u in Order(g, nodes, done)[..i]
    decreases i
  {
    var m := Least(Ready(g, nodes, done));
    var rest := Order(g, nodes, done + {m});
    assert Order(g, nodes, done) == [m] + rest;
    if i == 0 {
      assert u !in OpenPredecessors(g, nodes, done, m);
    } else {
      OrderRespectsEdges(g, nodes, done + {m}, i - 1, u);
      assert ([m] + rest)[..i] == [m] + rest[..i - 1];
    }
  }

  lemma {:induction false} AcyclicOrderIsComplete(g: Graph, nodes: set<nat>, done: set<nat>)
    requires nodes <= g.Keys && Acyclic(Induced(g, nodes))
    ensures Elements(Order(g, nodes, done)) == nodes - done
    decreases nodes - done
  {
    var ready := Ready(g, nodes, done);
    if nodes - done == {} {
      assert ready == {};
    } else {
      var v :| v in nodes - done;
      var s := SourceExists(Induced(g, nodes), nodes - done, v);
      assert s in ready by {
        forall u | u in OpenPredecessors(g, nodes, done, s) ensures false {
          assert Edge(Induced(g, nodes), u, s);
        }
      }
      var m := Least(ready);
      AcyclicOrderIsComplete(g, nodes, done + {m});
      ElementsOfCons(m, Order(g, nodes, done + {m}));
    }
  }

  ghost function IndexOf(s: seq<nat>, x: nat): (i: nat)
    requires x in s
    ensures i < |s| && s[i] == x
  {
    if s[0] == x then 0 else 1 + IndexOf(s[1..], x)
  }

  lemma {:induction false} CompleteOrderIsAcyclic(g: Graph, nodes: set<nat>)
    requires Elements(Order(g, nodes, {})) == nodes
    ensures Acyclic(Induced(g, nodes))
  {
    var order := Order(g, nodes, {});
    OrderIsDistinct(g, nodes, {});
    var rank: map<nat, int> := map v | v in nodes && v in order :: IndexOf(order, v);
    forall u, v | Edge(Induced(g, nodes), u, v)
      ensures u in rank && v in rank && rank[u] < rank[v]
    {
      assert u in Elements(order) && v in Elements(order);
      OrderRespectsEdges(g, nodes, {}, rank[v], u);
    }
    RankedIsAcyclic(Induced(g, nodes), rank);
  }

  /** The order covers all nodes exactly when they induce no cycle. */
  lemma OrderCoversIffAcyclic(g: Graph, nodes: set<nat>)
    requires nodes <= g.Keys
    ensures |Order(g, nodes, {})| == |nodes| <==> Acyclic(Induced(g, nodes))
    ensures |Order(g, nodes, {})| == |nodes| <==> Elements(Order(g, nodes, {})) == nodes
  {
    OrderIsDistinct(g, nodes, {});
    DistinctSize(Order(g, nodes, {}));
    if |Order(g, nodes, {})| == |nodes| {
      SubsetSize(Elements(Order(g, nodes, {})), nodes);
      CompleteOrderIsAcyclic(g, nodes);
    }
    if Acyclic(Induced(g, nodes)) {
      AcyclicOrderIsComplete(g, nodes, {});
    }
  }

  // ------------------------------------------------ counting implementation

  /** Completed nodes have completed predecessors. */
  ghost predicate DownClosed(g: Graph, nodes: set<nat>, done: set<nat>) {
    done <= nodes && forall v :: v in done ==> OpenPredecessors(g, nodes, done, v) == {}
  }

  ghost predicate Counts(g: Graph, nodes: set<nat>, done: set<nat>, indegree: map<nat, nat>) {
    indegree.Keys == nodes && forall v :: v in nodes ==> indegree[v] == |OpenPredecessors(g, nodes, done, v)|
  }

  lemma CompletingOne(g: Graph, nodes: set<nat>, done: set<nat>, m: nat, v: nat)
    requires m in nodes && m !in done
    ensures OpenPredecessors(g, nodes, done + {m}, v) == OpenPredecessors(g, nodes, done, v) - {m}
    ensures Edge(g, m, v) ==>
      |OpenPredecessors(g, nodes, done, v)| == |OpenPredecessors(g, nodes, done + {m}, v)| + 1
    ensures !Edge(g, m, v) ==>
      OpenPredecessors(g, nodes, done, v) == OpenPredecessors(g, nodes, done + {m}, v)
  {
  }

  lemma ReadyAfter(g: Graph, nodes: set<nat>, done: set<nat>, m: nat)
    requires DownClosed(g, nodes, done) && m in Ready(g, nodes, done) && m in g
    ensures DownClosed(g, nodes, done + {m})
    ensures Ready(g, nodes, done + {m}) ==
      (Ready(g, nodes, done) - {m}) + Freed(g, nodes, done + {m}, g[m] * nodes)
  {
    forall v ensures OpenPredecessors(g, nodes, done + {m}, v) == OpenPredecessors(g, nodes, done, v) - {m} {
      CompletingOne(g, nodes, done, m, v);
    }
    forall t | t in g[m] * nodes ensures t !in done && t != m {
      assert m !in OpenPredecessors(g, nodes, done, m);
      assert m in OpenPredecessors(g, nodes, done, t);
    }
  }

  ghost function Freed(g: Graph, nodes: set<nat>, done: set<nat>, targets: set<nat>): set<nat> {
    set t | t in targets && OpenPredecessors(g, nodes, done, t) == {}
  }

  /** The counts are up to date for `targets` and untouched elsewhere. */
  ghost predicate PartlyLowered(g: Graph, nodes: set<nat>, done: set<nat>, m: nat,
                                targets: set<nat>, counts: map<nat, nat>)
  {
    && counts.Keys == nodes
    && (forall v :: v in nodes && v in targets ==> counts[v] == |OpenPredecessors(g, nodes, done + {m}, v)|)
    && (forall v :: v in nodes && v !in targets ==> counts[v] == |OpenPredecessors(g, nodes, done, v)|)
  }

  lemma LowerOne(g: Graph, nodes: set<nat>, done: set<nat>, m: nat, targets: set<nat>, counts: map<nat, nat>, t: nat)
    requires m in nodes && m !in done && t in nodes && t !in targets && Edge(g, m, t)
    requires PartlyLowered(g, nodes, done, m, targets, counts)
    ensures counts[t] > 0
    ensures PartlyLowered(g, nodes, done, m, targets + {t}, counts[t := counts[t] - 1])
    ensures Freed(g, nodes, done + {m}, targets + {t}) ==
      Freed(g, nodes, done + {m}, targets) + (if counts[t] == 1 then {t} else {})
  {
    CompletingOne(g, nodes, done, m, t);
  }

  lemma AllLowered(g: Graph, nodes: set<nat>, done: set<nat>, m: nat, counts: map<nat, nat>)
    requires m in g && m in nodes && m !in done
    requires PartlyLowered(g, nodes, done, m, g[m] * nodes, counts)
    ensures Counts(g, nodes, done + {m}, counts)
  {
    forall v | v in nodes ensures counts[v] == |OpenPredecessors(g, nodes, done + {m}, v)| {
      CompletingOne(g, nodes, done, m, v);
    }
  }

  /** Lower the count of every dependant of `m`; report those that reach zero. */
  method Release(g: Graph, nodes: set<nat>, ghost done: set<nat>, m: nat, indegree: map<nat, nat>)
    returns (lowered: map<nat, nat>, freed: set<nat>)
    requires m in g && m in nodes && m !in done && Counts(g, nodes, done, indegree)
    ensures Counts(g, nodes, done + {m}, lowered)
    ensures freed == Freed(g, nodes, done + {m}, g[m] * nodes)
  {
    var targets := Ascending(g[m] * nodes);
    lowered, freed := indegree, {};
    var i := 0;
    while i < |targets|
      invariant 0 <= i <= |targets|
      invariant PartlyLowered(g, nodes, done, m, Elements(targets[..i]), lowered)
      invariant freed == Freed(g, nodes, done + {m}, Elements(targets[..i]))
    {
      AscendingStep(g[m] * nodes, i);
      var t := targets[i];
      LowerOne(g, nodes, done, m, Elements(targets[..i]), lowered, t);
      lowered := lowered[t := lowered[t] - 1];
      if lowered[t] == 0 {
        freed := freed + {t};
      }
      i := i + 1;
    }
    AscendingEnd(g[m] * nodes);
    AllLowered(g, nodes, done, m, lowered);
  }

  method Sort(g: Graph, nodes: set<nat>) returns (order: seq<nat>)
    requires nodes <= g.Keys
    ensures order == Order(g, nodes, {})
  {
    var indegree: map<nat, nat> := map v | v in nodes :: |OpenPredecessors(g, nodes, {}, v)|;
    var ready := set v | v in nodes && indegree[v] == 0;
    order := [];
    ghost var done: set<nat> := {};
    assert ready == Ready(g, nodes, done);
    while ready != {}
      invariant DownClosed(g, nodes, done) && Counts(g, nodes, done, indegree)
      invariant ready == Ready(g, nodes, done)
      invariant order + Order(g, nodes, done) == Order(g, nodes, {})
      decreases nodes - done
    {
      var m := Least(ready);
      var freed;
      indegree, freed := Release(g, nodes, done, m, indegree);
      ReadyAfter(g, nodes, done, m);
      Regroup(order, m, Order(g, nodes, done + {m}));
      order := order + [m];
      done := done + {m};
      ready := ready - {m} + freed;
    }
  }

  lemma Regroup(a: seq<nat>, m: nat, b: seq<nat>)
    ensures a + ([m] + b) == (a + [m]) + b
  {
  }
}
