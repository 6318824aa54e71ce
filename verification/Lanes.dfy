/** Greedy path cover of the visible dependency component. */
module Lanes {
  import opened Collections
  import opened Digraph
  import opened TopologicalOrder

  type Lane = seq<nat>

  /** Consecutive lane members are joined by an edge. */
  predicate Chain(g: Graph, lane: Lane) {
    forall k :: 0 <= k < |lane| - 1 ==> Edge(g, lane[k], lane[k + 1])
  }

  /** Dependencies point backwards; this graph points from dependency to dependant. */
  function Dependants(dependsOn: Graph, closure: set<nat>): Graph {
    map u | u in closure :: set v | v in closure && v in dependsOn && u in dependsOn[v]
  }

  predicate EndsIn(lane: Lane, x: nat) {
    lane != [] && lane[|lane| - 1] == x
  }

  predicate IsTail(lanes: seq<Lane>, x: nat) {
    exists i :: 0 <= i < |lanes| && EndsIn(lanes[i], x)
  }

  function Extendable(lanes: seq<Lane>, predecessors: set<nat>): set<nat> {
    set p | p in predecessors && IsTail(lanes, p)
  }

  function Extend(lanes: seq<Lane>, tail: nat, issue: nat): seq<Lane> {
    seq(|lanes|, i requires 0 <= i < |lanes| => if EndsIn(lanes[i], tail) then lanes[i] + [issue] else lanes[i])
  }

  /** Extend the lane of the smallest predecessor that is still a tail, else start a lane. */
  function Place(lanes: seq<Lane>, predecessors: set<nat>, issue: nat): seq<Lane> {
    var tails := Extendable(lanes, predecessors);
    if tails == {} then lanes + [[issue]] else Extend(lanes, Least(tails), issue)
  }

  function Predecessors(dependsOn: Graph, closure: set<nat>, issue: nat): set<nat> {
    if issue in dependsOn then dependsOn[issue] * closure else {}
  }

  function PlaceAll(dependsOn: Graph, closure: set<nat>, order: seq<nat>): seq<Lane> {
    if order == [] then [] else
      var n := |order| - 1;
      Place(PlaceAll(dependsOn, closure, order[..n]), Predecessors(dependsOn, closure, order[n]), order[n])
  }

  /** `owners` tells for each placed issue the one lane that holds it. */
  ghost predicate Owned(lanes: seq<Lane>, owners: map<nat, nat>) {
    && (forall x :: x in owners ==> owners[x] < |lanes| && x in lanes[owners[x]])
    && (forall i, k :: 0 <= i < |lanes| && 0 <= k < |lanes[i]| ==> lanes[i][k] in owners && owners[lanes[i][k]] == i)
    && (forall i :: 0 <= i < |lanes| ==> lanes[i] != [] && Distinct(lanes[i]))
  }

  ghost predicate AllChains(g: Graph, lanes: seq<Lane>) {
    forall i :: 0 <= i < |lanes| ==> Chain(g, lanes[i])
  }

  /** Every issue of the closure lies in exactly one place of exactly one lane. */
  ghost predicate PathCover(g: Graph, closure: set<nat>, lanes: seq<Lane>) {
    && AllChains(g, lanes)
    && exists owners: map<nat, nat> :: owners.Keys == closure && Owned(lanes, owners)
  }

  lemma StartLane(lanes: seq<Lane>, owners: map<nat, nat>, issue: nat)
    requires Owned(lanes, owners) && issue !in owners
    ensures Owned(lanes + [[issue]], owners[issue := |lanes|])
  {
    var more := lanes + [[issue]];
    assert more[|lanes|] == [issue] && [issue][0] == issue;
  }

  lemma ExtendLane(lanes: seq<Lane>, owners: map<nat, nat>, tail: nat, issue: nat)
    requires Owned(lanes, owners) && tail in owners && IsTail(lanes, tail)
    ensures Extend(lanes, tail, issue) == lanes[owners[tail] := lanes[owners[tail]] + [issue]]
  {
  }

  lemma ExtendOwned(lanes: seq<Lane>, owners: map<nat, nat>, i: nat, issue: nat)
    requires Owned(lanes, owners) && i < |lanes| && issue !in owners
    ensures Owned(lanes[i := lanes[i] + [issue]], owners[issue := i])
  {
    var lane := lanes[i] + [issue];
    assert lane[|lane| - 1] == issue;
    forall k | 0 <= k < |lanes[i]| ensures lane[k] == lanes[i][k] && lane[k] in owners {
    }
    assert forall x :: x in lanes[i] ==> x in lane;
  }

  /** What holds after the first `n` issues were placed. */
  ghost predicate Assigned(dependsOn: Graph, closure: set<nat>, order: seq<nat>, n: nat,
                           lanes: seq<Lane>, owners: map<nat, nat>)
    requires n <= |order|
  {
    && lanes == PlaceAll(dependsOn, closure, order[..n])
    && owners.Keys == Elements(order[..n]) && Owned(lanes, owners)
    && AllChains(Dependants(dependsOn, closure), lanes)
  }

  ghost predicate DependenciesFirst(dependsOn: Graph, closure: set<nat>, order: seq<nat>) {
    && Distinct(order) && Elements(order) == closure
    && forall i, u :: 0 <= i < |order| && u in Predecessors(dependsOn, closure, order[i]) ==> u in order[..i]
  }

  lemma PredecessorsPlaced(dependsOn: Graph, closure: set<nat>, order: seq<nat>, n: nat)
    requires DependenciesFirst(dependsOn, closure, order) && n < |order|
    ensures Predecessors(dependsOn, closure, order[n]) <= Elements(order[..n])
    ensures order[n] !in Elements(order[..n]) && order[n] in closure
  {
    assert order[n] in Elements(order);
  }

  lemma AssignToTail(dependsOn: Graph, closure: set<nat>, order: seq<nat>, n: nat,
                     lanes: seq<Lane>, owners: map<nat, nat>, tails: set<nat>)
    requires n < |order| && DependenciesFirst(dependsOn, closure, order)
    requires Assigned(dependsOn, closure, order, n, lanes, owners)
    requires tails == Extendable(lanes, Predecessors(dependsOn, closure, order[n])) && tails != {}
    ensures Least(tails) in owners && owners[Least(tails)] < |lanes|
    ensures var i := owners[Least(tails)];
      Assigned(dependsOn, closure, order, n + 1, lanes[i := lanes[i] + [order[n]]], owners[order[n] := i])
  {
    var issue, chosen := order[n], Least(tails);
    PredecessorsPlaced(dependsOn, closure, order, n);
    PlaceAllStep(dependsOn, closure, order, n);
    PrefixStep(order, n);
    ExtendLane(lanes, owners, chosen, issue);
    ExtendOwned(lanes, owners, owners[chosen], issue);
    ExtendedChains(dependsOn, closure, lanes, owners[chosen], chosen, issue);
  }

  lemma AssignNew(dependsOn: Graph, closure: set<nat>, order: seq<nat>, n: nat,
                  lanes: seq<Lane>, owners: map<nat, nat>)
    requires n < |order| && DependenciesFirst(dependsOn, closure, order)
    requires Assigned(dependsOn, closure, order, n, lanes, owners)
    requires Extendable(lanes, Predecessors(dependsOn, closure, order[n])) == {}
    ensures Assigned(dependsOn, closure, order, n + 1, lanes + [[order[n]]], owners[order[n] := |lanes|])
  {
    PredecessorsPlaced(dependsOn, closure, order, n);
    PlaceAllStep(dependsOn, closure, order, n);
    PrefixStep(order, n);
    StartLane(lanes, owners, order[n]);
  }

  /** The loop that owns the lane table; `order` lists dependencies first. */
  method AssignLanes(dependsOn: Graph, closure: set<nat>, order: seq<nat>) returns (lanes: seq<Lane>)
    requires DependenciesFirst(dependsOn, closure, order)
    ensures lanes == PlaceAll(dependsOn, closure, order)
    ensures PathCover(Dependants(dependsOn, closure), closure, lanes)
  {
    var owners: map<nat, nat> := map[];
    lanes := [];
    var n := 0;
    while n < |order|
      invariant 0 <= n <= |order|
      invariant Assigned(dependsOn, closure, order, n, lanes, owners)
    {
      hide Owned, AllChains, DependenciesFirst, Extendable;
      var issue := order[n];
      PredecessorsPlaced(dependsOn, closure, order, n);
      var tails := TailsByOwner(lanes, owners, Predecessors(dependsOn, closure, issue));
      if tails != {} {
        AssignToTail(dependsOn, closure, order, n, lanes, owners, tails);
        var lane := owners[Least(tails)];
        owners := owners[issue := lane];
        lanes := lanes[lane := lanes[lane] + [issue]];
      } else {
        AssignNew(dependsOn, closure, order, n, lanes, owners);
        owners := owners[issue := |lanes|];
        lanes := lanes + [[issue]];
      }
      n := n + 1;
    }
    assert order[..n] == order;
  }

  lemma PlaceAllStep(dependsOn: Graph, closure: set<nat>, order: seq<nat>, n: nat)
    requires n < |order|
    ensures PlaceAll(dependsOn, closure, order[..n + 1]) ==
      Place(PlaceAll(dependsOn, closure, order[..n]), Predecessors(dependsOn, closure, order[n]), order[n])
  {
    assert order[..n + 1][..n] == order[..n];
  }

  /** The owner table answers which predecessors are still tails. */
  function TailsByOwner(lanes: seq<Lane>, owners: map<nat, nat>, predecessors: set<nat>): (tails: set<nat>)
    requires Owned(lanes, owners) && predecessors <= owners.Keys
    ensures tails == Extendable(lanes, predecessors)
  {
    assert forall p :: p in predecessors ==> (IsTail(lanes, p) <==> EndsIn(lanes[owners[p]], p)) by {
      forall p | p in predecessors ensures IsTail(lanes, p) <==> EndsIn(lanes[owners[p]], p) {
      }
    }
    set p | p in predecessors && EndsIn(lanes[owners[p]], p)
  }

  lemma ExtendedChains(dependsOn: Graph, closure: set<nat>, lanes: seq<Lane>, i: nat, tail: nat, issue: nat)
    requires AllChains(Dependants(dependsOn, closure), lanes) && i < |lanes| && EndsIn(lanes[i], tail)
    requires issue in closure && tail in Predecessors(dependsOn, closure, issue)
    ensures AllChains(Dependants(dependsOn, closure), lanes[i := lanes[i] + [issue]])
  {
    var g := Dependants(dependsOn, closure);
    assert Edge(g, tail, issue);
    var lane := lanes[i] + [issue];
    forall k | 0 <= k < |lane| - 1 ensures Edge(g, lane[k], lane[k + 1]) {
      if k < |lanes[i]| - 1 {
        assert Edge(g, lanes[i][k], lanes[i][k + 1]);
      }
    }
    assert Chain(g, lane);
  }

  /** None stands for the error on a cyclic component. */
  method DecomposeLanes(dependsOn: Graph, closure: set<nat>) returns (plan: Option<seq<Lane>>)
    requires closure <= dependsOn.Keys
    ensures plan.Some? <==> Acyclic(Induced(Dependants(dependsOn, closure), closure))
    ensures plan.Some? ==>
      plan.value == PlaceAll(dependsOn, closure, Order(Dependants(dependsOn, closure), closure, {}))
    ensures plan.Some? ==> PathCover(Dependants(dependsOn, closure), closure, plan.value)
  {
    var g := Dependants(dependsOn, closure);
    var order := Sort(g, closure);
    OrderCoversIffAcyclic(g, closure);
    if |order| != |closure| {
      return None;
    }
    OrderIsDistinct(g, closure, {});
    forall i, u | 0 <= i < |order| && u in Predecessors(dependsOn, closure, order[i]) ensures u in order[..i] {
      assert order[i] in Elements(order);
      assert Edge(g, u, order[i]);
      OrderRespectsEdges(g, closure, {}, i, u);
    }
    var lanes := AssignLanes(dependsOn, closure, order);
    return Some(lanes);
  }

  // ------------------------------------------------------- recovering a lane

  ghost predicate PathOf(g: Graph, issues: set<nat>, lane: Lane) {
    Distinct(lane) && Elements(lane) == issues && Chain(g, lane)
  }

  lemma ChainReaches(g: Graph, lane: Lane, nodes: set<nat>, i: nat, j: nat)
    requires Chain(g, lane) && Elements(lane) <= nodes && i <= j < |lane|
    ensures Reach(Induced(g, nodes), lane[i], lane[j])
  {
    var k := i;
    ReachSelf(Induced(g, nodes), lane[i]);
    while k < j
      invariant i <= k <= j && Reach(Induced(g, nodes), lane[i], lane[k])
    {
      assert lane[k] in Elements(lane) && lane[k + 1] in Elements(lane);
      assert Edge(g, lane[k], lane[k + 1]);
      ReachThenEdge(Induced(g, nodes), lane[i], lane[k], lane[k + 1]);
      k := k + 1;
    }
  }

  /** Along a path of an acyclic graph exactly one node is ready at a time. */
  lemma OnlyNextIsReady(g: Graph, issues: set<nat>, lane: Lane, k: nat)
    requires issues <= g.Keys && Acyclic(Induced(g, issues)) && PathOf(g, issues, lane) && k < |lane|
    ensures Ready(g, issues, Elements(lane[..k])) == {lane[k]}
  {
    var done := Elements(lane[..k]);
    assert lane[k] in Elements(lane);
    forall u | u in issues && Edge(g, u, lane[k]) ensures u in done {
      assert u in Elements(lane);
      var j :| 0 <= j < |lane| && lane[j] == u;
      assert Edge(Induced(g, issues), u, lane[k]);
      if k <= j {
        ChainReaches(g, lane, issues, k, j);
      }
    }
    forall v | v in issues && v !in done && v != lane[k] ensures OpenPredecessors(g, issues, done, v) != {} {
      assert v in Elements(lane);
      var j :| 0 <= j < |lane| && lane[j] == v;
      var i: nat := j - 1;
      assert Edge(g, lane[i], lane[i + 1]) && lane[i] in Elements(lane);
      assert lane[i] in OpenPredecessors(g, issues, done, v);
    }
  }

  lemma {:induction false} OrderFollowsPath(g: Graph, issues: set<nat>, lane: Lane, k: nat)
    requires issues <= g.Keys && Acyclic(Induced(g, issues)) && PathOf(g, issues, lane) && k <= |lane|
    ensures Order(g, issues, Elements(lane[..k])) == lane[k..]
    decreases |lane| - k
  {
    if k == |lane| {
      assert lane[..k] == lane;
      assert Ready(g, issues, issues) == {};
    } else {
      OnlyNextIsReady(g, issues, lane, k);
      PrefixStep(lane, k);
      OrderFollowsPath(g, issues, lane, k + 1);
      assert lane[k..] == [lane[k]] + lane[k + 1..];
    }
  }

  /** A path through an acyclic set of issues is determined by the set. */
  lemma PathIsUnique(g: Graph, issues: set<nat>, lane: Lane)
    requires issues <= g.Keys && Acyclic(Induced(g, issues)) && PathOf(g, issues, lane)
    ensures Order(g, issues, {}) == lane
  {
    OrderFollowsPath(g, issues, lane, 0);
    assert lane[..0] == [] && lane[0..] == lane;
    assert Elements(lane[..0]) == {};
  }

  /** None stands for both errors: a cycle, or an order that is not a path. */
  method LanePath(issues: set<nat>, outgoing: Graph) returns (lane: Option<Lane>)
    requires issues <= outgoing.Keys
    ensures forall p :: lane == Some(p) <==> Acyclic(Induced(outgoing, issues)) && PathOf(outgoing, issues, p)
  {
    var order := Sort(outgoing, issues);
    OrderCoversIffAcyclic(outgoing, issues);
    OrderIsDistinct(outgoing, issues, {});
    forall p | Acyclic(Induced(outgoing, issues)) && PathOf(outgoing, issues, p) ensures p == order {
      PathIsUnique(outgoing, issues, p);
    }
    if |order| != |issues| {
      return None;
    }
    var k := 0;
    while k + 1 < |order|
      invariant 0 <= k
      invariant forall j :: 0 <= j < k && j < |order| - 1 ==> Edge(outgoing, order[j], order[j + 1])
    {
      if !Edge(outgoing, order[k], order[k + 1]) {
        return None;
      }
      k := k + 1;
    }
    return Some(order);
  }

  /** Each lane of a decomposition is recovered from its unordered issue set,
      in any acyclic graph that contains the component's dependency edges. */
  lemma LanesAreRecoverable(dependsOn: Graph, closure: set<nat>, lanes: seq<Lane>, outgoing: Graph, i: nat)
    requires closure <= outgoing.Keys && Acyclic(outgoing)
    requires forall u, v :: Edge(Dependants(dependsOn, closure), u, v) ==> Edge(outgoing, u, v)
    requires PathCover(Dependants(dependsOn, closure), closure, lanes) && i < |lanes|
    ensures Elements(lanes[i]) <= closure
    ensures PathOf(outgoing, Elements(lanes[i]), lanes[i])
    ensures Order(outgoing, Elements(lanes[i]), {}) == lanes[i]
  {
    var owners: map<nat, nat> :| owners.Keys == closure && Owned(lanes, owners);
    forall x | x in Elements(lanes[i]) ensures x in closure {
      var k :| 0 <= k < |lanes[i]| && lanes[i][k] == x;
      assert lanes[i][k] in owners;
    }
    assert Chain(Dependants(dependsOn, closure), lanes[i]);
    AcyclicSubgraph(Induced(outgoing, Elements(lanes[i])), outgoing);
    PathIsUnique(outgoing, Elements(lanes[i]), lanes[i]);
  }
}
