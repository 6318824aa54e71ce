/** Selection to named lanes: traversal, completed issues, path cover, and back. */
module LanePlan {
  import opened Collections
  import opened Digraph
  import opened Connectivity
  import opened Lanes
  import opened TopologicalOrder
  import opened Traversal
  import LaneNames
  import Projection

  datatype NamedLane = NamedLane(name: string, issues: Lane)

  datatype Plan = Plan(closure: seq<nat>, lanes: seq<NamedLane>)

  datatype Outcome = UnknownIssue | Cyclic | Planned(plan: Plan)

  /** The visible issues that are still open. */
  ghost predicate IsClosure(graph: Relations, selected: set<nat>, completed: set<nat>, policy: Budget, context: Context,
                            closure: set<nat>)
    requires graph.Valid()
  {
    forall i: nat :: i in closure <==> Visible(graph, selected, policy, context, i) && i !in completed
  }

  ghost predicate Names(lanes: seq<NamedLane>, issues: seq<Lane>) {
    |lanes| == |issues|
    && forall k :: 0 <= k < |lanes| ==> lanes[k] == NamedLane(LaneNames.Letters(k + 1), issues[k])
  }

  /** A plan covers the closure with named paths, every issue once. */
  ghost predicate Covers(graph: Relations, plan: Plan, closure: set<nat>) {
    && plan.closure == Ascending(closure)
    && exists issues :: Names(plan.lanes, issues) && PathCover(Dependants(graph.dependsOn, closure), closure, issues)
  }

  ghost predicate NoCycle(graph: Relations, closure: set<nat>) {
    Acyclic(Induced(Dependants(graph.dependsOn, closure), closure))
  }

  lemma ReachedIsKnown(graph: Relations, selected: set<nat>, policy: Budget, s: State)
    requires graph.Valid() && selected <= graph.kinds.Keys && Reachable(graph, selected, policy, s)
    ensures s.issue in graph.kinds
  {
    var r := Moves(graph, selected, policy);
    var a :| a in Starts(selected, policy) && Connected(r, a, s);
    var p: seq<State> :| Trail(r, p) && p[0] == a && p[|p| - 1] == s;
    var i := 0;
    while i < |p| - 1
      invariant 0 <= i < |p| && p[i].issue in graph.kinds
    {
      assert r(p[i + 1 - 1], p[i + 1]);
      i := i + 1;
    }
  }

  lemma VisibleIsKnown(graph: Relations, selected: set<nat>, policy: Budget, context: Context, issue: nat)
    requires graph.Valid() && selected <= graph.kinds.Keys && Visible(graph, selected, policy, context, issue)
    ensures issue in graph.dependsOn
  {
    hide Reachable, Cross, Matches;
    var s :| Reachable(graph, selected, policy, s)
      && (s.issue == issue
          || (ShowsChildren(graph, selected, policy, context, s) && issue in Neighbours(graph, s.issue)));
    ReachedIsKnown(graph, selected, policy, s);
  }

  method DecomposeLanes(graph: Relations, selected: set<nat>, completed: set<nat>, policy: Budget, context: Context)
    returns (outcome: Outcome)
    requires graph.Valid()
    ensures outcome.UnknownIssue? <==> !(selected <= graph.kinds.Keys)
    ensures outcome.Cyclic? ==> exists closure: set<nat> ::
      IsClosure(graph, selected, completed, policy, context, closure) && !NoCycle(graph, closure)
    ensures outcome.Planned? ==> exists closure: set<nat> ::
      && IsClosure(graph, selected, completed, policy, context, closure)
      && NoCycle(graph, closure) && Covers(graph, outcome.plan, closure)
  {
    hide Visible, Acyclic, PathCover, Ascending, Increasing, Cross, Matches, Names, Order, PlaceAll, Dependants;
    var component := DependencyComponent(graph, selected, policy, context);
    if component.None? {
      return UnknownIssue;
    }
    var closure := Elements(component.value) - completed;
    assert IsClosure(graph, selected, completed, policy, context, closure);
    forall i: nat | i in closure ensures i in graph.dependsOn {
      VisibleIsKnown(graph, selected, policy, context, i);
    }
    var lanes := Lanes.DecomposeLanes(graph.dependsOn, closure);
    if lanes.None? {
      return Cyclic;
    }
    var named := NameLanes(lanes.value);
    assert Covers(graph, Plan(Ascending(closure), named), closure);
    return Planned(Plan(Ascending(closure), named));
  }

  method NameLanes(issues: seq<Lane>) returns (named: seq<NamedLane>)
    ensures Names(named, issues)
  {
    hide LaneNames.Letters;
    named := [];
    while |named| < |issues|
      invariant |named| <= |issues| && Names(named, issues[..|named|])
    {
      var name := LaneNames.LaneName(|named|);
      named := named + [NamedLane(name, issues[|named|])];
    }
    assert issues[..|named|] == issues;
  }

  // ------------------------------------------------------- planned lanes are drawn

  /** Each open issue with the name of its lane. */
  ghost predicate IsAssignment(plan: Plan, closure: set<nat>, assignment: map<nat, string>) {
    && assignment.Keys == closure
    && forall k, i: nat :: 0 <= k < |plan.lanes| && i in plan.lanes[k].issues ==>
         i in assignment && assignment[i] == plan.lanes[k].name
  }

  /** The projection accepts every plan: names are valid and each lane is a path again. */
  lemma PlanIsProjected(graph: Relations, plan: Plan, closure: set<nat>, assignment: map<nat, string>)
    requires graph.Valid() && Covers(graph, plan, closure) && IsAssignment(plan, closure, assignment)
    requires NoCycle(graph, closure)
    ensures Projection.NamesOk(closure, assignment)
    ensures Projection.LanesArePaths(Dependants(graph.dependsOn, closure), closure,
                                     Projection.LaneNumbers(closure, assignment))
  {
    hide Acyclic, PathCover, Ascending, Projection.HasPath, LaneNames.Letters, LaneNames.Key, LaneNames.IsName,
         NoCycle, Names, IsAssignment, Projection.Members;
    var g := Dependants(graph.dependsOn, closure);
    assert Acyclic(g) by { InducedIsAll(graph, closure); }
    var issues :| Names(plan.lanes, issues) && PathCover(g, closure, issues);
    forall v: nat | v in closure ensures v in assignment && LaneNames.IsName(assignment[v]) {
      var k := LaneOf(g, closure, issues, v);
      NumberOfMember(graph, plan, closure, assignment, issues, k, v);
    }
    var numbers := Projection.LaneNumbers(closure, assignment);
    forall l: nat | l in Projection.Used(closure, numbers)
      ensures Projection.HasPath(g, Projection.Members(closure, numbers, l))
    {
      var v: nat :| v in closure && numbers[v] == l;
      var k := LaneOf(g, closure, issues, v);
      NumberOfMember(graph, plan, closure, assignment, issues, k, v);
      MembersOfLane(graph, plan, closure, assignment, issues, k);
      LaneHasPath(graph, closure, issues, k);
    }
  }

  lemma InducedIsAll(graph: Relations, closure: set<nat>)
    requires NoCycle(graph, closure)
    ensures Acyclic(Dependants(graph.dependsOn, closure))
  {
    hide Acyclic;
    var g := Dependants(graph.dependsOn, closure);
    forall u | u in g ensures Induced(g, closure)[u] == g[u] {
      assert g[u] * closure == g[u];
    }
    assert Induced(g, closure) == g;
  }

  lemma LaneOf(g: Graph, closure: set<nat>, issues: seq<Lane>, v: nat) returns (k: nat)
    requires PathCover(g, closure, issues) && v in closure
    ensures k < |issues| && v in issues[k]
  {
    var owners: map<nat, nat> :| owners.Keys == closure && Owned(issues, owners);
    k := owners[v];
  }

  /** A member of the k-th lane carries its number. */
  lemma NumberOfMember(graph: Relations, plan: Plan, closure: set<nat>, assignment: map<nat, string>, issues: seq<Lane>,
                       k: nat, v: nat)
    requires Names(plan.lanes, issues) && PathCover(Dependants(graph.dependsOn, closure), closure, issues)
    requires IsAssignment(plan, closure, assignment) && k < |issues| && v in issues[k]
    ensures v in closure && v in assignment && LaneNames.IsName(assignment[v]) && LaneNames.Key(assignment[v]) == k + 1
  {
    hide PathCover, LaneNames.Letters, LaneNames.Key, LaneNames.IsName, Dependants;
    InClosure(Dependants(graph.dependsOn, closure), closure, issues, k, v);
    assert v in plan.lanes[k].issues;
    LaneNames.KeyOfLetters(k + 1);
  }

  lemma MembersOfLane(graph: Relations, plan: Plan, closure: set<nat>, assignment: map<nat, string>,
                      issues: seq<Lane>, k: nat)
    requires Names(plan.lanes, issues) && PathCover(Dependants(graph.dependsOn, closure), closure, issues)
      && k < |issues|
    requires IsAssignment(plan, closure, assignment) && Projection.NamesOk(closure, assignment)
    ensures Projection.Members(closure, Projection.LaneNumbers(closure, assignment), k + 1) == Elements(issues[k])
  {
    hide PathCover, LaneNames.Key, LaneNames.IsName, Dependants, Names, IsAssignment;
    var numbers := Projection.LaneNumbers(closure, assignment);
    forall v: nat ensures v in Projection.Members(closure, numbers, k + 1) <==> v in Elements(issues[k]) {
      if v in closure {
        var l := LaneOf(Dependants(graph.dependsOn, closure), closure, issues, v);
        NumberOfMember(graph, plan, closure, assignment, issues, l, v);
      }
      if v in issues[k] {
        NumberOfMember(graph, plan, closure, assignment, issues, k, v);
      }
    }
  }

  lemma InClosure(g: Graph, closure: set<nat>, issues: seq<Lane>, k: nat, v: nat)
    requires PathCover(g, closure, issues) && k < |issues| && v in issues[k]
    ensures v in closure
  {
    var owners: map<nat, nat> :| owners.Keys == closure && Owned(issues, owners);
    var i :| 0 <= i < |issues[k]| && issues[k][i] == v;
    assert issues[k][i] in owners;
  }

  lemma LaneHasPath(graph: Relations, closure: set<nat>, issues: seq<Lane>, k: nat)
    requires PathCover(Dependants(graph.dependsOn, closure), closure, issues) && k < |issues|
    requires Acyclic(Dependants(graph.dependsOn, closure))
    ensures Projection.HasPath(Dependants(graph.dependsOn, closure), Elements(issues[k]))
  {
    hide Acyclic, PathCover;
    var g := Dependants(graph.dependsOn, closure);
    LanesAreRecoverable(graph.dependsOn, closure, issues, g, k);
    AcyclicSubgraph(Induced(g, Elements(issues[k])), g);
  }
}
