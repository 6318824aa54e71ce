/** Depth-first cycle check of the relationship schema and of the group graph. */
module CycleCheck {
  import opened Collections
  import opened Digraph

  /** Finished nodes: nothing leads out of them and no cycle lies inside. */
  ghost predicate Finished(g: Graph, visited: set<nat>) {
    visited <= g.Keys && forall u, w :: u in visited && Edge(g, u, w) ==> w in visited && !Reach(g, w, u)
  }

  /** The nodes being visited are the walk that led to `v`. */
  ghost predicate LeadsTo(g: Graph, stack: seq<nat>, visiting: set<nat>, v: nat) {
    && Elements(stack) == visiting
    && (stack != [] ==> Walk(g, stack) && Edge(g, stack[|stack| - 1], v))
  }

  lemma BackEdgeIsCycle(g: Graph, stack: seq<nat>, visiting: set<nat>, v: nat)
    requires LeadsTo(g, stack, visiting, v) && v in visiting
    ensures !Acyclic(g)
  {
    var i :| 0 <= i < |stack| && stack[i] == v;
    WalkSplit(g, stack, i);
  }

  lemma DescendTo(g: Graph, stack: seq<nat>, visiting: set<nat>, v: nat, w: nat)
    requires LeadsTo(g, stack, visiting, v) && Edge(g, v, w)
    ensures LeadsTo(g, stack + [v], visiting + {v}, w)
  {
    ElementsOfSnoc(stack, v);
    var longer := stack + [v];
    forall i | 0 <= i < |longer| - 1 ensures Edge(g, longer[i], longer[i + 1]) {
      if i < |stack| - 1 {
        assert Edge(g, stack[i], stack[i + 1]);
      }
    }
  }

  lemma FinishNode(g: Graph, visited: set<nat>, v: nat)
    requires Finished(g, visited) && v in g && v !in visited && g[v] <= visited
    ensures Finished(g, visited + {v})
  {
    forall u, w | u in visited + {v} && Edge(g, u, w) ensures w in visited + {v} && !Reach(g, w, u) {
      if u == v && Reach(g, w, u) {
        ReachStaysInside(g, visited, w, u);
      }
    }
  }

  /** False means that a cycle was met. */
  method Visit(g: Graph, v: nat, visiting: set<nat>, visited: set<nat>, ghost stack: seq<nat>)
    returns (ok: bool, after: set<nat>)
    requires Closed(g) && v in g && Finished(g, visited) && visiting !! visited
    requires LeadsTo(g, stack, visiting, v)
    ensures ok ==> v in after && visited <= after && Finished(g, after) && visiting !! after
    ensures !ok ==> !Acyclic(g)
    decreases g.Keys - visiting - visited
  {
    hide Finished, LeadsTo, Acyclic;
    after := visited;
    if v in visiting {
      BackEdgeIsCycle(g, stack, visiting, v);
      return false, after;
    }
    if v in visited {
      return true, after;
    }
    var targets := Ascending(g[v]);
    var i := 0;
    while i < |targets|
      invariant 0 <= i <= |targets|
      invariant visited <= after && Finished(g, after) && visiting + {v} !! after
      invariant Elements(targets[..i]) <= after
    {
      AscendingStep(g[v], i);
      DescendTo(g, stack, visiting, v, targets[i]);
      assert g.Keys - (visiting + {v}) - after < g.Keys - visiting - visited by {
        assert v in g.Keys - visiting - visited;
      }
      ok, after := Visit(g, targets[i], visiting + {v}, after, stack + [v]);
      if !ok {
        return;
      }
      i := i + 1;
    }
    AscendingEnd(g[v]);
    FinishNode(g, after, v);
    return true, after + {v};
  }

  /** Visit every node; the graph is accepted exactly when it has no cycle. */
  method CheckAcyclic(g: Graph) returns (ok: bool)
    requires Closed(g)
    ensures ok <==> Acyclic(g)
  {
    var visited: set<nat> := {};
    var nodes := Ascending(g.Keys);
    var i := 0;
    while i < |nodes|
      invariant 0 <= i <= |nodes| && Finished(g, visited) && Elements(nodes[..i]) <= visited
    {
      AscendingStep(g.Keys, i);
      ok, visited := Visit(g, nodes[i], {}, visited, []);
      if !ok {
        return;
      }
      i := i + 1;
    }
    AscendingEnd(g.Keys);
    return true;
  }

  // ------------------------------------------------------ relationship schema

  datatype SchemaVerdict = WellFormed | SelfDependency | UnknownDependency | Cyclic

  /** Accepts exactly the closed acyclic dependency graphs. */
  method ValidateDependencies(dependsOn: Graph) returns (verdict: SchemaVerdict)
    ensures verdict == WellFormed <==> Closed(dependsOn) && Acyclic(dependsOn)
  {
    var todo := dependsOn.Keys;
    while todo != {}
      invariant todo <= dependsOn.Keys
      invariant forall u, v :: u in dependsOn.Keys - todo && v in dependsOn[u] ==> v in dependsOn
    {
      var issue :| issue in todo;
      if issue in dependsOn[issue] {
        SelfLoopIsCycle(dependsOn, issue);
        return SelfDependency;
      }
      if !(dependsOn[issue] <= dependsOn.Keys) {
        assert exists v :: v in dependsOn[issue] - dependsOn.Keys by {
          var v :| v in dependsOn[issue] && v !in dependsOn.Keys;
          assert v in dependsOn[issue] - dependsOn.Keys;
        }
        return UnknownDependency;
      }
      todo := todo - {issue};
    }
    var ok := CheckAcyclic(dependsOn);
    return if ok then WellFormed else Cyclic;
  }

  lemma SelfLoopIsCycle(g: Graph, v: nat)
    requires Edge(g, v, v)
    ensures !Acyclic(g)
  {
    ReachSelf(g, v);
  }

  /** Not yet done, with every dependency done. */
  predicate IsReady(dependsOn: Graph, done: set<nat>, issue: nat) {
    issue in dependsOn && issue !in done && dependsOn[issue] <= done
  }

  method ReadyIssues(dependsOn: Graph, done: set<nat>) returns (ready: seq<nat>)
    ensures Increasing(ready)
    ensures forall i :: i in Elements(ready) <==> IsReady(dependsOn, done, i)
    ensures forall i :: i in Elements(ready) <==>
      i in dependsOn && i !in done && forall d :: d in dependsOn[i] ==> d in done
  {
    var found := set i | i in dependsOn && IsReady(dependsOn, done, i);
    AscendingIsSorted(found);
    ready := Ascending(found);
  }

  /** Work on an accepted graph never gets stuck. */
  lemma SomethingIsReady(dependsOn: Graph, done: set<nat>, left: nat) returns (issue: nat)
    requires Closed(dependsOn) && Acyclic(dependsOn) && left in dependsOn && left !in done
    ensures IsReady(dependsOn, done, issue) && Reach(dependsOn, left, issue)
  {
    issue := SinkExists(dependsOn, dependsOn.Keys - done, left);
    forall d | d in dependsOn[issue] ensures d in done {
      assert Edge(dependsOn, issue, d);
    }
  }

  ghost function Descendants(g: Graph, nodes: set<nat>, v: nat): set<nat> {
    set u | u in nodes && Reach(g, v, u)
  }

  lemma {:induction false} SinkExists(g: Graph, nodes: set<nat>, v: nat) returns (s: nat)
    requires Acyclic(g) && v in nodes
    ensures s in nodes && Reach(g, v, s)
    ensures forall u :: u in nodes ==> !Edge(g, s, u)
    decreases |Descendants(g, nodes, v)|
  {
    ReachSelf(g, v);
    if u :| u in nodes && Edge(g, v, u) {
      forall a | a in Descendants(g, nodes, u) ensures a in Descendants(g, nodes, v) {
        EdgeThenReach(g, v, u, a);
      }
      assert v !in Descendants(g, nodes, u);
      StrictSubsetSize(Descendants(g, nodes, u), Descendants(g, nodes, v), v);
      s := SinkExists(g, nodes, u);
      EdgeThenReach(g, v, u, s);
    } else {
      s := v;
    }
  }
}
