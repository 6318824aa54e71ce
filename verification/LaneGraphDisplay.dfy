/** From dependencies to lines on the screen: what the whole lane display shows. */
module LaneGraphDisplay {
  import opened Connectivity
  import opened Digraph
  import opened Projection
  import DR = RouteDrawing
  import GG = GroupGraph
  import LB = LayoutBuilder
  import LN = Lanes
  import RR = RenderedReachability
  import SG = SiblingGroups

  /** Some line of the drawing leads from one label to the other. */
  ghost function Lines(paths: RR.Paths): (GG.Label, GG.Label) -> bool {
    (a, b) => DR.EdgeKey(a, b) in paths
  }

  /** A projection of the visible dependencies that was laid out. */
  ghost predicate Displays(dependsOn: Graph, visible: set<nat>, assignment: map<nat, nat>, text: Text, p: Projected,
                           orders: seq<LN.Lane>, keep: set<(nat, nat)>, plan: LB.Plan)
  {
    && visible <= assignment.Keys && text.Keys == visible && SG.UniqueText(visible, text)
    && Acyclic(LN.Dependants(dependsOn, visible))
    && Projects(LN.Dependants(dependsOn, visible), visible, assignment, text, p, orders, keep)
    && LB.IsSetting(p.groups, p.lanes, plan.setting) && LB.Finished(plan)
  }

  /** Walking along lines from label to label, two issues are connected in the finished
      drawing exactly when one depends on the other, directly or through visible issues. */
  lemma DrawingShowsDependencies(dependsOn: Graph, visible: set<nat>, assignment: map<nat, nat>, text: Text,
                                 p: Projected, orders: seq<LN.Lane>, keep: set<(nat, nat)>, plan: LB.Plan)
    returns (paths: RR.Paths)
    requires Displays(dependsOn, visible, assignment, text, p, orders, keep, plan)
    ensures LB.ShowsRelation(p.groups, plan, paths)
    ensures forall u, v :: u in visible && v in visible ==>
      (Connected(Lines(paths), text[u], text[v]) <==> Reach(LN.Dependants(dependsOn, visible), u, v))
  {
    hide Acyclic, Reach, LB.IsSetting, LB.Finished, GG.Related, SG.UniqueText, LN.Dependants, Faithful;
    paths := LB.FinishedShowsRelation(p.groups, p.lanes, plan);
    DependantsAreClosed(dependsOn, visible);
    LinesAreRelation(p.groups, plan, paths);
    forall u, v | u in visible && v in visible
      ensures Connected(Lines(paths), text[u], text[v]) <==> Reach(LN.Dependants(dependsOn, visible), u, v)
    {
      ProjectionKeepsReachability(LN.Dependants(dependsOn, visible), keep, p.groups, text, u, v);
      SameConnections(p.groups, paths, text[u], text[v]);
    }
  }

  lemma LinesAreRelation(groups: seq<GG.Siblings>, plan: LB.Plan, paths: RR.Paths)
    requires LB.ShowsRelation(groups, plan, paths)
    ensures forall a, b :: Lines(paths)(a, b) <==> Relation(groups)(a, b)
  {
    hide GG.Related, RR.WellFormed, LB.LineLeads, LB.Targets;
  }

  lemma SameConnections(groups: seq<GG.Siblings>, paths: RR.Paths, a: GG.Label, b: GG.Label)
    requires forall x, y :: Lines(paths)(x, y) <==> Relation(groups)(x, y)
    ensures Connected(Lines(paths), a, b) <==> Connected(Relation(groups), a, b)
  {
    hide Lines, Relation;
    if Connected(Lines(paths), a, b) {
      var t: seq<GG.Label> :| Trail(Lines(paths), t) && t[0] == a && t[|t| - 1] == b;
      assert Trail(Relation(groups), t);
    }
    if Connected(Relation(groups), a, b) {
      var t: seq<GG.Label> :| Trail(Relation(groups), t) && t[0] == a && t[|t| - 1] == b;
      assert Trail(Lines(paths), t);
    }
  }
}
