/** Where the budgets of a traversal go: exact accounting over walks. */
module Spending {
  import opened Connectivity
  import opened Traversal

  /** Issues, each a dependency or a dependant of the one before. */
  ghost predicate Walk(graph: Relations, walk: seq<nat>) {
    && walk != [] && (forall k :: 0 <= k < |walk| ==> walk[k] in graph.dependsOn)
    && forall k :: 0 < k < |walk| ==>
         walk[k] in graph.dependsOn[walk[k - 1]] || walk[k - 1] in graph.dependsOn[walk[k]]
  }

  /** How many unselected tickets of these kinds the first `n` issues of a walk are. */
  ghost function Passed(graph: Relations, selected: set<nat>, walk: seq<nat>, n: nat, kinds: set<Kind>): nat
    requires n <= |walk| && forall k :: 0 <= k < |walk| ==> walk[k] in graph.kinds
  {
    if n == 0 then 0 else
      Passed(graph, selected, walk, n - 1, kinds)
      + (if walk[n - 1] !in selected && graph.kinds[walk[n - 1]] in kinds then 1 else 0)
  }

  /** What is left of the policy when the issues before the last one are paid: a group
      budget pays for all kinds of group tickets, otherwise each kind has its own. */
  ghost predicate Paid(graph: Relations, selected: set<nat>, policy: Budget, walk: seq<nat>, left: Budget)
    requires graph.Valid() && Walk(graph, walk)
  {
    if policy.group > 0 then
      && left.group + Passed(graph, selected, walk, |walk| - 1, {Feature, Epic, Initiative}) == policy.group
      && left.feature == policy.feature && left.epic == policy.epic && left.initiative == policy.initiative
    else
      && left.feature + Passed(graph, selected, walk, |walk| - 1, {Feature}) == policy.feature
      && left.epic + Passed(graph, selected, walk, |walk| - 1, {Epic}) == policy.epic
      && left.initiative + Passed(graph, selected, walk, |walk| - 1, {Initiative}) == policy.initiative
      && left.group == policy.group
  }

  /** A walk from a selected issue that the policy can pay. */
  ghost predicate Affords(graph: Relations, selected: set<nat>, policy: Budget, walk: seq<nat>, s: State)
    requires graph.Valid()
  {
    && Walk(graph, walk) && walk[0] in selected && walk[|walk| - 1] == s.issue
    && Paid(graph, selected, policy, walk, s.remaining)
  }

  lemma {:induction false} PassedSnoc(graph: Relations, selected: set<nat>, walk: seq<nat>, v: nat, n: nat,
                                      kinds: set<Kind>)
    requires n <= |walk| && v in graph.kinds && forall k :: 0 <= k < |walk| ==> walk[k] in graph.kinds
    ensures Passed(graph, selected, walk + [v], n, kinds) == Passed(graph, selected, walk, n, kinds)
  {
    if n > 0 {
      PassedSnoc(graph, selected, walk, v, n - 1, kinds);
    }
  }

  /** The toll of the last issue, for every set of kinds. */
  lemma Toll(graph: Relations, selected: set<nat>, walk: seq<nat>, v: nat, kinds: set<Kind>)
    requires graph.Valid() && Walk(graph, walk) && v in graph.kinds
    ensures var u := walk[|walk| - 1];
      Passed(graph, selected, walk + [v], |walk|, kinds) == Passed(graph, selected, walk, |walk| - 1, kinds)
        + (if u !in selected && graph.kinds[u] in kinds then 1 else 0)
  {
    PassedSnoc(graph, selected, walk, v, |walk| - 1, kinds);
  }

  /** One step of the traversal is one paid step of a walk. */
  lemma StepIsPaid(graph: Relations, selected: set<nat>, policy: Budget, walk: seq<nat>, s: State, t: State)
    requires graph.Valid() && Affords(graph, selected, policy, walk, s) && t.issue in graph.kinds
    ensures t in Successors(graph, selected, policy, s) <==> Affords(graph, selected, policy, walk + [t.issue], t)
  {
    hide Passed;
    var longer := walk + [t.issue];
    assert Walk(graph, longer) <==> t.issue in Neighbours(graph, s.issue) by { WalkSnoc(graph, walk, t.issue); }
    Toll(graph, selected, walk, t.issue, {Feature, Epic, Initiative});
    Toll(graph, selected, walk, t.issue, {Feature});
    Toll(graph, selected, walk, t.issue, {Epic});
    Toll(graph, selected, walk, t.issue, {Initiative});
  }

  lemma WalkSnoc(graph: Relations, walk: seq<nat>, v: nat)
    requires graph.Valid() && Walk(graph, walk) && v in graph.kinds
    ensures Walk(graph, walk + [v]) <==> v in Neighbours(graph, walk[|walk| - 1])
  {
    var longer := walk + [v];
    assert longer[|walk|] == v && longer[|walk| - 1] == walk[|walk| - 1];
  }

  /** A shorter walk never costs more. */
  lemma StillAffords(graph: Relations, selected: set<nat>, policy: Budget, walk: seq<nat>, v: nat, t: State)
    returns (s: State)
    requires graph.Valid() && walk != [] && Affords(graph, selected, policy, walk + [v], t)
    ensures Affords(graph, selected, policy, walk, s)
  {
    hide Passed;
    var longer := walk + [v];
    assert forall k :: 0 <= k < |walk| ==> walk[k] == longer[k];
    var n := |walk| - 1;
    assert v in graph.kinds && longer[|walk|] == v;
    forall kinds ensures Passed(graph, selected, walk, n, kinds) <= Passed(graph, selected, longer, |walk|, kinds) {
      Toll(graph, selected, walk, v, kinds);
    }
    var left := if policy.group > 0
      then policy.(group := policy.group - Passed(graph, selected, walk, n, {Feature, Epic, Initiative}))
      else Budget(policy.group, policy.feature - Passed(graph, selected, walk, n, {Feature}),
                  policy.epic - Passed(graph, selected, walk, n, {Epic}),
                  policy.initiative - Passed(graph, selected, walk, n, {Initiative}));
    s := State(walk[n], left);
  }

  lemma {:induction false} AffordedIsReached(graph: Relations, selected: set<nat>, policy: Budget, walk: seq<nat>,
                                             s: State)
    requires graph.Valid() && Affords(graph, selected, policy, walk, s)
    ensures Reachable(graph, selected, policy, s)
    decreases |walk|
  {
    hide Paid, FromSome;
    if |walk| == 1 {
      assert s == State(walk[0], policy) by { NothingPaid(graph, selected, policy, walk, s); }
      FromSomeStart(Moves(graph, selected, policy), Starts(selected, policy), s);
    } else {
      var front, v := walk[..|walk| - 1], walk[|walk| - 1];
      assert walk == front + [v];
      var before := StillAffords(graph, selected, policy, front, v, s);
      AffordedIsReached(graph, selected, policy, front, before);
      StepIsPaid(graph, selected, policy, front, before, s);
      FromSomeStep(Moves(graph, selected, policy), Starts(selected, policy), before, s);
    }
  }

  lemma NothingPaid(graph: Relations, selected: set<nat>, policy: Budget, walk: seq<nat>, s: State)
    requires graph.Valid() && Affords(graph, selected, policy, walk, s) && |walk| == 1
    ensures s == State(walk[0], policy)
  {
  }

  lemma ReachedIsAfforded(graph: Relations, selected: set<nat>, policy: Budget, s: State) returns (walk: seq<nat>)
    requires graph.Valid() && selected <= graph.kinds.Keys && Reachable(graph, selected, policy, s)
    ensures Affords(graph, selected, policy, walk, s)
  {
    hide Paid;
    var r := Moves(graph, selected, policy);
    var a :| a in Starts(selected, policy) && Connected(r, a, s);
    var p: seq<State> :| Trail(r, p) && p[0] == a && p[|p| - 1] == s;
    walk := [a.issue];
    assert Affords(graph, selected, policy, walk, a) by { StartIsAfforded(graph, selected, policy, a); }
    var i := 0;
    while i < |p| - 1
      invariant 0 <= i < |p| && Affords(graph, selected, policy, walk, p[i])
    {
      assert r(p[i + 1 - 1], p[i + 1]);
      StepIsPaid(graph, selected, policy, walk, p[i], p[i + 1]);
      walk := walk + [p[i + 1].issue];
      i := i + 1;
    }
  }

  lemma StartIsAfforded(graph: Relations, selected: set<nat>, policy: Budget, a: State)
    requires graph.Valid() && selected <= graph.kinds.Keys && a in Starts(selected, policy)
    ensures Affords(graph, selected, policy, [a.issue], a)
  {
  }

  /** A state is returned exactly when some walk from a selected issue leaves exactly its
      budget: every unselected group ticket behind the state is paid from the budget of its
      own kind, or from the group budget. */
  lemma ReachedIffPaid(graph: Relations, selected: set<nat>, policy: Budget, s: State)
    requires graph.Valid() && selected <= graph.kinds.Keys
    ensures Reachable(graph, selected, policy, s) <==> exists walk :: Affords(graph, selected, policy, walk, s)
  {
    hide Affords, Reachable;
    if Reachable(graph, selected, policy, s) {
      var walk := ReachedIsAfforded(graph, selected, policy, s);
    }
    if walk :| Affords(graph, selected, policy, walk, s) {
      AffordedIsReached(graph, selected, policy, walk, s);
    }
  }

  /** A group ticket that nothing is left for, of a kind whose children are asked for. */
  predicate AtLimit(selected: set<nat>, policy: Budget, context: Context, kind: Kind, s: State) {
    && s.issue !in selected && (policy.group > 0 ==> s.remaining.group == 0)
    && (|| (kind == Feature && (context.group || context.feature) && (policy.group > 0 || s.remaining.feature == 0))
        || (kind == Epic && (context.group || context.epic) && (policy.group > 0 || s.remaining.epic == 0))
        || (kind == Initiative && (context.group || context.initiative)
            && (policy.group > 0 || s.remaining.initiative == 0)))
  }

  ghost predicate SeenAlong(graph: Relations, selected: set<nat>, policy: Budget, context: Context, walk: seq<nat>,
                            s: State, issue: nat)
    requires graph.Valid()
  {
    && Affords(graph, selected, policy, walk, s)
    && (s.issue == issue
        || (AtLimit(selected, policy, context, graph.kinds[s.issue], s) && issue in graph.dependsOn
            && (issue in graph.dependsOn[s.issue] || s.issue in graph.dependsOn[issue])))
  }

  /** An issue is visible exactly when an affordable walk ends at it, or at a group ticket
      next to it whose budget is used up and whose children are asked for. */
  lemma VisibleIffSeen(graph: Relations, selected: set<nat>, policy: Budget, context: Context, issue: nat)
    requires graph.Valid() && selected <= graph.kinds.Keys
    ensures Visible(graph, selected, policy, context, issue) <==>
      exists walk, s :: SeenAlong(graph, selected, policy, context, walk, s, issue)
  {
    hide Affords, Reachable;
    if Visible(graph, selected, policy, context, issue) {
      var s :| Reachable(graph, selected, policy, s)
        && (s.issue == issue
            || (ShowsChildren(graph, selected, policy, context, s) && issue in Neighbours(graph, s.issue)));
      ReachedIffPaid(graph, selected, policy, s);
      var walk :| Affords(graph, selected, policy, walk, s);
      assert SeenAlong(graph, selected, policy, context, walk, s, issue);
    }
    if walk, s :| SeenAlong(graph, selected, policy, context, walk, s, issue) {
      ReachedIffPaid(graph, selected, policy, s);
      EndIsKnown(graph, selected, policy, walk, s);
    }
  }

  lemma EndIsKnown(graph: Relations, selected: set<nat>, policy: Budget, walk: seq<nat>, s: State)
    requires graph.Valid() && Affords(graph, selected, policy, walk, s)
    ensures s.issue in graph.kinds
  {
  }
}
