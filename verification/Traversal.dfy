/** Budgeted traversal of the dependency graph around the selected issues. */
module Traversal {
  import opened Collections
  import opened Digraph
  import opened Connectivity

  /** What the title prefix says: an ordinary ticket or one of three group kinds. */
  datatype Kind = Ticket | Feature | Epic | Initiative

  datatype Budget = Budget(group: nat, feature: nat, epic: nat, initiative: nat)

  datatype State = State(issue: nat, remaining: Budget)

  datatype Context = Context(group: bool, feature: bool, epic: bool, initiative: bool)

  /** A group budget excludes budgets for particular kinds. */
  predicate ValidPolicy(policy: Budget) {
    policy.group > 0 ==> policy.feature == 0 && policy.epic == 0 && policy.initiative == 0
  }

  predicate AtMost(a: Budget, b: Budget) {
    a.group <= b.group && a.feature <= b.feature && a.epic <= b.epic && a.initiative <= b.initiative
  }

  /** Spend one unit to look beyond a group ticket; ordinary tickets are free. */
  function Cross(policy: Budget, kind: Kind, remaining: Budget): Option<Budget> {
    if kind == Ticket then Some(remaining)
    else if policy.group > 0 then
      if remaining.group < 1 then None else Some(remaining.(group := remaining.group - 1))
    else if kind == Feature then
      if remaining.feature < 1 then None else Some(remaining.(feature := remaining.feature - 1))
    else if kind == Epic then
      if remaining.epic < 1 then None else Some(remaining.(epic := remaining.epic - 1))
    else
      if remaining.initiative < 1 then None else Some(remaining.(initiative := remaining.initiative - 1))
  }

  predicate Matches(context: Context, kind: Kind) {
    match kind
    case Ticket => false
    case Feature => context.group || context.feature
    case Epic => context.group || context.epic
    case Initiative => context.group || context.initiative
  }

  predicate Shows(a: Context, b: Context) {
    && (a.group ==> b.group) && (a.feature ==> b.feature) && (a.epic ==> b.epic) && (a.initiative ==> b.initiative)
  }

  /** The synchronized relationships: every dependency is itself an issue. */
  datatype Relations = Relations(kinds: map<nat, Kind>, dependsOn: Graph)
  {
    predicate Valid() {
      && kinds.Keys == dependsOn.Keys
      && forall u, v :: u in dependsOn && v in dependsOn[u] ==> v in dependsOn
    }
  }

  function Neighbours(graph: Relations, issue: nat): set<nat>
    requires graph.Valid() && issue in graph.kinds
  {
    graph.dependsOn[issue] + set v | v in graph.dependsOn && issue in graph.dependsOn[v]
  }

  /** The budget left beyond a state, if the traversal may go on from it. */
  function Beyond(graph: Relations, selected: set<nat>, policy: Budget, s: State): Option<Budget>
    requires s.issue in graph.kinds
  {
    if s.issue in selected then Some(s.remaining) else Cross(policy, graph.kinds[s.issue], s.remaining)
  }

  function Successors(graph: Relations, selected: set<nat>, policy: Budget, s: State): set<State>
    requires graph.Valid()
  {
    if s.issue !in graph.kinds then {} else
      match Beyond(graph, selected, policy, s)
      case None => {}
      case Some(rest) => set v | v in Neighbours(graph, s.issue) :: State(v, rest)
  }

  ghost function Moves(graph: Relations, selected: set<nat>, policy: Budget): (State, State) -> bool
    requires graph.Valid()
  {
    (s, t) => graph.Valid() && t in Successors(graph, selected, policy, s)
  }

  ghost function Starts(selected: set<nat>, policy: Budget): set<State> {
    set i | i in selected :: State(i, policy)
  }

  ghost predicate Reachable(graph: Relations, selected: set<nat>, policy: Budget, s: State)
    requires graph.Valid()
  {
    FromSome(Moves(graph, selected, policy), Starts(selected, policy), s)
  }

  ghost function Universe(graph: Relations, policy: Budget): set<State> {
    set i, g, f, e, n | i in graph.kinds && 0 <= g <= policy.group && 0 <= f <= policy.feature
      && 0 <= e <= policy.epic && 0 <= n <= policy.initiative :: State(i, Budget(g, f, e, n))
  }

  lemma InUniverse(graph: Relations, policy: Budget, s: State)
    ensures s in Universe(graph, policy) <==> s.issue in graph.kinds && AtMost(s.remaining, policy)
  {
    assert s == State(s.issue,
      Budget(s.remaining.group, s.remaining.feature, s.remaining.epic, s.remaining.initiative));
  }

  function Append(pending: seq<State>, visited: set<State>, more: seq<nat>, rest: Budget): seq<State>
    decreases |more|
  {
    if more == [] then pending else
      var next := State(more[0], rest);
      Append(if next in visited || next in pending then pending else pending + [next], visited, more[1..], rest)
  }

  lemma {:induction false} AppendElements(pending: seq<State>, visited: set<State>, more: seq<nat>, rest: Budget)
    ensures Elements(pending) <= Elements(Append(pending, visited, more, rest))
    ensures forall s :: s in Elements(Append(pending, visited, more, rest)) ==>
      s in pending || (s.issue in more && s.remaining == rest)
    ensures forall v :: v in more ==>
      State(v, rest) in visited || State(v, rest) in Elements(Append(pending, visited, more, rest))
    decreases |more|
  {
    if more != [] {
      var next := State(more[0], rest);
      var longer := if next in visited || next in pending then pending else pending + [next];
      AppendElements(longer, visited, more[1..], rest);
      ElementsOfSnoc(pending, next);
    }
  }

  method QueueNeighbours(pending: seq<State>, visited: set<State>, neighbours: set<nat>, rest: Budget)
    returns (queue: seq<State>)
    ensures queue == Append(pending, visited, Ascending(neighbours), rest)
  {
    queue := pending;
    var more := Ascending(neighbours);
    while more != []
      invariant Append(queue, visited, more, rest) == Append(pending, visited, Ascending(neighbours), rest)
      decreases |more|
    {
      var next := State(more[0], rest);
      if next !in visited && next !in queue {
        queue := queue + [next];
      }
      more := more[1..];
    }
  }

  /** None stands for the error on an unknown selected issue. */
  method DependencyStates(graph: Relations, selected: set<nat>, policy: Budget) returns (states: Option<set<State>>)
    requires graph.Valid()
    ensures states.None? <==> !(selected <= graph.kinds.Keys)
    ensures states.Some? ==> forall s :: s in states.value <==> Reachable(graph, selected, policy, s)
    ensures states.Some? ==> states.value <= Universe(graph, policy)
  {
    if !(selected <= graph.kinds.Keys) {
      return None;
    }
    var pending := seq(|Ascending(selected)|,
      i requires 0 <= i < |Ascending(selected)| => State(Ascending(selected)[i], policy));
    var visited: set<State> := {};
    ghost var r := Moves(graph, selected, policy);
    hide Exploring, Successors, Universe, AtMost, Ascending, Starts, Cross, Neighbours, Append, FromSome, Elements;
    QueueStarts(graph, selected, policy, pending);
    while pending != []
      invariant visited <= Universe(graph, policy) && Elements(pending) <= Universe(graph, policy)
      invariant Exploring(r, Starts(selected, policy), visited, Elements(pending))
      decreases Universe(graph, policy) - visited, |pending|
    {
      var state, rest := pending[0], pending[1..];
      ElementsOfPop(pending);
      if state in visited {
        ExploringSkip(r, Starts(selected, policy), visited, Elements(rest), state);
        pending := rest;
        continue;
      }
      InUniverse(graph, policy, state);
      ghost var before := visited;
      visited := visited + {state};
      var beyond := Beyond(graph, selected, policy, state);
      if beyond.None? {
        Blocked(graph, selected, policy, before, rest, state);
        pending := rest;
        continue;
      }
      pending := QueueNeighbours(rest, visited, Neighbours(graph, state.issue), beyond.value);
      Visited(graph, selected, policy, before, rest, state, pending);
    }
    ExploringDone(r, Starts(selected, policy), visited);
    return Some(visited);
  }

  lemma QueueStarts(graph: Relations, selected: set<nat>, policy: Budget, pending: seq<State>)
    requires graph.Valid() && selected <= graph.kinds.Keys
    requires |pending| == |Ascending(selected)|
    requires forall i :: 0 <= i < |pending| ==> pending[i] == State(Ascending(selected)[i], policy)
    ensures Elements(pending) <= Universe(graph, policy)
    ensures Exploring(Moves(graph, selected, policy), Starts(selected, policy), {}, Elements(pending))
  {
    AscendingElements(selected);
    forall s ensures s in Elements(pending) <==> s in Starts(selected, policy) {
      if s in Starts(selected, policy) {
        assert s.issue in Elements(Ascending(selected));
        var i :| 0 <= i < |pending| && Ascending(selected)[i] == s.issue;
        assert pending[i] == s;
      }
      if s in Elements(pending) {
        var i :| 0 <= i < |pending| && pending[i] == s;
        assert Ascending(selected)[i] in Elements(Ascending(selected));
      }
    }
    forall s | s in Starts(selected, policy) ensures s in Universe(graph, policy) {
      InUniverse(graph, policy, s);
    }
    ExploringStart(Moves(graph, selected, policy), Starts(selected, policy));
  }

  lemma Blocked(graph: Relations, selected: set<nat>, policy: Budget, visited: set<State>, rest: seq<State>,
                state: State)
    requires graph.Valid() && state.issue in graph.kinds && Beyond(graph, selected, policy, state).None?
    requires Exploring(Moves(graph, selected, policy), Starts(selected, policy), visited, Elements(rest) + {state})
    ensures Exploring(Moves(graph, selected, policy), Starts(selected, policy), visited + {state}, Elements(rest))
  {
    hide Exploring;
    ExploringVisit(Moves(graph, selected, policy), Starts(selected, policy), visited, Elements(rest), state, {});
    assert Elements(rest) + {} == Elements(rest);
  }

  lemma Visited(graph: Relations, selected: set<nat>, policy: Budget, visited: set<State>, rest: seq<State>,
                state: State, queue: seq<State>)
    requires graph.Valid() && state.issue in graph.kinds && Beyond(graph, selected, policy, state).Some?
    requires state in Universe(graph, policy) && Elements(rest) <= Universe(graph, policy)
    requires Exploring(Moves(graph, selected, policy), Starts(selected, policy), visited, Elements(rest) + {state})
    requires queue == Append(rest, visited + {state}, Ascending(Neighbours(graph, state.issue)),
                             Beyond(graph, selected, policy, state).value)
    ensures Exploring(Moves(graph, selected, policy), Starts(selected, policy), visited + {state}, Elements(queue))
    ensures Elements(queue) <= Universe(graph, policy)
  {
    hide Exploring, Universe, Append;
    var left := Beyond(graph, selected, policy, state).value;
    AscendingElements(Neighbours(graph, state.issue));
    AppendElements(rest, visited + {state}, Ascending(Neighbours(graph, state.issue)), left);
    var next := Elements(queue) - Elements(rest);
    forall t | t in next ensures t in Successors(graph, selected, policy, state) && t in Universe(graph, policy) {
      assert t.issue in Elements(Ascending(Neighbours(graph, state.issue)));
      assert t == State(t.issue, left);
      InUniverse(graph, policy, state);
      InUniverse(graph, policy, t);
    }
    forall t | t in Successors(graph, selected, policy, state)
      ensures t in next || t in visited || t in Elements(rest) || t == state
    {
      assert t.issue in Elements(Ascending(Neighbours(graph, state.issue)));
    }
    ExploringVisit(Moves(graph, selected, policy), Starts(selected, policy), visited, Elements(rest), state, next);
    assert Elements(rest) + next == Elements(queue);
  }

  // ------------------------------------------------------- visible component

  /** A state where the budget stopped the traversal but children are still shown. */
  predicate ShowsChildren(graph: Relations, selected: set<nat>, policy: Budget, context: Context, s: State) {
    && s.issue in graph.kinds && s.issue !in selected
    && Matches(context, graph.kinds[s.issue]) && Cross(policy, graph.kinds[s.issue], s.remaining).None?
  }

  ghost predicate Visible(graph: Relations, selected: set<nat>, policy: Budget, context: Context, issue: nat)
    requires graph.Valid()
  {
    exists s :: Reachable(graph, selected, policy, s)
      && (s.issue == issue
          || (ShowsChildren(graph, selected, policy, context, s) && issue in Neighbours(graph, s.issue)))
  }

  /** Visible through one of the states, or as a child of one of those examined. */
  ghost predicate ShownBy(graph: Relations, selected: set<nat>, policy: Budget, context: Context,
                          states: set<State>, examined: set<State>, issue: nat)
    requires graph.Valid()
  {
    || (exists s :: s in states && s.issue == issue)
    || (exists s ::
          s in examined && ShowsChildren(graph, selected, policy, context, s) && issue in Neighbours(graph, s.issue))
  }

  method DependencyComponent(graph: Relations, selected: set<nat>, policy: Budget, context: Context)
    returns (component: Option<seq<nat>>)
    requires graph.Valid()
    ensures component.None? <==> !(selected <= graph.kinds.Keys)
    ensures component.Some? ==> Increasing(component.value)
    ensures component.Some? ==> forall i :: i in Elements(component.value) <==>
      Visible(graph, selected, policy, context, i)
  {
    var found := DependencyStates(graph, selected, policy);
    if found.None? {
      return None;
    }
    var states := found.value;
    var visible := set s | s in states :: s.issue;
    var todo := states;
    hide Reachable, Cross, Matches, Neighbours, ShownBy, Visible, Universe;
    while todo != {}
      invariant todo <= states
      invariant forall i :: i in visible <==> ShownBy(graph, selected, policy, context, states, states - todo, i)
    {
      var state :| state in todo;
      InUniverse(graph, policy, state);
      forall i ensures ShownBy(graph, selected, policy, context, states, (states - todo) + {state}, i) <==>
        ShownBy(graph, selected, policy, context, states, states - todo, i)
        || (ShowsChildren(graph, selected, policy, context, state) && i in Neighbours(graph, state.issue))
      {
      }
      assert states - (todo - {state}) == (states - todo) + {state};
      todo := todo - {state};
      if state.issue !in selected && Matches(context, graph.kinds[state.issue])
         && Cross(policy, graph.kinds[state.issue], state.remaining).None? {
        visible := visible + Neighbours(graph, state.issue);
      }
    }
    assert states - todo == states;
    forall i ensures i in visible <==> Visible(graph, selected, policy, context, i) {
    }
    AscendingIsSorted(visible);
    return Some(Ascending(visible));
  }

  // ------------------------------------------------------------ monotonicity

  lemma CrossMonotone(small: Budget, large: Budget, kind: Kind, a: Budget, b: Budget)
    requires ValidPolicy(small) && ValidPolicy(large) && AtMost(small, large)
    requires AtMost(a, b) && AtMost(a, small)
    requires Cross(small, kind, a).Some?
    ensures Cross(large, kind, b).Some?
    ensures AtMost(Cross(small, kind, a).value, Cross(large, kind, b).value)
  {
  }

  /** Whatever a smaller policy reaches, a larger one reaches with no less budget left. */
  lemma LargerBudgetReaches(graph: Relations, selected: set<nat>, small: Budget, large: Budget, s: State)
    returns (t: State)
    requires graph.Valid() && ValidPolicy(small) && ValidPolicy(large) && AtMost(small, large)
    requires selected <= graph.kinds.Keys && Reachable(graph, selected, small, s)
    ensures Reachable(graph, selected, large, t) && t.issue == s.issue && AtMost(s.remaining, t.remaining)
    ensures AtMost(s.remaining, small) && s.issue in graph.kinds
  {
    var r, q := Moves(graph, selected, small), Moves(graph, selected, large);
    var a :| a in Starts(selected, small) && Connected(r, a, s);
    var p: seq<State> :| Trail(r, p) && p[0] == a && p[|p| - 1] == s;
    t := State(a.issue, large);
    FromSomeStart(q, Starts(selected, large), t);
    var i := 0;
    while i < |p| - 1
      invariant 0 <= i < |p| && p[i].issue in graph.kinds && AtMost(p[i].remaining, small)
      invariant t.issue == p[i].issue && AtMost(p[i].remaining, t.remaining)
      invariant FromSome(q, Starts(selected, large), t)
    {
      assert r(p[i + 1 - 1], p[i + 1]);
      t := StepAlong(graph, selected, small, large, p[i], p[i + 1], t);
      i := i + 1;
    }
  }

  lemma StepAlong(graph: Relations, selected: set<nat>, small: Budget, large: Budget, s: State, s': State, t: State)
    returns (t': State)
    requires graph.Valid() && ValidPolicy(small) && ValidPolicy(large) && AtMost(small, large)
    requires s.issue in graph.kinds && s' in Successors(graph, selected, small, s) && AtMost(s.remaining, small)
    requires t.issue == s.issue && AtMost(s.remaining, t.remaining)
    requires FromSome(Moves(graph, selected, large), Starts(selected, large), t)
    ensures s'.issue in graph.kinds && AtMost(s'.remaining, small)
    ensures t'.issue == s'.issue && AtMost(s'.remaining, t'.remaining)
    ensures FromSome(Moves(graph, selected, large), Starts(selected, large), t')
  {
    if s.issue !in selected {
      CrossMonotone(small, large, graph.kinds[s.issue], s.remaining, t.remaining);
    }
    t' := State(s'.issue, Beyond(graph, selected, large, t).value);
    FromSomeStep(Moves(graph, selected, large), Starts(selected, large), t, t');
  }

  /** Raising budgets or showing more children never hides an issue. */
  lemma MoreBudgetShowsMore(graph: Relations, selected: set<nat>, small: Budget, large: Budget,
                            few: Context, many: Context, issue: nat)
    requires graph.Valid() && ValidPolicy(small) && ValidPolicy(large) && AtMost(small, large)
    requires selected <= graph.kinds.Keys && Shows(few, many)
    requires Visible(graph, selected, small, few, issue)
    ensures Visible(graph, selected, large, many, issue)
  {
    var s :| Reachable(graph, selected, small, s)
      && (s.issue == issue
          || (ShowsChildren(graph, selected, small, few, s) && issue in Neighbours(graph, s.issue)));
    var t := LargerBudgetReaches(graph, selected, small, large, s);
    if s.issue != issue {
      var crossed := Cross(large, graph.kinds[t.issue], t.remaining);
      if crossed.Some? {
        var next := State(issue, crossed.value);
        assert next in Successors(graph, selected, large, t);
        FromSomeStep(Moves(graph, selected, large), Starts(selected, large), t, next);
        assert Reachable(graph, selected, large, next);
      } else {
        assert ShowsChildren(graph, selected, large, many, t);
      }
    }
  }
}
