/** Unsafe grammars: words after which a token is offered that the parser refuses. */
module GrammarHazards {
  import opened Collections
  import opened Grammar
  import opened GrammarWalk
  import opened GrammarCompletion
  import opened GrammarOffers

  lemma {:induction false} RunConcat(s: State, a: seq<Token>, b: seq<Token>)
    requires StateOk(s)
    ensures Run(s, a + b) == if Run(s, a).None? then None else Run(Run(s, a).value, b)
    decreases |a|
  {
    hide Step, StateOk;
    if a == [] {
      assert a + b == b;
    } else {
      assert (a + b)[1..] == a[1..] + b;
      StepIsOk(s, a[0]);
      if Step(s, a[0]).Some? {
        RunConcat(Step(s, a[0]).value, a[1..], b);
      }
    }
  }

  lemma RunOne(s: State, t: Token)
    requires StateOk(s)
    ensures Run(s, [t]) == Step(s, t)
  {
    hide Step;
    RunSnoc(s, [], t);
    assert [] + [t] == [t];
  }

  /** One more word before a run. */
  lemma RunCons(s: State, t: Token, words: seq<Token>)
    requires StateOk(s) && Step(s, t).Some?
    ensures StateOk(Step(s, t).value) && Run(s, [t] + words) == Run(Step(s, t).value, words)
  {
    hide Step, StateOk;
    StepIsOk(s, t);
    assert ([t] + words)[1..] == words;
  }

  // ------------------------------------------------------ to the unsafe node

  lemma {:induction false} UnsafeIsReached(node: Node) returns (words: seq<Token>, unsafe: Node)
    requires Convention(node) && !Safe(node)
    ensures Run(Enter(node), words) == Some(Enter(unsafe)) && Convention(unsafe) && !SafeSwitches(unsafe)
    decreases node
  {
    hide SafeSwitches, Run, Step, StateOk;
    if !SafeSwitches(node) {
      words, unsafe := [], node;
      assert Run(Enter(node), []) == Some(Enter(node)) by { RunNothing(Enter(node)); }
    } else {
      var t :| t in node.entries && node.entries[t].Sub? && !Safe(node.entries[t].node);
      var rest: seq<Token>;
      rest, unsafe := UnsafeIsReached(node.entries[t].node);
      SubIsEntered(node, t);
      RunCons(Enter(node), t, rest);
      words := [t] + rest;
    }
  }

  lemma RunNothing(s: State)
    requires StateOk(s)
    ensures Run(s, []) == Some(s)
  {
  }

  lemma SubIsEntered(node: Node, t: Token)
    requires Convention(node) && node.ordered == [] && t in node.entries && node.entries[t].Sub?
    ensures StateOk(Enter(node)) && Step(Enter(node), t) == Some(Enter(node.entries[t].node))
  {
    hide PlainEntry, PlainSlots;
    assert t !in node.switches;
    assert Selected(node, t) == Some(node.entries[t]);
  }

  // --------------------------------------------- to a state refusing the token

  /** Repeating the token brings the node to a state that refuses it. */
  ghost predicate Exhaustible(s: State, t: Token)
    requires StateOk(s)
  {
    var bounds := NodeBounds(s.node);
    if s.node.ordered != [] then
      || bounds.maximum.Some?
      || (s.orderedCount == 0 && exists k ::
        s.orderedIndex <= k < |s.node.ordered| && !SlotMatches(s.node.ordered[k], t))
    else if Choice(s.node).Some? then
      Selected(s.node, t).Some? ==> !Selected(s.node, t).value.Sub? && bounds.maximum.Some?
    else if s.node.values.None? then Selected(s.node, t).None?
    else if s.valueCount == 0 then StepReady(s, t).None?
    else t !in s.node.values.value || bounds.maximum.Some?
  }

  /** How often the values or the whole sequence may still be used. */
  function Budget(s: State): nat {
    var used := if s.node.ordered != [] then s.orderedCount else s.valueCount;
    var bounds := NodeBounds(s.node);
    if bounds.maximum.Some? && used < bounds.maximum.value then bounds.maximum.value - used else 0
  }

  /** What is left of the current round of an ordered node. */
  function Ahead(s: State): nat {
    if s.orderedIndex < |s.node.ordered| then |s.node.ordered| - s.orderedIndex else 0
  }

  lemma ExhaustStep(s: State, t: Token)
    requires StateOk(s) && s.mode == Ready && t !in s.node.switches && Exhaustible(s, t) && StepReady(s, t).Some?
    ensures var n := StepReady(s, t).value;
      && StateOk(n) && n.mode == Ready && n.node == s.node && n.switchCounts == s.switchCounts && Exhaustible(n, t)
      && (Budget(n) < Budget(s) || (Budget(n) == Budget(s) && Ahead(n) < Ahead(s)))
  {
    hide SlotMatches, Selected;
    ReadyStepIsOk(s, t);
  }

  lemma {:induction false} Exhaust(s: State, t: Token) returns (words: seq<Token>, r: State)
    requires StateOk(s) && s.mode == Ready && t !in s.node.switches && Exhaustible(s, t)
    ensures Run(s, words) == Some(r) && StateOk(r) && r.mode == Ready && r.node == s.node
    ensures r.switchCounts == s.switchCounts && StepReady(r, t).None?
    decreases Budget(s), Ahead(s)
  {
    hide StepReady, Run, Exhaustible, Budget, Ahead;
    if StepReady(s, t).None? {
      words, r := [], s;
      RunNothing(s);
    } else {
      ExhaustStep(s, t);
      ReadyIsStep(s, t);
      var rest: seq<Token>;
      rest, r := Exhaust(StepReady(s, t).value, t);
      RunCons(s, t, rest);
      words := [t] + rest;
    }
  }

  lemma ReadyIsStep(s: State, t: Token)
    requires StateOk(s) && s.mode == Ready
    ensures Step(s, t) == StepReady(s, t)
  {
  }

  /** A node that does not always take a token can be brought to refuse it. */
  lemma NodeRefuses(node: Node, t: Token) returns (words: seq<Token>, r: State)
    requires Convention(node) && !Dashed(t) && !AlwaysTakes(node, t)
    ensures Run(Enter(node), words) == Some(r) && StateOk(r) && r.mode == Ready && r.node == node
    ensures r.switchCounts == map[] && StepReady(r, t).None?
  {
    hide Run, PlainSlots, PlainEntry, SlotMatches, Selected;
    var s := Enter(node);
    assert t !in node.switches;
    if Exhaustible(s, t) {
      words, r := Exhaust(s, t);
    } else {
      assert node.ordered == [] && node.values.Some? && Advances(node);
      var u :| u in node.values.value && u !in node.switches && Selected(node, u).None?;
      var next := s.(valueCount := 1);
      assert Step(s, u) == Some(next) by { ReadyIsStep(s, u); }
      var rest: seq<Token>;
      rest, r := Exhaust(next, t);
      RunCons(s, u, rest);
      words := [u] + rest;
    }
  }

  // ------------------------------------------------ to the hazard of a switch

  ghost predicate Brings(r: State, params: seq<Slot>, from: nat, had: nat, words: seq<Token>, to: nat, has: nat)
    requires r.mode == Ready && StateOk(r) && from < |params|
  {
    && to < |params|
    && Run(r.(mode := Filling(params, from, had)), words) == Some(r.(mode := Filling(params, to, has)))
  }

  lemma BringsOn(r: State, params: seq<Slot>, a: nat, m: nat, v: seq<Token>, b: nat, n: nat, w: seq<Token>, c: nat,
                 o: nat)
    requires r.mode == Ready && StateOk(r) && a < |params| && b < |params|
    requires Brings(r, params, a, m, v, b, n) && Brings(r, params, b, n, w, c, o)
    ensures Brings(r, params, a, m, v + w, c, o)
  {
    hide Run;
    RunConcat(r.(mode := Filling(params, a, m)), v, w);
  }

  /** A word the slot takes, repeated. */
  lemma {:induction false} FeedSlot(r: State, params: seq<Slot>, i: nat, had: nat, has: nat, u: Token)
    returns (words: seq<Token>)
    requires r.mode == Ready && StateOk(r) && i < |params| && had <= has
    requires SlotMatches(params[i], u) && AtMostMaximum(has, params[i].bounds)
    ensures Brings(r, params, i, had, words, i, has)
    decreases has - had
  {
    hide Run, SlotMatches;
    var s := r.(mode := Filling(params, i, had));
    if had == has {
      words := [];
      RunNothing(s);
    } else {
      var next := s.(mode := Filling(params, i, had + 1));
      assert s.(mode := Ready) == r;
      assert Step(s, u) == Some(next);
      var rest := FeedSlot(r, params, i, had + 1, has, u);
      RunCons(s, u, rest);
      words := [u] + rest;
    }
  }

  /** Fill the slot until it leaves the token to the next one. */
  lemma Satisfy(r: State, params: seq<Slot>, i: nat, had: nat, t: Token) returns (words: seq<Token>, has: nat)
    requires r.mode == Ready && StateOk(r) && i < |params|
    requires Leaves(params[i], t) && AtMostMaximum(had, params[i].bounds)
    ensures Brings(r, params, i, had, words, i, has)
    ensures has >= params[i].bounds.minimum && !Takes((params[i], has), t)
  {
    hide Run, Step, SlotMatches;
    var bounds := params[i].bounds;
    has := if bounds.maximum.Some? && (bounds.maximum.value == 0 || Matchable(params[i])) then bounds.maximum.value
           else if had < bounds.minimum then bounds.minimum else had;
    if had == has {
      words := [];
      RunNothing(r.(mode := Filling(params, i, had)));
    } else {
      var u :| SlotMatches(params[i], u);
      words := FeedSlot(r, params, i, had, has, u);
    }
  }

  lemma {:induction false} PassTo(r: State, params: seq<Slot>, k: nat, j: nat, t: Token)
    requires r.mode == Ready && StateOk(r) && k <= j < |params| && Takes((params[j], 0), t)
    requires forall m :: k <= m < j ==> params[m].bounds.minimum == 0 && !Takes((params[m], 0), t)
    ensures StepFill(r, params, k, 0, t) == Some(r.(mode := Filling(params, j, 1)))
    decreases j - k
  {
    hide SlotMatches, StepReady;
    if k < j {
      PassTo(r, params, k + 1, j, t);
    }
  }

  lemma PassOn(r: State, params: seq<Slot>, i: nat, has: nat, j: nat, t: Token)
    requires r.mode == Ready && StateOk(r) && i < j < |params| && Enters(params, i, j, t)
    requires has >= params[i].bounds.minimum && !Takes((params[i], has), t)
    ensures Brings(r, params, i, has, [t], j, 1)
  {
    hide SlotMatches, StepReady, Run;
    var s := r.(mode := Filling(params, i, has));
    assert s.(mode := Ready) == r;
    PassTo(r, params, i + 1, j, t);
    RunOne(s, t);
  }

  function Arrived(j: nat): nat {
    if j == 0 then 0 else 1
  }

  lemma {:induction false} Arrives(r: State, params: seq<Slot>, j: nat) returns (words: seq<Token>)
    requires r.mode == Ready && StateOk(r) && j < |params| && Entered(params, j)
    ensures Brings(r, params, 0, 0, words, j, Arrived(j)) && AtMostMaximum(Arrived(j), params[j].bounds)
    decreases j
  {
    hide SlotMatches, Brings, Leaves;
    if j == 0 {
      words := [];
      assert Brings(r, params, 0, 0, words, 0, 0) by {
        RunNothing(r.(mode := Filling(params, 0, 0)));
        BringsNowhere(r, params);
      }
    } else {
      var i: nat, t: Token :| i < j && Entered(params, i) && Enters(params, i, j, t);
      var before := Arrives(r, params, i);
      var more, has := Satisfy(r, params, i, Arrived(i), t);
      PassOn(r, params, i, has, j, t);
      BringsOn(r, params, 0, 0, before, i, Arrived(i), more, i, has);
      BringsOn(r, params, 0, 0, before + more, i, has, [t], j, 1);
      words := before + more + [t];
    }
  }

  lemma BringsNowhere(r: State, params: seq<Slot>)
    requires r.mode == Ready && StateOk(r) && params != []
    ensures Brings(r, params, 0, 0, [], 0, 0)
  {
    RunNothing(r.(mode := Filling(params, 0, 0)));
  }

  // ----------------------------------------------------------------- refusal

  lemma SwitchIsEntered(r: State, name: Token)
    requires r.mode == Ready && StateOk(r) && r.switchCounts == map[] && name in r.node.switches
    requires Below(0, r.node.switches[name].bounds) && r.node.switches[name].params != []
    ensures Step(r, name) ==
      Some(r.(switchCounts := map[name := 1], mode := Filling(r.node.switches[name].params, 0, 0)))
  {
  }

  lemma SameRefusal(r: State, used: map<Token, nat>, t: Token)
    requires r.mode == Ready && StateOk(r) && t !in r.node.switches && StepReady(r, t).None?
    ensures StepReady(r.(switchCounts := used), t).None?
  {
    hide Selected, SlotMatches, Below;
  }

  /** The pending hazard: offered, and refused. */
  lemma HazardIsRefused(s: State, t: Token)
    requires StateOk(s) && s.mode.Filling? && Hazard(s.mode.params, s.mode.slot, t)
    requires s.mode.count >= s.mode.params[s.mode.slot].bounds.minimum
    requires !Takes((s.mode.params[s.mode.slot], s.mode.count), t)
    requires Owes(Reachable(s.mode.params, s.mode.slot + 1)) || StepReady(s.(mode := Ready), t).None?
    ensures t in Offered(View(s)) && Step(s, t).None?
  {
    hide SlotMatches, StepReady, Step, Candidates, BodyTokens, SwitchTokens, Owes, Below, Entered, Leaves, SomeTakes;
    var params, slot, count := s.mode.params, s.mode.slot, s.mode.count;
    var p := (params[slot], count);
    var here := if Below(count, params[slot].bounds) then [p] else [];
    var rest := Reachable(params, slot + 1);
    StepIffPending(s, t);
    OneTakes(p, t);
    SomeTakesConcat(here, rest, t);
    assert PendingOf(s) == here + rest;
    if here == [p] {
      assert (here + rest)[1..] == rest;
    } else {
      assert here + rest == rest;
    }
  }

  lemma UnsafeSwitch(node: Node) returns (name: Token, i: nat, t: Token)
    requires !SafeSwitches(node)
    ensures name in node.switches && Below(0, node.switches[name].bounds)
    ensures Hazard(node.switches[name].params, i, t)
    ensures Owes(Reachable(node.switches[name].params, i + 1)) || !AlwaysTakes(node, t)
  {
    hide Hazard, AlwaysTakes, Owes, Reachable, Below;
    name :| name in node.switches && Below(0, node.switches[name].bounds)
      && !SafeParams(node, node.switches[name].params);
    i, t :| Hazard(node.switches[name].params, i, t)
      && !(!Owes(Reachable(node.switches[name].params, i + 1)) && AlwaysTakes(node, t));
  }

  /** Bring an unsafe node to a state that offers a token and refuses it. */
  lemma NodeMisleads(node: Node) returns (words: seq<Token>, t: Token, s: State)
    requires Convention(node) && !SafeSwitches(node)
    ensures Run(Enter(node), words) == Some(s) && StateOk(s) && t in Offered(View(s)) && Step(s, t).None?
  {
    hide Run, Step, StepReady, Offered, View, Leaves, AlwaysTakes, Owes, SlotMatches, PendingTokens, SomeTakes, Entered,
      PlainSlots, Reachable;
    var name, i;
    name, i, t := UnsafeSwitch(node);
    var params := node.switches[name].params;
    PendingCandidateIsPlain(params, i + 1, t);
    var first: seq<Token> := [];
    var r := Enter(node);
    if AlwaysTakes(node, t) {
      RunNothing(r);
    } else {
      first, r := NodeRefuses(node, t);
      SameRefusal(r, map[name := 1], t);
    }
    SwitchIsEntered(r, name);
    var inside := r.(switchCounts := map[name := 1]);
    var before := Arrives(inside, params, i);
    var more, has := Satisfy(inside, params, i, Arrived(i), t);
    BringsOn(inside, params, 0, 0, before, i, Arrived(i), more, i, has);
    s := inside.(mode := Filling(params, i, has));
    RunCons(r, name, before + more);
    RunConcat(Enter(node), first, [name] + (before + more));
    words := first + ([name] + (before + more));
    assert s.(mode := Ready) == inside;
    HazardIsRefused(s, t);
  }

  /** Under the dash convention a grammar is safe exactly when every token offered after
      a valid prefix extends that prefix. */
  lemma OffersAcceptedIffSafe(commands: Node)
    requires Convention(commands)
    ensures Safe(commands) <==> OffersAreAccepted(commands)
  {
    hide Run, Step, Offered, View, Convention, Safe, SafeSwitches;
    if Safe(commands) {
      SafeOffersAreAccepted(commands);
    } else {
      var before, unsafe := UnsafeIsReached(commands);
      var more, t, s := NodeMisleads(unsafe);
      RunConcat(Enter(commands), before, more);
      var words := before + more;
      RunSnoc(Enter(commands), words, t);
      assert PrefixValid(commands, words) && t in OfferedAfter(commands, words) && !PrefixValid(commands, words + [t]);
    }
  }

  predicate MayOccur(slots: seq<Slot>) {
    forall i :: 0 <= i < |slots| ==> Below(0, slots[i].bounds)
  }

  /** No switch, here or below, has a parameter with maximum 0. */
  ghost predicate NothingForbidden(node: Node)
    decreases node
  {
    && (forall t :: t in node.switches ==> MayOccur(node.switches[t].params))
    && (forall t :: t in node.entries && node.entries[t].Sub? ==> NothingForbidden(node.entries[t].node))
  }

  lemma NoHazard(params: seq<Slot>, i: nat, t: Token)
    requires MayOccur(params)
    ensures !Hazard(params, i, t)
  {
    hide SlotMatches, Entered, Leaves, Candidates, Below;
    if t in PendingTokens(Reachable(params, i + 1)) {
      var k := PendingTokenHasSlot(Reachable(params, i + 1), t);
      ReachableIsLater(params, i + 1, k);
      CandidateMatches(params[i + 1 + k], t);
      assert Takes(Reachable(params, i + 1)[k], t);
    }
  }

  /** Parameters with maximum 0 are the only danger. */
  lemma {:induction false} NothingForbiddenIsSafe(node: Node)
    requires NothingForbidden(node)
    ensures Safe(node)
    decreases node
  {
    hide Hazard, MayOccur, AlwaysTakes;
    forall name, i: nat, t: Token | name in node.switches ensures !Hazard(node.switches[name].params, i, t) {
      NoHazard(node.switches[name].params, i, t);
    }
    forall t | t in node.entries && node.entries[t].Sub? ensures Safe(node.entries[t].node) {
      NothingForbiddenIsSafe(node.entries[t].node);
    }
  }

  /** A real parse: after `--s x` the parameter that may not occur is offered and refused. */
  lemma ForbiddenParameterIsOffered(commands: Node)
    requires var first := Slot(Bounds(1, Some(1)), [Literal("x")]);
      var never := Slot(Bounds(0, Some(0)), [Literal("y")]);
      commands == Node(true, map["--s" := Switch(Bounds(0, Some(1)), [first, never])], map[], None, [], None)
    ensures Convention(commands) && PrefixValid(commands, ["--s", "x"])
    ensures "y" in OfferedAfter(commands, ["--s", "x"]) && !PrefixValid(commands, ["--s", "x", "y"])
  {
    hide Run, Step, Hazard, Offered, View, SlotMatches;
    var first := Slot(Bounds(1, Some(1)), [Literal("x")]);
    var never := Slot(Bounds(0, Some(0)), [Literal("y")]);
    assert forall name :: name in commands.switches ==> name == "--s";
    assert PlainSlot(first) && PlainSlot(never);
    ForbiddenIsHazard(first, never);
    ForbiddenRun(commands, first, never);
    var one := State(commands, 0, map["--s" := 1], 0, 0, Filling([first, never], 0, 1));
    HazardIsRefused(one, "y");
    RunSnoc(Enter(commands), ["--s", "x"], "y");
    assert ["--s", "x"] + ["y"] == ["--s", "x", "y"];
  }

  lemma ForbiddenRun(commands: Node, first: Slot, never: Slot)
    requires first == Slot(Bounds(1, Some(1)), [Literal("x")]) && never == Slot(Bounds(0, Some(0)), [Literal("y")])
    requires commands == Node(true, map["--s" := Switch(Bounds(0, Some(1)), [first, never])], map[], None, [], None)
    ensures Run(Enter(commands), ["--s", "x"]) ==
      Some(State(commands, 0, map["--s" := 1], 0, 0, Filling([first, never], 0, 1)))
  {
    hide Run;
    var start := Enter(commands);
    SwitchIsEntered(start, "--s");
    assert SlotMatches(first, "x") by { assert AlternativeMatches(first.alternatives[0], "x"); }
    RunOne(start.(switchCounts := map["--s" := 1], mode := Filling([first, never], 0, 0)), "x");
    RunCons(start, "--s", ["x"]);
    assert ["--s"] + ["x"] == ["--s", "x"];
  }

  lemma ForbiddenIsHazard(first: Slot, never: Slot)
    requires first == Slot(Bounds(1, Some(1)), [Literal("x")]) && never == Slot(Bounds(0, Some(0)), [Literal("y")])
    ensures Hazard([first, never], 0, "y")
  {
    assert SlotMatches(first, "x") by { assert AlternativeMatches(first.alternatives[0], "x"); }
    assert Reachable([first, never], 2) == [];
    assert Reachable([first, never], 1) == [(never, 0)];
    assert PendingTokens([(never, 0)]) == Candidates(never) + PendingTokens([]);
    assert Literal("y") in never.alternatives && "y" in AlternativeTokens(Literal("y"));
    OneTakes((never, 0), "y");
  }
}
