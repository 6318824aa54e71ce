/** Safe grammars: completion only offers what the parser accepts. */
module GrammarOffers {
  import opened Collections
  import opened Grammar
  import opened GrammarWalk
  import opened GrammarCompletion

  // ------------------------------------------------------------ the convention

  predicate Dashed(t: Token) {
    "--" <= t
  }

  predicate PlainSlot(slot: Slot) {
    forall t :: t in Candidates(slot) ==> !Dashed(t)
  }

  predicate PlainSlots(slots: seq<Slot>) {
    forall i :: 0 <= i < |slots| ==> PlainSlot(slots[i])
  }

  /** Switches start with two dashes, and nothing else does. */
  ghost predicate Convention(node: Node)
    decreases node
  {
    && (forall t :: t in node.switches ==> Dashed(t) && PlainSlots(node.switches[t].params))
    && (forall t :: t in node.entries ==> !Dashed(t) && PlainEntry(node.entries[t]))
    && (node.values.Some? ==> forall t :: t in node.values.value ==> !Dashed(t))
    && PlainSlots(node.ordered)
    && (forall t :: t in node.entries && node.entries[t].Sub? ==> Convention(node.entries[t].node))
  }

  predicate PlainEntry(entry: Entry) {
    entry.Provided? ==> forall t :: t in entry.tokens ==> !Dashed(t)
  }

  lemma SelectedIsPlain(node: Node, t: Token)
    requires Convention(node) && Selected(node, t).Some?
    ensures !Dashed(t)
  {
    if t !in node.entries {
      var name :| name in node.entries && EntryMatches(node.entries[name], t);
    }
  }

  lemma ConventionSeparates(node: Node)
    requires Convention(node)
    ensures NoShadow(node)
  {
    forall t | t in node.switches ensures t !in EntriesTokens(node) {
      if t in EntriesTokens(node) {
        EntryIsSelected(node, t);
        SelectedIsPlain(node, t);
      }
    }
  }

  // ------------------------------------------------------ inside one switch

  ghost predicate Matchable(slot: Slot) {
    exists t :: SlotMatches(slot, t)
  }

  predicate AtMostMaximum(count: nat, bounds: Quantifier) {
    bounds.maximum.Some? ==> count <= bounds.maximum.value
  }

  /** The slot can be satisfied in a way that leaves the token to later slots. */
  ghost predicate Leaves(slot: Slot, t: Token) {
    || (slot.bounds.maximum.Some? && (slot.bounds.maximum.value == 0 || Matchable(slot)))
    || ((Matchable(slot) || slot.bounds.minimum == 0) && !SlotMatches(slot, t))
  }

  predicate Optional(params: seq<Slot>, i: nat, j: nat) {
    forall k :: i < k < j && k < |params| ==> params[k].bounds.minimum == 0
  }

  predicate Ignored(params: seq<Slot>, i: nat, j: nat, t: Token) {
    forall k :: i < k < j && k < |params| ==> !Takes((params[k], 0), t)
  }

  /** From slot `i` the token goes to slot `j`. */
  ghost predicate Enters(params: seq<Slot>, i: nat, j: nat, t: Token)
    requires i < j < |params|
  {
    Leaves(params[i], t) && Optional(params, i, j) && Ignored(params, i, j, t) && Takes((params[j], 0), t)
  }

  /** Some words bring the filling to this slot. */
  ghost predicate Entered(params: seq<Slot>, j: nat)
    decreases j
  {
    j == 0 || (j < |params| && exists i: nat, t: Token :: i < j && Entered(params, i) && Enters(params, i, j, t))
  }

  /** A later parameter with this candidate can be next in line though no pending one takes it. */
  ghost predicate Hazard(params: seq<Slot>, i: nat, t: Token) {
    && i < |params| && Entered(params, i) && Leaves(params[i], t)
    && t in PendingTokens(Reachable(params, i + 1)) && !SomeTakes(Reachable(params, i + 1), t)
  }

  // ---------------------------------------------------------- inside one node

  /** Some value can be taken, after which entries are no longer chosen. */
  ghost predicate Advances(node: Node) {
    && node.values.Some? && Below(0, NodeBounds(node))
    && exists u :: u in node.values.value && u !in node.switches && Selected(node, u).None?
  }

  /** The node takes the token however much of it has been used. */
  ghost predicate AlwaysTakes(node: Node, t: Token) {
    if node.ordered != [] then
      NodeBounds(node).maximum.None? && forall i :: 0 <= i < |node.ordered| ==> SlotMatches(node.ordered[i], t)
    else if Choice(node).Some? then
      Selected(node, t).Some? && (Selected(node, t).value.Sub? || Choice(node).value.maximum.None?)
    else if node.values.None? then
      Selected(node, t).Some?
    else
      && (Selected(node, t).Some? || (t in node.values.value && Below(0, NodeBounds(node))))
      && (Advances(node) ==> t in node.values.value && NodeBounds(node).maximum.None?)
  }

  ghost predicate SafeParams(node: Node, params: seq<Slot>) {
    forall i: nat, t: Token :: Hazard(params, i, t) ==> !Owes(Reachable(params, i + 1)) && AlwaysTakes(node, t)
  }

  ghost predicate SafeSwitches(node: Node) {
    forall t :: t in node.switches && Below(0, node.switches[t].bounds) ==> SafeParams(node, node.switches[t].params)
  }

  /** No usable switch, here or in any node a command can lead to, has a later parameter
      that may not occur with a candidate that nothing else takes. */
  ghost predicate Safe(node: Node)
    decreases node
  {
    && SafeSwitches(node)
    && (node.ordered == [] ==>
          forall t :: t in node.entries && node.entries[t].Sub? ==> Safe(node.entries[t].node))
  }

  ghost predicate OffersAreAccepted(commands: Node) {
    forall words: seq<Token>, t: Token ::
      PrefixValid(commands, words) && t in OfferedAfter(commands, words) ==> PrefixValid(commands, words + [t])
  }

  ghost function OfferedAfter(commands: Node, words: seq<Token>): set<Token> {
    var end := Run(Enter(commands), words);
    if end.None? then {} else Offered(View(end.value))
  }

  // ------------------------------------------- safe grammars: the invariant

  ghost predicate Filled(params: seq<Slot>, slot: nat, count: nat) {
    && slot < |params| && Entered(params, slot) && (count == 0 ==> slot == 0)
    && (count > 0 ==> Matchable(params[slot]) && AtMostMaximum(count, params[slot].bounds))
  }

  ghost predicate OwnParams(node: Node, params: seq<Slot>) {
    exists t :: t in node.switches && Below(0, node.switches[t].bounds) && node.switches[t].params == params
  }

  ghost predicate Sound(s: State) {
    && StateOk(s) && Convention(s.node) && Safe(s.node)
    && (s.node.ordered == [] && s.node.values.None? && Choice(s.node).None? ==> s.valueCount == 0)
    && (s.node.ordered == [] && s.node.values.Some? && s.valueCount > 0 ==> Advances(s.node))
    && (s.mode.Filling? ==> OwnParams(s.node, s.mode.params) && Filled(s.mode.params, s.mode.slot, s.mode.count))
  }

  lemma EndIsSafe()
    ensures Convention(END) && Safe(END)
  {
  }

  lemma FreshIsSound(node: Node)
    requires Convention(node) && Safe(node)
    ensures Sound(Enter(node))
  {
  }

  lemma LeavesFilled(params: seq<Slot>, slot: nat, count: nat, t: Token)
    requires Filled(params, slot, count) && count >= params[slot].bounds.minimum && !Takes((params[slot], count), t)
    ensures Leaves(params[slot], t)
  {
  }

  /** A token that passes some slots either enters a later one or leaves the switch. */
  lemma {:induction false} FillMoves(r: State, params: seq<Slot>, i: nat, k: nat, t: Token)
    requires r.mode == Ready && StateOk(r) && i < k && i < |params| && Entered(params, i) && Leaves(params[i], t)
    requires Optional(params, i, k) && Ignored(params, i, k, t)
    ensures var next := StepFill(r, params, k, 0, t);
      next.Some? ==> next == StepReady(r, t) || exists j: nat ::
        j < |params| && next == Some(r.(mode := Filling(params, j, 1))) && Filled(params, j, 1)
    decreases |params| - k
  {
    hide StepReady, SlotMatches, Leaves;
    if k < |params| {
      if Takes((params[k], 0), t) {
        assert Enters(params, i, k, t);
        assert Entered(params, k);
        TakenIsFilled(params, k, t);
      } else if params[k].bounds.minimum == 0 {
        FillMoves(r, params, i, k + 1, t);
      }
    }
  }

  lemma TakenIsFilled(params: seq<Slot>, k: nat, t: Token)
    requires k < |params| && Entered(params, k) && Takes((params[k], 0), t)
    ensures Filled(params, k, 1)
  {
    hide Entered, SlotMatches;
  }

  lemma ReadyKeepsSound(s: State, t: Token)
    requires Sound(s) && s.mode == Ready && StepReady(s, t).Some?
    ensures Sound(StepReady(s, t).value)
  {
    hide SlotMatches, Selected, SafeSwitches, PlainSlots, PlainEntry, Convention, Safe;
    EndIsSafe();
    ReadyStepIsOk(s, t);
    var next := StepReady(s, t).value;
    if t in s.node.switches {
      SwitchKeepsSound(s, t);
    } else if s.node.ordered == [] && CanChoose(s) && Selected(s.node, t).Some? {
      if Selected(s.node, t).value.Sub? {
        SelectedSub(s.node, t);
        SubIsSafe(s.node, t);
      }
    }
  }

  lemma SubIsSafe(node: Node, t: Token)
    requires Convention(node) && Safe(node) && node.ordered == []
    requires t in node.entries && node.entries[t].Sub?
    ensures Convention(node.entries[t].node) && Safe(node.entries[t].node) && Selected(node, t) == Some(node.entries[t])
  {
  }

  lemma SwitchKeepsSound(s: State, t: Token)
    requires Sound(s) && s.mode == Ready && t in s.node.switches && StepSwitch(s, t).Some?
    ensures Sound(StepSwitch(s, t).value)
  {
    hide Convention, Safe;
  }

  lemma StepKeepsSound(s: State, t: Token)
    requires Sound(s) && Step(s, t).Some?
    ensures Sound(Step(s, t).value)
  {
    hide StepReady, SlotMatches, Convention, Safe, Entered;
    var r := s.(mode := Ready);
    if s.mode.Ready? {
      ReadyKeepsSound(s, t);
    } else {
      var params, slot, count := s.mode.params, s.mode.slot, s.mode.count;
      if Takes((params[slot], count), t) {
        StepIsOk(s, t);
      } else {
        LeavesFilled(params, slot, count, t);
        FillMoves(r, params, slot, slot + 1, t);
        if StepFill(r, params, slot + 1, 0, t) == StepReady(r, t) {
          ReadyKeepsSound(r, t);
        } else {
          StepIsOk(s, t);
        }
      }
    }
  }

  lemma {:induction false} RunKeepsSound(s: State, words: seq<Token>)
    requires Sound(s) && Run(s, words).Some?
    ensures Sound(Run(s, words).value)
    decreases |words|
  {
    hide Step, StateOk, Convention, Safe;
    assert StateOk(s);
    if words != [] {
      StepIsOk(s, words[0]);
      StepKeepsSound(s, words[0]);
      RunKeepsSound(Step(s, words[0]).value, words[1..]);
    }
  }

  // ------------------------------------------------- safe grammars: the offers

  lemma AlwaysTakesNow(r: State, t: Token)
    requires Sound(r) && r.mode == Ready && !Dashed(t) && AlwaysTakes(r.node, t)
    ensures StepReady(r, t).Some?
  {
    hide SlotMatches, Selected, Safe, PlainSlots, PlainEntry;
  }

  lemma PendingCandidateIsPlain(params: seq<Slot>, slot: nat, t: Token)
    requires PlainSlots(params) && t in PendingTokens(Reachable(params, slot))
    ensures !Dashed(t)
  {
    hide Candidates;
    var i := PendingTokenHasSlot(Reachable(params, slot), t);
    ReachableIsLater(params, slot, i);
  }

  lemma {:induction false} ReachableIsLater(params: seq<Slot>, slot: nat, i: nat)
    requires i < |Reachable(params, slot)|
    ensures slot + i < |params| && Reachable(params, slot)[i] == (params[slot + i], 0)
    decreases i
  {
    if i > 0 {
      ReachableIsLater(params, slot + 1, i - 1);
    }
  }

  /** An offered parameter that nothing pending takes is a hazard. */
  lemma RefusedIsHazard(s: State, t: Token)
    requires StateOk(s) && s.mode.Filling? && Filled(s.mode.params, s.mode.slot, s.mode.count)
    requires t in PendingTokens(PendingOf(s)) && !SomeTakes(PendingOf(s), t)
    ensures Hazard(s.mode.params, s.mode.slot, t)
    ensures Owes(PendingOf(s)) <==> Owes(Reachable(s.mode.params, s.mode.slot + 1))
  {
    hide SlotMatches, SomeTakes, Owes, Candidates, Entered, Below, Leaves;
    var params, slot, count := s.mode.params, s.mode.slot, s.mode.count;
    var p := (params[slot], count);
    var here := if Below(count, params[slot].bounds) then [p] else [];
    var rest := if count < params[slot].bounds.minimum then [] else Reachable(params, slot + 1);
    assert PendingOf(s) == here + rest;
    OneTakes(p, t);
    SomeTakesConcat(here, rest, t);
    BelowMinimum(count, params[slot].bounds);
    if here == [p] {
      assert (here + rest)[1..] == rest;
      if t in Candidates(params[slot]) {
        CandidateMatches(params[slot], t);
      }
    } else {
      assert here + rest == rest;
    }
    LeavesFilled(params, slot, count, t);
  }

  /** In a safe grammar the parser accepts whatever is offered. */
  lemma SoundOffer(s: State, t: Token)
    requires Sound(s) && t in Offered(View(s))
    ensures Step(s, t).Some?
  {
    hide SlotMatches, StepReady, Step, Candidates, BodyTokens, SwitchTokens, NoShadow, Owes, Below, AlwaysTakes,
      Hazard, Filled, PendingTokens, Reachable, Advances;
    var r := s.(mode := Ready);
    StepIffPending(s, t);
    if t in PendingTokens(PendingOf(s)) {
      if !SomeTakes(PendingOf(s), t) {
        NothingIsPending(t);
        RefusedIsHazard(s, t);
        HazardIsTaken(s, t);
      }
    } else {
      ConventionSeparates(s.node);
      SameBody(s);
      BodyIsAccepted(r, t);
    }
  }

  lemma NothingIsPending(t: Token)
    ensures t !in PendingTokens([])
  {
  }

  lemma HazardIsTaken(s: State, t: Token)
    requires Sound(s) && s.mode.Filling? && Hazard(s.mode.params, s.mode.slot, t)
    ensures !Owes(Reachable(s.mode.params, s.mode.slot + 1)) && StepReady(s.(mode := Ready), t).Some?
  {
    hide StepReady, Owes, Below, AlwaysTakes, Filled, PendingTokens, Reachable, PlainSlots;
    var params := s.mode.params;
    var name :| name in s.node.switches && Below(0, s.node.switches[name].bounds)
      && s.node.switches[name].params == params;
    assert SafeParams(s.node, params);
    PendingCandidateIsPlain(params, s.mode.slot + 1, t);
    AlwaysTakesNow(s.(mode := Ready), t);
  }

  /** Safe grammars: every token offered after a valid prefix extends it. */
  lemma SafeOffersAreAccepted(commands: Node)
    requires Convention(commands) && Safe(commands)
    ensures OffersAreAccepted(commands)
  {
    hide Run, Step, Offered, Convention, Safe, View;
    FreshIsSound(commands);
    forall words: seq<Token>, t: Token | PrefixValid(commands, words) && t in OfferedAfter(commands, words)
      ensures PrefixValid(commands, words + [t])
    {
      RunKeepsSound(Enter(commands), words);
      SoundOffer(Run(Enter(commands), words).value, t);
      RunSnoc(Enter(commands), words, t);
    }
  }

  // ---------------------------------------------------------------- the service

  /** Completions of the last word after the completed ones. */
  method CompletionItems(commands: Node, words: seq<Token>) returns (items: set<Token>)
    ensures var tokens := if words == [] then [""] else words;
      var completed, prefix := tokens[..|tokens| - 1], tokens[|tokens| - 1];
      && (forall t :: t in items ==> prefix <= t && PrefixValid(commands, completed))
      && (Convention(commands) && Safe(commands) ==> forall t :: t in items ==> PrefixValid(commands, completed + [t]))
      && (LAST_TERMINAL !in completed ==> forall t ::
            prefix <= t && PrefixValid(commands, completed) && PrefixValid(commands, completed + [t]) ==>
            t in items || Undisplayed(View(Run(Enter(commands), completed).value), t))
      && (LAST_TERMINAL !in completed ==> forall t ::
            t in items <==> prefix <= t && t in OfferedAfter(commands, completed))
  {
    hide Run, Offered, Step, Undisplayed, View, Convention, Safe;
    var tokens := if words == [] then [""] else words;
    var completed, prefix := tokens[..|tokens| - 1], tokens[|tokens| - 1];
    if LAST_TERMINAL in completed {
      return {};
    }
    var walked := WalkPrefix(commands, completed);
    if walked.None? {
      return {};
    }
    ghost var end := Run(Enter(commands), completed).value;
    ViewIsOk(end);
    var offered := Offered(walked.value);
    items := set t | t in offered && prefix <= t;
    forall t ensures PrefixValid(commands, completed + [t]) <==> Step(end, t).Some? {
      RunSnoc(Enter(commands), completed, t);
    }
    forall t | Step(end, t).Some? ensures t in offered || Undisplayed(View(end), t) {
      AcceptedIsOffered(end, t);
    }
    if Convention(commands) && Safe(commands) {
      SafeOffersAreAccepted(commands);
      forall t | t in items ensures PrefixValid(commands, completed + [t]) {
        assert t in OfferedAfter(commands, completed);
      }
    }
  }

  lemma ViewIsOk(s: State)
    requires StateOk(s)
    ensures View(s).node.ordered != [] ==> View(s).orderedIndex < |View(s).node.ordered|
  {
  }
}
