/** Completion offers what the parser accepts, and what it does not show is known. */
module GrammarCompletion {
  import opened Collections
  import opened Grammar
  import opened GrammarWalk

  function AlternativeTokens(a: Alternative): set<Token> {
    match a
    case Literal(name) => {name}
    case AnyWord => {}
    case OneOf(tokens) => tokens
  }

  function Candidates(slot: Slot): set<Token> {
    set a, t | a in slot.alternatives && t in AlternativeTokens(a) :: t
  }

  /** Candidates of the pending parameters, up to the first one that is still owed. */
  function PendingTokens(pending: seq<(Slot, nat)>): set<Token> {
    if pending == [] then {} else
      var p := pending[0];
      Candidates(p.0) + (if p.1 < p.0.bounds.minimum then {} else PendingTokens(pending[1..]))
  }

  function EntryTokens(name: Token, entry: Entry): set<Token> {
    match entry
    case Word => {}
    case Provided(tokens) => tokens
    case _ => {name}
  }

  function EntriesTokens(node: Node): set<Token> {
    set name, t | name in node.entries && t in EntryTokens(name, node.entries[name]) :: t
  }

  function UsedBy(w: WalkState, t: Token): nat {
    if t in w.switchCounts then w.switchCounts[t] else 0
  }

  function SwitchTokens(w: WalkState): set<Token> {
    set t | t in w.node.switches && Below(UsedBy(w, t), w.node.switches[t].bounds)
  }

  /** Candidates of the node itself, without its switches. */
  function BodyTokens(w: WalkState): set<Token>
    requires w.node.ordered != [] ==> w.orderedIndex < |w.node.ordered|
  {
    if w.node.ordered != [] then
      if Below(w.orderedCount, NodeBounds(w.node)) then Candidates(w.node.ordered[w.orderedIndex]) else {}
    else if Choice(w.node).Some? then
      if Below(w.valueCount, Choice(w.node).value) then EntriesTokens(w.node) else {}
    else
      (if w.valueCount == 0 then EntriesTokens(w.node) else {})
      + (if w.node.values.Some? && Below(w.valueCount, NodeBounds(w.node)) then w.node.values.value else {})
  }

  /** Everything offered, without the synthetic placeholders. */
  function Offered(w: WalkState): set<Token>
    requires w.node.ordered != [] ==> w.orderedIndex < |w.node.ordered|
  {
    PendingTokens(w.pending) + (if Owes(w.pending) then {} else BodyTokens(w) + SwitchTokens(w))
  }

  /** No candidate of the node reads as one of its switches. */
  predicate NoShadow(node: Node) {
    forall t :: t in node.switches ==>
      && t !in EntriesTokens(node) && (node.values.Some? ==> t !in node.values.value)
      && forall i :: 0 <= i < |node.ordered| ==> t !in Candidates(node.ordered[i])
  }

  // ---------------------------------------------------------------- parameters

  predicate Takes(p: (Slot, nat), t: Token) {
    SlotMatches(p.0, t) && Below(p.1, p.0.bounds)
  }

  predicate SomeTakes(pending: seq<(Slot, nat)>, t: Token) {
    exists i :: 0 <= i < |pending| && Takes(pending[i], t)
  }

  lemma SomeTakesConcat(a: seq<(Slot, nat)>, b: seq<(Slot, nat)>, t: Token)
    ensures SomeTakes(a + b, t) <==> SomeTakes(a, t) || SomeTakes(b, t)
    ensures Owes(a + b) <==> Owes(a) || Owes(b)
  {
    var c := a + b;
    assert forall i :: 0 <= i < |a| ==> c[i] == a[i];
    assert forall i :: 0 <= i < |b| ==> c[|a| + i] == b[i];
    assert forall i :: |a| <= i < |c| ==> c[i] == b[i - |a|];
  }

  lemma OneTakes(p: (Slot, nat), t: Token)
    ensures SomeTakes([p], t) <==> Takes(p, t)
    ensures Owes([p]) <==> p.1 < p.0.bounds.minimum
    ensures !SomeTakes([], t) && !Owes([])
  {
    assert [p][0] == p;
  }

  lemma {:induction false} FillIffReachable(s: State, params: seq<Slot>, slot: nat, t: Token)
    requires s.mode == Ready && StateOk(s)
    ensures StepFill(s, params, slot, 0, t).Some? <==>
      SomeTakes(Reachable(params, slot), t) || (!Owes(Reachable(params, slot)) && StepReady(s, t).Some?)
    decreases |params| - slot
  {
    hide SlotMatches, StepReady, SomeTakes, Owes, Below;
    if slot < |params| {
      var p := (params[slot], 0);
      var rest := if params[slot].bounds.minimum > 0 then [] else Reachable(params, slot + 1);
      FillIffReachable(s, params, slot + 1, t);
      OneTakes(p, t);
      SomeTakesConcat([p], rest, t);
    } else {
      OneTakes((Slot(Bounds(0, None), []), 0), t);
    }
  }

  /** Exactly the tokens that a pending parameter takes, or, when nothing is owed, the
      tokens the node itself takes, extend the prefix. */
  lemma StepIffPending(s: State, t: Token)
    requires StateOk(s)
    ensures Step(s, t).Some? <==>
      SomeTakes(PendingOf(s), t) || (!Owes(PendingOf(s)) && StepReady(s.(mode := Ready), t).Some?)
  {
    hide SlotMatches, StepReady, SomeTakes, Owes, Below;
    var r := s.(mode := Ready);
    OneTakes((Slot(Bounds(0, None), []), 0), t);
    if s.mode.Filling? {
      var params, slot, count := s.mode.params, s.mode.slot, s.mode.count;
      var p := (params[slot], count);
      var here := if Below(count, params[slot].bounds) then [p] else [];
      var rest := if count < params[slot].bounds.minimum then [] else Reachable(params, slot + 1);
      FillIffReachable(r, params, slot + 1, t);
      OneTakes(p, t);
      SomeTakesConcat(here, rest, t);
      BelowMinimum(count, params[slot].bounds);
    } else {
      assert r == s;
    }
  }

  lemma BelowMinimum(count: nat, bounds: Quantifier)
    ensures count < bounds.minimum ==> Below(count, bounds)
  {
  }

  // ----------------------------------------------------------------- soundness

  lemma CandidateMatches(slot: Slot, t: Token)
    requires t in Candidates(slot)
    ensures SlotMatches(slot, t)
  {
    var a :| a in slot.alternatives && t in AlternativeTokens(a);
    var i :| 0 <= i < |slot.alternatives| && slot.alternatives[i] == a;
    assert AlternativeMatches(slot.alternatives[i], t);
  }

  lemma {:induction false} PendingTokenHasSlot(pending: seq<(Slot, nat)>, t: Token) returns (i: nat)
    requires t in PendingTokens(pending)
    ensures i < |pending| && t in Candidates(pending[i].0)
  {
    if t in Candidates(pending[0].0) {
      i := 0;
    } else {
      var k := PendingTokenHasSlot(pending[1..], t);
      i := k + 1;
    }
  }

  lemma EntryIsSelected(node: Node, t: Token)
    requires t in EntriesTokens(node)
    ensures Selected(node, t).Some?
  {
    var name :| name in node.entries && t in EntryTokens(name, node.entries[name]);
    if node.entries[name].Provided? {
      assert EntryMatches(node.entries[name], t);
    }
  }

  lemma BodyIsAccepted(s: State, t: Token)
    requires StateOk(s) && s.mode == Ready && NoShadow(s.node) && t in BodyTokens(View(s)) + SwitchTokens(View(s))
    ensures StepReady(s, t).Some?
  {
    hide EntriesTokens, Candidates, Selected, SlotMatches, Below;
    if t !in s.node.switches {
      if s.node.ordered != [] {
        CandidateMatches(s.node.ordered[s.orderedIndex], t);
      } else if t in EntriesTokens(s.node) {
        EntryIsSelected(s.node, t);
      }
    }
  }

  lemma SameBody(s: State)
    requires StateOk(s)
    ensures BodyTokens(View(s)) == BodyTokens(View(s.(mode := Ready)))
    ensures SwitchTokens(View(s)) == SwitchTokens(View(s.(mode := Ready)))
  {
    hide EntriesTokens, Candidates, Below;
  }

  // -------------------------------------------------------------- completeness

  predicate AnyWordIn(slot: Slot, t: Token) {
    AnyWord in slot.alternatives && BareWord(t)
  }

  predicate PendingAnyWord(pending: seq<(Slot, nat)>, t: Token) {
    exists i :: 0 <= i < |pending| && AnyWordIn(pending[i].0, t)
  }

  /** A generic word parameter of the node, or a parameter's own key typed out. */
  predicate HiddenEntry(node: Node, t: Token) {
    || (exists name :: name in node.entries && node.entries[name].Word? && EntryMatches(node.entries[name], t))
    || (t in node.entries && !node.entries[t].Leaf? && !node.entries[t].Sub?)
  }

  /** A sub-command of a node whose alternatives are used up. */
  predicate SpentChoice(w: WalkState, t: Token) {
    && w.node.ordered == [] && Choice(w.node).Some? && !Below(w.valueCount, Choice(w.node).value)
    && t in w.node.entries && w.node.entries[t].Sub?
  }

  /** The accepted tokens that completion has no text for. */
  predicate Undisplayed(w: WalkState, t: Token) {
    || PendingAnyWord(w.pending, t)
    || (w.node.ordered != [] && w.orderedIndex < |w.node.ordered| && AnyWordIn(w.node.ordered[w.orderedIndex], t))
    || (w.node.ordered == [] && HiddenEntry(w.node, t))
    || SpentChoice(w, t)
  }

  lemma MatchIsCandidate(slot: Slot, t: Token)
    requires SlotMatches(slot, t)
    ensures t in Candidates(slot) || AnyWordIn(slot, t)
  {
    var i :| 0 <= i < |slot.alternatives| && AlternativeMatches(slot.alternatives[i], t);
    assert slot.alternatives[i] in slot.alternatives;
    if !slot.alternatives[i].AnyWord? {
      assert t in AlternativeTokens(slot.alternatives[i]);
    }
  }

  /** Not empty, and not two dashes in front. */
  predicate PlainWord(t: Token) {
    |t| > 0 && (|t| == 1 || t[0] != '-' || t[1] != '-')
  }

  lemma BareIsPlain(t: Token)
    ensures BareWord(t) <==> PlainWord(t)
  {
    var dashes := "--";
    assert |t| >= 2 && t[0] == '-' && t[1] == '-' ==> t[..2] == dashes;
  }

  /** A position takes its own texts, and with a generic parameter every plain word. */
  lemma MatchIffCandidate(slot: Slot, t: Token)
    ensures SlotMatches(slot, t) <==> t in Candidates(slot) || (AnyWord in slot.alternatives && PlainWord(t))
  {
    BareIsPlain(t);
    if SlotMatches(slot, t) {
      MatchIsCandidate(slot, t);
    }
    if t in Candidates(slot) {
      CandidateMatches(slot, t);
    }
    if AnyWord in slot.alternatives && PlainWord(t) {
      var i :| 0 <= i < |slot.alternatives| && slot.alternatives[i] == AnyWord;
      assert AlternativeMatches(slot.alternatives[i], t);
    }
  }

  /** A node's parameters take what is provided, and generic ones every plain word. */
  lemma ParameterIffProvided(node: Node, t: Token)
    ensures ParameterMatches(node, t) <==>
      exists name :: name in node.entries && ((node.entries[name].Provided? && t in node.entries[name].tokens)
                                              || (node.entries[name].Word? && PlainWord(t)))
  {
    BareIsPlain(t);
    if name :| name in node.entries && ((node.entries[name].Provided? && t in node.entries[name].tokens)
                                        || (node.entries[name].Word? && PlainWord(t))) {
      assert EntryMatches(node.entries[name], t);
    }
  }

  /** Offered at a node: the keys of its descriptions and sub-commands and what is provided,
      never the key of a parameter. */
  lemma EntriesOffered(node: Node, t: Token)
    ensures t in EntriesTokens(node) <==>
      || (t in node.entries && (node.entries[t].Leaf? || node.entries[t].Sub?))
      || exists name :: name in node.entries && node.entries[name].Provided? && t in node.entries[name].tokens
  {
    if t in node.entries && (node.entries[t].Leaf? || node.entries[t].Sub?) {
      assert t in EntryTokens(t, node.entries[t]);
    }
    if name :| name in node.entries && node.entries[name].Provided? && t in node.entries[name].tokens {
      assert t in EntryTokens(name, node.entries[name]);
    }
  }

  /** Only the last pending parameter can be owed. */
  predicate OwedLast(pending: seq<(Slot, nat)>) {
    forall i :: 0 <= i < |pending| - 1 ==> pending[i].1 >= pending[i].0.bounds.minimum
  }

  lemma {:induction false} ReachableOwedLast(params: seq<Slot>, slot: nat)
    ensures OwedLast(Reachable(params, slot))
    decreases |params| - slot
  {
    if slot < |params| {
      ReachableOwedLast(params, slot + 1);
    }
  }

  lemma PendingOwedLast(s: State)
    requires StateOk(s)
    ensures OwedLast(PendingOf(s))
  {
    if s.mode.Filling? {
      ReachableOwedLast(s.mode.params, s.mode.slot + 1);
    }
  }

  lemma {:induction false} PendingCovers(pending: seq<(Slot, nat)>, i: nat, t: Token)
    requires OwedLast(pending) && i < |pending| && t in Candidates(pending[i].0)
    ensures t in PendingTokens(pending)
  {
    hide Candidates;
    if i > 0 {
      PendingCovers(pending[1..], i - 1, t);
    }
  }

  lemma EntryIsOffered(node: Node, t: Token)
    requires Selected(node, t).Some?
    ensures t in EntriesTokens(node) || HiddenEntry(node, t)
  {
    if t in node.entries {
      if node.entries[t].Leaf? || node.entries[t].Sub? {
        assert t in EntryTokens(t, node.entries[t]);
      }
    } else {
      var name :| name in node.entries && EntryMatches(node.entries[name], t);
      if node.entries[name].Provided? {
        assert t in EntryTokens(name, node.entries[name]);
      }
    }
  }

  lemma AcceptedBody(s: State, t: Token)
    requires StateOk(s) && s.mode == Ready && StepReady(s, t).Some?
    ensures t in BodyTokens(View(s)) + SwitchTokens(View(s)) || Undisplayed(View(s), t)
  {
    hide EntriesTokens, Candidates, Selected, SlotMatches, Below, HiddenEntry, PendingAnyWord;
    if t !in s.node.switches {
      if s.node.ordered != [] {
        MatchIsCandidate(s.node.ordered[s.orderedIndex], t);
      } else if CanChoose(s) && Selected(s.node, t).Some? {
        EntryIsOffered(s.node, t);
        SelectedSub(s.node, t);
      }
    }
  }

  lemma SelectedSub(node: Node, t: Token)
    requires Selected(node, t).Some?
    ensures Selected(node, t).value.Sub? ==> t in node.entries && node.entries[t].Sub?
  {
  }

  /** Whatever the parser accepts next is offered, but for the known exceptions. */
  lemma AcceptedIsOffered(s: State, t: Token)
    requires StateOk(s) && Step(s, t).Some?
    ensures t in Offered(View(s)) || Undisplayed(View(s), t)
  {
    hide SlotMatches, StepReady, Step, Candidates, BodyTokens, SwitchTokens, Owes, Below, AnyWordIn, HiddenEntry,
      SpentChoice;
    StepIffPending(s, t);
    var pending := PendingOf(s);
    if SomeTakes(pending, t) {
      var i :| 0 <= i < |pending| && Takes(pending[i], t);
      MatchIsCandidate(pending[i].0, t);
      PendingOwedLast(s);
      if t in Candidates(pending[i].0) {
        PendingCovers(pending, i, t);
      }
    } else {
      var r := s.(mode := Ready);
      SameBody(s);
      AcceptedBody(r, t);
      assert !PendingAnyWord(View(r).pending, t);
      assert SpentChoice(View(r), t) ==> SpentChoice(View(s), t) by { SameSpent(s, t); }
    }
  }

  lemma SameSpent(s: State, t: Token)
    requires StateOk(s)
    ensures SpentChoice(View(s), t) <==> SpentChoice(View(s.(mode := Ready)), t)
  {
  }
}
