/** The batch walker of the parser and completer, proved equal to the automaton. */
module GrammarWalk {
  import opened Collections
  import opened Grammar

  /** Pending slots are the parameters a following token may still fill. */
  datatype WalkState = WalkState(node: Node, valueCount: nat, switchCounts: map<Token, nat>,
                                 pending: seq<(Slot, nat)>, orderedIndex: nat, orderedCount: nat)

  // ------------------------------------------------------- greedy parameters

  datatype Filled = Bad | Left(index: nat) | Stopped(slot: nat, count: nat)

  /** Where greedy matching of the parameters ends. */
  ghost function Fill(params: seq<Slot>, slot: nat, count: nat, words: seq<Token>, index: nat): Filled
    requires index <= |words|
    decreases |words| - index, |params| - slot
  {
    if slot >= |params| then Left(index)
    else if index == |words| then Stopped(slot, count)
    else if SlotMatches(params[slot], words[index]) && Below(count, params[slot].bounds)
    then Fill(params, slot, count + 1, words, index + 1)
    else if count < params[slot].bounds.minimum then Bad
    else Fill(params, slot + 1, 0, words, index)
  }

  /** The later slots that the next token may reach: up to the first required one. */
  function Reachable(params: seq<Slot>, slot: nat): seq<(Slot, nat)>
    decreases |params| - slot
  {
    if slot >= |params| then []
    else [(params[slot], 0)] + (if params[slot].bounds.minimum > 0 then [] else Reachable(params, slot + 1))
  }

  function Pending(params: seq<Slot>, slot: nat, count: nat): seq<(Slot, nat)>
    requires slot < |params|
  {
    (if Below(count, params[slot].bounds) then [(params[slot], count)] else [])
    + (if count < params[slot].bounds.minimum then [] else Reachable(params, slot + 1))
  }

  function PendingOf(s: State): seq<(Slot, nat)>
    requires s.mode.Filling? ==> s.mode.slot < |s.mode.params|
  {
    if s.mode.Ready? then [] else Pending(s.mode.params, s.mode.slot, s.mode.count)
  }

  function View(s: State): WalkState
    requires s.mode.Filling? ==> s.mode.slot < |s.mode.params|
  {
    WalkState(s.node, s.valueCount, s.switchCounts, PendingOf(s), s.orderedIndex, s.orderedCount)
  }

  /** Tail of the walk: what is left to read decides the outcome. */
  ghost function Rest(s: State, words: seq<Token>, index: nat): Option<State>
    requires StateOk(s) && index <= |words|
  {
    Run(s, words[index..])
  }

  lemma RestStep(s: State, words: seq<Token>, index: nat)
    requires StateOk(s) && index < |words|
    ensures Step(s, words[index]).Some? ==> StateOk(Step(s, words[index]).value)
    ensures Rest(s, words, index) ==
      if Step(s, words[index]).None? then None else Rest(Step(s, words[index]).value, words, index + 1)
  {
    hide Step, StateOk;
    StepIsOk(s, words[index]);
    assert words[index..][1..] == words[index + 1..];
  }

  lemma RestEnd(s: State, words: seq<Token>)
    requires StateOk(s)
    ensures Rest(s, words, |words|) == Some(s)
  {
  }

  /** Greedy filling is what the automaton does inside a switch. */
  lemma {:induction false} FillRuns(s: State, params: seq<Slot>, slot: nat, count: nat, words: seq<Token>, index: nat)
    requires s.mode == Ready && StateOk(s) && slot < |params| && index <= |words|
    ensures var f := Fill(params, slot, count, words, index);
      && (f.Left? ==> f.index < |words|) && (f.Stopped? ==> f.slot < |params|)
      && Rest(s.(mode := Filling(params, slot, count)), words, index) ==
        match f
        case Bad => None
        case Left(j) => Rest(s, words, j)
        case Stopped(i, c) => Some(s.(mode := Filling(params, i, c)))
    decreases |words| - index, |params| - slot
  {
    hide SlotMatches, StepReady, Run, Rest;
    var t := s.(mode := Filling(params, slot, count));
    assert t.(mode := Ready) == s;
    if index == |words| {
      RestEnd(t, words);
    } else {
      RestStep(t, words, index);
      if SlotMatches(params[slot], words[index]) && Below(count, params[slot].bounds) {
        FillRuns(s, params, slot, count + 1, words, index + 1);
      } else if count >= params[slot].bounds.minimum {
        if slot + 1 < |params| {
          FillRuns(s, params, slot + 1, 0, words, index);
          RestStep(s.(mode := Filling(params, slot + 1, 0)), words, index);
        } else {
          RestStep(s, words, index);
          assert StepFill(s, params, slot + 1, 0, words[index]) == StepReady(s, words[index]);
          assert Fill(params, slot + 1, 0, words, index) == Left(index);
        }
      }
    }
  }

  /** Consume the parameters of one switch as far as they go; None is an error. */
  method ConsumeSwitch(params: seq<Slot>, words: seq<Token>, start: nat)
    returns (consumed: Option<(nat, seq<(Slot, nat)>)>)
    requires start <= |words|
    ensures match Fill(params, 0, 0, words, start)
      case Bad => consumed == None
      case Left(j) => consumed == Some((j, []))
      case Stopped(i, c) => i < |params| && consumed == Some((|words|, Pending(params, i, c)))
  {
    hide SlotMatches, Below;
    var index := start;
    var slot: nat := 0;
    while slot < |params|
      invariant start <= index <= |words| && slot <= |params|
      invariant Fill(params, slot, 0, words, index) == Fill(params, 0, 0, words, start)
    {
      var bounds := params[slot].bounds;
      var count: nat := 0;
      while index < |words| && SlotMatches(params[slot], words[index]) && Below(count, bounds)
        invariant start <= index <= |words|
        invariant Fill(params, slot, count, words, index) == Fill(params, 0, 0, words, start)
        decreases |words| - index
      {
        count := count + 1;
        index := index + 1;
      }
      if count < bounds.minimum && index < |words| {
        return None;
      }
      if index == |words| {
        var pending := if Below(count, bounds) then [(params[slot], count)] else [];
        if count < bounds.minimum {
          assert pending + [] == pending;
          return Some((index, pending));
        }
        var later := LaterSlots(params, slot + 1);
        return Some((index, pending + later));
      }
      slot := slot + 1;
    }
    return Some((index, []));
  }

  method LaterSlots(params: seq<Slot>, from: nat) returns (later: seq<(Slot, nat)>)
    requires from <= |params|
    ensures later == Reachable(params, from)
  {
    later := [];
    var k := from;
    while k < |params|
      invariant from <= k <= |params|
      invariant Reachable(params, from) == later + Reachable(params, k)
    {
      Regroup(later, (params[k], 0), if params[k].bounds.minimum > 0 then [] else Reachable(params, k + 1));
      later := later + [(params[k], 0)];
      if params[k].bounds.minimum > 0 {
        return;
      }
      k := k + 1;
    }
  }

  lemma Regroup(a: seq<(Slot, nat)>, x: (Slot, nat), b: seq<(Slot, nat)>)
    ensures a + ([x] + b) == a + [x] + b && a + [] == a
  {
  }

  // -------------------------------------------------------------- the walker

  datatype Progress = Failed | Finished(view: WalkState) | Continue(state: State, index: nat)

  /** One switch occurrence with its parameters; the outcome of the whole walk is kept. */
  method WalkSwitch(s: State, words: seq<Token>, index: nat) returns (p: Progress)
    requires StateOk(s) && s.mode == Ready && index < |words| && words[index] in s.node.switches
    ensures Agrees(p, Rest(s, words, index), words)
    ensures p.Continue? ==> p.index > index && p.state.mode == Ready && p.state.node == s.node
  {
    hide Fill, StepReady, Run, Rest, Below;
    RestStep(s, words, index);
    var token := words[index];
    StepReadySwitch(s, token);
    var switch := s.node.switches[token];
    if !Below(Uses(s, token), switch.bounds) {
      return Failed;
    }
    var used := s.(switchCounts := s.switchCounts[token := Uses(s, token) + 1]);
    var consumed := ConsumeSwitch(switch.params, words, index + 1);
    if switch.params == [] {
      FillNothing(words, index + 1);
      return Continue(used, index + 1);
    }
    FillRuns(used, switch.params, 0, 0, words, index + 1);
    FillAdvances(switch.params, 0, 0, words, index + 1);
    if consumed.None? {
      return Failed;
    }
    var next, pending := consumed.value.0, consumed.value.1;
    if pending != [] {
      return Finished(WalkState(s.node, s.valueCount, used.switchCounts, pending, s.orderedIndex, s.orderedCount));
    }
    if next == |words| {
      return Finished(WalkState(s.node, s.valueCount, used.switchCounts, [], s.orderedIndex, s.orderedCount));
    }
    return Continue(used, next);
  }

  lemma StepReadySwitch(s: State, token: Token)
    requires StateOk(s) && s.mode == Ready && token in s.node.switches
    ensures Step(s, token) == StepSwitch(s, token)
  {
  }

  lemma FillNothing(words: seq<Token>, index: nat)
    requires index <= |words|
    ensures Fill([], 0, 0, words, index) == Left(index)
  {
  }

  lemma {:induction false} FillAdvances(params: seq<Slot>, slot: nat, count: nat, words: seq<Token>, index: nat)
    requires index <= |words|
    ensures var f := Fill(params, slot, count, words, index); f.Left? ==> index <= f.index <= |words|
    decreases |words| - index, |params| - slot
  {
    if slot < |params| && index < |words| {
      FillAdvances(params, slot, count + 1, words, index + 1);
      FillAdvances(params, slot + 1, 0, words, index);
    }
  }

  /** What a partial walk says about the run of the automaton over the same words. */
  ghost predicate Agrees(p: Progress, run: Option<State>, words: seq<Token>) {
    match p
    case Failed => run == None
    case Finished(w) => run.Some? && StateOk(run.value) && w == View(run.value)
    case Continue(s, index) => StateOk(s) && index <= |words| && run == Rest(s, words, index)
  }

  /** The remaining tokens of an ordered node. */
  method WalkOrdered(start: State, words: seq<Token>, from: nat) returns (p: Progress)
    requires StateOk(start) && start.mode == Ready && start.node.ordered != [] && from <= |words|
    ensures !p.Continue? && Agrees(p, Rest(start, words, from), words)
  {
    hide StepReady, Run, Rest, Below, SlotMatches;
    var s, index := start, from;
    while index < |words|
      invariant StateOk(s) && s.mode == Ready && s.node == start.node && from <= index <= |words|
      invariant Rest(s, words, index) == Rest(start, words, from)
      decreases |words| - index
    {
      var token := words[index];
      if token in s.node.switches {
        var step := WalkSwitch(s, words, index);
        if !step.Continue? {
          return step;
        }
        s, index := step.state, step.index;
      } else {
        RestStep(s, words, index);
        StepReadyOrdered(s, token);
        if !Below(s.orderedCount, NodeBounds(s.node)) {
          return Failed;
        }
        if !SlotMatches(s.node.ordered[s.orderedIndex], token) {
          return Failed;
        }
        s := s.(orderedIndex := s.orderedIndex + 1);
        index := index + 1;
        if s.orderedIndex == |s.node.ordered| {
          s := s.(orderedIndex := 0, orderedCount := s.orderedCount + 1);
        }
      }
    }
    RestEnd(s, words);
    return Finished(View(s));
  }

  lemma StepReadyOrdered(s: State, token: Token)
    requires StateOk(s) && s.mode == Ready && token !in s.node.switches && s.node.ordered != []
    ensures Step(s, token) == StepOrdered(s, token)
  {
  }

  lemma StepReadyPlain(s: State, token: Token)
    requires StateOk(s) && s.mode == Ready && token !in s.node.switches && s.node.ordered == []
    ensures Step(s, token) ==
      if CanChoose(s) && Selected(s.node, token).Some? then StepEntry(s, Selected(s.node, token).value)
      else StepValue(s, token)
  {
  }

  lemma NothingFollowsEnd(words: seq<Token>, index: nat)
    requires index < |words|
    ensures Rest(Enter(END), words, index) == None
  {
    RestStep(Enter(END), words, index);
  }

  /** Walk all the words greedily; None stands for every grammar error. */
  method WalkPrefix(commands: Node, words: seq<Token>) returns (walked: Option<WalkState>)
    ensures walked.Some? <==> PrefixValid(commands, words)
    ensures walked.Some? ==>
      var end := Run(Enter(commands), words).value;
      StateOk(end) && walked.value == View(end)
  {
    hide StepReady, Run, Rest, Below, ParameterMatches;
    var s := Enter(commands);
    var index := 0;
    RestStart(s, words);
    while index < |words|
      invariant StateOk(s) && s.mode == Ready && 0 <= index <= |words|
      invariant Rest(s, words, index) == Run(Enter(commands), words)
      decreases |words| - index
    {
      var token := words[index];
      if s.node.ordered != [] {
        var end := WalkOrdered(s, words, index);
        return if end.Finished? then Some(end.view) else None;
      }
      if token in s.node.switches {
        var step := WalkSwitch(s, words, index);
        match step
        case Failed => return None;
        case Finished(view) => return Some(view);
        case Continue(next, j) => s, index := next, j;
      } else {
        RestStep(s, words, index);
        StepReadyPlain(s, token);
        var entry := if CanChoose(s) then Selected(s.node, token) else None;
        if entry.Some? && !entry.value.Sub? && Choice(s.node).None? {
          if index != |words| - 1 {
            NothingFollowsEnd(words, index + 1);
            return None;
          }
          RestEnd(Enter(END), words);
          return Some(View(Enter(END)));
        }
        var next := if entry.Some? then StepEntry(s, entry.value) else StepValue(s, token);
        if next.None? {
          return None;
        }
        s := next.value;
        index := index + 1;
      }
    }
    RestEnd(s, words);
    return Some(View(s));
  }

  lemma RestStart(s: State, words: seq<Token>)
    requires StateOk(s)
    ensures Rest(s, words, 0) == Run(s, words)
  {
    assert words[0..] == words;
  }

  // --------------------------------------------------------- finished commands

  /** No parameter of the last switch is still owed. */
  predicate Owes(pending: seq<(Slot, nat)>) {
    exists i :: 0 <= i < |pending| && pending[i].1 < pending[i].0.bounds.minimum
  }

  predicate NodeFinished(w: WalkState) {
    if w.node.ordered != [] then w.orderedIndex == 0 && w.orderedCount >= NodeBounds(w.node).minimum
    else if w.node.values.Some? then w.valueCount >= NodeBounds(w.node).minimum
    else if Choice(w.node).Some? then w.valueCount >= Choice(w.node).value.minimum
    else w.node.terminal
  }

  predicate SwitchesFinished(w: WalkState) {
    forall t :: t in w.node.switches && t in w.switchCounts && w.switchCounts[t] > 0 ==>
      w.switchCounts[t] >= w.node.switches[t].bounds.minimum
  }

  predicate IsFinished(w: WalkState) {
    SwitchesFinished(w) && !Owes(w.pending) && NodeFinished(w)
  }

  const LAST_TERMINAL: Token := "<last-terminal>"
}
