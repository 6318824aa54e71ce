/** Command grammars: one token at a time, and the greedy walker that must agree. */
module Grammar {
  import opened Collections

  type Token = string

  datatype Bounds = Bounds(minimum: nat, maximum: Option<nat>)

  /** The quantifier parser refuses a maximum below the minimum. */
  type Quantifier = b: Bounds | b.maximum.Some? ==> b.minimum <= b.maximum.value witness Bounds(1, Some(1))

  /** One alternative of a position: a literal, any bare word, or a provided set. */
  datatype Alternative = Literal(token: Token) | AnyWord | OneOf(tokens: set<Token>)

  datatype Slot = Slot(bounds: Quantifier, alternatives: seq<Alternative>)

  datatype Switch = Switch(bounds: Quantifier, params: seq<Slot>)

  /** A key of a node: a terminal description, a sub-command, or a parameter. */
  datatype Entry = Leaf | Sub(node: Node) | Word | Provided(tokens: set<Token>)

  /** Static and dynamically provided entries are merged; `ordered` is empty when absent. */
  datatype Node = Node(terminal: bool, switches: map<Token, Switch>, entries: map<Token, Entry>,
                       values: Option<set<Token>>, ordered: seq<Slot>, bounds: Option<Quantifier>)

  /** Between switches, or inside the parameters of one. */
  datatype Mode = Ready | Filling(params: seq<Slot>, slot: nat, count: nat)

  datatype State = State(node: Node, valueCount: nat, switchCounts: map<Token, nat>,
                         orderedIndex: nat, orderedCount: nat, mode: Mode)

  predicate Below(count: nat, bounds: Quantifier) {
    bounds.maximum.None? || count < bounds.maximum.value
  }

  predicate BareWord(token: Token) {
    token != "" && !("--" <= token)
  }

  predicate AlternativeMatches(a: Alternative, token: Token) {
    match a
    case Literal(name) => token == name
    case AnyWord => BareWord(token)
    case OneOf(tokens) => token in tokens
  }

  predicate SlotMatches(slot: Slot, token: Token) {
    exists i :: 0 <= i < |slot.alternatives| && AlternativeMatches(slot.alternatives[i], token)
  }

  function NodeBounds(node: Node): Quantifier {
    if node.bounds.Some? then node.bounds.value else Bounds(1, Some(1))
  }

  /** A quantified node without values or sequence repeats its alternatives. */
  function Choice(node: Node): Option<Quantifier> {
    if node.values.Some? || node.ordered != [] then None else node.bounds
  }

  predicate EntryMatches(entry: Entry, token: Token) {
    match entry
    case Word => BareWord(token)
    case Provided(tokens) => token in tokens
    case _ => false
  }

  predicate ParameterMatches(node: Node, token: Token) {
    exists name :: name in node.entries && EntryMatches(node.entries[name], token)
  }

  /** The entry a token selects: its own key first, then any matching parameter. */
  function Selected(node: Node, token: Token): Option<Entry> {
    if token in node.entries then Some(node.entries[token])
    else if ParameterMatches(node, token) then Some(Leaf)
    else None
  }

  const END := Node(true, map[], map[], None, [], None)

  function Enter(node: Node): State {
    State(node, 0, map[], 0, 0, Ready)
  }

  function Uses(s: State, token: Token): nat {
    if token in s.switchCounts then s.switchCounts[token] else 0
  }

  ghost predicate StateOk(s: State) {
    && (s.node.ordered != [] ==> s.orderedIndex < |s.node.ordered|)
    && (s.mode.Filling? ==> s.mode.slot < |s.mode.params|)
  }

  // ------------------------------------------------------- one token at a time

  function StepSwitch(s: State, token: Token): Option<State>
    requires token in s.node.switches
  {
    var switch := s.node.switches[token];
    if !Below(Uses(s, token), switch.bounds) then None
    else
      var mode := if switch.params == [] then Ready else Filling(switch.params, 0, 0);
      Some(s.(switchCounts := s.switchCounts[token := Uses(s, token) + 1], mode := mode))
  }

  function StepOrdered(s: State, token: Token): Option<State>
    requires s.orderedIndex < |s.node.ordered|
  {
    if !Below(s.orderedCount, NodeBounds(s.node)) then None
    else if !SlotMatches(s.node.ordered[s.orderedIndex], token) then None
    else if s.orderedIndex + 1 == |s.node.ordered|
    then Some(s.(orderedIndex := 0, orderedCount := s.orderedCount + 1))
    else Some(s.(orderedIndex := s.orderedIndex + 1))
  }

  function StepValue(s: State, token: Token): Option<State> {
    if s.node.values.Some? && token in s.node.values.value && Below(s.valueCount, NodeBounds(s.node))
    then Some(s.(valueCount := s.valueCount + 1))
    else None
  }

  function StepEntry(s: State, entry: Entry): Option<State> {
    var choice := Choice(s.node);
    if entry.Sub? then Some(Enter(entry.node))
    else if choice.None? then Some(Enter(END))
    else if Below(s.valueCount, choice.value) then Some(s.(valueCount := s.valueCount + 1))
    else None
  }

  predicate CanChoose(s: State) {
    s.valueCount == 0 || Choice(s.node).Some?
  }

  function StepReady(s: State, token: Token): Option<State>
    requires s.node.ordered != [] ==> s.orderedIndex < |s.node.ordered|
  {
    if token in s.node.switches then StepSwitch(s, token)
    else if s.node.ordered != [] then StepOrdered(s, token)
    else if CanChoose(s) && Selected(s.node, token).Some? then StepEntry(s, Selected(s.node, token).value)
    else StepValue(s, token)
  }

  /** A parameter takes the token, or is satisfied and lets the next one look at it. */
  function StepFill(s: State, params: seq<Slot>, slot: nat, count: nat, token: Token): Option<State>
    requires s.mode == Ready && (s.node.ordered != [] ==> s.orderedIndex < |s.node.ordered|)
    decreases |params| - slot
  {
    if slot >= |params| then StepReady(s, token)
    else if SlotMatches(params[slot], token) && Below(count, params[slot].bounds)
    then Some(s.(mode := Filling(params, slot, count + 1)))
    else if count < params[slot].bounds.minimum then None
    else StepFill(s, params, slot + 1, 0, token)
  }

  function Step(s: State, token: Token): Option<State>
    requires StateOk(s)
  {
    match s.mode
    case Ready => StepReady(s, token)
    case Filling(params, slot, count) => StepFill(s.(mode := Ready), params, slot, count, token)
  }

  lemma ReadyStepIsOk(s: State, token: Token)
    requires s.mode == Ready && StateOk(s)
    ensures StepReady(s, token).Some? ==> StateOk(StepReady(s, token).value)
  {
    hide SlotMatches, Selected, Below, Choice, NodeBounds;
  }

  lemma {:induction false} FillStepIsOk(s: State, params: seq<Slot>, slot: nat, count: nat, token: Token)
    requires s.mode == Ready && StateOk(s)
    ensures var r := StepFill(s, params, slot, count, token); r.Some? ==> StateOk(r.value)
    decreases |params| - slot
  {
    hide SlotMatches, Below, StepReady;
    ReadyStepIsOk(s, token);
    if slot < |params| {
      FillStepIsOk(s, params, slot + 1, 0, token);
    }
  }

  lemma StepIsOk(s: State, token: Token)
    requires StateOk(s)
    ensures Step(s, token).Some? ==> StateOk(Step(s, token).value)
  {
    hide StepReady, StepFill;
    match s.mode
    case Ready => ReadyStepIsOk(s, token);
    case Filling(params, slot, count) => FillStepIsOk(s.(mode := Ready), params, slot, count, token);
  }

  /** The automaton run; None is an invalid prefix. */
  ghost function Run(s: State, words: seq<Token>): Option<State>
    requires StateOk(s)
    ensures Run(s, words).Some? ==> StateOk(Run(s, words).value)
    decreases |words|
  {
    if words == [] then Some(s) else
      StepIsOk(s, words[0]);
      var next := Step(s, words[0]);
      if next.None? then None else Run(next.value, words[1..])
  }

  ghost predicate PrefixValid(commands: Node, words: seq<Token>) {
    Run(Enter(commands), words).Some?
  }

  lemma {:induction false} RunSnoc(s: State, words: seq<Token>, token: Token)
    requires StateOk(s)
    ensures Run(s, words + [token]) ==
      if Run(s, words).None? then None else Step(Run(s, words).value, token)
    decreases |words|
  {
    hide Step, StateOk;
    if words == [] {
      assert (words + [token])[1..] == [];
      StepIsOk(s, token);
    } else {
      assert (words + [token])[1..] == words[1..] + [token];
      StepIsOk(s, words[0]);
      if Step(s, words[0]).Some? {
        RunSnoc(Step(s, words[0]).value, words[1..], token);
      }
    }
  }

  /** Dropping tokens from the end never makes a prefix invalid. */
  lemma {:induction false} PrefixClosed(commands: Node, words: seq<Token>, n: nat)
    requires PrefixValid(commands, words) && n <= |words|
    ensures PrefixValid(commands, words[..n])
    decreases |words|
  {
    hide Run;
    if n == |words| {
      assert words[..n] == words;
    } else {
      var front := words[..|words| - 1];
      assert words == front + [words[|words| - 1]];
      RunSnoc(Enter(commands), front, words[|words| - 1]);
      PrefixClosed(commands, front, n);
      assert front[..n] == words[..n];
    }
  }
}
