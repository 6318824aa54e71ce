/** Which commands are accepted, said of the tokens themselves. */
module GrammarLanguage {
  import opened Collections
  import opened Grammar
  import opened GrammarWalk
  import opened GrammarCompletion

  // --------------------------------------------------------------- the language

  /** The tokens of one node: switches with one group of tokens per parameter, and items
      (ordered arguments, values or alternatives). */
  datatype Part = Use(name: Token, args: seq<seq<Token>>) | Item(token: Token)

  function Flat(args: seq<seq<Token>>): seq<Token> {
    if args == [] then [] else args[0] + Flat(args[1..])
  }

  function PartText(part: Part): seq<Token> {
    match part
    case Use(name, args) => [name] + Flat(args)
    case Item(token) => [token]
  }

  function Text(parts: seq<Part>): seq<Token> {
    if parts == [] then [] else PartText(parts[0]) + Text(parts[1..])
  }

  function Items(parts: seq<Part>): nat {
    if parts == [] then 0 else Items(parts[..|parts| - 1]) + (if parts[|parts| - 1].Item? then 1 else 0)
  }

  function Occurrences(parts: seq<Part>, name: Token): nat {
    if parts == [] then 0 else
      var last := parts[|parts| - 1];
      Occurrences(parts[..|parts| - 1], name) + (if last.Use? && last.name == name then 1 else 0)
  }

  predicate NotAbove(count: nat, maximum: Option<nat>) {
    maximum.Some? ==> count <= maximum.value
  }

  /** One parameter: enough tokens it matches, as many as it can take. */
  predicate GroupOk(slot: Slot, had: nat, group: seq<Token>, rest: seq<Token>) {
    && slot.bounds.minimum <= had + |group| && NotAbove(had + |group|, slot.bounds.maximum)
    && (forall j :: 0 <= j < |group| ==> SlotMatches(slot, group[j]))
    && (rest != [] && SlotMatches(slot, rest[0]) ==> slot.bounds.maximum == Some(had + |group|))
  }

  predicate ArgsOk(params: seq<Slot>, args: seq<seq<Token>>, rest: seq<Token>) {
    if params == [] || args == [] then params == [] && args == []
    else GroupOk(params[0], 0, args[0], Flat(args[1..]) + rest) && ArgsOk(params[1..], args[1..], rest)
  }

  predicate IsChoice(node: Node) {
    node.values.None? && node.ordered == [] && node.bounds.Some?
  }

  /** A description of the node, or one of its parameters. */
  predicate IsWord(node: Node, token: Token) {
    if token in node.entries then !node.entries[token].Sub? else ParameterMatches(node, token)
  }

  predicate IsSub(node: Node, token: Token) {
    token in node.entries && node.entries[token].Sub?
  }

  /** The token may be the item after `j` others. */
  predicate ItemOk(node: Node, j: nat, token: Token) {
    if node.ordered != [] then SlotMatches(node.ordered[j % |node.ordered|], token)
    else if IsChoice(node) then IsWord(node, token)
    else
      && node.values.Some? && token in node.values.value
      && (j == 0 ==> !IsWord(node, token) && !IsSub(node, token))
  }

  /** How many items make one round. */
  function Round(node: Node): nat {
    if node.ordered == [] then 1 else |node.ordered|
  }

  function Fewest(node: Node): nat {
    if node.bounds.Some? then node.bounds.value.minimum else 1
  }

  function Most(node: Node): Option<nat> {
    if node.bounds.Some? then node.bounds.value.maximum else Some(1)
  }

  predicate NotTooMany(node: Node, parts: seq<Part>) {
    && (forall name :: name in node.switches ==>
          NotAbove(Occurrences(parts, name), node.switches[name].bounds.maximum))
    && (Most(node).Some? ==> Items(parts) <= Most(node).value * Round(node))
  }

  /** The rest of the words decides where a parameter of unlimited length ends. */
  predicate PartOk(node: Node, parts: seq<Part>, k: nat, rest: seq<Token>)
    requires k < |parts|
  {
    match parts[k]
    case Use(name, args) =>
      name in node.switches && ArgsOk(node.switches[name].params, args, Text(parts[k + 1..]) + rest)
    case Item(token) => token !in node.switches && ItemOk(node, Items(parts[..k]), token)
  }

  /** Nothing is missing: switches in use occur often enough, items are whole rounds and
      enough of them, and without items the node is a command of its own. */
  predicate Complete(node: Node, parts: seq<Part>) {
    && (forall name :: name in node.switches && Occurrences(parts, name) > 0 ==>
          Occurrences(parts, name) >= node.switches[name].bounds.minimum)
    && if node.ordered != [] || node.values.Some? || node.bounds.Some?
       then Items(parts) % Round(node) == 0 && Items(parts) >= Fewest(node) * Round(node)
       else node.terminal
  }

  /** Sub-commands and single words may come before any item, alternatives at any time. */
  predicate Enters(node: Node, parts: seq<Part>, token: Token) {
    token !in node.switches && node.ordered == [] && IsSub(node, token) && (Items(parts) == 0 || IsChoice(node))
  }

  predicate Closes(node: Node, parts: seq<Part>, token: Token) {
    token !in node.switches && node.ordered == [] && IsWord(node, token) && Items(parts) == 0 && !IsChoice(node)
  }

  ghost predicate Ending(node: Node, parts: seq<Part>, rest: seq<Token>)
    decreases |rest|, 0
  {
    || (rest == [] && Complete(node, parts))
    || (|rest| == 1 && Closes(node, parts, rest[0]))
    || (rest != [] && Enters(node, parts, rest[0]) && Command(node.entries[rest[0]].node, rest[1..]))
  }

  /** The words are these parts of the node, and an ending. */
  ghost predicate Reads(node: Node, before: seq<Part>, parts: seq<Part>, rest: seq<Token>, words: seq<Token>) {
    && words == Text(parts) + rest && NotTooMany(node, before + parts)
    && forall k: nat :: |before| <= k < |before + parts| ==> PartOk(node, before + parts, k, rest)
  }

  /** A complete command below a node. */
  ghost predicate Command(node: Node, words: seq<Token>)
    decreases |words|, 1
  {
    exists parts, rest :: Reads(node, [], parts, rest, words) && |rest| <= |words| && Ending(node, parts, rest)
  }

  // ------------------------------------------------------------------- counting

  /** The automaton between two parts. */
  ghost predicate Counted(s: State, node: Node, parts: seq<Part>) {
    && s.node == node && s.mode == Ready && StateOk(s)
    && (forall name :: Uses(s, name) == Occurrences(parts, name))
    && if node.ordered == [] then s.valueCount == Items(parts)
       else s.orderedCount * |node.ordered| + s.orderedIndex == Items(parts)
  }

  ghost predicate Accepts(s: State, words: seq<Token>)
    requires StateOk(s)
  {
    Run(s, words).Some? && IsFinished(View(Run(s, words).value))
  }

  lemma AcceptsStep(s: State, words: seq<Token>)
    requires StateOk(s) && words != []
    ensures Step(s, words[0]).Some? ==> StateOk(Step(s, words[0]).value)
    ensures Accepts(s, words) <==> Step(s, words[0]).Some? && Accepts(Step(s, words[0]).value, words[1..])
  {
    hide Step, StateOk, IsFinished, View;
    StepIsOk(s, words[0]);
  }

  lemma OneMore(parts: seq<Part>, part: Part)
    ensures Items(parts + [part]) == Items(parts) + (if part.Item? then 1 else 0)
    ensures (forall name :: Occurrences(parts + [part], name) ==
              Occurrences(parts, name) + (if part.Use? && part.name == name then 1 else 0))
  {
    assert (parts + [part])[..|parts|] == parts;
  }

  lemma {:induction false} MoreParts(before: seq<Part>, parts: seq<Part>, name: Token)
    ensures Items(before) <= Items(before + parts)
    ensures Occurrences(before, name) <= Occurrences(before + parts, name)
    decreases |parts|
  {
    if parts == [] {
      assert before + parts == before;
    } else {
      var front, last := parts[..|parts| - 1], parts[|parts| - 1];
      MoreParts(before, front, name);
      assert before + parts == (before + front) + [last];
      OneMore(before + front, last);
    }
  }

  lemma FewerParts(node: Node, before: seq<Part>, parts: seq<Part>)
    requires NotTooMany(node, before + parts)
    ensures NotTooMany(node, before)
  {
    forall name ensures Occurrences(before, name) <= Occurrences(before + parts, name) {
      MoreParts(before, parts, name);
    }
    MoreParts(before, parts, "");
  }

  // ----------------------------------------------------------------- parameters

  predicate Satisfied(params: seq<Slot>, slot: nat, count: nat)
    requires slot < |params|
  {
    count >= params[slot].bounds.minimum && NothingRequired(params[slot + 1..])
  }

  predicate NothingRequired(params: seq<Slot>) {
    forall k :: 0 <= k < |params| ==> params[k].bounds.minimum == 0
  }

  lemma {:induction false} ReachableOwes(params: seq<Slot>, slot: nat)
    requires slot <= |params|
    ensures Owes(Reachable(params, slot)) <==> !NothingRequired(params[slot..])
    decreases |params| - slot
  {
    if slot < |params| {
      ReachableOwes(params, slot + 1);
      var rest := if params[slot].bounds.minimum > 0 then [] else Reachable(params, slot + 1);
      OneTakes((params[slot], 0), "");
      SomeTakesConcat([(params[slot], 0)], rest, "");
      assert params[slot..] == [params[slot]] + params[slot + 1..];
    }
  }

  lemma PendingOwes(params: seq<Slot>, slot: nat, count: nat)
    requires slot < |params|
    ensures Owes(Pending(params, slot, count)) <==> !Satisfied(params, slot, count)
  {
    hide Owes, Reachable;
    ReachableOwes(params, slot + 1);
    OneTakes((params[slot], count), "");
    BelowMinimum(count, params[slot].bounds);
    var here := if Below(count, params[slot].bounds) then [(params[slot], count)] else [];
    var rest := if count < params[slot].bounds.minimum then [] else Reachable(params, slot + 1);
    SomeTakesConcat(here, rest, "");
  }

  /** The groups of this parameter, which had some tokens before, and of the later ones. */
  predicate FromHere(params: seq<Slot>, slot: nat, had: nat, args: seq<seq<Token>>, rest: seq<Token>)
    requires slot < |params|
  {
    && args != [] && GroupOk(params[slot], had, args[0], Flat(args[1..]) + rest)
    && ArgsOk(params[slot + 1..], args[1..], rest)
  }

  lemma {:induction false} EmptyArgs(params: seq<Slot>, args: seq<seq<Token>>)
    requires ArgsOk(params, args, []) && Flat(args) == []
    ensures NothingRequired(params)
  {
    if params != [] {
      EmptyArgs(params[1..], args[1..]);
      assert params == [params[0]] + params[1..];
    }
  }

  lemma {:induction false} NoArgs(params: seq<Slot>) returns (args: seq<seq<Token>>)
    requires NothingRequired(params)
    ensures ArgsOk(params, args, []) && Flat(args) == []
  {
    args := [];
    if params != [] {
      var later := NoArgs(params[1..]);
      args := [[]] + later;
      assert args[1..] == later && Flat(later) + [] == [];
    }
  }

  /** Groups read as greedily as the automaton does. */
  lemma {:induction false} ArgsFill(params: seq<Slot>, slot: nat, had: nat, args: seq<seq<Token>>, rest: seq<Token>,
                                    words: seq<Token>, index: nat)
    requires slot < |params| && index <= |words| && FromHere(params, slot, had, args, rest)
    requires words[index..] == Flat(args) + rest
    ensures var f := Fill(params, slot, had, words, index);
      if rest != [] then f == Left(|words| - |rest|)
      else f.Stopped? && f.slot < |params| && Satisfied(params, f.slot, f.count)
    decreases |words| - index, |params| - slot
  {
    hide SlotMatches;
    if index == |words| {
      EmptyArgs(params[slot + 1..], args[1..]);
    } else if args[0] != [] {
      var shorter := [args[0][1..]] + args[1..];
      assert Flat(args) == [args[0][0]] + Flat(shorter);
      assert words[index] == words[index..][0] && words[index + 1..] == words[index..][1..];
      assert shorter[1..] == args[1..];
      ArgsFill(params, slot, had + 1, shorter, rest, words, index + 1);
    } else {
      assert words[index..] == Flat(args[1..]) + rest && words[index] == words[index..][0];
      if slot + 1 < |params| {
        assert params[slot + 1..][1..] == params[slot + 2..];
        ArgsFill(params, slot + 1, 0, args[1..], rest, words, index);
      }
    }
  }

  /** What the automaton takes splits into groups. */
  lemma {:induction false} FillSplits(params: seq<Slot>, slot: nat, had: nat, words: seq<Token>, index: nat)
    returns (args: seq<seq<Token>>, rest: seq<Token>)
    requires slot < |params| && index <= |words| && NotAbove(had, params[slot].bounds.maximum)
    requires var f := Fill(params, slot, had, words, index);
      f.Left? || (f.Stopped? && f.slot < |params| && Satisfied(params, f.slot, f.count))
    ensures words[index..] == Flat(args) + rest && FromHere(params, slot, had, args, rest)
    decreases |words| - index, |params| - slot
  {
    hide SlotMatches;
    if index == |words| {
      var later := NoArgs(params[slot + 1..]);
      args, rest := [[]] + later, [];
      assert args[1..] == later;
    } else if SlotMatches(params[slot], words[index]) && Below(had, params[slot].bounds) {
      args, rest := FillSplits(params, slot, had + 1, words, index + 1);
      var first, later := [words[index]] + args[0], args[1..];
      args := [first] + later;
      assert args[1..] == later && words[index..] == [words[index]] + words[index + 1..];
    } else if slot + 1 == |params| {
      args, rest := [[]], words[index..];
      assert args[1..] == [] && params[slot + 1..] == [];
    } else {
      var later;
      later, rest := FillSplits(params, slot + 1, 0, words, index);
      args := [[]] + later;
      assert args[1..] == later && params[slot + 1..][1..] == params[slot + 2..];
      assert words[index..][0] == words[index];
    }
  }

  // ------------------------------------------------------------------- switches

  function Used(s: State, name: Token): State {
    s.(switchCounts := s.switchCounts[name := Uses(s, name) + 1])
  }

  /** A switch without parameters left open is like none. */
  lemma StoppedAccepts(s: State, params: seq<Slot>, slot: nat, count: nat)
    requires s.mode == Ready && StateOk(s) && slot < |params|
    ensures StateOk(s.(mode := Filling(params, slot, count)))
    ensures Accepts(s.(mode := Filling(params, slot, count)), []) <==> Satisfied(params, slot, count) && Accepts(s, [])
  {
    hide Owes, Pending, Satisfied, NodeFinished, SwitchesFinished;
    PendingOwes(params, slot, count);
    OneTakes((params[slot], 0), "");
    SameFinish(View(s.(mode := Filling(params, slot, count))), View(s));
  }

  lemma SameFinish(w: WalkState, v: WalkState)
    requires w.(pending := v.pending) == v
    ensures NodeFinished(w) == NodeFinished(v) && SwitchesFinished(w) == SwitchesFinished(v)
  {
  }

  /** What follows the name of a switch, as the automaton sees it. */
  lemma SwitchRuns(s: State, name: Token, words: seq<Token>)
    requires s.mode == Ready && StateOk(s) && name in s.node.switches
    requires Below(Uses(s, name), s.node.switches[name].bounds)
    ensures var params := s.node.switches[name].params;
      if params == [] then Accepts(s, [name] + words) <==> Accepts(Used(s, name), words)
      else
        var f := Fill(params, 0, 0, words, 0);
        && (f.Bad? ==> !Accepts(s, [name] + words))
        && (f.Left? ==>
              f.index <= |words| && (Accepts(s, [name] + words) <==> Accepts(Used(s, name), words[f.index..])))
        && (f.Stopped? ==>
              && f.slot < |params|
              && (Accepts(s, [name] + words) <==> Satisfied(params, f.slot, f.count) && Accepts(Used(s, name), [])))
  {
    hide Run, Fill, Satisfied, Step, IsFinished;
    var all := [name] + words;
    var params := s.node.switches[name].params;
    assert all[1..] == words;
    AcceptsStep(s, all);
    StepReadySwitch(s, name);
    if params != [] {
      var used := Used(s, name);
      FillRuns(used, params, 0, 0, words, 0);
      FillAdvances(params, 0, 0, words, 0);
      RestStart(used.(mode := Filling(params, 0, 0)), words);
      var f := Fill(params, 0, 0, words, 0);
      if f.Stopped? {
        StoppedAccepts(used, params, f.slot, f.count);
        RestEnd(used.(mode := Filling(params, f.slot, f.count)), []);
      }
    }
  }

  /** One switch use with its groups is taken as a whole. */
  lemma UseReads(s: State, name: Token, args: seq<seq<Token>>, rest: seq<Token>)
    requires s.mode == Ready && StateOk(s) && name in s.node.switches
    requires Below(Uses(s, name), s.node.switches[name].bounds)
    requires ArgsOk(s.node.switches[name].params, args, rest)
    ensures Accepts(s, [name] + Flat(args) + rest) <==> Accepts(Used(s, name), rest)
  {
    hide Accepts, Satisfied, Fill, GroupOk;
    var params, words := s.node.switches[name].params, Flat(args) + rest;
    assert [name] + Flat(args) + rest == [name] + words;
    SwitchRuns(s, name, words);
    if params != [] {
      assert words[0..] == words;
      ArgsFill(params, 0, 0, args, rest, words, 0);
      if rest != [] {
        assert words[|words| - |rest|..] == rest;
      }
    } else {
      assert words == rest;
    }
  }

  /** An accepted switch use has such groups. */
  lemma UseSplits(s: State, name: Token, words: seq<Token>) returns (args: seq<seq<Token>>, rest: seq<Token>)
    requires s.mode == Ready && StateOk(s) && name in s.node.switches && Accepts(s, [name] + words)
    ensures Below(Uses(s, name), s.node.switches[name].bounds) && words == Flat(args) + rest
    ensures ArgsOk(s.node.switches[name].params, args, rest)
  {
    hide Accepts, Satisfied, Fill, GroupOk, Step;
    var params := s.node.switches[name].params;
    AcceptsStep(s, [name] + words);
    StepReadySwitch(s, name);
    SwitchRuns(s, name, words);
    if params == [] {
      args, rest := [], words;
    } else {
      args, rest := FillSplits(params, 0, 0, words, 0);
      assert words[0..] == words;
    }
  }

  // ---------------------------------------------------------------------- items

  /** Division by rounds. */
  lemma RoundOf(count: nat, index: nat, n: nat, j: nat)
    requires index < n && count * n + index == j
    ensures j % n == index
  {
    var q, r := j / n, j % n;
    assert q * n + r == j;
    Multiples(q, count, n);
    Multiples(count, q, n);
  }

  lemma Multiples(a: nat, b: nat, n: nat)
    ensures a < b ==> a * n + n <= b * n
  {
    if a < b {
      assert (a + 1) * n <= b * n;
    }
  }

  lemma RoundsBelow(count: nat, index: nat, n: nat, m: nat)
    requires index < n
    ensures count < m <==> count * n + index < m * n
    ensures index == 0 ==> (count >= m <==> count * n >= m * n)
  {
    Multiples(count, m, n);
    Multiples(m, count, n);
  }

  predicate Room(node: Node, j: nat) {
    Most(node).Some? ==> j < Most(node).value * Round(node)
  }

  lemma OrderedStep(s: State, node: Node, parts: seq<Part>, token: Token)
    requires Counted(s, node, parts) && token !in node.switches && node.ordered != []
    ensures Step(s, token).Some? <==> ItemOk(node, Items(parts), token) && Room(node, Items(parts))
    ensures Step(s, token).Some? ==> Counted(Step(s, token).value, node, parts + [Item(token)])
  {
    hide SlotMatches, Occurrences, Items, Step;
    StepReadyOrdered(s, token);
    RoundOf(s.orderedCount, s.orderedIndex, |node.ordered|, Items(parts));
    if Most(node).Some? {
      RoundsBelow(s.orderedCount, s.orderedIndex, |node.ordered|, Most(node).value);
    }
    if StepOrdered(s, token).Some? {
      OrderedNext(s, node, parts, token);
    }
  }

  lemma OrderedNext(s: State, node: Node, parts: seq<Part>, token: Token)
    requires Counted(s, node, parts) && node.ordered != [] && StepOrdered(s, token).Some?
    ensures Counted(StepOrdered(s, token).value, node, parts + [Item(token)])
  {
    hide SlotMatches, Below, NodeBounds;
    OneMore(parts, Item(token));
    NextRound(s.orderedCount, |node.ordered|);
  }

  lemma NextRound(count: nat, n: nat)
    ensures (count + 1) * n == count * n + n
  {
  }

  /** Without ordered arguments: a sub-command, a closing word, or one more item. */
  lemma PlainStep(s: State, node: Node, parts: seq<Part>, token: Token)
    requires Counted(s, node, parts) && token !in node.switches && node.ordered == []
    ensures Enters(node, parts, token) ==> Step(s, token) == Some(Enter(node.entries[token].node))
    ensures Closes(node, parts, token) ==> Step(s, token) == Some(Enter(END))
    ensures !Enters(node, parts, token) && !Closes(node, parts, token) ==>
      (Step(s, token).Some? <==> ItemOk(node, Items(parts), token) && Room(node, Items(parts)))
      && (Step(s, token).Some? ==> Counted(Step(s, token).value, node, parts + [Item(token)]))
    ensures Enters(node, parts, token) || Closes(node, parts, token) ==> !ItemOk(node, Items(parts), token)
  {
    hide ParameterMatches, Occurrences, Items, Step;
    StepReadyPlain(s, token);
    ItemIsCounted(s, node, parts, token);
  }

  lemma ItemIsCounted(s: State, node: Node, parts: seq<Part>, token: Token)
    requires Counted(s, node, parts) && node.ordered == []
    ensures Counted(s.(valueCount := s.valueCount + 1), node, parts + [Item(token)])
  {
    OneMore(parts, Item(token));
  }

  lemma ItemStep(s: State, node: Node, parts: seq<Part>, token: Token)
    requires Counted(s, node, parts) && token !in node.switches && ItemOk(node, Items(parts), token)
    ensures Step(s, token).Some? <==> Room(node, Items(parts))
    ensures Step(s, token).Some? ==> Counted(Step(s, token).value, node, parts + [Item(token)])
  {
    hide Step, ItemOk, Room, Counted, Items;
    if node.ordered != [] {
      OrderedStep(s, node, parts, token);
    } else {
      PlainStep(s, node, parts, token);
    }
  }

  lemma UsedIsCounted(s: State, node: Node, parts: seq<Part>, name: Token, args: seq<seq<Token>>)
    requires Counted(s, node, parts)
    ensures Counted(Used(s, name), node, parts + [Use(name, args)])
  {
    OneMore(parts, Use(name, args));
  }

  // ----------------------------------------------------------------------- ends

  lemma CompleteIsFinished(s: State, node: Node, parts: seq<Part>)
    requires Counted(s, node, parts)
    ensures Accepts(s, []) <==> Complete(node, parts)
  {
    hide Occurrences, Items;
    OneTakes((Slot(Bounds(0, None), []), 0), "");
    var w := View(s);
    assert SwitchesFinished(w) <==> (forall name :: name in node.switches && Occurrences(parts, name) > 0 ==>
      Occurrences(parts, name) >= node.switches[name].bounds.minimum) by { SwitchesCounted(s, node, parts); }
    if node.ordered != [] {
      RoundOf(s.orderedCount, s.orderedIndex, |node.ordered|, Items(parts));
      RoundsBelow(s.orderedCount, s.orderedIndex, |node.ordered|, Fewest(node));
    }
  }

  lemma SwitchesCounted(s: State, node: Node, parts: seq<Part>)
    requires Counted(s, node, parts)
    ensures SwitchesFinished(View(s)) <==> (forall name :: name in node.switches && Occurrences(parts, name) > 0 ==>
      Occurrences(parts, name) >= node.switches[name].bounds.minimum)
  {
    hide Occurrences, Items;
    assert forall name :: Uses(s, name) == Occurrences(parts, name);
  }

  lemma FreshIsCounted(node: Node)
    ensures Counted(Enter(node), node, [])
  {
  }

  lemma EndAccepts(words: seq<Token>)
    ensures Accepts(Enter(END), words) <==> words == []
  {
    hide Run;
    if words == [] {
      RestStart(Enter(END), words);
      RestEnd(Enter(END), words);
      OneTakes((Slot(Bounds(0, None), []), 0), "");
    } else {
      NothingFollowsEnd(words, 0);
      RestStart(Enter(END), words);
    }
  }

  // ---------------------------------------------------------------- the theorem

  ghost predicate Readable(node: Node, before: seq<Part>, words: seq<Token>) {
    exists parts, rest :: Reads(node, before, parts, rest, words) && Ending(node, before + parts, rest)
  }

  lemma ReadsNothing(node: Node, before: seq<Part>, words: seq<Token>)
    requires NotTooMany(node, before)
    ensures Reads(node, before, [], words, words)
  {
    assert before + [] == before && Text([]) + words == words;
  }

  /** The first part of a reading, and the reading after it. */
  lemma ReadsFirst(node: Node, before: seq<Part>, part: Part, parts: seq<Part>, rest: seq<Token>)
    ensures Text([part] + parts) + rest == PartText(part) + (Text(parts) + rest)
    ensures before + ([part] + parts) == (before + [part]) + parts
    ensures (before + ([part] + parts))[..|before|] == before
    ensures (before + ([part] + parts))[|before| + 1..] == parts && (before + ([part] + parts))[|before|] == part
  {
    assert ([part] + parts)[1..] == parts;
  }

  lemma ReadsMore(node: Node, before: seq<Part>, part: Part, parts: seq<Part>, rest: seq<Token>, words: seq<Token>)
    ensures Reads(node, before, [part] + parts, rest, PartText(part) + words) <==>
      Reads(node, before + [part], parts, rest, words) && PartOk(node, before + ([part] + parts), |before|, rest)
  {
    hide PartOk, NotTooMany, Text, PartText;
    ReadsFirst(node, before, part, parts, rest);
    assert |PartText(part) + words| == |PartText(part)| + |words|;
    assert PartText(part) + words == PartText(part) + (Text(parts) + rest) <==> words == Text(parts) + rest by {
      SamePrefix(PartText(part), words, Text(parts) + rest);
    }
  }

  lemma SamePrefix(a: seq<Token>, b: seq<Token>, c: seq<Token>)
    ensures a + b == a + c <==> b == c
  {
    if a + b == a + c {
      assert b == (a + b)[|a|..] == c;
    }
  }

  lemma SomeReading(node: Node, before: seq<Part>, parts: seq<Part>, rest: seq<Token>, words: seq<Token>)
    requires Reads(node, before, parts, rest, words) && Ending(node, before + parts, rest)
    ensures Readable(node, before, words)
  {
  }

  /** A reading that goes on with this part. */
  lemma ReadableFrom(node: Node, before: seq<Part>, part: Part, words: seq<Token>)
    requires Readable(node, before + [part], words)
    requires forall parts, rest :: Reads(node, before + [part], parts, rest, words) ==>
      PartOk(node, before + ([part] + parts), |before|, rest)
    ensures Readable(node, before, PartText(part) + words)
  {
    hide Reads, Ending, PartOk, PartText;
    var parts, rest :| Reads(node, before + [part], parts, rest, words) && Ending(node, before + [part] + parts, rest);
    ReadsMore(node, before, part, parts, rest, words);
    assert before + ([part] + parts) == before + [part] + parts;
    SomeReading(node, before, [part] + parts, rest, PartText(part) + words);
  }

  /** What is left over when nothing more is read. */
  lemma EndingIffAccepted(s: State, node: Node, parts: seq<Part>, words: seq<Token>)
    requires Counted(s, node, parts)
    ensures Ending(node, parts, words) <==> (
      || (words == [] && Accepts(s, words))
      || (words != [] && (Enters(node, parts, words[0]) || Closes(node, parts, words[0])) && Accepts(s, words)))
    decreases |words|, 2
  {
    hide Enters, Closes, Complete, Step, Accepts, IsSub;
    if words == [] {
      CompleteIsFinished(s, node, parts);
    } else {
      AcceptsStep(s, words);
      if Enters(node, parts, words[0]) {
        EntersPlain(s, node, parts, words[0]);
        AcceptedIffCommand(node.entries[words[0]].node, words[1..]);
      } else if Closes(node, parts, words[0]) {
        EntersPlain(s, node, parts, words[0]);
        EndAccepts(words[1..]);
        assert words[1..] == [] <==> |words| == 1;
      }
    }
  }

  lemma EntersPlain(s: State, node: Node, parts: seq<Part>, token: Token)
    requires Counted(s, node, parts) && (Enters(node, parts, token) || Closes(node, parts, token))
    ensures Enters(node, parts, token) ==>
      token in node.entries && node.entries[token].Sub? && Step(s, token) == Some(Enter(node.entries[token].node))
    ensures Closes(node, parts, token) ==> Step(s, token) == Some(Enter(END)) && !Enters(node, parts, token)
  {
    hide Step, Counted, Items;
    PlainStep(s, node, parts, token);
  }

  /** Every reading is accepted. */
  lemma ReadableIsAccepted(s: State, node: Node, before: seq<Part>, parts: seq<Part>, rest: seq<Token>,
                           words: seq<Token>)
    requires Counted(s, node, before) && Reads(node, before, parts, rest, words) && Ending(node, before + parts, rest)
    ensures Accepts(s, words)
    decreases |words|, 3, |parts|
  {
    hide Accepts, Ending, ArgsOk, ItemOk, Step, Counted;
    if parts == [] {
      assert before + parts == before && words == rest;
      EndingIffAccepted(s, node, before, words);
    } else {
      var part, later := parts[0], parts[1..];
      assert parts == [part] + later;
      var after := Text(later) + rest;
      ReadsFirst(node, before, part, later, rest);
      assert words == PartText(part) + after;
      ReadsMore(node, before, part, later, rest, after);
      assert NotTooMany(node, before + [part]) by { FewerParts(node, before + [part], later); }
      TakesPart(s, node, before, part, after);
      var next := if part.Use? then Used(s, part.name) else Step(s, part.token).value;
      ReadableIsAccepted(next, node, before + [part], later, rest, after);
    }
  }

  /** A part that fits takes the automaton to where the rest decides. */
  lemma TakesPart(s: State, node: Node, before: seq<Part>, part: Part, after: seq<Token>)
    requires Counted(s, node, before) && NotTooMany(node, before + [part])
    requires part.Use? ==>
      part.name in node.switches && ArgsOk(node.switches[part.name].params, part.args, after)
    requires part.Item? ==> part.token !in node.switches && ItemOk(node, Items(before), part.token)
    ensures StateOk(s)
    ensures part.Item? ==> Step(s, part.token).Some?
    ensures var next := if part.Use? then Used(s, part.name) else Step(s, part.token).value;
      Counted(next, node, before + [part]) && (Accepts(s, PartText(part) + after) <==> Accepts(next, after))
  {
    hide Accepts, ArgsOk, ItemOk, Step;
    OneMore(before, part);
    match part
    case Use(name, args) =>
      UseReads(s, name, args, after);
      UsedIsCounted(s, node, before, name, args);
    case Item(token) =>
      ItemStep(s, node, before, token);
      AcceptsStep(s, [token] + after);
      assert ([token] + after)[1..] == after;
  }

  /** Everything accepted can be read. */
  lemma AcceptedIsReadable(s: State, node: Node, before: seq<Part>, words: seq<Token>)
    requires Counted(s, node, before) && NotTooMany(node, before) && Accepts(s, words)
    ensures Readable(node, before, words)
    decreases |words|, 3
  {
    hide Accepts, Ending, ArgsOk, ItemOk, Step, Counted, NotTooMany, Reads, Enters, Closes, Room, Readable;
    assert StateOk(s) && s.node == node && s.mode == Ready by { CountedNode(s, node, before); }
    if words == [] || Enters(node, before, words[0]) || Closes(node, before, words[0]) {
      EndingIffAccepted(s, node, before, words);
      ReadsNothing(node, before, words);
      assert before + [] == before;
      SomeReading(node, before, [], words, words);
    } else if words[0] in node.switches {
      var name := words[0];
      assert words == [name] + words[1..];
      var args, after := UseSplits(s, name, words[1..]);
      assert words == PartText(Use(name, args)) + after;
      NotTooManyUses(s, node, before, name, args);
      UseReads(s, name, args, after);
      assert [name] + Flat(args) + after == words;
      UsedIsCounted(s, node, before, name, args);
      AcceptedIsReadable(Used(s, name), node, before + [Use(name, args)], after);
      GoesOn(node, before, Use(name, args), after);
      ReadableFrom(node, before, Use(name, args), after);
    } else {
      AcceptsStep(s, words);
      OneItem(s, node, before, words[0]);
      var after := words[1..];
      AcceptedIsReadable(Step(s, words[0]).value, node, before + [Item(words[0])], after);
      GoesOn(node, before, Item(words[0]), after);
      assert words == PartText(Item(words[0])) + after;
      ReadableFrom(node, before, Item(words[0]), after);
    }
  }

  lemma CountedNode(s: State, node: Node, parts: seq<Part>)
    requires Counted(s, node, parts)
    ensures StateOk(s) && s.node == node && s.mode == Ready
  {
  }

  lemma GoesOn(node: Node, before: seq<Part>, part: Part, after: seq<Token>)
    requires part.Use? ==>
      part.name in node.switches && ArgsOk(node.switches[part.name].params, part.args, after)
    requires part.Item? ==> part.token !in node.switches && ItemOk(node, Items(before), part.token)
    ensures forall parts, rest :: Reads(node, before + [part], parts, rest, after) ==>
      PartOk(node, before + ([part] + parts), |before|, rest)
  {
    hide ArgsOk, ItemOk;
    forall parts, rest | Reads(node, before + [part], parts, rest, after)
      ensures PartOk(node, before + ([part] + parts), |before|, rest)
    {
      ReadsFirst(node, before, part, parts, rest);
    }
  }

  lemma NotTooManyUses(s: State, node: Node, before: seq<Part>, name: Token, args: seq<seq<Token>>)
    requires Counted(s, node, before) && NotTooMany(node, before) && name in node.switches
    requires Below(Uses(s, name), node.switches[name].bounds)
    ensures NotTooMany(node, before + [Use(name, args)])
  {
    OneMore(before, Use(name, args));
  }

  lemma OneItem(s: State, node: Node, before: seq<Part>, token: Token)
    requires Counted(s, node, before) && NotTooMany(node, before) && token !in node.switches
    requires Step(s, token).Some? && !Enters(node, before, token) && !Closes(node, before, token)
    ensures ItemOk(node, Items(before), token)
    ensures Counted(Step(s, token).value, node, before + [Item(token)]) && NotTooMany(node, before + [Item(token)])
  {
    hide Step, ItemOk, Counted, Enters, Closes;
    CountedNode(s, node, before);
    assert Room(node, Items(before)) by {
      if node.ordered != [] {
        OrderedStep(s, node, before, token);
      } else {
        PlainStep(s, node, before, token);
      }
    }
    assert ItemOk(node, Items(before), token) && Counted(Step(s, token).value, node, before + [Item(token)]) by {
      if node.ordered != [] {
        OrderedStep(s, node, before, token);
      } else {
        PlainStep(s, node, before, token);
      }
    }
    OneMore(before, Item(token));
  }

  /** The automaton ends in a finished state exactly on the commands of the language. */
  lemma AcceptedIffCommand(node: Node, words: seq<Token>)
    ensures Accepts(Enter(node), words) <==> Command(node, words)
    decreases |words|, 4
  {
    hide Accepts, Ending, Counted, Reads;
    FreshIsCounted(node);
    if Accepts(Enter(node), words) {
      assert NotTooMany(node, []);
      AcceptedIsReadable(Enter(node), node, [], words);
      var parts, rest :| Reads(node, [], parts, rest, words) && Ending(node, [] + parts, rest);
      assert [] + parts == parts;
      RestIsShorter(node, parts, rest, words);
    }
    if Command(node, words) {
      var parts, rest :| Reads(node, [], parts, rest, words) && |rest| <= |words| && Ending(node, parts, rest);
      assert [] + parts == parts;
      ReadableIsAccepted(Enter(node), node, [], parts, rest, words);
    }
  }

  lemma RestIsShorter(node: Node, parts: seq<Part>, rest: seq<Token>, words: seq<Token>)
    requires Reads(node, [], parts, rest, words)
    ensures |rest| <= |words|
  {
  }

  /** A complete command: parsed as a valid prefix whose end owes nothing. */
  method ParseTokens(commands: Node, words: seq<Token>) returns (ok: bool)
    ensures ok <==> words != [] && LAST_TERMINAL !in words && Command(commands, words)
    ensures ok ==> forall n :: 0 <= n <= |words| ==> PrefixValid(commands, words[..n])
  {
    hide Run, View, Command;
    AcceptedIffCommand(commands, words);
    if words == [] || LAST_TERMINAL in words {
      return false;
    }
    var walked := WalkPrefix(commands, words);
    if walked.None? {
      return false;
    }
    forall n | 0 <= n <= |words| ensures PrefixValid(commands, words[..n]) {
      PrefixClosed(commands, words, n);
    }
    return IsFinished(walked.value);
  }
}
