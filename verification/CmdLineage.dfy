/** Commits of numbered CMD branches and the two independent lineage scans. */
module CmdLineage {
  import opened Collections
  import Labels

  /** Commits are numbered by creation; the numbers stand for object names. */
  type Id = nat

  /** `.ci/rwf`, `.repoworkflow/result`, and everything else in the tree. */
  datatype Path = Marker | Result | Other

  /** The request as shell words, or a text that cannot be split into words. */
  datatype MarkerFile = Words(words: seq<string>, canonical: bool) | Garbled

  datatype Mode = Regular | Executable | Link

  datatype ResultText = Status(exitCode: int, output: string) | NoStatus

  datatype ResultFile = ResultFile(mode: Mode, text: ResultText)

  datatype Tree = Tree(marker: Option<MarkerFile>, result: Option<ResultFile>, other: nat)

  datatype Ticket = Ticket(request: Id, retry: nat)

  /** `trailers` are the source trailers of the message, `ticket` its result identity. */
  datatype Commit = Commit(parent: Option<Id>, tree: Tree, trailers: seq<Id>, ticket: Option<Ticket>)

  type Commits = map<Id, Commit>

  ghost predicate WellFounded(cs: Commits) {
    forall c :: c in cs && cs[c].parent.Some? ==> cs[c].parent.value in cs && cs[c].parent.value < c
  }

  /** Paths listed by a recursive tree diff; a root commit lists none. */
  function Changed(cs: Commits, c: Id): set<Path>
    requires WellFounded(cs) && c in cs
  {
    if cs[c].parent.None? then {} else Difference(cs[cs[c].parent.value].tree, cs[c].tree)
  }

  function Difference(a: Tree, b: Tree): set<Path> {
    (if a.marker != b.marker then {Marker} else {}) + (if a.result != b.result then {Result} else {})
      + (if a.other != b.other then {Other} else {})
  }

  function Ancestors(cs: Commits, c: Id): set<Id>
    requires WellFounded(cs) && c in cs
    decreases c
  {
    {c} + (if cs[c].parent.None? then {} else Ancestors(cs, cs[c].parent.value))
  }

  lemma {:induction false} AncestorsAreOlder(cs: Commits, c: Id)
    requires WellFounded(cs) && c in cs
    ensures forall a :: a in Ancestors(cs, c) ==> a in cs && a <= c
    decreases c
  {
    if cs[c].parent.Some? {
      AncestorsAreOlder(cs, cs[c].parent.value);
    }
  }

  /** Commits reachable from `tip` outside `excluded`, oldest first. */
  function History(cs: Commits, excluded: set<Id>, tip: Id): seq<Id>
    requires WellFounded(cs) && tip in cs
    decreases tip
  {
    if tip in excluded then []
    else if cs[tip].parent.None? then [tip]
    else History(cs, excluded, cs[tip].parent.value) + [tip]
  }

  // -------------------------------------------------------------- forward scan

  datatype Progress = Counting(count: nat) | Rejected | Broken

  function ForwardStep(cs: Commits, source: Id, argv: seq<string>, prior: Id, count: nat, node: Id): Progress
    requires WellFounded(cs) && node in cs
  {
    if cs[node].parent != Some(prior) then Rejected
    else if Changed(cs, node) == {Result} then (if count == 0 then Rejected else Counting(count))
    else if Changed(cs, node) != {Marker} then Rejected
    else if source !in cs[node].trailers then Rejected
    else if cs[node].tree.marker.None? then Broken
    else if cs[node].tree.marker.value.Garbled? then Rejected
    else if cs[node].tree.marker.value.words != argv + [Labels.Digits(count)] then Rejected
    else Counting(count + 1)
  }

  ghost predicate Known(cs: Commits, history: seq<Id>) {
    forall i :: 0 <= i < |history| ==> history[i] in cs
  }

  function Forward(cs: Commits, source: Id, argv: seq<string>, history: seq<Id>): Progress
    requires WellFounded(cs) && Known(cs, history)
  {
    if history == [] then Counting(0) else
      var n := |history| - 1;
      var before := Forward(cs, source, argv, history[..n]);
      if !before.Counting? then before
      else ForwardStep(cs, source, argv, if n == 0 then source else history[n - 1], before.count, history[n])
  }

  lemma {:induction false} HistoryIsKnown(cs: Commits, excluded: set<Id>, tip: Id)
    requires WellFounded(cs) && tip in cs
    ensures Known(cs, History(cs, excluded, tip))
    decreases tip
  {
    if tip !in excluded && cs[tip].parent.Some? {
      HistoryIsKnown(cs, excluded, cs[tip].parent.value);
    }
  }

  lemma {:induction false} ForwardStops(cs: Commits, source: Id, argv: seq<string>, history: seq<Id>, i: nat)
    requires WellFounded(cs) && Known(cs, history) && i <= |history|
    requires !Forward(cs, source, argv, history[..i]).Counting?
    ensures Forward(cs, source, argv, history) == Forward(cs, source, argv, history[..i])
    decreases |history|
  {
    if i == |history| {
      assert history[..i] == history;
    } else {
      assert history[..|history| - 1][..i] == history[..i];
      ForwardStops(cs, source, argv, history[..|history| - 1], i);
    }
  }

  lemma ForwardPrefix(cs: Commits, source: Id, argv: seq<string>, history: seq<Id>, i: nat)
    requires WellFounded(cs) && Known(cs, history) && i < |history|
    ensures var before := Forward(cs, source, argv, history[..i]);
      Forward(cs, source, argv, history[..i + 1]) ==
      if !before.Counting? then before
      else ForwardStep(cs, source, argv, if i == 0 then source else history[i - 1], before.count, history[i])
  {
    hide ForwardStep, WellFounded;
    assert history[..i + 1][..i] == history[..i];
  }

  /** Judge the history of a CMD branch from the source revision upwards. */
  method Matches(cs: Commits, source: Id, tip: Id, argv: seq<string>) returns (matched: Progress)
    requires WellFounded(cs) && source in cs && tip in cs
    ensures Known(cs, History(cs, Ancestors(cs, source), tip))
    ensures matched == Forward(cs, source, argv, History(cs, Ancestors(cs, source), tip))
  {
    hide ForwardStep, Ancestors, Changed, WellFounded;
    var history := History(cs, Ancestors(cs, source), tip);
    HistoryIsKnown(cs, Ancestors(cs, source), tip);
    var prior, count := source, 0;
    var i: nat := 0;
    while i < |history|
      invariant i <= |history| && count >= 0
      invariant prior == if i == 0 then source else history[i - 1]
      invariant Forward(cs, source, argv, history[..i]) == Counting(count)
    {
      ForwardPrefix(cs, source, argv, history, i);
      var step := ForwardStep(cs, source, argv, prior, count, history[i]);
      if !step.Counting? {
        ForwardStops(cs, source, argv, history, i + 1);
        return step;
      }
      prior, count := history[i], step.count;
      i := i + 1;
    }
    assert history[..i] == history;
    return Counting(count);
  }

  /** The branch is a run of attempts for the source and arguments. */
  ghost predicate Accepts(cs: Commits, source: Id, tip: Id, argv: seq<string>)
    requires WellFounded(cs) && source in cs && tip in cs
  {
    HistoryIsKnown(cs, Ancestors(cs, source), tip);
    var r := Forward(cs, source, argv, History(cs, Ancestors(cs, source), tip));
    r.Counting? && r.count > 0
  }

  // ------------------------------------------------------- what the scan means

  /** Attempt `count - 1` is the last one at `c`, and attempt 0 sits on the source. */
  ghost predicate Lenient(cs: Commits, source: Id, argv: seq<string>, c: Id, count: nat)
    requires WellFounded(cs)
    decreases c
  {
    && c in cs && cs[c].parent.Some? && count > 0
    && var p := cs[c].parent.value;
      if Changed(cs, c) == {Result} then p != source && Lenient(cs, source, argv, p, count)
      else
        && Changed(cs, c) == {Marker} && source in cs[c].trailers
        && cs[c].tree.marker.Some? && cs[c].tree.marker.value.Words?
        && cs[c].tree.marker.value.words == argv + [Labels.Digits(count - 1)]
        && if p == source then count == 1 else Lenient(cs, source, argv, p, count - 1)
  }

  lemma {:induction false} LenientIsAbove(cs: Commits, source: Id, argv: seq<string>, c: Id, count: nat)
    requires WellFounded(cs) && Lenient(cs, source, argv, c, count)
    ensures source < c
    decreases c
  {
    var p := cs[c].parent.value;
    if Changed(cs, c) == {Result} {
      LenientIsAbove(cs, source, argv, p, count);
    } else if p != source {
      LenientIsAbove(cs, source, argv, p, count - 1);
    }
  }

  /** One commit more in the history is one step more of the scan. */
  lemma ForwardSnoc(cs: Commits, source: Id, argv: seq<string>, c: Id)
    requires WellFounded(cs) && source in cs && c in cs && c !in Ancestors(cs, source) && cs[c].parent.Some?
    requires cs[c].parent.value in Ancestors(cs, source) ==> cs[c].parent.value == source
    ensures Known(cs, History(cs, Ancestors(cs, source), c))
    ensures Known(cs, History(cs, Ancestors(cs, source), cs[c].parent.value))
    ensures var before := Forward(cs, source, argv, History(cs, Ancestors(cs, source), cs[c].parent.value));
      Forward(cs, source, argv, History(cs, Ancestors(cs, source), c)) ==
      if before.Counting? then ForwardStep(cs, source, argv, cs[c].parent.value, before.count, c) else before
  {
    hide Ancestors, ForwardStep;
    var p := cs[c].parent.value;
    HistoryIsKnown(cs, Ancestors(cs, source), c);
    HistoryIsKnown(cs, Ancestors(cs, source), p);
    var h := History(cs, Ancestors(cs, source), c);
    assert h[..|h| - 1] == History(cs, Ancestors(cs, source), p);
  }

  lemma {:induction false} ScanFollowsLenient(cs: Commits, source: Id, argv: seq<string>, c: Id, count: nat)
    requires WellFounded(cs) && source in cs && Lenient(cs, source, argv, c, count)
    ensures Known(cs, History(cs, Ancestors(cs, source), c))
    ensures Forward(cs, source, argv, History(cs, Ancestors(cs, source), c)) == Counting(count)
    decreases c
  {
    var p := cs[c].parent.value;
    AncestorsAreOlder(cs, source);
    LenientIsAbove(cs, source, argv, c, count);
    HistoryIsKnown(cs, Ancestors(cs, source), c);
    if Changed(cs, c) == {Result} {
      LenientIsAbove(cs, source, argv, p, count);
      ScanFollowsLenient(cs, source, argv, p, count);
    } else if p != source {
      LenientIsAbove(cs, source, argv, p, count - 1);
      ScanFollowsLenient(cs, source, argv, p, count - 1);
    }
    ForwardSnoc(cs, source, argv, c);
  }

  lemma RootIsRejected(cs: Commits, source: Id, argv: seq<string>, c: Id)
    requires WellFounded(cs) && source in cs && c in cs
    ensures Known(cs, History(cs, Ancestors(cs, source), c))
    ensures var r := Forward(cs, source, argv, History(cs, Ancestors(cs, source), c));
      cs[c].parent.None? ==> r == Rejected || r == Counting(0)
  {
    HistoryIsKnown(cs, Ancestors(cs, source), c);
    var h := History(cs, Ancestors(cs, source), c);
    if cs[c].parent.None? && h != [] {
      assert h == [c] && h[..0] == [];
    }
  }

  lemma {:induction false} LenientFollowsScan(cs: Commits, source: Id, argv: seq<string>, c: Id, count: nat)
    requires WellFounded(cs) && source in cs && c in cs && count > 0
    requires Known(cs, History(cs, Ancestors(cs, source), c))
    requires Forward(cs, source, argv, History(cs, Ancestors(cs, source), c)) == Counting(count)
    ensures Lenient(cs, source, argv, c, count)
    decreases c
  {
    var h := History(cs, Ancestors(cs, source), c);
    assert h != [] && c !in Ancestors(cs, source);
    RootIsRejected(cs, source, argv, c);
    var p := cs[c].parent.value;
    HistoryIsKnown(cs, Ancestors(cs, source), p);
    assert h[..|h| - 1] == History(cs, Ancestors(cs, source), p);
    var before := Forward(cs, source, argv, History(cs, Ancestors(cs, source), p));
    assert before.Counting?;
    if p in Ancestors(cs, source) {
      assert p == source;
    } else if before.count > 0 {
      LenientFollowsScan(cs, source, argv, p, before.count);
    } else {
      NothingCounted(cs, source, argv, p);
    }
  }

  /** A non-empty history that passed the scan holds at least one attempt. */
  lemma {:induction false} NothingCounted(cs: Commits, source: Id, argv: seq<string>, c: Id)
    requires WellFounded(cs) && source in cs && c in cs && c !in Ancestors(cs, source)
    ensures Known(cs, History(cs, Ancestors(cs, source), c))
    ensures Forward(cs, source, argv, History(cs, Ancestors(cs, source), c)) != Counting(0)
  {
    HistoryIsKnown(cs, Ancestors(cs, source), c);
    var h := History(cs, Ancestors(cs, source), c);
    assert h != [];
  }

  ghost predicate IsRun(cs: Commits, source: Id, argv: seq<string>, tip: Id)
    requires WellFounded(cs)
  {
    exists count: nat :: Lenient(cs, source, argv, tip, count)
  }

  /** The scan accepts exactly the runs of attempts on the source revision. */
  lemma AcceptsIffLenient(cs: Commits, source: Id, tip: Id, argv: seq<string>)
    requires WellFounded(cs) && source in cs && tip in cs
    ensures Accepts(cs, source, tip, argv) <==> IsRun(cs, source, argv, tip)
  {
    hide WellFounded, Changed, ForwardStep, Known;
    HistoryIsKnown(cs, Ancestors(cs, source), tip);
    var scan := Forward(cs, source, argv, History(cs, Ancestors(cs, source), tip));
    assert Accepts(cs, source, tip, argv) <==> scan.Counting? && scan.count > 0;
    if scan.Counting? && scan.count > 0 {
      LenientFollowsScan(cs, source, argv, tip, scan.count);
      assert Lenient(cs, source, argv, tip, scan.count);
    }
    if IsRun(cs, source, argv, tip) {
      var count: nat :| Lenient(cs, source, argv, tip, count);
      ScanFollowsLenient(cs, source, argv, tip, count);
    }
  }

  // ------------------------------------------------------------- backward scan

  /** Target arguments and retry count of a canonical marker. */
  function CommittedMarker(file: Option<MarkerFile>): Option<(seq<string>, nat)> {
    match file
    case Some(Words(words, true)) =>
      var n := |words|;
      if n >= 3 && words[n - 2] == "--remote" && Labels.IsNumber(words[n - 1]) then
        Labels.DigitsOfValue(words[n - 1]);
        Some((words[..n - 2], Labels.Value(words[n - 1])))
      else None
    case _ => None
  }

  lemma NumberIsPrinted(s: string, n: nat)
    ensures s == Labels.Digits(n) <==> Labels.IsNumber(s) && Labels.Value(s) == n
  {
    Labels.DigitsAreNumber(n);
    Labels.ValueOfDigits(n);
    if Labels.IsNumber(s) {
      Labels.DigitsOfValue(s);
    }
  }

  /** A canonical marker reads back as the arguments and count it was written from. */
  lemma MarkerWords(words: seq<string>, argv: seq<string>, retry: nat)
    ensures CommittedMarker(Some(Words(words, true))) == Some((argv, retry))
      <==> argv != [] && words == argv + ["--remote"] + [Labels.Digits(retry)]
  {
    hide Labels.Digits, Labels.Value, Labels.IsNumber;
    var n := |words|;
    if n >= 3 {
      NumberIsPrinted(words[n - 1], retry);
      assert words == words[..n - 2] + [words[n - 2]] + [words[n - 1]];
    }
    if words == argv + ["--remote"] + [Labels.Digits(retry)] {
      assert words[..n - 2] == argv;
    }
  }

  /** As the backward scan reads a branch: every marker canonical with one trailer. */
  ghost predicate Strict(cs: Commits, source: Id, argv: seq<string>, c: Id, last: nat)
    requires WellFounded(cs)
    decreases c
  {
    && c in cs && cs[c].parent.Some?
    && var p := cs[c].parent.value;
      if Changed(cs, c) == {Result} then
        cs[c].tree.result.Some? && cs[c].tree.result.value.text.Status? && Strict(cs, source, argv, p, last)
      else
        && Changed(cs, c) == {Marker} && cs[c].trailers == [source]
        && CommittedMarker(cs[c].tree.marker) == Some((argv, last))
        && if last == 0 then p == source else Strict(cs, source, argv, p, last - 1)
  }

  /** A request the hosted runner may execute: its lineage ends on the untouched source. */
  ghost predicate Executable(cs: Commits, source: Id, sourceTip: Id, argv: seq<string>, tip: Id, retry: nat)
    requires WellFounded(cs) && tip in cs
  {
    && Changed(cs, tip) == {Marker} && Strict(cs, source, argv, tip, retry)
    && source in cs && cs[source].tree.result.None? && source == sourceTip
  }

  predicate AllAre(trailers: seq<Id>, source: Id) {
    forall i :: 0 <= i < |trailers| ==> trailers[i] == source
  }

  /** What is left to check for a lineage that started at `tip`. */
  ghost predicate Remaining(cs: Commits, tip: Id, argv: seq<string>, retry: nat,
                            current: Id, expected: nat, first: bool, trailers: seq<Id>)
    requires WellFounded(cs) && tip in cs && current in cs
  {
    forall s: Id ::
      Changed(cs, tip) == {Marker} && Strict(cs, s, argv, tip, retry)
      <==> AllAre(trailers, s) && Strict(cs, s, argv, current, expected) && (first ==> Changed(cs, current) == {Marker})
  }

  ghost predicate Finished(cs: Commits, tip: Id, argv: seq<string>, retry: nat, source: Id, trailers: seq<Id>)
    requires WellFounded(cs) && tip in cs
  {
    forall s: Id ::
      Changed(cs, tip) == {Marker} && Strict(cs, s, argv, tip, retry) <==> s == source && AllAre(trailers, s)
  }

  /** Walk from the tip to the first attempt; None stands for every refusal. */
  method Validate(cs: Commits, tip: Id, sourceTip: Id, argv: seq<string>, retry: nat) returns (source: Option<Id>)
    requires WellFounded(cs) && tip in cs
    ensures forall s: Id :: source == Some(s) <==> Executable(cs, s, sourceTip, argv, tip, retry)
  {
    hide Changed, CommittedMarker, WellFounded, AllAre;
    var current, first, sawRequest := tip, true, false;
    var expected: nat := retry;
    var trailers: seq<Id> := [];
    NothingChecked(cs, tip, argv, retry);
    while true
      invariant current in cs && sawRequest == !first
      invariant Remaining(cs, tip, argv, retry, current, expected, first, trailers)
      decreases current
    {
      if cs[current].parent.None? {
        return None;
      }
      var parent := cs[current].parent.value;
      ParentIsOlder(cs, current);
      var paths := Changed(cs, current);
      assert Result !in {Marker};
      if paths == {Marker} {
        var marker := CommittedMarker(cs[current].tree.marker);
        if marker.None? || |cs[current].trailers| != 1 {
          return None;
        }
        if marker.value != (argv, expected) {
          return None;
        }
        OneTrailer(cs, tip, argv, retry, current, expected, first, trailers);
        trailers := trailers + cs[current].trailers;
        if expected == 0 {
          source := Some(parent);
          break;
        }
        current, expected, sawRequest := parent, expected - 1, true;
      } else if paths == {Result} {
        if first || !sawRequest || cs[current].tree.result.None? || cs[current].tree.result.value.text.NoStatus? {
          return None;
        }
        current := parent;
      } else {
        return None;
      }
      first := false;
    }
    if !AllAre(trailers, source.value) || source.value !in cs || cs[source.value].tree.result.Some?
      || source.value != sourceTip {
      return None;
    }
  }

  lemma ParentIsOlder(cs: Commits, c: Id)
    requires WellFounded(cs) && c in cs && cs[c].parent.Some?
    ensures cs[c].parent.value in cs && cs[c].parent.value < c
  {
  }

  lemma NothingChecked(cs: Commits, tip: Id, argv: seq<string>, retry: nat)
    requires WellFounded(cs) && tip in cs
    ensures Remaining(cs, tip, argv, retry, tip, retry, true, [])
  {
  }

  lemma OneTrailer(cs: Commits, tip: Id, argv: seq<string>, retry: nat,
                   current: Id, expected: nat, first: bool, trailers: seq<Id>)
    requires WellFounded(cs) && tip in cs && current in cs && cs[current].parent.Some?
    requires Remaining(cs, tip, argv, retry, current, expected, first, trailers)
    requires Changed(cs, current) == {Marker} && |cs[current].trailers| == 1
    requires CommittedMarker(cs[current].tree.marker) == Some((argv, expected))
    ensures cs[current].parent.value in cs
    ensures expected > 0 ==>
      Remaining(cs, tip, argv, retry, cs[current].parent.value, expected - 1, false, trailers + cs[current].trailers)
    ensures expected == 0 ==> Finished(cs, tip, argv, retry, cs[current].parent.value, trailers + cs[current].trailers)
  {
    hide CommittedMarker;
    var more := trailers + cs[current].trailers;
    var p := cs[current].parent.value;
    forall s: Id ensures AllAre(more, s) <==> AllAre(trailers, s) && cs[current].trailers == [s] {
      assert more[|trailers|] == cs[current].trailers[0];
      assert forall i :: 0 <= i < |trailers| ==> more[i] == trailers[i];
    }
  }

  // ------------------------------------------------------------- agreement

  predicate IsWords(file: Option<MarkerFile>) {
    file.Some? && file.value.Words?
  }

  ghost predicate CleanCommit(cs: Commits, c: Id)
    requires WellFounded(cs) && c in cs
  {
    && (Changed(cs, c) == {Marker} ==> |cs[c].trailers| == 1)
    && (Changed(cs, c) == {Marker} && IsWords(cs[c].tree.marker) ==> cs[c].tree.marker.value.canonical)
    && (Changed(cs, c) == {Result} ==> cs[c].tree.result.Some? && cs[c].tree.result.value.text.Status?)
  }

  /** Markers above the source are canonical with one trailer; results carry a status. */
  ghost predicate Clean(cs: Commits, source: Id, c: Id)
    requires WellFounded(cs)
    decreases c
  {
    && c in cs && CleanCommit(cs, c)
    && (cs[c].parent.Some? && cs[c].parent.value != source ==> Clean(cs, source, cs[c].parent.value))
  }

  lemma {:induction false} StrictIsAbove(cs: Commits, source: Id, argv: seq<string>, c: Id, last: nat)
    requires WellFounded(cs) && Strict(cs, source, argv, c, last)
    ensures source < c && argv != []
    decreases c
  {
    hide Changed;
    var p := cs[c].parent.value;
    if Changed(cs, c) == {Result} {
      StrictIsAbove(cs, source, argv, p, last);
    } else if last > 0 {
      StrictIsAbove(cs, source, argv, p, last - 1);
    } else {
      var words := cs[c].tree.marker.value.words;
      assert |words[..|words| - 2]| > 0;
    }
  }

  lemma MarkerIsWords(file: Option<MarkerFile>)
    ensures CommittedMarker(file).Some? ==> IsWords(file) && file.value.canonical
  {
  }

  /** The marker of one commit satisfies both scans alike. */
  lemma MarkerAgrees(cs: Commits, source: Id, argv: seq<string>, c: Id, last: nat)
    requires WellFounded(cs) && c in cs && Changed(cs, c) == {Marker}
    ensures cs[c].trailers == [source] && CommittedMarker(cs[c].tree.marker) == Some((argv, last))
      <==> (argv != [] && CleanCommit(cs, c) && source in cs[c].trailers && IsWords(cs[c].tree.marker)
            && cs[c].tree.marker.value.words == argv + ["--remote"] + [Labels.Digits(last)])
  {
    hide Changed, CommittedMarker, Labels.Digits;
    assert Marker !in {Result};
    MarkerIsWords(cs[c].tree.marker);
    if IsWords(cs[c].tree.marker) && cs[c].tree.marker.value.canonical {
      MarkerWords(cs[c].tree.marker.value.words, argv, last);
      assert cs[c].tree.marker == Some(Words(cs[c].tree.marker.value.words, true));
    }
    if |cs[c].trailers| == 1 {
      assert cs[c].trailers == [cs[c].trailers[0]];
    }
  }

  /** The backward scan reads a lineage exactly when the forward scan does and the
      branch is clean, for every argument list that names a command. */
  lemma {:induction false} ScansAgree(cs: Commits, source: Id, argv: seq<string>, c: Id, last: nat)
    requires WellFounded(cs)
    ensures Strict(cs, source, argv, c, last) <==>
      argv != [] && Clean(cs, source, c) && Lenient(cs, source, argv + ["--remote"], c, last + 1)
    decreases c
  {
    hide Changed, CommittedMarker;
    if c in cs && cs[c].parent.Some? {
      var p := cs[c].parent.value;
      assert Marker !in {Result};
      if Changed(cs, c) == {Result} {
        ScansAgree(cs, source, argv, p, last);
        if Strict(cs, source, argv, p, last) {
          StrictIsAbove(cs, source, argv, p, last);
        }
      } else if Changed(cs, c) == {Marker} {
        MarkerAgrees(cs, source, argv, c, last);
        if last > 0 {
          ScansAgree(cs, source, argv, p, last - 1);
          if Strict(cs, source, argv, p, last - 1) {
            StrictIsAbove(cs, source, argv, p, last - 1);
          }
        }
      }
    }
  }

  /** On a clean branch whose tip is the marker of attempt `retry`, the hosted
      validator reads the lineage exactly when the submitter would reuse it. */
  lemma ValidatorAgreesWithScan(cs: Commits, source: Id, argv: seq<string>, tip: Id, retry: nat)
    requires WellFounded(cs) && source in cs && tip in cs && argv != [] && Clean(cs, source, tip)
    requires Changed(cs, tip) == {Marker}
    requires cs[tip].tree.marker == Some(Words(argv + ["--remote"] + [Labels.Digits(retry)], true))
    ensures Accepts(cs, source, tip, argv + ["--remote"]) <==> Strict(cs, source, argv, tip, retry)
  {
    hide Accepts, Changed, Clean;
    var full := argv + ["--remote"];
    AcceptsIffLenient(cs, source, tip, full);
    if IsRun(cs, source, full, tip) {
      var count: nat :| Lenient(cs, source, full, tip, count);
      TipCounts(cs, source, full, tip, count, retry);
      ScansAgree(cs, source, argv, tip, retry);
    }
    if Strict(cs, source, argv, tip, retry) {
      ScansAgree(cs, source, argv, tip, retry);
      assert Lenient(cs, source, full, tip, retry + 1);
    }
  }

  lemma TipCounts(cs: Commits, source: Id, argv: seq<string>, tip: Id, count: nat, retry: nat)
    requires WellFounded(cs) && Lenient(cs, source, argv, tip, count) && Changed(cs, tip) == {Marker}
    requires cs[tip].tree.marker == Some(Words(argv + [Labels.Digits(retry)], true))
    ensures count == retry + 1
  {
    hide Changed, Labels.Digits;
    assert Marker !in {Result};
    var a, b := argv + [Labels.Digits(retry)], argv + [Labels.Digits(count - 1)];
    assert a[|argv|] == b[|argv|];
    DigitsAreInjective(retry, count - 1);
  }

  lemma DigitsAreInjective(m: nat, n: nat)
    requires Labels.Digits(m) == Labels.Digits(n)
    ensures m == n
  {
    hide Labels.Digits, Labels.Value;
    Labels.ValueOfDigits(m);
    Labels.ValueOfDigits(n);
  }

  /** A request without a command: the submitter would reuse this branch, while the hosted
      validator reads no lineage from it, whatever source and arguments it expects. */
  lemma BareRequestDividesScans(cs: Commits)
    requires cs == map[
      0 := Commit(None, Tree(None, None, 0), [], None),
      1 := Commit(Some(0), Tree(Some(Words(["--remote", Labels.Digits(0)], true)), None, 0), [0], None)]
    ensures WellFounded(cs) && Accepts(cs, 0, 1, ["--remote"])
    ensures forall source, argv, last: nat :: !Strict(cs, source, argv, 1, last)
    ensures forall source, sourceTip, argv, retry: nat :: !Executable(cs, source, sourceTip, argv, 1, retry)
  {
    hide Accepts, Labels.Digits;
    var argv := ["--remote"];
    assert Changed(cs, 1) == {Marker};
    assert Marker !in {Result};
    assert argv + [Labels.Digits(0)] == ["--remote", Labels.Digits(0)];
    assert Lenient(cs, 0, argv, 1, 1);
    AcceptsIffLenient(cs, 0, 1, argv);
    assert CommittedMarker(cs[1].tree.marker) == None;
  }
}
