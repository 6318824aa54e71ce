/** What readback returns is what was published, and nothing else. */
module CmdReadback {
  import opened Collections
  import opened CmdLineage
  import opened CmdAttempts
  import opened CmdResults
  import opened CmdTransport
  import opened CmdSafety
  import Labels

  /** Between two states of a run somebody prepared this result, on this request, as `c`. */
  ghost predicate Publishes(trace: seq<System>, i: nat, b: Branch, request: Id, retry: nat, text: ResultText, c: Id) {
    && i + 1 < |trace| && WellFounded(trace[i].commits) && WellFounded(trace[i + 1].commits)
    && PreparePublish(trace[i], trace[i + 1], b, retry, text, c) && trace[i].refs[b] == request
  }

  lemma {:induction false} CommitsStay(trace: seq<System>, home: nat, i: nat, j: nat)
    requires Run(trace, home) && i <= j < |trace|
    ensures Extends(trace[i].commits, trace[j].commits)
    decreases j - i
  {
    hide Next, Init, Inv, WellFounded;
    if i < j {
      RunIsSafe(trace, home, i);
      assert Next(trace[i], trace[i + 1]);
      NextIsOk(trace[i], trace[i + 1], home);
      CommitsStay(trace, home, i + 1, j);
    }
  }

  /** On an unanswered attempt, at any later time. */
  lemma ResultReads(cs: Commits, more: Commits, source: Id, argv: seq<string>, tip: Id, last: nat, retry: nat,
                    text: ResultText, c: Id)
    requires WellFounded(cs) && WellFounded(more) && Extends(cs, more) && Lineage(cs, source, argv, tip, last, Asked)
    requires tip in cs && RequestNumber(cs[tip].tree.marker) == Some(retry) && text.Status?
    requires c in more && more[c] == ResultCommit(cs, tip, retry, text)
    ensures ReadResult(more, c) == Completed(tip, retry, text.exitCode, text.output)
    ensures Changed(more, c) == {Result}
  {
    hide Changed, RequestNumber, Lineage;
    LineageIsStable(cs, more, source, argv, tip, last, Asked);
    MarkerOfTip(more, source, argv, tip, last, Asked);
    assert more[c] == ResultCommit(more, tip, retry, text);
    PublicationChangesResult(more, tip, retry, text);
    assert Changed(more, c) == {Result} by { ChangedIsDifference(more, c); }
    assert Marker !in {Result};
    TipMarker(more, source, argv, tip, last, Asked);
  }

  lemma ChangedIsDifference(cs: Commits, c: Id)
    requires WellFounded(cs) && c in cs && cs[c].parent.Some?
    ensures Changed(cs, c) == Difference(cs[cs[c].parent.value].tree, cs[c].tree)
  {
  }

  /** A prepared result reads back with its own number, exit code and output. */
  lemma PreparedReads(trace: seq<System>, home: nat, i: nat, j: nat, b: Branch, request: Id, retry: nat,
                      text: ResultText, c: Id)
    requires Run(trace, home) && i < j < |trace| && Publishes(trace, i, b, request, retry, text, c)
    ensures c in trace[j].commits && Changed(trace[j].commits, c) == {Result}
    ensures ReadResult(trace[j].commits, c) == Completed(request, retry, text.exitCode, text.output)
  {
    hide Next, Init, WellFounded, Lineage, Contiguous, Unique, SubmitterOk, PushOk, ReadResult, Changed, ResultCommit,
      RequestNumber, LatestMarker;
    RunIsSafe(trace, home, i);
    CommitsStay(trace, home, i, j);
    CommitsStay(trace, home, i + 1, j);
    var source, argv, last, stage := TipHasLineage(trace[i], b);
    StageIsChanged(trace[i].commits, source, argv, request, last, stage);
    assert Result !in {Marker};
    ResultReads(trace[i].commits, trace[j].commits, source, argv, request, last, retry, text, c);
  }

  /** While the request is still the tip, delivery makes the result the tip, where it reads
      back as it was published. */
  lemma PublishedResultIsRead(trace: seq<System>, home: nat, i: nat, j: nat, k: nat, b: Branch, request: Id,
                              retry: nat, text: ResultText, c: Id)
    requires Run(trace, home) && i < j && j + 1 < |trace| && Publishes(trace, i, b, request, retry, text, c)
    requires Deliver(trace[j], trace[j + 1], k) && trace[j].pushes[k] == Answer(b, request, c)
    requires Live(trace[j].refs, b, request)
    ensures Live(trace[j + 1].refs, b, c) && c in trace[j + 1].commits
    ensures ReadResult(trace[j + 1].commits, c) == Completed(request, retry, text.exitCode, text.output)
  {
    hide Next, Init, ReadResult, Changed, PreparePublish;
    PreparedReads(trace, home, i, j, b, request, retry, text, c);
    PreparedReads(trace, home, i, j + 1, b, request, retry, text, c);
  }

  // ----------------------------------------------------- nothing else is read

  ghost predicate WasPublished(trace: seq<System>, i: nat, b: Branch, request: Id, c: Id) {
    exists j: nat, retry: nat, text :: j < i && Publishes(trace, j, b, request, retry, text, c)
  }

  ghost predicate AnswersPublished(trace: seq<System>, i: nat)
    requires i < |trace|
  {
    forall k :: 0 <= k < |trace[i].pushes| && trace[i].pushes[k].Answer? ==>
      WasPublished(trace, i, trace[i].pushes[k].branch, trace[i].pushes[k].tip, trace[i].pushes[k].commit)
  }

  /** A branch whose tip is a result got it from a publication for that branch. */
  ghost predicate TipPublished(trace: seq<System>, i: nat, b: Branch)
    requires i < |trace| && WellFounded(trace[i].commits)
  {
    b in trace[i].refs && trace[i].refs[b] in trace[i].commits
    && (Changed(trace[i].commits, trace[i].refs[b]) == {Result} ==>
          exists request :: WasPublished(trace, i, b, request, trace[i].refs[b]))
  }

  ghost predicate TipsPublished(trace: seq<System>, i: nat)
    requires i < |trace| && WellFounded(trace[i].commits)
  {
    forall b :: b in trace[i].refs && b.Cmd? ==> TipPublished(trace, i, b)
  }

  lemma PublishedEarlier(trace: seq<System>, i: nat, b: Branch, request: Id, c: Id)
    requires WasPublished(trace, i, b, request, c)
    ensures WasPublished(trace, i + 1, b, request, c)
  {
    hide Publishes;
  }

  lemma AnswersStay(trace: seq<System>, home: nat, i: nat)
    requires Run(trace, home) && i + 1 < |trace| && AnswersPublished(trace, i)
    ensures AnswersPublished(trace, i + 1)
  {
    hide Init, WasPublished, SubmitterStep, Deliver, Elsewhere, PreparePublish, PrepareRetry;
    var s, s' := trace[i], trace[i + 1];
    assert Next(s, s');
    PushIsAdded(s, s');
    DeliversKeep(s, s');
    forall k | 0 <= k < |s'.pushes| && s'.pushes[k].Answer?
      ensures WasPublished(trace, i + 1, s'.pushes[k].branch, s'.pushes[k].tip, s'.pushes[k].commit)
    {
      if k < |s.pushes| {
        assert s'.pushes[k] == s.pushes[k];
        PublishedEarlier(trace, i, s.pushes[k].branch, s.pushes[k].tip, s.pushes[k].commit);
      } else {
        var b, retry, text, c :| PreparePublish(s, s', b, retry, text, c);
        assert Publishes(trace, i, b, s.refs[b], retry, text, c);
        NewlyPublished(trace, i, b, s.refs[b], retry, text, c);
      }
    }
  }

  lemma DeliversKeep(s: System, s': System)
    requires WellFounded(s.commits)
    ensures forall k: nat :: Deliver(s, s', k) ==> s'.pushes == s.pushes
  {
  }

  lemma NewlyPublished(trace: seq<System>, i: nat, b: Branch, request: Id, retry: nat, text: ResultText, c: Id)
    requires Publishes(trace, i, b, request, retry, text, c)
    ensures WasPublished(trace, i + 1, b, request, c)
  {
    hide Publishes;
  }

  /** The new tip of a branch is a marker, or comes from a prepared answer. */
  lemma NewTip(s: System, s': System, home: nat, b: Branch) returns (k: nat)
    requires Inv(s, home) && Next(s, s') && b in s'.refs && b.Cmd?
    requires !(b in s.refs && s'.refs[b] == s.refs[b])
    ensures s'.refs[b] in s'.commits
    ensures Changed(s'.commits, s'.refs[b]) != {Result} || (
      k < |s.pushes| && s.pushes[k].Answer? && s.pushes[k].branch == b && s.pushes[k].commit == s'.refs[b])
  {
    hide Lineage, WellFounded, Sound, Contiguous, Unique, PrepareRetry, PreparePublish, Changed, ReadRefs, Inspect,
      Recheck;
    k := 0;
    if i: nat :| |s'.submitters| == |s.submitters| && s'.pushes == s.pushes && Submits(s, s', i) {
      var u := s.submitters[i];
      assert SubmitterOk(s, u, home);
      LineageKnown(s.commits, u.job.revision, u.job.argv, u.commit.value, 0, Asked);
      StageIsChanged(s.commits, u.job.revision, u.job.argv, u.commit.value, 0, Asked);
    } else if d: nat :| s'.submitters == s.submitters && Deliver(s, s', d) {
      k := d;
      var p := s.pushes[k];
      assert PushOk(s, p);
      var source, argv, last: nat, stage :| Follows(s.commits, p, source, argv, last, stage);
      if p.Advance? {
        StageIsChanged(s.commits, source, argv, p.commit, last + 1, Asked);
      }
    }
  }

  lemma {:induction false} EverythingWasPublished(trace: seq<System>, home: nat, i: nat)
    requires Run(trace, home) && i < |trace|
    ensures AnswersPublished(trace, i) && TipsPublished(trace, i)
  {
    hide Inv, Next, Init, WasPublished, WellFounded, Changed;
    if i > 0 {
      EverythingWasPublished(trace, home, i - 1);
      AnswersStay(trace, home, i - 1);
      forall b | b in trace[i].refs && b.Cmd? ensures TipPublished(trace, i, b) {
        TipStays(trace, home, i - 1, b);
      }
    } else {
      assert Init(trace[0], home);
      NothingYet(trace[0], home);
    }
  }

  lemma NothingYet(s: System, home: nat)
    requires Init(s, home)
    ensures s.pushes == [] && forall b :: b in s.refs ==> b.Plain?
  {
  }

  lemma TipStays(trace: seq<System>, home: nat, i: nat, b: Branch)
    requires Run(trace, home) && i + 1 < |trace| && b in trace[i + 1].refs && b.Cmd?
    requires AnswersPublished(trace, i) && TipsPublished(trace, i)
    ensures TipPublished(trace, i + 1, b)
  {
    hide Inv, Next, Init, WasPublished, WellFounded, Changed;
    RunIsSafe(trace, home, i);
    var s, s' := trace[i], trace[i + 1];
    assert Next(s, s');
    NextIsOk(s, s', home);
    if b in s.refs && s'.refs[b] == s.refs[b] {
      assert TipPublished(trace, i, b);
      ChangedIsStable(s.commits, s'.commits, s.refs[b]);
      if request :| WasPublished(trace, i, b, request, s.refs[b]) {
        PublishedEarlier(trace, i, b, request, s.refs[b]);
      }
    } else {
      var k := NewTip(s, s', home, b);
      if Changed(s'.commits, s'.refs[b]) == {Result} {
        PublishedEarlier(trace, i, b, s.pushes[k].tip, s.pushes[k].commit);
      }
    }
  }

  /** Whatever readback ever returns for a branch was published for that branch, for that
      attempt, with that exit code and output. */
  lemma ReadResultWasPublished(trace: seq<System>, home: nat, i: nat, b: Branch) returns (j: nat)
    requires Run(trace, home) && i < |trace| && b in trace[i].refs && b.Cmd?
    ensures trace[i].refs[b] in trace[i].commits
    ensures var reading := ReadResult(trace[i].commits, trace[i].refs[b]);
      reading.Completed? ==> j < i && Publishes(trace, j, b, reading.request, reading.retry,
                                                 Status(reading.exitCode, reading.output), trace[i].refs[b])
  {
    hide Inv, Next, Init, Publishes, WellFounded, Changed, LatestMarker, RequestNumber;
    EverythingWasPublished(trace, home, i);
    assert TipPublished(trace, i, b);
    j := 0;
    var tip := trace[i].refs[b];
    var reading := ReadResult(trace[i].commits, tip);
    if reading.Completed? {
      var request :| WasPublished(trace, i, b, request, tip);
      var m: nat, retry: nat, text :| m < i && Publishes(trace, m, b, request, retry, text, tip);
      PreparedReads(trace, home, m, i, b, request, retry, text, tip);
      IsStatus(trace, m, b, request, retry, text, tip);
      j := m;
    }
  }

  lemma IsStatus(trace: seq<System>, i: nat, b: Branch, request: Id, retry: nat, text: ResultText, c: Id)
    requires Publishes(trace, i, b, request, retry, text, c)
    ensures text.Status?
  {
  }

  // ------------------------------------------------------------------- retries

  /** A branch of a remote request can always be retried. The new attempt keeps everything of
      the old one but the marker, the old result included, and nothing is read for it. */
  lemma RetryCanBePrepared(s: System, home: nat, b: Branch, source: Id, argv: seq<string>, last: nat, stage: Stage,
                           c: Id)
    returns (s': System)
    requires Inv(s, home) && b in s.refs && b.Cmd? && Lineage(s.commits, source, argv, s.refs[b], last, stage)
    requires |argv| >= 2 && argv[|argv| - 1] == "--remote" && c !in s.commits && s.refs[b] < c
    requires forall k :: k in s.commits ==> k < c
    ensures WellFounded(s'.commits) && PrepareRetry(s, s', b, source, argv, last, c)
    ensures s'.submitters == s.submitters && s'.refs == s.refs && s.refs[b] in s.commits && c in s'.commits
    ensures s'.commits[c].tree == s.commits[s.refs[b]].tree.(marker := s'.commits[c].tree.marker)
    ensures ReadResult(s'.commits, c) == Pending
  {
    hide Lineage, Accepts, Lenient, ReadResult, Labels.Digits, SubmitterOk, PushOk, Unique, Contiguous;
    var tip := s.refs[b];
    LineageKnown(s.commits, source, argv, tip, last, stage);
    SourceIsKnown(s.commits, source, argv, tip, last, stage);
    var value := MarkerCommit(s.commits, tip, source, argv, last + 1);
    s' := s.(commits := s.commits[c := value], pushes := s.pushes + [Advance(b, tip, c)]);
    AddedIsWellFounded(s.commits, c, value);
    TipMarker(s.commits, source, argv, tip, last, stage);
    LineageIsLenient(s.commits, source, argv, tip, last, stage);
    AcceptsIffLenient(s.commits, source, tip, argv);
    LineageIsStable(s.commits, s'.commits, source, argv, tip, last, stage);
    OtherCount(argv, last);
    assert Changed(s'.commits, c) == {Marker};
    NextAttempt(s'.commits, c, tip, source, argv, last, stage);
    ReadbackIsCurrent(s'.commits, source, argv, c, last + 1, Asked);
  }

  lemma {:induction false} SourceIsKnown(cs: Commits, source: Id, argv: seq<string>, c: Id, last: nat, stage: Stage)
    requires WellFounded(cs) && Lineage(cs, source, argv, c, last, stage)
    ensures source in cs
    decreases c
  {
    hide Changed;
    var p := cs[c].parent.value;
    if stage == Answered {
      SourceIsKnown(cs, source, argv, p, last, Asked);
    } else if last > 0 {
      var before := if Lineage(cs, source, argv, p, last - 1, Asked) then Asked else Answered;
      SourceIsKnown(cs, source, argv, p, last - 1, before);
    }
  }

  lemma AddedIsWellFounded(cs: Commits, c: Id, value: Commit)
    requires WellFounded(cs) && c !in cs && value.parent.Some? && value.parent.value in cs && value.parent.value < c
    requires forall k :: k in cs ==> k < c
    ensures WellFounded(cs[c := value]) && Extends(cs, cs[c := value])
  {
  }

  lemma OtherCount(argv: seq<string>, last: nat)
    ensures argv + [Labels.Digits(last)] != argv + [Labels.Digits(last + 1)]
  {
    hide Labels.Digits;
    if argv + [Labels.Digits(last)] == argv + [Labels.Digits(last + 1)] {
      SameWords(argv, last, argv, last + 1);
    }
  }

  /** A prepared retry lands while its tip is still the tip, and is up to date afterwards. */
  lemma RetryLands(s: System, s': System, home: nat, k: nat)
    requires Inv(s, home) && Deliver(s, s', k) && s.pushes[k].Advance?
    ensures s.refs[s.pushes[k].branch] == s.pushes[k].tip || s.refs[s.pushes[k].branch] == s.pushes[k].commit ==>
      Live(s'.refs, s.pushes[k].branch, s.pushes[k].commit)
  {
    hide Follows;
    var p := s.pushes[k];
    assert PushOk(s, p);
    assert p.tip in Ancestors(s.commits, p.tip) && p.commit in Ancestors(s.commits, p.commit);
  }
}
