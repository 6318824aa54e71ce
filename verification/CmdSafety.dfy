/** Safety of the CMD transport over all interleavings. */
module CmdSafety {
  import opened Collections
  import opened CmdLineage
  import opened CmdAttempts
  import opened CmdResults
  import opened CmdTransport
  import Labels

  // ------------------------------------------------------------ submitter steps

  lemma ReadIsOk(s: System, u: Submitter, v: Submitter, home: nat)
    requires Inv(s, home) && SubmitterOk(s, u, home) && ReadRefs(s, u, v)
    ensures SubmitterOk(s, v, home)
  {
    hide Lineage, Holds, HasRequest, WellFounded, Unique, PushOk;
  }

  lemma InspectIsOk(s: System, u: Submitter, v: Submitter, b: Branch, home: nat)
    requires Inv(s, home) && SubmitterOk(s, u, home) && Inspect(s, u, v, b)
    ensures SubmitterOk(s, v, home)
  {
    hide Lineage, Belongs, Contiguous, WellFounded, Unique, PushOk, Accepts;
    var tip := u.phase.snapshot[b];
    if Live(s.refs, b, tip) && tip in s.commits {
      assert b.Cmd? && HasRequest(s.commits, tip);
      var source, argv :| Belongs(s.commits, tip, source, argv);
      AcceptsIffBelongs(s.commits, tip, source, argv, u.job.revision, u.job.argv);
    }
  }

  lemma RecheckIsOk(s: System, u: Submitter, v: Submitter, home: nat)
    requires Inv(s, home) && SubmitterOk(s, u, home) && Recheck(s, u, v)
    ensures SubmitterOk(s, v, home)
  {
    hide Lineage, Belongs, Contiguous, WellFounded, Unique, PushOk;
  }

  /** All numbers up to the highest of a fully inspected snapshot are taken by others. */
  lemma SnapshotIsFull(s: System, job: Job, snapshot: Refs, n: nat, home: nat)
    requires WellFounded(s.commits) && job.home == home
    requires Contiguous(snapshot, home) && Scanned(s, job, snapshot, {}) && IsHighest(snapshot, n)
    ensures Free(s, job, n + 1)
  {
    hide Holds, WellFounded;
    forall k: nat | 1 <= k < n + 1 ensures Cmd(k, home) in snapshot {
      assert n in Numbers(snapshot);
      var b :| b in snapshot && b.Cmd? && b.number == n;
      assert k == n ==> b == Cmd(k, home);
    }
  }

  lemma AllocateIsOk(s: System, s': System, u: Submitter, v: Submitter, n: nat, c: Id, home: nat)
    requires Inv(s, home) && WellFounded(s'.commits) && SubmitterOk(s, u, home)
    requires s'.refs == s.refs && Allocate(s, s', u, v, n, c)
    ensures Elsewhere(s, s') && SubmitterOk(s', v, home)
  {
    hide Lineage, Belongs, WellFounded, Unique, PushOk, Changed, Numbers;
    assert Elsewhere(s, s');
    SameBranches(s, s', home);
    SnapshotIsFull(s, u.job, u.phase.snapshot, n, home);
    SubmitterIsStable(s, s', u, home);
    if u.commit.None? {
      FirstAttempt(s'.commits, c, u.job.revision, u.job.argv);
    }
    forall k: nat | 1 <= k < n + 1 ensures !Serves(s', Cmd(k, home), u.job) {
      assert Cmd(k, home) in s.refs && !Serves(s, Cmd(k, home), u.job);
    }
  }

  lemma PushNewIsOk(s: System, s': System, u: Submitter, v: Submitter, home: nat)
    requires Inv(s, home) && SubmitterOk(s, u, home) && s'.commits == s.commits && PushNew(s, s', u, v)
    ensures Grows(s, s')
    ensures Sound(s'.commits, s'.refs) && Contiguous(s'.refs, home) && Unique(s'.commits, s'.refs)
    ensures SubmitterOk(s', v, home)
  {
    hide Lineage, Belongs, WellFounded, PushOk;
    var b := Cmd(u.phase.number, home);
    var c := u.commit.value;
    LineageKnown(s.commits, u.job.revision, u.job.argv, c, 0, Asked);
    LineageBelongs(s.commits, c, u.job.revision, u.job.argv, 0, Asked);
    if b !in s.refs {
      forall a, source, argv |
        Holds(s'.commits, s'.refs, a, source, argv) && Holds(s'.commits, s'.refs, b, source, argv)
        ensures a == b
      {
        BelongsIsUnique(s.commits, c, u.job.revision, u.job.argv, source, argv);
        if a != b {
          assert false;
        }
      }
    }
  }

  lemma LineageBelongs(cs: Commits, c: Id, source: Id, argv: seq<string>, last: nat, stage: Stage)
    requires WellFounded(cs) && Lineage(cs, source, argv, c, last, stage)
    ensures Belongs(cs, c, source, argv)
  {
  }

  lemma SubmitsIsOk(s: System, s': System, u: Submitter, v: Submitter, home: nat)
    requires Inv(s, home) && WellFounded(s'.commits) && SubmitterOk(s, u, home) && u.job.revision in s.commits
    requires SubmitterStep(s, s', u, v)
    ensures Grows(s, s')
    ensures Sound(s'.commits, s'.refs) && Contiguous(s'.refs, home) && Unique(s'.commits, s'.refs)
    ensures SubmitterOk(s', v, home)
  {
    hide Lineage, Belongs, WellFounded, PushOk, Sound, Contiguous, Unique, Grows, SubmitterOk, ReadRefs, Recheck,
      PushNew, Inspect, Allocate;
    if s'.commits == s.commits && PushNew(s, s', u, v) {
      PushNewIsOk(s, s', u, v, home);
    } else if n, c :| s'.refs == s.refs && Allocate(s, s', u, v, n, c) {
      AllocateIsOk(s, s', u, v, n, c, home);
      SameBranches(s, s', home);
    } else {
      SameBranches(s, s', home);
      SubmitterIsStable(s, s', u, home);
      if ReadRefs(s, u, v) {
        ReadIsOk(s, u, v, home);
        SubmitterIsStable(s, s', v, home);
      } else if b :| Inspect(s, u, v, b) {
        InspectIsOk(s, u, v, b, home);
        SubmitterIsStable(s, s', v, home);
      } else if Recheck(s, u, v) {
        RecheckIsOk(s, u, v, home);
        SubmitterIsStable(s, s', v, home);
      } else {
        GiveUpIsOk(s', u, v, home);
      }
    }
  }

  lemma GiveUpIsOk(s: System, u: Submitter, v: Submitter, home: nat)
    requires WellFounded(s.commits) && SubmitterOk(s, u, home) && v == u.(phase := Failed)
    ensures SubmitterOk(s, v, home)
  {
  }

  // -------------------------------------------------------- retries and results

  lemma TipHasLineage(s: System, b: Branch) returns (source: Id, argv: seq<string>, last: nat, stage: Stage)
    requires WellFounded(s.commits) && Sound(s.commits, s.refs) && b in s.refs && b.Cmd?
    ensures s.refs[b] in s.commits && Lineage(s.commits, source, argv, s.refs[b], last, stage)
  {
    hide Lineage, WellFounded;
    source, argv :| Belongs(s.commits, s.refs[b], source, argv);
    last, stage :| Lineage(s.commits, source, argv, s.refs[b], last, stage);
  }

  /** The tree at a tip still holds the marker of the latest attempt. */
  lemma TipMarker(cs: Commits, source: Id, argv: seq<string>, c: Id, last: nat, stage: Stage)
    requires WellFounded(cs) && Lineage(cs, source, argv, c, last, stage)
    ensures c in cs && cs[c].tree.marker == Some(Words(argv + [Labels.Digits(last)], true))
  {
    if stage == Answered {
      assert Marker !in {Result};
    }
  }

  lemma RetryIsOk(s: System, s': System, b: Branch, source: Id, argv: seq<string>, count: nat, c: Id, home: nat)
    requires Inv(s, home) && WellFounded(s'.commits) && PrepareRetry(s, s', b, source, argv, count, c)
    requires s'.refs == s.refs
    ensures Elsewhere(s, s') && PushOk(s', Advance(b, s.refs[b], c))
  {
    hide Lineage, WellFounded, PushOk, Accepts, Unique, Contiguous, Changed, Labels.Digits;
    var tip := s.refs[b];
    var src, args, last, stage := TipHasLineage(s, b);
    LineageBelongs(s.commits, tip, src, args, last, stage);
    AcceptsIffBelongs(s.commits, tip, src, args, source, argv);
    TipMarker(s.commits, src, args, tip, last, stage);
    SameWords(args, last, argv, count);
    LineageIsStable(s.commits, s'.commits, src, args, tip, last, stage);
    NextAttempt(s'.commits, c, tip, source, argv, last, stage);
    var p := Advance(b, tip, c);
    assert Follows(s'.commits, p, source, argv, last, stage);
    assert PushOk(s', p) by { PushIsPrepared(s', p, source, argv, last, stage); }
  }

  lemma PushIsPrepared(s: System, p: Push, source: Id, argv: seq<string>, last: nat, stage: Stage)
    requires WellFounded(s.commits) && Follows(s.commits, p, source, argv, last, stage)
    requires p.branch.Cmd? && p.branch in s.refs && p.tip in s.commits && p.tip <= s.refs[p.branch]
    requires p.commit in s.commits && s.commits[p.commit].parent == Some(p.tip)
    ensures PushOk(s, p)
  {
  }

  lemma PublishIsOk(s: System, s': System, b: Branch, retry: nat, text: ResultText, c: Id, home: nat)
    requires Inv(s, home) && WellFounded(s'.commits) && PreparePublish(s, s', b, retry, text, c)
    requires s'.refs == s.refs
    ensures Elsewhere(s, s') && PushOk(s', Answer(b, s.refs[b], c))
  {
    hide Lineage, WellFounded, PushOk, Unique, Contiguous, Changed, Labels.Digits, RequestNumber, LatestMarker;
    var tip := s.refs[b];
    var source, argv, last, stage := TipHasLineage(s, b);
    StageIsChanged(s.commits, source, argv, tip, last, stage);
    assert Result !in {Marker};
    TipMarker(s.commits, source, argv, tip, last, stage);
    WrittenNumber(argv, last);
    LineageIsStable(s.commits, s'.commits, source, argv, tip, last, stage);
    ChangedIsStable(s.commits, s'.commits, tip);
    AnswerAttempt(s'.commits, c, tip, source, argv, last, text);
    var p := Answer(b, tip, c);
    assert Follows(s'.commits, p, source, argv, last, stage);
    PushIsPrepared(s', p, source, argv, last, stage);
  }

  /** A fast-forward of a prepared commit finds the tip it was prepared on. */
  lemma FastForwardIsExact(s: System, p: Push)
    requires WellFounded(s.commits) && PushOk(s, p) && Allowed(s, p)
    ensures s.refs[p.branch] == p.tip || s.refs[p.branch] == p.commit
  {
    AncestorsAreOlder(s.commits, p.tip);
  }

  lemma FollowsBelongs(cs: Commits, p: Push, source: Id, argv: seq<string>, last: nat, stage: Stage,
                       other: Id, words: seq<string>)
    requires WellFounded(cs) && Follows(cs, p, source, argv, last, stage)
    ensures Belongs(cs, p.commit, other, words) <==> Belongs(cs, p.tip, other, words)
  {
    hide Lineage, WellFounded;
    LineageBelongs(cs, p.tip, source, argv, last, stage);
    if p.Advance? {
      LineageBelongs(cs, p.commit, source, argv, last + 1, Asked);
    } else {
      LineageBelongs(cs, p.commit, source, argv, last, Answered);
    }
    if Belongs(cs, p.commit, other, words) {
      BelongsIsUnique(cs, p.commit, source, argv, other, words);
    }
    if Belongs(cs, p.tip, other, words) {
      BelongsIsUnique(cs, p.tip, source, argv, other, words);
    }
  }

  lemma DeliverIsOk(s: System, s': System, k: nat, home: nat)
    requires Inv(s, home) && Deliver(s, s', k)
    ensures Grows(s, s')
    ensures Sound(s'.commits, s'.refs) && Contiguous(s'.refs, home) && Unique(s'.commits, s'.refs)
  {
    hide Lineage, Belongs, WellFounded, Follows, Allowed;
    var p := s.pushes[k];
    assert PushOk(s, p);
    if Allowed(s, p) {
      FastForwardIsExact(s, p);
      ParentIsOlder(s.commits, p.commit);
      var source, argv, last: nat, stage :| Follows(s.commits, p, source, argv, last, stage);
      forall b, x, y | b in s.refs && b.Cmd?
        ensures Holds(s'.commits, s'.refs, b, x, y) <==> Holds(s.commits, s.refs, b, x, y)
      {
        FollowsBelongs(s.commits, p, source, argv, last, stage, x, y);
      }
      forall b | b in s'.refs && b.Cmd? ensures HasRequest(s'.commits, s'.refs[b]) {
        var x, y :| Belongs(s.commits, s.refs[b], x, y);
        assert Holds(s.commits, s.refs, b, x, y);
        assert Holds(s'.commits, s'.refs, b, x, y);
      }
    }
  }

  // ------------------------------------------------------------------ all steps

  lemma NextIsOk(s: System, s': System, home: nat)
    requires Inv(s, home) && Next(s, s')
    ensures Grows(s, s') && Inv(s', home)
  {
    hide Lineage, Belongs, WellFounded, Sound, Contiguous, Unique, Grows, SubmitterOk, PushOk, SubmitterStep,
      PrepareRetry, PreparePublish, Deliver, Elsewhere;
    if i: nat :| |s'.submitters| == |s.submitters| && s'.pushes == s.pushes && Submits(s, s', i) {
      SubmitsIsOk(s, s', s.submitters[i], s'.submitters[i], home);
      OthersSurvive(s, s', home);
    } else if b, source, argv, count, c :|
      s'.submitters == s.submitters && s'.refs == s.refs && PrepareRetry(s, s', b, source, argv, count, c)
    {
      RetryIsOk(s, s', b, source, argv, count, c, home);
      SameBranches(s, s', home);
      OthersSurvive(s, s', home);
      PushIsAdded(s, s');
    } else if b, retry, text, c :|
      s'.submitters == s.submitters && s'.refs == s.refs && PreparePublish(s, s', b, retry, text, c)
    {
      PublishIsOk(s, s', b, retry, text, c, home);
      SameBranches(s, s', home);
      OthersSurvive(s, s', home);
      PushIsAdded(s, s');
    } else if k: nat :| s'.submitters == s.submitters && Deliver(s, s', k) {
      DeliverIsOk(s, s', k, home);
      OthersSurvive(s, s', home);
      PushesStay(s, s', k);
    } else {
      SameBranches(s, s', home);
      OthersSurvive(s, s', home);
    }
  }

  lemma PushIsAdded(s: System, s': System)
    ensures WellFounded(s.commits) && WellFounded(s'.commits) ==>
      (forall b, source, argv, count, c :: PrepareRetry(s, s', b, source, argv, count, c) ==>
        b in s.refs && s'.pushes == s.pushes + [Advance(b, s.refs[b], c)])
    ensures WellFounded(s.commits) && WellFounded(s'.commits) ==>
      (forall b, retry, text, c :: PreparePublish(s, s', b, retry, text, c) ==>
        b in s.refs && s'.pushes == s.pushes + [Answer(b, s.refs[b], c)])
  {
  }

  lemma PushesStay(s: System, s': System, k: nat)
    requires WellFounded(s.commits) && Deliver(s, s', k)
    ensures s'.pushes == s.pushes && s'.commits == s.commits
  {
  }

  // ------------------------------------------------------------- whole runs

  /** No CMD branch yet, nobody has read or prepared anything, one source branch. */
  ghost predicate Init(s: System, home: nat) {
    && WellFounded(s.commits) && (forall b :: b in s.refs ==> b.Plain?) && s.pushes == []
    && (forall i :: 0 <= i < |s.submitters| ==> Fresh(s, s.submitters[i], home))
  }

  ghost predicate Fresh(s: System, u: Submitter, home: nat) {
    u.phase == Idle && u.commit == None && u.job.home == home && u.job.revision in s.commits
  }

  ghost predicate Run(trace: seq<System>, home: nat) {
    && trace != [] && Init(trace[0], home)
    && (forall i :: 0 <= i < |trace| ==> WellFounded(trace[i].commits))
    && (forall i :: 0 <= i < |trace| - 1 ==> Next(trace[i], trace[i + 1]))
  }

  lemma InitIsOk(s: System, home: nat)
    requires Init(s, home)
    ensures Inv(s, home)
  {
    hide Lineage, Belongs;
  }

  /** The invariant holds in every state of every interleaving. */
  lemma {:induction false} RunIsSafe(trace: seq<System>, home: nat, i: nat)
    requires Run(trace, home) && i < |trace|
    ensures Inv(trace[i], home)
  {
    hide Inv, Next, Init, WellFounded;
    if i == 0 {
      InitIsOk(trace[0], home);
    } else {
      RunIsSafe(trace, home, i - 1);
      assert Next(trace[i - 1], trace[i - 1 + 1]);
      NextIsOk(trace[i - 1], trace[i], home);
    }
  }

  predicate AtLeast(refs: Refs, b: Branch, k: nat) {
    b in refs && b.Cmd? && k <= b.number
  }

  /** Numbers in use are exactly 1..n, with one branch each. */
  lemma NumbersAreContiguous(trace: seq<System>, home: nat, i: nat, k: nat)
    requires Run(trace, home) && i < |trace|
    ensures Cmd(k, home) in trace[i].refs <==> k > 0 && exists b :: AtLeast(trace[i].refs, b, k)
    ensures forall other :: other != home ==> Cmd(k, other) !in trace[i].refs
  {
    hide Next, Init, Belongs, WellFounded, Unique, SubmitterOk, PushOk, HasRequest;
    RunIsSafe(trace, home, i);
    var refs := trace[i].refs;
    if Cmd(k, home) in refs {
      assert AtLeast(refs, Cmd(k, home), k);
    }
    if b :| k > 0 && AtLeast(refs, b, k) {
      assert b == Cmd(b.number, home);
    }
  }

  lemma SubmitterKeeps(s: System, s': System, u: Submitter, v: Submitter, b: Branch)
    requires WellFounded(s.commits) && WellFounded(s'.commits) && u.job.revision in s.commits
    requires SubmitterStep(s, s', u, v) && b in s.refs
    ensures b in s'.refs && s'.refs[b] == s.refs[b]
  {
    hide ReadRefs, Inspect, Recheck, Allocate;
  }

  /** No branch disappears or is overwritten: one step keeps the tip or adds one child. */
  lemma NoOverwrite(s: System, s': System, home: nat, b: Branch)
    requires Inv(s, home) && Next(s, s') && b in s.refs && b.Cmd?
    ensures b in s'.refs
    ensures s'.refs[b] == s.refs[b]
      || (s'.refs[b] in s'.commits && s'.commits[s'.refs[b]].parent == Some(s.refs[b]))
  {
    hide Lineage, Belongs, WellFounded, Sound, Contiguous, Unique, SubmitterOk, SubmitterStep, Follows;
    if i: nat :| |s'.submitters| == |s.submitters| && s'.pushes == s.pushes && Submits(s, s', i) {
      SubmitterKeeps(s, s', s.submitters[i], s'.submitters[i], b);
    }
    if k: nat :| s'.submitters == s.submitters && Deliver(s, s', k) {
      assert PushOk(s, s.pushes[k]);
      if Allowed(s, s.pushes[k]) {
        FastForwardIsExact(s, s.pushes[k]);
      }
    }
  }

  /** Two finished submissions of one request name the same branch, now and later. */
  lemma SubmissionsConverge(trace: seq<System>, home: nat, i: nat, j: nat, x: nat, y: nat)
    requires Run(trace, home) && i <= j < |trace|
    requires x < |trace[i].submitters| && y < |trace[j].submitters|
    requires trace[i].submitters[x].phase.Finished? && trace[j].submitters[y].phase.Finished?
    requires trace[i].submitters[x].job == trace[j].submitters[y].job
    ensures trace[i].submitters[x].phase.result == trace[j].submitters[y].phase.result
  {
    hide Next, Init, Belongs, WellFounded, PushOk, Sound, Contiguous;
    RunIsSafe(trace, home, i);
    RunIsSafe(trace, home, j);
    var u, v := trace[i].submitters[x], trace[j].submitters[y];
    assert SubmitterOk(trace[i], u, home) && SubmitterOk(trace[j], v, home);
    ServesForever(trace, home, i, j, u.phase.result, u.job);
    assert Serves(trace[j], v.phase.result, v.job);
  }

  lemma {:induction false} ServesForever(trace: seq<System>, home: nat, i: nat, j: nat, b: Branch, job: Job)
    requires Run(trace, home) && i <= j < |trace| && Serves(trace[i], b, job)
    ensures Serves(trace[j], b, job)
    decreases j - i
  {
    hide Next, Init, Belongs, WellFounded, Inv;
    if i < j {
      RunIsSafe(trace, home, i);
      assert Next(trace[i], trace[i + 1]);
      NextIsOk(trace[i], trace[i + 1], home);
      ServesForever(trace, home, i + 1, j, b, job);
    }
  }

  /** Every branch of every reachable state is marker 0, maybe its result, marker 1, ...,
      and readback sees nothing or the result of exactly the latest attempt. */
  lemma BranchIsARun(trace: seq<System>, home: nat, i: nat, b: Branch)
    returns (source: Id, argv: seq<string>, last: nat, stage: Stage)
    requires Run(trace, home) && i < |trace| && b in trace[i].refs && b.Cmd?
    ensures trace[i].refs[b] in trace[i].commits
    ensures Lineage(trace[i].commits, source, argv, trace[i].refs[b], last, stage)
    ensures |argv| >= 2 && argv[|argv| - 1] == "--remote" ==>
      var reading := ReadResult(trace[i].commits, trace[i].refs[b]);
      if stage == Asked then reading == Pending else
        && reading.Completed? && reading.retry == last
        && trace[i].commits[trace[i].refs[b]].parent == Some(reading.request)
  {
    hide Next, Init, WellFounded, PushOk, SubmitterOk, Contiguous, Unique, ReadResult, Lineage;
    RunIsSafe(trace, home, i);
    source, argv, last, stage := TipHasLineage(trace[i], b);
    ReadbackIsCurrent(trace[i].commits, source, argv, trace[i].refs[b], last, stage);
  }

  // ---------------------------------------------------- results and later attempts

  /** The latest attempt that the branch holds, and whether it is answered. */
  ghost predicate AtAttempt(s: System, b: Branch, last: nat, stage: Stage)
    requires WellFounded(s.commits)
  {
    b in s.refs && b.Cmd? && exists source, argv :: Lineage(s.commits, source, argv, s.refs[b], last, stage)
  }

  /** The push was prepared on the marker of this attempt. */
  ghost predicate Answers(s: System, p: Push, last: nat)
    requires WellFounded(s.commits)
  {
    p.Answer? && exists source, argv :: Lineage(s.commits, source, argv, p.tip, last, Asked)
  }

  /** The first point of a branch's history is not after the second. */
  predicate NoLater(last: nat, stage: Stage, now: nat, level: Stage) {
    last < now || (last == now && (stage == Asked || level == Answered))
  }

  lemma ChildIsLater(cs: Commits, tip: Id, child: Id, source: Id, argv: seq<string>, last: nat, stage: Stage,
                     now: nat, level: Stage)
    requires WellFounded(cs) && child in cs && cs[child].parent == Some(tip)
    requires Lineage(cs, source, argv, tip, last, stage) && Lineage(cs, source, argv, child, now, level)
    ensures NoLater(last, stage, now, level)
  {
    hide Changed, WellFounded;
    LineageIsAbove(cs, source, argv, tip, last, stage);
    if level == Answered {
      LineageIsUnique(cs, tip, source, argv, last, stage, source, argv, now, Asked);
    } else if now > 0 {
      var before := if Lineage(cs, source, argv, tip, now - 1, Asked) then Asked else Answered;
      LineageIsUnique(cs, tip, source, argv, last, stage, source, argv, now - 1, before);
    }
  }

  /** A step never takes a branch back to an earlier attempt. */
  lemma AttemptsAdvance(s: System, s': System, home: nat, b: Branch, last: nat, stage: Stage, now: nat, level: Stage)
    requires Inv(s, home) && Next(s, s') && AtAttempt(s, b, last, stage)
    requires WellFounded(s'.commits) && AtAttempt(s', b, now, level)
    ensures NoLater(last, stage, now, level)
  {
    hide Next, Lineage, WellFounded, Belongs, Sound, Contiguous, Unique, SubmitterOk, PushOk;
    NextIsOk(s, s', home);
    NoOverwrite(s, s', home, b);
    var source, argv :| Lineage(s.commits, source, argv, s.refs[b], last, stage);
    var src, args :| Lineage(s'.commits, src, args, s'.refs[b], now, level);
    LineageKnown(s.commits, source, argv, s.refs[b], last, stage);
    LineageIsStable(s.commits, s'.commits, source, argv, s.refs[b], last, stage);
    assert Holds(s.commits, s.refs, b, source, argv) by {
      LineageBelongs(s.commits, s.refs[b], source, argv, last, stage);
    }
    LineageBelongs(s'.commits, s'.refs[b], src, args, now, level);
    BelongsIsUnique(s'.commits, s'.refs[b], source, argv, src, args);
    if s'.refs[b] == s.refs[b] {
      LineageIsUnique(s'.commits, s.refs[b], source, argv, last, stage, src, args, now, level);
    } else {
      ChildIsLater(s'.commits, s.refs[b], s'.refs[b], source, argv, last, stage, now, level);
    }
  }

  lemma SomeAttempt(s: System, home: nat, b: Branch) returns (last: nat, stage: Stage)
    requires Inv(s, home) && b in s.refs && b.Cmd?
    ensures AtAttempt(s, b, last, stage)
  {
    hide Lineage, WellFounded, Contiguous, Unique, SubmitterOk, PushOk;
    var source, argv;
    source, argv, last, stage := TipHasLineage(s, b);
  }

  lemma OneAttempt(s: System, b: Branch, last: nat, stage: Stage, now: nat, level: Stage)
    requires WellFounded(s.commits) && AtAttempt(s, b, last, stage) && AtAttempt(s, b, now, level)
    ensures last == now && stage == level
  {
    hide Lineage, WellFounded;
    var source, argv :| Lineage(s.commits, source, argv, s.refs[b], last, stage);
    var src, args :| Lineage(s.commits, src, args, s.refs[b], now, level);
    LineageIsUnique(s.commits, s.refs[b], source, argv, last, stage, src, args, now, level);
  }

  /** Along a run the attempts of a branch only grow. */
  lemma {:induction false} AttemptsGrow(trace: seq<System>, home: nat, i: nat, j: nat, b: Branch,
                                        last: nat, stage: Stage, now: nat, level: Stage)
    requires Run(trace, home) && i <= j < |trace|
    requires AtAttempt(trace[i], b, last, stage) && AtAttempt(trace[j], b, now, level)
    ensures NoLater(last, stage, now, level)
    decreases j - i
  {
    hide Inv, Next, Init, WellFounded, AtAttempt;
    if i == j {
      OneAttempt(trace[i], b, last, stage, now, level);
    } else {
      RunIsSafe(trace, home, i);
      assert Next(trace[i], trace[i + 1]);
      InBranch(trace[i], b, last, stage);
      NextIsOk(trace[i], trace[i + 1], home);
      NoOverwrite(trace[i], trace[i + 1], home, b);
      var mid, middle := SomeAttempt(trace[i + 1], home, b);
      AttemptsAdvance(trace[i], trace[i + 1], home, b, last, stage, mid, middle);
      AttemptsGrow(trace, home, i + 1, j, b, mid, middle, now, level);
    }
  }

  lemma InBranch(s: System, b: Branch, last: nat, stage: Stage)
    requires WellFounded(s.commits) && AtAttempt(s, b, last, stage)
    ensures b in s.refs && b.Cmd?
  {
  }

  /** A delivered result changes a branch exactly when its attempt is the unanswered tip,
      and then answers that attempt. */
  lemma ResultLandsOnItsAttempt(trace: seq<System>, home: nat, j: nat, k: nat, last: nat)
    requires Run(trace, home) && j + 1 < |trace| && Deliver(trace[j], trace[j + 1], k)
    requires Answers(trace[j], trace[j].pushes[k], last)
    ensures var b := trace[j].pushes[k].branch;
      trace[j + 1].refs != trace[j].refs ==>
        AtAttempt(trace[j], b, last, Asked) && AtAttempt(trace[j + 1], b, last, Answered)
  {
    hide Lineage, Next, Init, WellFounded, Sound, Contiguous, Unique, SubmitterOk, Belongs;
    RunIsSafe(trace, home, j);
    var s := trace[j];
    var p := s.pushes[k];
    assert PushOk(s, p);
    if Allowed(s, p) {
      var source, argv :| Lineage(s.commits, source, argv, p.tip, last, Asked);
      var src, args, n: nat, level :| Follows(s.commits, p, src, args, n, level);
      LineageIsUnique(s.commits, p.tip, source, argv, last, Asked, src, args, n, level);
    }
  }

  /** Once a branch was seen at a later attempt, or with an answer to this one, a result
      for this attempt never changes anything. */
  lemma LateResultChangesNothing(trace: seq<System>, home: nat, i: nat, j: nat, k: nat, last: nat, now: nat,
                                 stage: Stage)
    requires Run(trace, home) && i <= j && j + 1 < |trace| && Deliver(trace[j], trace[j + 1], k)
    requires Answers(trace[j], trace[j].pushes[k], last)
    requires AtAttempt(trace[i], trace[j].pushes[k].branch, now, stage)
    requires last < now || (last == now && stage == Answered)
    ensures trace[j + 1].refs == trace[j].refs
  {
    hide Next, Init, WellFounded, AtAttempt, Answers, Run;
    ResultLandsOnItsAttempt(trace, home, j, k, last);
    if trace[j + 1].refs != trace[j].refs {
      AttemptsGrow(trace, home, i, j, trace[j].pushes[k].branch, now, stage, last, Asked);
    }
  }

  // --------------------------------------------- why one source branch is needed

  function RootOnly(): Commits {
    map[0 := Commit(None, Tree(None, None, 0), [], None)]
  }

  const ARGV: seq<string> := ["status", "--remote"]

  function WithRequest(): Commits {
    RootOnly()[1 := MarkerCommit(RootOnly(), 0, 0, ARGV, 0)]
  }

  function Asking(home: nat, phase: Phase, commit: Option<Id>): Submitter {
    Submitter(Job(home, 0, ARGV), commit, phase)
  }

  lemma CommitsAreFine()
    ensures WellFounded(RootOnly()) && WellFounded(WithRequest()) && 0 in RootOnly() && 0 in WithRequest()
    ensures Requests(RootOnly(), WithRequest(), 1, Job(0, 0, ARGV))
    ensures Requests(WithRequest(), WithRequest(), 1, Job(1, 0, ARGV))
  {
    assert WithRequest()[1 := WithRequest()[1]] == WithRequest();
  }

  predicate Replaces(s: System, s': System, i: nat, v: Submitter) {
    i < |s.submitters| && s'.submitters == s.submitters[i := v] && s'.pushes == s.pushes
  }

  lemma Reads(s: System, s': System, i: nat, home: nat)
    requires WellFounded(s.commits) && 0 in s.commits && s'.refs == s.refs && s'.commits == s.commits
    requires Candidates(s.refs, home) == {}
    requires Replaces(s, s', i, Asking(home, Scanning(s.refs, {}), None)) && s.submitters[i] == Asking(home, Idle, None)
    ensures Next(s, s')
  {
    assert ReadRefs(s, s.submitters[i], s'.submitters[i]);
    assert Submits(s, s', i);
  }

  lemma Allocates(s: System, s': System, i: nat, home: nat, snapshot: Refs, n: nat)
    requires WellFounded(s.commits) && WellFounded(s'.commits) && 0 in s.commits && s'.refs == s.refs
    requires Requests(s.commits, s'.commits, 1, Job(home, 0, ARGV)) && IsHighest(snapshot, n)
    requires Replaces(s, s', i, Asking(home, Pushing(n + 1), Some(1)))
    requires s.submitters[i] == Asking(home, Scanning(snapshot, {}), None)
    ensures Next(s, s')
  {
    assert Allocate(s, s', s.submitters[i], s'.submitters[i], n, 1);
    assert Submits(s, s', i);
  }

  lemma Pushes(s: System, s': System, i: nat, home: nat, n: nat)
    requires WellFounded(s.commits) && 0 in s.commits && Cmd(n, home) !in s.refs
    requires s'.commits == s.commits && s'.refs == s.refs[Cmd(n, home) := 1]
    requires Replaces(s, s', i, Asking(home, Finished(Cmd(n, home)), Some(1)))
    requires s.submitters[i] == Asking(home, Pushing(n), Some(1))
    ensures Next(s, s')
  {
    assert PushNew(s, s', s.submitters[i], s'.submitters[i]);
    assert Submits(s, s', i);
  }

  function Three(cs: Commits, refs: Refs, a: Submitter, b: Submitter, c: Submitter): System {
    System(cs, refs, [a, b, c], [])
  }

  const TAKEN: Refs := map[Cmd(1, 1) := 1]

  /** 0 and 1 read nothing and take number 1, 1 pushes, 2 reads that and takes number 2,
      then 0 and 2 push. */
  function Divergence(): seq<System> {
    var empty: Refs := map[];
    var scan := Scanning(empty, {});
    var idle0, idle1 := Asking(0, Idle, None), Asking(1, Idle, None);
    var scan0, scan1, scan2 := Asking(0, scan, None), Asking(1, scan, None), Asking(0, Scanning(TAKEN, {}), None);
    var push0, push1, push2 := Asking(0, Pushing(1), Some(1)), Asking(1, Pushing(1), Some(1)),
      Asking(0, Pushing(2), Some(1));
    var done0, done1, done2 :=
      Asking(0, Finished(Cmd(1, 0)), Some(1)), Asking(1, Finished(Cmd(1, 1)), Some(1)),
      Asking(0, Finished(Cmd(2, 0)), Some(1));
    [Three(RootOnly(), empty, idle0, idle1, idle0),
     Three(RootOnly(), empty, scan0, idle1, idle0),
     Three(RootOnly(), empty, scan0, scan1, idle0),
     Three(WithRequest(), empty, push0, scan1, idle0),
     Three(WithRequest(), empty, push0, push1, idle0),
     Three(WithRequest(), TAKEN, push0, done1, idle0),
     Three(WithRequest(), TAKEN, push0, done1, scan2),
     Three(WithRequest(), TAKEN, push0, done1, push2),
     Three(WithRequest(), TAKEN[Cmd(1, 0) := 1], done0, done1, push2),
     Three(WithRequest(), TAKEN[Cmd(1, 0) := 1][Cmd(2, 0) := 1], done0, done1, done2)]
  }

  lemma DivergenceBegins()
    ensures forall i :: 0 <= i < 10 ==> WellFounded(Divergence()[i].commits)
    ensures forall i :: 0 <= i < 5 ==> Next(Divergence()[i], Divergence()[i + 1])
  {
    hide Next, WithRequest, RootOnly, WellFounded, Requests, IsHighest, Candidates;
    CommitsAreFine();
    SnapshotFacts();
    var t := Divergence();
    Reads(t[0], t[1], 0, 0);
    Reads(t[1], t[2], 1, 1);
    Allocates(t[2], t[3], 0, 0, map[], 0);
    Allocates(t[3], t[4], 1, 1, map[], 0);
    Pushes(t[4], t[5], 1, 1, 1);
  }

  lemma DivergenceEnds()
    ensures forall i :: 0 <= i < 10 ==> WellFounded(Divergence()[i].commits)
    ensures forall i :: 5 <= i < 9 ==> Next(Divergence()[i], Divergence()[i + 1])
  {
    hide Next, WithRequest, RootOnly, WellFounded, Requests, IsHighest, Candidates;
    CommitsAreFine();
    SnapshotFacts();
    var t := Divergence();
    Reads(t[5], t[6], 2, 0);
    Allocates(t[6], t[7], 2, 0, TAKEN, 1);
    Pushes(t[7], t[8], 0, 0, 1);
    Pushes(t[8], t[9], 2, 0, 2);
  }

  /** Submitters 0 and 2 ask for the same job. A number taken for another source branch
      in between sends them to different branches, and two branches carry number 1. */
  lemma TwoSourceBranchesDiverge() returns (trace: seq<System>)
    ensures |trace| == 10
    ensures trace[0] == Three(RootOnly(), map[], Asking(0, Idle, None), Asking(1, Idle, None), Asking(0, Idle, None))
    ensures forall i :: 0 <= i < 10 ==> WellFounded(trace[i].commits)
    ensures forall i :: 0 <= i < 9 ==> Next(trace[i], trace[i + 1])
    ensures |trace[9].submitters| == 3 && trace[9].submitters[0].job == trace[9].submitters[2].job
    ensures trace[9].submitters[0].phase == Finished(Cmd(1, 0)) && trace[9].submitters[2].phase == Finished(Cmd(2, 0))
    ensures Cmd(1, 0) in trace[9].refs && Cmd(1, 1) in trace[9].refs && Cmd(2, 0) in trace[9].refs
  {
    hide Next, WithRequest, RootOnly, WellFounded;
    DivergenceBegins();
    DivergenceEnds();
    trace := Divergence();
  }

  lemma SnapshotFacts()
    ensures IsHighest(map[], 0) && IsHighest(map[Cmd(1, 1) := 1], 1)
    ensures Candidates(map[], 0) == {} && Candidates(map[], 1) == {} && Candidates(map[Cmd(1, 1) := 1], 0) == {}
    ensures Requests(WithRequest(), WithRequest(), 1, Job(0, 0, ARGV))
  {
    hide WellFounded;
    CommitsAreFine();
    var refs: Refs := map[Cmd(1, 1) := 1];
    assert Cmd(1, 1) in refs && 1 in Numbers(refs);
  }
}
