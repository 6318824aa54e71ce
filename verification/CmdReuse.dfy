/** A submission that is left alone finishes on the branch that already serves its job. */
module CmdReuse {
  import opened CmdLineage
  import opened CmdAttempts
  import opened CmdTransport
  import opened CmdSafety

  /** One submitter acts, and does not give up. */
  ghost predicate Alone(s: System, s': System, i: nat)
    requires WellFounded(s.commits)
  {
    && WellFounded(s'.commits) && s'.pushes == s.pushes && |s'.submitters| == |s.submitters|
    && Submits(s, s', i) && s'.submitters[i].phase != Failed
  }

  /** The submitter is on its way to this branch. */
  predicate Towards(s: System, u: Submitter, b: Branch) {
    match u.phase
    case Idle => true
    case Scanning(snapshot, todo) => snapshot == s.refs && b in todo && todo <= Candidates(s.refs, u.job.home)
    case Rechecking(c, tip) => c == b && Live(s.refs, b, tip)
    case Finished(c) => c == b
    case _ => false
  }

  /** How many steps it has left at most. */
  function StepsLeft(s: System, u: Submitter): nat {
    match u.phase
    case Idle => |Candidates(s.refs, u.job.home)| + 3
    case Scanning(_, todo) => |todo| + 2
    case Rechecking(_, _) => 1
    case _ => 0
  }

  lemma OnlyItsOwn(s: System, u: Submitter, b: Branch, c: Branch, home: nat)
    requires Inv(s, home) && u.job.revision in s.commits && Serves(s, b, u.job) && c in s.refs && c.Cmd?
    ensures s.refs[c] in s.commits
    ensures Accepts(s.commits, u.job.revision, s.refs[c], u.job.argv) <==> c == b
  {
    hide Belongs, WellFounded, Accepts, SubmitterOk, PushOk, Contiguous;
    var source, argv :| Belongs(s.commits, s.refs[c], source, argv);
    AcceptsIffBelongs(s.commits, s.refs[c], source, argv, u.job.revision, u.job.argv);
    if Accepts(s.commits, u.job.revision, s.refs[c], u.job.argv) {
      assert Holds(s.commits, s.refs, c, u.job.revision, u.job.argv);
    }
  }

  lemma ServedIsCandidate(s: System, u: Submitter, b: Branch, home: nat)
    requires Inv(s, home) && SubmitterOk(s, u, home) && Serves(s, b, u.job)
    ensures b in Candidates(s.refs, u.job.home)
  {
    hide Belongs, WellFounded;
  }

  /** Every step brings the submitter nearer, and changes nothing else. */
  lemma AloneIsNearer(s: System, s': System, i: nat, b: Branch, home: nat)
    requires Inv(s, home) && Alone(s, s', i) && Serves(s, b, s.submitters[i].job) && Towards(s, s.submitters[i], b)
    ensures s' == s.(submitters := s'.submitters) && s'.submitters[i].job == s.submitters[i].job
    ensures Towards(s', s'.submitters[i], b)
    ensures StepsLeft(s', s'.submitters[i]) < StepsLeft(s, s.submitters[i])
  {
    hide Belongs, WellFounded, Accepts, PushOk, Contiguous, Unique, Sound, Holds;
    var u, v := s.submitters[i], s'.submitters[i];
    assert SubmitterOk(s, u, home);
    ServedIsCandidate(s, u, b, home);
    if u.phase.Scanning? {
      forall c | c in u.phase.todo
        ensures s.refs[c] in s.commits && (Accepts(s.commits, u.job.revision, s.refs[c], u.job.argv) <==> c == b)
      {
        OnlyItsOwn(s, u, b, c, home);
      }
    }
  }

  /** Until it has finished there is always a step. */
  lemma AloneGoesOn(s: System, i: nat, b: Branch, home: nat) returns (s': System)
    requires Inv(s, home) && i < |s.submitters| && Serves(s, b, s.submitters[i].job)
    requires Towards(s, s.submitters[i], b) && !s.submitters[i].phase.Finished?
    ensures Alone(s, s', i)
  {
    hide Belongs, WellFounded, Accepts, PushOk, Contiguous, Unique, Holds;
    var u := s.submitters[i];
    assert SubmitterOk(s, u, home);
    ServedIsCandidate(s, u, b, home);
    var tip := s.refs[b];
    var phase := match u.phase
      case Idle => Scanning(s.refs, Candidates(s.refs, u.job.home))
      case Rechecking(_, _) => Finished(b)
      case _ => Rechecking(b, tip);
    var v := u.(phase := phase);
    s' := s.(submitters := s.submitters[i := v]);
    match u.phase
    case Idle => assert ReadRefs(s, u, v);
    case Scanning(_, _) =>
      OnlyItsOwn(s, u, b, b, home);
      assert Inspect(s, u, v, b);
    case Rechecking(_, _) => assert Recheck(s, u, v);
  }

  /** Whatever order it inspects branches in: after finitely many steps a submission that
      nobody disturbs has finished on the branch of its job, and created nothing. */
  lemma {:induction false} SubmissionReuses(trace: seq<System>, i: nat, b: Branch, home: nat)
    requires trace != [] && Inv(trace[0], home) && i < |trace[0].submitters|
    requires forall k :: 0 <= k < |trace| ==> WellFounded(trace[k].commits)
    requires forall k :: 0 <= k < |trace| - 1 ==> Alone(trace[k], trace[k + 1], i)
    requires trace[0].submitters[i].phase == Idle && Serves(trace[0], b, trace[0].submitters[i].job)
    ensures var last := trace[|trace| - 1];
      && last == trace[0].(submitters := last.submitters) && Inv(last, home) && i < |last.submitters|
      && last.submitters[i].job == trace[0].submitters[i].job && Towards(last, last.submitters[i], b)
      && |trace| - 1 + StepsLeft(last, last.submitters[i]) <= |Candidates(trace[0].refs, home)| + 3
      && (last.submitters[i].phase == Finished(b) || exists next :: Alone(last, next, i))
    decreases |trace|
  {
    hide Inv, WellFounded, Belongs, Submits;
    var last := trace[|trace| - 1];
    assert SubmitterOk(trace[0], trace[0].submitters[i], home) by { AtHome(trace[0], i, home); }
    if |trace| > 1 {
      var before := trace[..|trace| - 1];
      SubmissionReuses(before, i, b, home);
      assert Alone(trace[|trace| - 2], trace[|trace| - 2 + 1], i);
      AloneIsNearer(trace[|trace| - 2], last, i, b, home);
      AloneIsNext(trace[|trace| - 2], last, i);
      NextIsOk(trace[|trace| - 2], last, home);
    }
    if !last.submitters[i].phase.Finished? {
      var next := AloneGoesOn(last, i, b, home);
    }
  }

  /** A push that finds its branch absent, or already made from its own commit, has succeeded. */
  lemma PushFinishes(s: System, s': System, i: nat)
    requires WellFounded(s.commits) && Alone(s, s', i) && s.submitters[i].phase.Pushing?
    requires s.submitters[i].commit.Some?
    ensures var b, c := Cmd(s.submitters[i].phase.number, s.submitters[i].job.home), s.submitters[i].commit.value;
      (b in s.refs ==> s.refs[b] == c) ==>
        s'.submitters[i].phase == Finished(b) && s'.refs == s.refs[b := c] && s'.commits == s.commits
  {
  }

  lemma AtHome(s: System, i: nat, home: nat)
    requires Inv(s, home) && i < |s.submitters|
    ensures SubmitterOk(s, s.submitters[i], home)
  {
  }

  lemma AloneIsNext(s: System, s': System, i: nat)
    requires WellFounded(s.commits) && Alone(s, s', i)
    ensures Next(s, s')
  {
  }
}
