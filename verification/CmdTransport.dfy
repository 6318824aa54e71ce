/** Concurrent allocation, retry and publication over conditional ref updates. */
module CmdTransport {
  import opened Collections
  import opened CmdLineage
  import opened CmdAttempts
  import opened CmdResults
  import Labels

  datatype Branch = Cmd(number: nat, home: nat) | Plain(name: nat)

  type Refs = map<Branch, Id>

  /** What a submitter asks for: source branch, source revision, arguments. */
  datatype Job = Job(home: nat, revision: Id, argv: seq<string>)

  datatype Phase =
    | Idle
    | Scanning(snapshot: Refs, todo: set<Branch>)
    | Rechecking(branch: Branch, tip: Id)
    | Pushing(number: nat)
    | Finished(result: Branch)
    | Failed

  datatype Submitter = Submitter(job: Job, commit: Option<Id>, phase: Phase)

  /** A prepared conditional update that has not reached the remote yet. */
  datatype Push = Advance(branch: Branch, tip: Id, commit: Id) | Answer(branch: Branch, tip: Id, commit: Id)

  datatype System = System(commits: Commits, refs: Refs, submitters: seq<Submitter>, pushes: seq<Push>)

  predicate Live(refs: Refs, b: Branch, tip: Id) {
    b in refs && refs[b] == tip
  }

  // ---------------------------------------------------------------- numbering

  function Numbers(refs: Refs): set<nat> {
    set b | b in refs && b.Cmd? :: b.number
  }

  predicate IsHighest(refs: Refs, n: nat) {
    (forall b :: b in refs && b.Cmd? ==> b.number <= n) && (n > 0 ==> n in Numbers(refs))
  }

  /** The largest number in use, or 0. */
  method Highest(refs: Refs) returns (n: nat)
    ensures IsHighest(refs, n)
  {
    n := 0;
    var todo := refs.Keys;
    while todo != {}
      invariant todo <= refs.Keys
      invariant forall b :: b in refs && b !in todo && b.Cmd? ==> b.number <= n
      invariant n > 0 ==> n in Numbers(refs)
      decreases |todo|
    {
      var b :| b in todo;
      if b.Cmd? && b.number > n {
        n := b.number;
      }
      todo := todo - {b};
    }
  }

  // --------------------------------------------------------------------- steps

  ghost predicate Creates(cs: Commits, more: Commits, c: Id, value: Commit) {
    && value.parent.Some? && value.parent.value in cs && value.parent.value < c
    && more == cs[c := value] && (c in cs ==> cs[c] == value)
  }

  function Candidates(refs: Refs, home: nat): set<Branch> {
    set b | b in refs && b.Cmd? && b.home == home
  }

  ghost predicate ReadRefs(s: System, u: Submitter, v: Submitter) {
    u.phase == Idle && v == u.(phase := Scanning(s.refs, Candidates(s.refs, u.job.home)))
  }

  /** Inspect one branch of the snapshot; a moved branch restarts the scan. */
  ghost predicate Inspect(s: System, u: Submitter, v: Submitter, b: Branch)
    requires WellFounded(s.commits) && u.job.revision in s.commits
  {
    && u.phase.Scanning? && b in u.phase.todo && b in u.phase.snapshot
    && var tip := u.phase.snapshot[b];
      if !Live(s.refs, b, tip) || tip !in s.commits then v == u.(phase := Idle)
      else if Accepts(s.commits, u.job.revision, tip, u.job.argv) then v == u.(phase := Rechecking(b, tip))
      else v == u.(phase := Scanning(u.phase.snapshot, u.phase.todo - {b}))
  }

  ghost predicate Recheck(s: System, u: Submitter, v: Submitter) {
    && u.phase.Rechecking?
    && v == u.(phase := if Live(s.refs, u.phase.branch, u.phase.tip) then Finished(u.phase.branch) else Idle)
  }

  /** Nothing matched: take the next number and make the request commit once. */
  ghost predicate Allocate(s: System, s': System, u: Submitter, v: Submitter, n: nat, c: Id)
    requires WellFounded(s'.commits) && u.job.revision in s.commits
  {
    && u.phase.Scanning? && u.phase.todo == {} && IsHighest(u.phase.snapshot, n)
    && v == Submitter(u.job, Some(c), Pushing(n + 1))
    && (u.commit.Some? ==> u.commit == Some(c) && s'.commits == s.commits)
    && (u.commit.None? ==> Requests(s.commits, s'.commits, c, u.job))
  }

  ghost predicate Requests(cs: Commits, more: Commits, c: Id, job: Job)
    requires WellFounded(more) && job.revision in cs
  {
    && Creates(cs, more, c, MarkerCommit(cs, job.revision, job.revision, job.argv, 0))
    && Changed(more, c) == {Marker}
  }

  /** Create the branch if it is absent; the same commit counts as up to date. */
  ghost predicate PushNew(s: System, s': System, u: Submitter, v: Submitter) {
    && u.phase.Pushing? && u.commit.Some?
    && var b := Cmd(u.phase.number, u.job.home);
      if b !in s.refs then s'.refs == s.refs[b := u.commit.value] && v == u.(phase := Finished(b))
      else s'.refs == s.refs && v == u.(phase := if s.refs[b] == u.commit.value then Finished(b) else Idle)
  }

  ghost predicate SubmitterStep(s: System, s': System, u: Submitter, v: Submitter)
    requires WellFounded(s.commits) && WellFounded(s'.commits) && u.job.revision in s.commits
  {
    || (s'.commits == s.commits && s'.refs == s.refs && ReadRefs(s, u, v))
    || (s'.commits == s.commits && s'.refs == s.refs && exists b :: Inspect(s, u, v, b))
    || (s'.commits == s.commits && s'.refs == s.refs && Recheck(s, u, v))
    || (s'.refs == s.refs && exists n, c :: Allocate(s, s', u, v, n, c))
    || (s'.commits == s.commits && PushNew(s, s', u, v))
    || (s'.commits == s.commits && s'.refs == s.refs && v == u.(phase := Failed))
  }

  /** A retry of an accepted branch whose marker text ends in a decimal count. */
  ghost predicate PrepareRetry(s: System, s': System, b: Branch, source: Id, argv: seq<string>, count: nat, c: Id)
    requires WellFounded(s.commits) && WellFounded(s'.commits)
  {
    && b in s.refs && b.Cmd? && s.refs[b] in s.commits && source in s.commits
    && var tip := s.refs[b];
      && Accepts(s.commits, source, tip, argv)
      && IsWords(s.commits[tip].tree.marker)
      && s.commits[tip].tree.marker.value.words == argv + [Labels.Digits(count)]
      && Creates(s.commits, s'.commits, c, MarkerCommit(s.commits, tip, source, argv, count + 1))
      && Changed(s'.commits, c) == {Marker}
      && s'.pushes == s.pushes + [Advance(b, tip, c)]
  }

  /** A result for the marker at the tip, which must be the latest request. */
  ghost predicate PreparePublish(s: System, s': System, b: Branch, retry: nat, text: ResultText, c: Id)
    requires WellFounded(s.commits) && WellFounded(s'.commits)
  {
    && b in s.refs && b.Cmd? && s.refs[b] in s.commits && text.Status?
    && var tip := s.refs[b];
      && LatestMarker(s.commits, tip) == Some(tip) && Changed(s.commits, tip) == {Marker}
      && RequestNumber(s.commits[tip].tree.marker) == Some(retry)
      && Creates(s.commits, s'.commits, c, ResultCommit(s.commits, tip, retry, text))
      && s'.pushes == s.pushes + [Answer(b, tip, c)]
  }

  /** A plain push needs a fast-forward; a publication needs the exact old tip. */
  ghost predicate Allowed(s: System, p: Push)
    requires WellFounded(s.commits)
  {
    && p.branch in s.refs && p.commit in s.commits
    && if p.Advance? then s.refs[p.branch] in Ancestors(s.commits, p.commit) else s.refs[p.branch] == p.tip
  }

  ghost predicate Deliver(s: System, s': System, k: nat)
    requires WellFounded(s.commits)
  {
    && k < |s.pushes| && s'.pushes == s.pushes && s'.commits == s.commits
    && s'.refs == if Allowed(s, s.pushes[k]) then s.refs[s.pushes[k].branch := s.pushes[k].commit] else s.refs
  }

  /** Everybody else: new commits anywhere, ordinary branches move freely. */
  ghost predicate Elsewhere(s: System, s': System) {
    && Extends(s.commits, s'.commits)
    && (forall b: Branch :: b.Cmd? ==> (b in s'.refs <==> b in s.refs))
    && (forall b: Branch :: b.Cmd? && b in s.refs ==> s'.refs[b] == s.refs[b])
  }

  /** One step of anybody; commit objects never form a cycle. */
  ghost predicate Next(s: System, s': System)
    requires WellFounded(s.commits)
  {
    WellFounded(s'.commits) && (
    || (s'.pushes == s.pushes && |s'.submitters| == |s.submitters|
        && exists i: nat :: Submits(s, s', i))
    || (s'.submitters == s.submitters && s'.refs == s.refs
        && exists b, source, argv, count, c :: PrepareRetry(s, s', b, source, argv, count, c))
    || (s'.submitters == s.submitters && s'.refs == s.refs
        && exists b, retry, text, c :: PreparePublish(s, s', b, retry, text, c))
    || (s'.submitters == s.submitters && exists k: nat :: Deliver(s, s', k))
    || (s'.submitters == s.submitters && s'.pushes == s.pushes && Elsewhere(s, s')))
  }

  ghost predicate Submits(s: System, s': System, i: nat)
    requires WellFounded(s.commits) && WellFounded(s'.commits) && |s'.submitters| == |s.submitters|
  {
    && i < |s.submitters| && s'.submitters == s.submitters[i := s'.submitters[i]]
    && s.submitters[i].job.revision in s.commits
    && SubmitterStep(s, s', s.submitters[i], s'.submitters[i])
  }

  // ---------------------------------------------------------------- invariant

  ghost predicate Sound(cs: Commits, refs: Refs)
    requires WellFounded(cs)
  {
    forall b :: b in refs && b.Cmd? ==> b.number > 0 && refs[b] in cs && HasRequest(cs, refs[b])
  }

  ghost predicate HasRequest(cs: Commits, c: Id)
    requires WellFounded(cs)
  {
    exists source, argv :: Belongs(cs, c, source, argv)
  }

  /** Numbers are used without gaps, all for one source branch. */
  ghost predicate Contiguous(refs: Refs, home: nat) {
    && (forall b :: b in refs && b.Cmd? ==> b.home == home)
    && (forall b, k: nat :: b in refs && b.Cmd? && 1 <= k < b.number ==> Cmd(k, home) in refs)
  }

  ghost predicate Holds(cs: Commits, refs: Refs, b: Branch, source: Id, argv: seq<string>)
    requires WellFounded(cs)
  {
    b in refs && b.Cmd? && Belongs(cs, refs[b], source, argv)
  }

  /** One branch per request. */
  ghost predicate Unique(cs: Commits, refs: Refs)
    requires WellFounded(cs)
  {
    forall a, b, source, argv :: Holds(cs, refs, a, source, argv) && Holds(cs, refs, b, source, argv) ==> a == b
  }

  ghost predicate Serves(s: System, b: Branch, job: Job)
    requires WellFounded(s.commits)
  {
    Holds(s.commits, s.refs, b, job.revision, job.argv)
  }

  ghost predicate SubmitterOk(s: System, u: Submitter, home: nat)
    requires WellFounded(s.commits)
  {
    && u.job.home == home && u.job.revision in s.commits
    && (u.commit.Some? ==> Lineage(s.commits, u.job.revision, u.job.argv, u.commit.value, 0, Asked))
    && match u.phase
      case Scanning(snapshot, todo) => Contiguous(snapshot, home) && Scanned(s, u.job, snapshot, todo)
      case Rechecking(b, tip) => b.Cmd? && tip in s.commits && Belongs(s.commits, tip, u.job.revision, u.job.argv)
      case Pushing(n) => n > 0 && u.commit.Some? && Free(s, u.job, n)
      case Finished(b) => Serves(s, b, u.job)
      case _ => true
  }

  /** The branches already inspected do not serve the job, and never will. */
  ghost predicate Scanned(s: System, job: Job, snapshot: Refs, todo: set<Branch>)
    requires WellFounded(s.commits)
  {
    && (forall b :: b in todo ==> b in snapshot && b.Cmd?)
    && (forall b :: b in snapshot && b.Cmd? ==> b in s.refs && b.number > 0)
    && (forall b :: b in snapshot && b.Cmd? && b !in todo ==> !Serves(s, b, job))
  }

  /** Every number below `n` is taken by another request. */
  ghost predicate Free(s: System, job: Job, n: nat)
    requires WellFounded(s.commits)
  {
    forall k: nat :: 1 <= k < n ==> Cmd(k, job.home) in s.refs && !Serves(s, Cmd(k, job.home), job)
  }

  ghost predicate PushOk(s: System, p: Push)
    requires WellFounded(s.commits)
  {
    && p.branch.Cmd? && p.branch in s.refs && p.tip in s.commits && p.tip <= s.refs[p.branch]
    && p.commit in s.commits && s.commits[p.commit].parent == Some(p.tip)
    && exists source, argv, last: nat, stage :: Follows(s.commits, p, source, argv, last, stage)
  }

  ghost predicate Follows(cs: Commits, p: Push, source: Id, argv: seq<string>, last: nat, stage: Stage)
    requires WellFounded(cs)
  {
    && Lineage(cs, source, argv, p.tip, last, stage)
    && if p.Advance? then Lineage(cs, source, argv, p.commit, last + 1, Asked)
      else stage == Asked && Lineage(cs, source, argv, p.commit, last, Answered)
  }

  ghost predicate Inv(s: System, home: nat) {
    && WellFounded(s.commits)
    && Sound(s.commits, s.refs) && Contiguous(s.refs, home) && Unique(s.commits, s.refs)
    && (forall i :: 0 <= i < |s.submitters| ==> SubmitterOk(s, s.submitters[i], home))
    && (forall k :: 0 <= k < |s.pushes| ==> PushOk(s, s.pushes[k]))
  }

  // ------------------------------------------------------- what no step undoes

  /** Branches are only ever extended, and keep the request they were made for. */
  ghost predicate Grows(s: System, s': System)
    requires WellFounded(s.commits) && WellFounded(s'.commits)
  {
    && Extends(s.commits, s'.commits)
    && (forall b :: b in s.refs && b.Cmd? ==> b in s'.refs && s.refs[b] <= s'.refs[b])
    && (forall b, source, argv :: b in s.refs && b.Cmd? ==>
          (Holds(s'.commits, s'.refs, b, source, argv) <==> Holds(s.commits, s.refs, b, source, argv)))
  }

  lemma SubmitterIsStable(s: System, s': System, u: Submitter, home: nat)
    requires WellFounded(s.commits) && WellFounded(s'.commits) && Grows(s, s') && SubmitterOk(s, u, home)
    ensures SubmitterOk(s', u, home)
  {
    hide Lineage, Belongs, Contiguous, Holds, WellFounded;
    if u.commit.Some? {
      LineageKnown(s.commits, u.job.revision, u.job.argv, u.commit.value, 0, Asked);
      LineageIsStable(s.commits, s'.commits, u.job.revision, u.job.argv, u.commit.value, 0, Asked);
    }
    match u.phase
    case Rechecking(b, tip) => BelongsIsStable(s.commits, s'.commits, tip, u.job.revision, u.job.argv);
    case Finished(b) => HoldsKnown(s.commits, s.refs, b, u.job.revision, u.job.argv);
    case _ =>
  }

  lemma LineageKnown(cs: Commits, source: Id, argv: seq<string>, c: Id, last: nat, stage: Stage)
    requires WellFounded(cs) && Lineage(cs, source, argv, c, last, stage)
    ensures c in cs
  {
  }

  lemma HoldsKnown(cs: Commits, refs: Refs, b: Branch, source: Id, argv: seq<string>)
    requires WellFounded(cs) && Holds(cs, refs, b, source, argv)
    ensures b in refs && b.Cmd? && refs[b] in cs
  {
    var last: nat, stage: Stage :| Lineage(cs, source, argv, refs[b], last, stage);
  }

  lemma PushIsStable(s: System, s': System, p: Push)
    requires WellFounded(s.commits) && WellFounded(s'.commits) && Grows(s, s') && PushOk(s, p)
    ensures PushOk(s', p)
  {
    hide Lineage, Holds, WellFounded;
    var source, argv, last: nat, stage :| Follows(s.commits, p, source, argv, last, stage);
    FollowsIsStable(s.commits, s'.commits, p, source, argv, last, stage);
  }

  lemma FollowsIsStable(cs: Commits, more: Commits, p: Push, source: Id, argv: seq<string>, last: nat, stage: Stage)
    requires WellFounded(cs) && WellFounded(more) && Extends(cs, more) && p.tip in cs && p.commit in cs
    requires Follows(cs, p, source, argv, last, stage)
    ensures Follows(more, p, source, argv, last, stage)
  {
    hide Lineage, WellFounded;
    LineageIsStable(cs, more, source, argv, p.tip, last, stage);
    LineageIsStable(cs, more, source, argv, p.commit, if p.Advance? then last + 1 else last,
                    if p.Advance? then Asked else Answered);
  }

  /** A step that leaves the CMD branches alone. */
  lemma SameBranches(s: System, s': System, home: nat)
    requires Inv(s, home) && WellFounded(s'.commits) && Elsewhere(s, s')
    ensures Grows(s, s')
    ensures Sound(s'.commits, s'.refs) && Contiguous(s'.refs, home) && Unique(s'.commits, s'.refs)
  {
    hide Belongs, WellFounded, SubmitterOk, PushOk;
    forall b, source, argv | b in s.refs && b.Cmd?
      ensures Holds(s'.commits, s'.refs, b, source, argv) <==> Holds(s.commits, s.refs, b, source, argv)
    {
      BelongsIsStable(s.commits, s'.commits, s.refs[b], source, argv);
    }
    forall b | b in s'.refs && b.Cmd? ensures HasRequest(s'.commits, s'.refs[b]) {
      var source, argv :| Belongs(s.commits, s.refs[b], source, argv);
      assert Holds(s'.commits, s'.refs, b, source, argv);
    }
  }

  /** Other submitters and prepared pushes survive any step that only grows. */
  lemma OthersSurvive(s: System, s': System, home: nat)
    requires Inv(s, home) && WellFounded(s'.commits) && Grows(s, s')
    ensures forall i :: 0 <= i < |s.submitters| ==> SubmitterOk(s', s.submitters[i], home)
    ensures forall k :: 0 <= k < |s.pushes| ==> PushOk(s', s.pushes[k])
  {
    hide SubmitterOk, PushOk, Grows, WellFounded, Sound, Contiguous, Unique;
    forall i | 0 <= i < |s.submitters| ensures SubmitterOk(s', s.submitters[i], home) {
      SubmitterIsStable(s, s', s.submitters[i], home);
    }
    forall k | 0 <= k < |s.pushes| ensures PushOk(s', s.pushes[k]) {
      PushIsStable(s, s', s.pushes[k]);
    }
  }
}
