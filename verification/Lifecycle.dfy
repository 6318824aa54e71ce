/** Durable issue lifecycle: the reader re-validates everything a writer appends. */
module Lifecycle {
  import opened Collections
  import opened RecordStore
  import Texts

  datatype State = Unstarted | NotStarted | Active | InReview | Accepted | Completed | Aborted

  datatype Transition = Start | SubmitReview | Accept | RejectReopen | Abort | ReEnter | Complete

  datatype Event = Event(sequence: int, transition: Transition, from: State, to: State, candidate: Option<string>)

  /** A stored value; schema versions 1 and 2 have no legacy count of their own. */
  datatype Raw = Raw(version: nat, issue: nat, state: State, satisfied: bool, relation: Option<int>,
                     history: seq<Event>, legacyCount: int, aliases: seq<string>)

  datatype Issue = Issue(issue: nat, state: State, relation: Option<int>, history: seq<Event>,
                         legacyCount: nat, aliases: seq<string>)

  const LIFECYCLE_SCHEMA: nat := 3

  function Rule(legacy: bool, from: State, t: Transition): Option<State> {
    match (from, t)
    case (Unstarted, Start) => if legacy then Some(Active) else None
    case (NotStarted, Start) => if legacy then None else Some(Active)
    case (Active, SubmitReview) => if legacy then None else Some(InReview)
    case (Active, Accept) => if legacy then Some(Accepted) else None
    case (InReview, Accept) => if legacy then None else Some(Accepted)
    case (InReview, RejectReopen) => if legacy then None else Some(Active)
    case (Accepted, RejectReopen) => Some(Active)
    case (Active, Abort) => Some(Aborted)
    case (Aborted, ReEnter) => Some(Active)
    case (Accepted, Complete) => Some(Completed)
    case _ => None
  }

  predicate TextOk(candidate: Option<string>) {
    candidate.Some? ==> !Texts.Blank(candidate.value)
  }

  predicate RelationOk(relation: Option<int>) {
    relation.Some? ==> relation.value >= 0
  }

  /** Reviews name a candidate; acceptance and completion name the one before. */
  predicate CandidateOk(t: Transition, candidate: Option<string>, before: seq<Event>) {
    && (t in {SubmitReview, Accept, Complete} ==> candidate.Some?)
    && (t in {Accept, Complete} ==> before != [] && before[|before| - 1].candidate == candidate)
  }

  predicate EventOk(e: Event, index: nat, legacy: bool) {
    e.sequence == index && Rule(legacy, e.from, e.transition) == Some(e.to) && TextOk(e.candidate)
  }

  function Origin(legacyCount: nat): State {
    if legacyCount > 0 then Unstarted else NotStarted
  }

  /** Where a history leads. */
  function EndState(history: seq<Event>, legacyCount: nat): State {
    if history == [] then Origin(legacyCount) else history[|history| - 1].to
  }

  predicate Linked(history: seq<Event>, legacyCount: nat, i: nat)
    requires i < |history|
  {
    && EventOk(history[i], i, i < legacyCount)
    && history[i].from == EndState(history[..i], legacyCount)
    && (i >= legacyCount ==> CandidateOk(history[i].transition, history[i].candidate, history[..i]))
  }

  ghost predicate HistoryOk(history: seq<Event>, legacyCount: nat) {
    forall i :: 0 <= i < |history| ==> Linked(history, legacyCount, i)
  }

  function Current(state: State): State {
    if state == Unstarted then NotStarted else state
  }

  function LegacyCount(raw: Raw): int {
    if raw.version < LIFECYCLE_SCHEMA then |raw.history| else raw.legacyCount
  }

  /** Alias names carry no white space around them. */
  predicate NamesOk(aliases: seq<string>) {
    forall i :: 0 <= i < |aliases| ==> Texts.Name(aliases[i])
  }

  /** The names once each, in order. */
  function Normalized(aliases: seq<string>): seq<string> {
    Texts.Sorted(Elements(aliases))
  }

  method NormalizeAliases(aliases: seq<string>) returns (normalized: Option<seq<string>>)
    ensures normalized.Some? <==> NamesOk(aliases)
    ensures normalized.Some? <==> forall a :: a in aliases ==>
      |a| > 0 && !Texts.Space(a[0]) && !Texts.Space(a[|a| - 1])
    ensures normalized.Some? ==> normalized.value == Normalized(aliases) && Texts.InOrder(normalized.value)
  {
    var result: seq<string> := [];
    var seen: set<string> := {};
    var i: nat := 0;
    while i < |aliases|
      invariant i <= |aliases| && forall k :: 0 <= k < i ==> Texts.Name(aliases[k])
      invariant seen == Elements(aliases[..i]) && Elements(result) == seen
    {
      var item := aliases[i];
      if !Texts.Name(item) {
        return None;
      }
      PrefixStep(aliases, i);
      if item !in seen {
        ElementsOfSnoc(result, item);
        seen := seen + {item};
        result := result + [item];
      }
      i := i + 1;
    }
    assert aliases[..i] == aliases;
    Texts.SortedIsInOrder(Elements(result));
    return Some(Texts.Sorted(Elements(result)));
  }

  /** Names that are already in order stay as they are. */
  lemma NormalizedTwice(aliases: seq<string>)
    requires NamesOk(aliases)
    ensures NamesOk(Normalized(aliases)) && Normalized(Normalized(aliases)) == Normalized(aliases)
  {
    Texts.SortedElements(Elements(aliases));
    forall i | 0 <= i < |Normalized(aliases)| ensures Texts.Name(Normalized(aliases)[i]) {
      assert Normalized(aliases)[i] in Elements(Normalized(aliases));
      assert Normalized(aliases)[i] in aliases;
    }
  }

  /** A value the reader accepts. */
  ghost predicate Readable(raw: Raw) {
    && 1 <= raw.version <= LIFECYCLE_SCHEMA && raw.issue >= 1
    && (raw.version == LIFECYCLE_SCHEMA ==> raw.state != Unstarted)
    && (raw.satisfied <==> raw.state == Completed) && RelationOk(raw.relation)
    && 0 <= LegacyCount(raw) <= |raw.history|
    && HistoryOk(raw.history, LegacyCount(raw))
    && Current(EndState(raw.history, LegacyCount(raw))) == Current(raw.state)
    && (raw.version > 1 ==> NamesOk(raw.aliases))
  }

  function Decoded(raw: Raw): Issue
    requires LegacyCount(raw) >= 0
  {
    Issue(raw.issue, Current(raw.state), raw.relation, raw.history, LegacyCount(raw),
          if raw.version == 1 then [] else Normalized(raw.aliases))
  }

  /** Validate a stored value event by event; None stands for every refusal. */
  method FromJsonValue(raw: Raw) returns (read: Option<Issue>)
    ensures read.Some? <==> Readable(raw)
    ensures read.Some? ==> read.value == Decoded(raw)
  {
    hide EventOk, CandidateOk;
    if !(1 <= raw.version <= LIFECYCLE_SCHEMA) || raw.issue < 1 {
      return None;
    }
    if (raw.version == LIFECYCLE_SCHEMA && raw.state == Unstarted) || raw.satisfied != (raw.state == Completed) {
      return None;
    }
    var legacyCount := LegacyCount(raw);
    if !RelationOk(raw.relation) || legacyCount < 0 || legacyCount > |raw.history| {
      return None;
    }
    var current := Origin(legacyCount);
    var i: nat := 0;
    while i < |raw.history|
      invariant i <= |raw.history| && current == EndState(raw.history[..i], legacyCount)
      invariant forall k :: 0 <= k < i ==> Linked(raw.history, legacyCount, k)
    {
      var e := raw.history[i];
      if !EventOk(e, i, i < legacyCount) || e.from != current {
        assert !Linked(raw.history, legacyCount, i);
        return None;
      }
      if i >= legacyCount && !CandidateOk(e.transition, e.candidate, raw.history[..i]) {
        assert !Linked(raw.history, legacyCount, i);
        return None;
      }
      current := e.to;
      i := i + 1;
    }
    assert raw.history[..i] == raw.history;
    if Current(current) != Current(raw.state) {
      return None;
    }
    var aliases: seq<string> := [];
    if raw.version > 1 {
      var normalized := NormalizeAliases(raw.aliases);
      if normalized.None? {
        return None;
      }
      aliases := normalized.value;
    }
    return Some(Issue(raw.issue, Current(raw.state), raw.relation, raw.history, legacyCount, aliases));
  }

  // ------------------------------------------------------------------- writing

  function Encoded(issue: Issue): Raw {
    Raw(LIFECYCLE_SCHEMA, issue.issue, issue.state, issue.state == Completed, issue.relation, issue.history,
        issue.legacyCount, issue.aliases)
  }

  function NewIssue(issue: nat): Issue {
    Issue(issue, NotStarted, None, [], 0, [])
  }

  /** What the reader may hand out. */
  ghost predicate IssueOk(i: Issue) {
    && i.issue >= 1 && i.state != Unstarted && RelationOk(i.relation) && i.legacyCount <= |i.history|
    && HistoryOk(i.history, i.legacyCount) && Current(EndState(i.history, i.legacyCount)) == i.state
    && NamesOk(i.aliases) && Normalized(i.aliases) == i.aliases
  }

  function Appended(i: Issue, t: Transition, to: State, candidate: Option<string>, relation: Option<int>): Issue {
    i.(state := to, relation := relation, history := i.history + [Event(|i.history|, t, i.state, to, candidate)])
  }

  /** The conditions under which a transition is written. */
  predicate Legal(i: Issue, t: Transition, candidate: Option<string>, relation: Option<int>) {
    && Rule(false, i.state, t).Some? && RelationOk(relation) && TextOk(candidate)
    && CandidateOk(t, candidate, i.history)
  }

  lemma EncodingIsReadable(i: Issue)
    requires IssueOk(i)
    ensures Readable(Encoded(i)) && Decoded(Encoded(i)) == i
  {
  }

  lemma ReadIsOk(raw: Raw)
    requires Readable(raw)
    ensures IssueOk(Decoded(raw))
  {
    hide Normalized, Linked;
    if raw.version > 1 {
      NormalizedTwice(raw.aliases);
    } else {
      NormalizedTwice([]);
      assert Normalized([]) == [] by { NothingNormalized(); }
    }
  }

  lemma NothingNormalized()
    ensures Normalized([]) == []
  {
    assert Elements<string>([]) == {};
  }

  /** A legacy history never stays unstarted, so a state is where its history ends. */
  lemma EndIsState(i: Issue)
    requires IssueOk(i)
    ensures EndState(i.history, i.legacyCount) == i.state
  {
    if i.history != [] {
      assert Linked(i.history, i.legacyCount, |i.history| - 1);
    }
  }

  /** Appending a legal transition gives a value that its own reader accepts. */
  lemma AppendIsOk(i: Issue, t: Transition, candidate: Option<string>, relation: Option<int>)
    requires IssueOk(i) && Legal(i, t, candidate, relation)
    ensures IssueOk(Appended(i, t, Rule(false, i.state, t).value, candidate, relation))
  {
    hide CandidateOk, TextOk;
    var next := Appended(i, t, Rule(false, i.state, t).value, candidate, relation);
    EndIsState(i);
    forall k | 0 <= k < |next.history| ensures Linked(next.history, i.legacyCount, k) {
      if k < |i.history| {
        assert Linked(i.history, i.legacyCount, k);
        assert next.history[..k] == i.history[..k];
      } else {
        assert next.history[..k] == i.history;
      }
    }
  }

  lemma NextIsAppended(i: Issue, t: Transition, candidate: Option<string>, relation: Option<int>)
    requires Legal(i, t, candidate, relation)
    ensures var next := Next(i, t, candidate, relation);
      next == Issue(i.issue, next.state, relation, i.history + [Event(|i.history|, t, i.state, next.state, candidate)],
                    i.legacyCount, i.aliases)
  {
  }

  lemma SameNames(aliases: seq<string>)
    ensures Elements(Normalized(aliases)) == Elements(aliases)
  {
    Texts.SortedElements(Elements(aliases));
  }

  /** Other aliases, with everything else as before. */
  function Renamed(i: Issue, aliases: seq<string>): Issue {
    i.(aliases := Normalized(aliases))
  }

  lemma RenamedIsOk(i: Issue, aliases: seq<string>)
    requires IssueOk(i) && NamesOk(aliases)
    ensures IssueOk(Renamed(i, aliases))
  {
    hide Normalized, Linked;
    NormalizedTwice(aliases);
  }

  // -------------------------------------------------------------------- meaning

  /** A completed issue was reviewed, accepted and completed on one and the same
      candidate, unless its acceptance predates the current schema. */
  lemma CompletionHasOneCandidate(i: Issue)
    requires IssueOk(i) && i.state == Completed && |i.history| > i.legacyCount
    ensures |i.history| >= 2 && i.history[|i.history| - 1].candidate.Some?
    ensures var n := |i.history|;
      && i.history[n - 1].transition == Complete && i.history[n - 2].transition == Accept
      && i.history[n - 2].candidate == i.history[n - 1].candidate
      && (n - 2 >= i.legacyCount ==>
            n >= 3 && i.history[n - 3].transition == SubmitReview
            && i.history[n - 3].candidate == i.history[n - 1].candidate)
  {
    var h, n := i.history, |i.history|;
    EndIsState(i);
    assert Linked(h, i.legacyCount, n - 1);
    assert h[..n - 1] != [] && h[..n - 1][n - 2] == h[n - 2];
    assert Linked(h, i.legacyCount, n - 2);
    if n - 2 >= i.legacyCount {
      assert h[..n - 2] != [] && h[..n - 2][n - 3] == h[n - 3];
      assert Linked(h, i.legacyCount, n - 3);
    }
  }

  /** The state of an issue tells its last transition, and only an untouched one is not started. */
  lemma StateIsLastTransition(i: Issue)
    requires IssueOk(i)
    ensures i.state == NotStarted <==> i.history == []
    ensures i.history != [] ==>
      match i.history[|i.history| - 1].transition
      case SubmitReview => i.state == InReview
      case Accept => i.state == Accepted
      case Abort => i.state == State.Aborted
      case Complete => i.state == Completed
      case _ => i.state == Active
  {
    EndIsState(i);
    if i.history != [] {
      assert Linked(i.history, i.legacyCount, |i.history| - 1);
    }
  }

  /** A readable issue has no negative relation revision, no blank candidate, and a named
      candidate for every review, acceptance and completion since the current schema. */
  lemma HistoryIsNamed(i: Issue, k: nat)
    requires IssueOk(i) && k < |i.history|
    ensures i.relation.Some? ==> i.relation.value >= 0
    ensures i.history[k].candidate.Some? ==> exists p :: 0 <= p < |i.history[k].candidate.value|
                                                         && !Texts.Space(i.history[k].candidate.value[p])
    ensures k >= i.legacyCount && i.history[k].transition in {SubmitReview, Accept, Complete} ==>
      i.history[k].candidate.Some?
  {
    assert Linked(i.history, i.legacyCount, k);
  }

  /** Records of the first schema versions: untouched ones read as not started, and work that
      was accepted without a review is still accepted, with or without candidates. */
  lemma OldRecordsRead(raw: Raw, first: Option<string>, second: Option<string>)
    requires 1 <= raw.version < LIFECYCLE_SCHEMA && raw.issue >= 1 && RelationOk(raw.relation) && !raw.satisfied
    requires NamesOk(raw.aliases)
    ensures raw.state == Unstarted && raw.history == [] ==> Readable(raw) && Decoded(raw).state == NotStarted
    ensures raw.state == Accepted && TextOk(first) && TextOk(second) && raw.history == Unreviewed(first, second) ==>
      Readable(raw) && Decoded(raw).state == Accepted
  {
    if |raw.history| == 2 {
      assert raw.history[..0] == [] && raw.history[..1] == [raw.history[0]];
    }
  }

  function Unreviewed(first: Option<string>, second: Option<string>): seq<Event> {
    [Event(0, Start, Unstarted, Active, first), Event(1, Accept, Active, Accepted, second)]
  }

  /** From one issue to the next by a legal transition. */
  ghost predicate Moves(i: Issue, next: Issue) {
    exists t, candidate, relation ::
      Legal(i, t, candidate, relation) && next == Next(i, t, candidate, relation)
  }

  ghost predicate Path(path: seq<Issue>) {
    path != [] && forall k :: 0 < k < |path| ==> Moves(path[k - 1], path[k])
  }

  /** Nothing moves a completed issue; every other can still be aborted, and completed. */
  lemma UnfinishedCanEnd(i: Issue, candidate: string, relation: Option<int>)
    returns (aborting: seq<Issue>, completing: seq<Issue>)
    requires IssueOk(i) && !Texts.Blank(candidate) && RelationOk(relation)
    ensures i.state == Completed ==> forall next :: !Moves(i, next)
    ensures i.state != Completed ==>
      && Path(aborting) && aborting[0] == i && aborting[|aborting| - 1].state == State.Aborted
      && Path(completing) && completing[0] == i && completing[|completing| - 1].state == Completed
  {
    hide Legal, Next;
    aborting, completing := [], [];
    if i.state == Completed {
      NothingMovesCompleted(i);
    } else {
      var active := Activate(i, relation);
      var dropped, done := FromActive(active[|active| - 1], candidate, relation);
      aborting, completing := active + [dropped], active + done;
    }
  }

  lemma NothingMovesCompleted(i: Issue)
    requires i.state == Completed
    ensures forall next :: !Moves(i, next)
  {
  }

  lemma FromActive(i: Issue, candidate: string, relation: Option<int>) returns (aborted: Issue, done: seq<Issue>)
    requires i.state == Active && !Texts.Blank(candidate) && RelationOk(relation)
    ensures Moves(i, aborted) && aborted.state == State.Aborted
    ensures Path(done) && Moves(i, done[0]) && done[|done| - 1].state == Completed
  {
    assert Legal(i, Abort, None, relation);
    aborted := Next(i, Abort, None, relation);
    assert Legal(i, SubmitReview, Some(candidate), relation);
    var shown := Next(i, SubmitReview, Some(candidate), relation);
    assert Legal(shown, Accept, Some(candidate), relation);
    var taken := Next(shown, Accept, Some(candidate), relation);
    assert Legal(taken, Complete, Some(candidate), relation);
    done := [shown, taken, Next(taken, Complete, Some(candidate), relation)];
    assert Moves(done[0], done[1]) && Moves(done[1], done[2]);
  }

  lemma Activate(i: Issue, relation: Option<int>) returns (path: seq<Issue>)
    requires IssueOk(i) && i.state != Completed && RelationOk(relation)
    ensures 1 <= |path| <= 2 && Path(path) && path[0] == i && path[|path| - 1].state == Active
  {
    path := [i];
    if i.state != Active {
      var t := if i.state == NotStarted then Start else if i.state == State.Aborted then ReEnter else RejectReopen;
      assert Legal(i, t, None, relation);
      path := [i, Next(i, t, None, relation)];
      assert Moves(path[0], path[1]);
    }
  }

  // ---------------------------------------------------------------------- store

  class LifecycleStore {
    const records: JsonRecordStore<Raw>

    constructor (records: JsonRecordStore<Raw>)
      ensures this.records == records
    {
      this.records := records;
    }

    /** A missing record reads as a new issue, unless it ever existed. */
    method Read(issue: nat, key: Key, everExisted: bool) returns (read: Option<(Issue, Option<nat>)>)
      requires records.Valid() && issue >= 1
      ensures read.Some? <==> CanRead(records.records, issue, key, everExisted)
      ensures read.Some? ==> read.value == (StoredIssue(records.records, issue, key), Revision(records.records, key))
    {
      hide Readable;
      var outcome := records.Read(key);
      if outcome == Missing {
        return if everExisted then None else Some((NewIssue(issue), None));
      }
      if outcome == Invalid {
        return None;
      }
      var decoded := FromJsonValue(outcome.record.value);
      if decoded.None? || decoded.value.issue != issue {
        return None;
      }
      return Some((decoded.value, Some(outcome.record.revision)));
    }

    /** Append one transition under compare-and-swap of the revision that was read. */
    method Apply(issue: nat, key: Key, everExisted: bool, t: Transition, candidate: Option<string>,
                 relation: Option<int>, writer: Writer, expected: Option<nat>)
      returns (written: Option<Issue>)
      requires records.Valid() && issue >= 1
      modifies records
      ensures records.Valid()
      ensures written.Some? <==> old(CanRead(records.records, issue, key, everExisted)
        && expected == Revision(records.records, key)
        && Legal(StoredIssue(records.records, issue, key), t, candidate, relation))
      ensures written.None? ==> records.records == old(records.records)
      ensures written.Some? ==>
        written.value == Next(old(StoredIssue(records.records, issue, key)), t, candidate, relation)
      ensures written.Some? ==> (
        var i, to := old(StoredIssue(records.records, issue, key)), written.value.state;
        written.value == Issue(i.issue, to, relation, i.history + [Event(|i.history|, t, i.state, to, candidate)],
                               i.legacyCount, i.aliases))
      ensures written.Some? ==> Readable(Encoded(written.value)) && Decoded(Encoded(written.value)) == written.value
      ensures written.Some? ==>
        records.records == old(records.records)[key := Written(old(records.records), key, written.value, writer)]
    {
      hide Readable, Legal, Next;
      var read := Read(issue, key, everExisted);
      if read.None? || read.value.1 != expected {
        return None;
      }
      var current := read.value.0;
      if !Legal(current, t, candidate, relation) {
        return None;
      }
      StoredIssueIsOk(records.records, issue, key, everExisted);
      WriteIsReadable(current, t, candidate, relation);
      NextIsAppended(current, t, candidate, relation);
      var next := Next(current, t, candidate, relation);
      Store(key, next, writer, expected);
      return Some(next);
    }

    /** Create the record, or replace the revision that was read. */
    method Store(key: Key, next: Issue, writer: Writer, expected: Option<nat>)
      requires records.Valid() && expected == Revision(records.records, key)
      modifies records
      ensures records.Valid()
      ensures records.records == old(records.records)[key := Written(old(records.records), key, next, writer)]
    {
      var outcome: Outcome<Raw>;
      if expected.None? {
        outcome := records.Create(key, Encoded(next), writer);
      } else {
        outcome := records.Replace(key, expected.value, Encoded(next), writer);
      }
    }

    /** Replace the aliases; state and history stay. */
    method SetAliases(issue: nat, key: Key, everExisted: bool, aliases: seq<string>, writer: Writer,
                      expected: Option<nat>) returns (written: Option<Issue>)
      requires records.Valid() && issue >= 1
      modifies records
      ensures records.Valid()
      ensures written.Some? <==> old(CanRead(records.records, issue, key, everExisted)
        && expected == Revision(records.records, key) && NamesOk(aliases))
      ensures written.None? ==> records.records == old(records.records)
      ensures written.Some? ==> written.value == Renamed(old(StoredIssue(records.records, issue, key)), aliases)
      ensures written.Some? ==> (
        && written.value.(aliases := []) == old(StoredIssue(records.records, issue, key)).(aliases := [])
        && Elements(written.value.aliases) == Elements(aliases) && Texts.InOrder(written.value.aliases))
      ensures written.Some? ==> Readable(Encoded(written.value)) && Decoded(Encoded(written.value)) == written.value
      ensures written.Some? ==>
        records.records == old(records.records)[key := Written(old(records.records), key, written.value, writer)]
    {
      hide Readable, NamesOk, Normalized;
      var read := Read(issue, key, everExisted);
      if read.None? || read.value.1 != expected {
        return None;
      }
      var normalized := NormalizeAliases(aliases);
      if normalized.None? {
        return None;
      }
      StoredIssueIsOk(records.records, issue, key, everExisted);
      RenamedIsOk(read.value.0, aliases);
      SameNames(aliases);
      var next := read.value.0.(aliases := normalized.value);
      EncodingIsReadable(next);
      Store(key, next, writer, expected);
      return Some(next);
    }
  }

  ghost predicate CanRead(records: Records<Raw>, issue: nat, key: Key, everExisted: bool) {
    if key in records then Readable(records[key].value) && records[key].value.issue == issue else !everExisted
  }

  /** What a readable record means; a missing one is an issue not started. */
  ghost function StoredIssue(records: Records<Raw>, issue: nat, key: Key): Issue {
    if key in records && LegacyCount(records[key].value) >= 0 then Decoded(records[key].value) else NewIssue(issue)
  }

  function Revision(records: Records<Raw>, key: Key): Option<nat> {
    if key in records then Some(records[key].revision) else None
  }

  function Written(records: Records<Raw>, key: Key, next: Issue, writer: Writer): Record<Raw> {
    if key in records then Successor(records[key], Encoded(next), writer) else First(key, Encoded(next), writer)
  }

  function Next(i: Issue, t: Transition, candidate: Option<string>, relation: Option<int>): Issue {
    var to := Rule(false, i.state, t);
    if to.Some? then Appended(i, t, to.value, candidate, relation) else i
  }

  lemma StoredIssueIsOk(records: Records<Raw>, issue: nat, key: Key, everExisted: bool)
    requires issue >= 1 && CanRead(records, issue, key, everExisted)
    ensures IssueOk(StoredIssue(records, issue, key))
  {
    if key in records {
      ReadIsOk(records[key].value);
    }
  }

  lemma WriteIsReadable(i: Issue, t: Transition, candidate: Option<string>, relation: Option<int>)
    requires IssueOk(i) && Legal(i, t, candidate, relation)
    ensures var next := Next(i, t, candidate, relation);
      IssueOk(next) && Readable(Encoded(next)) && Decoded(Encoded(next)) == next
  {
    hide Readable, IssueOk;
    AppendIsOk(i, t, candidate, relation);
    EncodingIsReadable(Next(i, t, candidate, relation));
  }
}
