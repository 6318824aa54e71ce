/** Crash-safe isolation of the local test evidence of one issue. */
module EvidenceJournal {
  import opened Collections

  type Bytes = seq<bv8>

  datatype File = File(bytes: Bytes, mode: nat)

  /** What lies at the path of the log. */
  datatype Entry = Plain(file: File) | Link(target: Bytes) | NonFile(content: nat)

  /** The directory of the log; a link leads to a foreign directory. */
  datatype Parent = Real | Linked(content: nat) | NotDirectory(content: nat) | Gone

  /** What is set aside: a copy of a file, a substituted entry itself, or a substituted
      parent with what could be seen through it. */
  datatype Relic = Copy(bytes: Bytes) | Moved(entry: Entry) | MovedParent(content: nat, log: Option<Entry>)

  /** `expected` is what the commit would check out, if it holds the log at all. */
  datatype Journal = Journal(original: Bytes, mode: nat, expected: Option<Bytes>)

  /** The log and its directory, the recovery journal, and the conflicts set aside. */
  datatype Cells = Cells(parent: Parent, log: Option<Entry>, journal: Option<Journal>, conflicts: seq<Relic>)

  /** Nothing is found without a directory. */
  predicate PathOk(parent: Parent, log: Option<Entry>) {
    log.Some? ==> parent.Real? || parent.Linked?
  }

  datatype Event = Event(outside: bool, cells: Cells)

  function Original(j: Journal): Option<Entry> {
    Some(Plain(File(j.original, j.mode)))
  }

  /** What the operation is meant to see instead of the evidence. */
  function Exposed(j: Journal): Option<Entry> {
    if j.expected.None? then None else Some(Plain(File(j.expected.value, j.mode)))
  }

  /** A link or another non-file in place of the log. */
  predicate Substituted(log: Option<Entry>) {
    log.Some? && !log.value.Plain?
  }

  // ------------------------------------------------------- what a step may do

  predicate Kept(c: Cells, j: Journal) {
    || c.log.None? || c.log == Original(j) || c.log == Exposed(j)
    || (c.log.value.Plain? && Copy(c.log.value.file.bytes) in c.conflicts)
  }

  predicate JournalWritten(a: Cells, b: Cells) {
    && a.parent.Real? && a.journal.None? && b.journal.Some? && a.log == Original(b.journal.value)
    && b == a.(journal := b.journal)
  }

  predicate JournalRemoved(a: Cells, b: Cells) {
    && a.journal.Some? && a.log == Original(a.journal.value) && b == a.(journal := None)
  }

  predicate LogReplaced(a: Cells, b: Cells) {
    && a.parent.Real? && a.journal.Some? && Kept(a, a.journal.value) && b == a.(log := b.log)
    && (b.log == Original(a.journal.value) || b.log == Exposed(a.journal.value))
  }

  predicate ConflictKept(a: Cells, b: Cells) {
    |b.conflicts| == |a.conflicts| + 1 && b == a.(conflicts := b.conflicts) && a.conflicts <= b.conflicts
  }

  /** A substituted entry moves aside as it is. */
  predicate Quarantined(a: Cells, b: Cells) {
    a.parent.Real? && Substituted(a.log) && b == a.(log := None, conflicts := a.conflicts + [Moved(a.log.value)])
  }

  predicate ForeignParent(parent: Parent) {
    parent.Linked? || parent.NotDirectory?
  }

  /** A substituted parent moves aside without anybody following it. */
  predicate ParentMoved(a: Cells, b: Cells) {
    && ForeignParent(a.parent)
    && b == a.(parent := Gone, log := None, conflicts := a.conflicts + [MovedParent(a.parent.content, a.log)])
  }

  predicate ParentMade(a: Cells, b: Cells) {
    a.parent.Gone? && b == a.(parent := Real)
  }

  /** One atomic write of the program. */
  predicate ProgramStep(a: Cells, b: Cells) {
    || JournalWritten(a, b) || JournalRemoved(a, b) || LogReplaced(a, b) || ConflictKept(a, b) || Quarantined(a, b)
    || ParentMoved(a, b) || ParentMade(a, b)
  }

  /** The operation, or anybody while no isolation runs, changes the log or its directory. */
  predicate OutsideStep(a: Cells, b: Cells) {
    b == a.(parent := b.parent, log := b.log) && PathOk(b.parent, b.log)
  }

  ghost predicate Lawful(h: seq<Event>) {
    forall i :: 0 < i < |h| ==>
      if h[i].outside then OutsideStep(h[i - 1].cells, h[i].cells) else ProgramStep(h[i - 1].cells, h[i].cells)
  }

  lemma LawfulSnoc(h: seq<Event>, e: Event)
    requires Lawful(h) && h != []
    requires if e.outside then OutsideStep(h[|h| - 1].cells, e.cells) else ProgramStep(h[|h| - 1].cells, e.cells)
    ensures Lawful(h + [e])
  {
    hide OutsideStep, ProgramStep;
  }

  // --------------------------------------------------------------- the program

  datatype Hiding = Hidden | FailedBefore | FailedAfter

  /** What the surroundings answer: evidence verified and nothing else dirty, parents
      unchanged, the replacement's fate, a clean tree before, an operation that did
      not raise, a clean tree after. */
  datatype Checks = Checks(evidenceOk: bool, parentsOk: bool, hiding: Hiding, cleanBefore: bool,
                           operationOk: bool, cleanAfter: bool)

  datatype Outcome = Done | Conflict | Raised

  /** One write of the protected operation. */
  datatype Site = Site(parent: Parent, log: Option<Entry>)

  type Write = w: Site | PathOk(w.parent, w.log) witness Site(Real, None)

  class EvidenceFiles {
    var cells: Cells
    /** Every state a crash could leave behind, in order. */
    ghost var trail: seq<Event>

    ghost predicate Valid()
      reads this
    {
      trail != [] && trail[|trail| - 1].cells == cells && Lawful(trail) && PathOk(cells.parent, cells.log)
    }

    constructor (found: Cells)
      requires PathOk(found.parent, found.log)
      ensures Valid() && cells == found && trail == [Event(true, found)]
    {
      cells, trail := found, [Event(true, found)];
    }

    method Put(next: Cells)
      requires Valid() && ProgramStep(cells, next) && PathOk(next.parent, next.log)
      modifies this
      ensures Valid() && cells == next && trail == old(trail) + [Event(false, next)]
    {
      LawfulSnoc(trail, Event(false, next));
      trail := trail + [Event(false, next)];
      cells := next;
    }

    /** The protected operation writes the log and its directory as it pleases. */
    method Operate(writes: seq<Write>)
      requires Valid()
      modifies this
      ensures Valid() && old(trail) <= trail
      ensures cells == After(old(cells), writes)
      ensures Wrote(trail, |old(trail)|, writes)
    {
      var i := 0;
      while i < |writes|
        invariant 0 <= i <= |writes| && Valid() && old(trail) <= trail && |trail| == |old(trail)| + i
        invariant cells == After(old(cells), writes[..i])
        invariant Wrote(trail, |old(trail)|, writes[..i])
      {
        var next := cells.(parent := writes[i].parent, log := writes[i].log);
        LawfulSnoc(trail, Event(true, next));
        trail := trail + [Event(true, next)];
        cells := next;
        i := i + 1;
      }
      assert writes[..i] == writes;
    }

    /** Finish an interrupted isolation, or refuse and leave everything in place. */
    method RecoverJournal() returns (ok: bool)
      requires Valid()
      modifies this
      ensures Valid() && old(trail) <= trail
      ensures cells.conflicts == old(cells.conflicts) && cells.parent == old(cells.parent)
      ensures ok <==> Recoverable(old(cells))
      ensures old(cells.journal.Some?) ==> (
        var j := old(cells.journal.value);
        var checkout := if j.expected.None? then None else Some(Plain(File(j.expected.value, j.mode)));
        ok <==> old(cells.parent.Real?) && old(cells.log) in [Some(Plain(File(j.original, j.mode))), checkout])
      ensures ok ==> cells.journal == None
      ensures ok ==> cells.log == Evidence(old(cells))
      ensures !ok ==> cells == old(cells)
    {
      if cells.journal.None? {
        return true;
      }
      if !cells.parent.Real? {
        return false;
      }
      var j := cells.journal.value;
      if cells.log == Original(j) {
        Put(cells.(journal := None));
        return true;
      }
      if cells.log == Exposed(j) {
        Put(cells.(log := Original(j)));
        Put(cells.(journal := None));
        return true;
      }
      return false;
    }

    method WriteJournal(j: Journal) returns (ok: bool)
      requires Valid() && cells.parent.Real? && cells.log == Original(j)
      modifies this
      ensures Valid() && old(trail) <= trail
      ensures ok <==> old(cells.journal.None?)
      ensures cells == if ok then old(cells).(journal := Some(j)) else old(cells)
    {
      if cells.journal.Some? {
        return false;
      }
      Put(cells.(journal := Some(j)));
      return true;
    }

    /** Move a substituted parent aside and make a directory again. */
    method RecoverParents() returns (changed: bool)
      requires Valid()
      modifies this
      ensures Valid() && old(trail) <= trail && cells.parent.Real? && cells.journal == old(cells.journal)
      ensures changed <==> !old(cells.parent.Real?)
      ensures cells.log == Inside(old(cells)) && cells.conflicts == old(cells.conflicts) + Lost(old(cells))
    {
      changed := false;
      if ForeignParent(cells.parent) {
        Put(cells.(parent := Gone, log := None,
                   conflicts := cells.conflicts + [MovedParent(cells.parent.content, cells.log)]));
        changed := true;
      }
      if cells.parent.Gone? {
        Put(cells.(parent := Real));
        changed := true;
      }
    }

    /** Put the evidence back; anything unexpected is set aside first. */
    method Restore(j: Journal) returns (unexpected: bool)
      requires Valid() && cells.journal == Some(j)
      modifies this
      ensures Valid() && old(trail) <= trail && cells.parent.Real?
      ensures unexpected <==> !old(cells.parent.Real?) || old(cells.log) != Exposed(j)
      ensures cells.log == Original(j) && cells.journal == Some(j)
      ensures cells.conflicts == old(cells.conflicts) + Lost(old(cells)) + Unexpected(Exposed(j), Inside(old(cells)))
    {
      hide Lawful;
      var parentChanged := RecoverParents();
      var substituted := Substituted(cells.log);
      if substituted {
        Put(cells.(log := None, conflicts := cells.conflicts + [Moved(cells.log.value)]));
      }
      var current := cells.log;
      unexpected := parentChanged || substituted || current != Exposed(j);
      if current.Some? && current != Exposed(j) {
        Put(cells.(conflicts := cells.conflicts + [Copy(current.value.file.bytes)]));
      }
      Put(cells.(log := Original(j)));
    }

    method RemoveIfRestored()
      requires Valid()
      modifies this
      ensures Valid() && old(trail) <= trail
      ensures cells == if old(cells.journal.Some? && cells.log == Original(cells.journal.value))
        then old(cells).(journal := None) else old(cells)
    {
      if cells.journal.Some? && cells.log == Original(cells.journal.value) {
        Put(cells.(journal := None));
      }
    }

    /** Hide the evidence, let the operation run, and put the evidence back. */
    method Protect(j: Journal, checks: Checks, writes: seq<Write>) returns (done: bool)
      requires Valid() && cells.parent.Real? && cells.log == Original(j) && cells.journal == Some(j)
      modifies this
      ensures Valid() && old(trail) <= trail
      ensures cells.journal == Some(j) && cells.log == Original(j)
      ensures done ==> checks.hiding == Hidden && checks.cleanBefore
      ensures checks.hiding == Hidden && checks.cleanBefore ==>
        && Saw(trail, |old(trail)|, Exposed(j), writes)
        && Concluded(old(cells.conflicts), Exposed(j), checks, writes, done, cells.conflicts)
    {
      hide Lawful, OutsideStep, Saw, Wrote;
      if checks.hiding != FailedBefore {
        Put(cells.(log := Exposed(j)));
      }
      var ran := checks.hiding == Hidden && checks.cleanBefore;
      if ran {
        ghost var at := |trail| - 1;
        Operate(writes);
        assert Wrote(trail, at + 1, writes);
        SawThen(trail, |old(trail)|, at, Exposed(j), writes);
      }
      ghost var seen := trail;
      var unexpected := Restore(j);
      if ran {
        StillSaw(seen, trail, |old(trail)|, Exposed(j), writes);
      }
      done := ran && checks.operationOk && !unexpected && checks.cleanAfter;
    }

    /** The isolation itself, with no journal left over. */
    method IsolateLocked(expected: Option<Bytes>, checks: Checks, writes: seq<Write>) returns (done: bool)
      requires Valid() && cells.journal.None?
      modifies this
      ensures Valid() && old(trail) <= trail
      ensures cells.journal.Some? ==> cells.log == Original(cells.journal.value)
      ensures old(cells.parent.Linked? || cells.log.Some?) ==> cells.log == old(cells.log)
      ensures old(cells.parent.Linked? || Substituted(cells.log)) ==> !done
      ensures old(IsEvidence(cells)) && Runs(checks) ==> (
        var shown := Exposed(JournalFor(old(cells.log).value.file, expected));
        && Saw(trail, |old(trail)|, shown, writes)
        && Concluded(old(cells.conflicts), shown, checks, writes, done, cells.conflicts))
    {
      hide Lawful, OutsideStep, ProgramStep, Concluded, Wrote;
      if cells.parent.Linked? {
        return false;
      }
      if cells.log.None? {
        Operate(writes);
        return checks.operationOk;
      }
      if Substituted(cells.log) || !checks.evidenceOk {
        return false;
      }
      var j := JournalFor(cells.log.value.file, expected);
      var _ := WriteJournal(j);
      if !checks.parentsOk {
        return false;
      }
      done := Protect(j, checks, writes);
    }

    /** The whole isolation around one operation, without a crash. */
    method Isolate(expected: Option<Bytes>, checks: Checks, writes: seq<Write>) returns (outcome: Outcome)
      requires Valid()
      modifies this
      ensures Valid() && old(trail) <= trail
      ensures outcome == Conflict <==> !Recoverable(old(cells))
      ensures outcome == Conflict ==> cells == old(cells)
      ensures outcome != Conflict ==> cells.journal == None
      ensures outcome != Conflict && (old(cells.parent.Linked?) || Evidence(old(cells)).Some?) ==>
        cells.log == Evidence(old(cells))
      ensures outcome != Conflict && (old(cells.parent.Linked?) || Substituted(Evidence(old(cells)))) ==>
        outcome == Raised
      ensures outcome != Conflict && IsEvidence(old(cells)) && Runs(checks) ==> (
        var mode := Evidence(old(cells)).value.file.mode;
        var shown := if expected.None? then None else Some(Plain(File(expected.value, mode)));
        && Saw(trail, |old(trail)|, shown, writes)
        && Concluded(old(cells.conflicts), shown, checks, writes, outcome == Done, cells.conflicts))
    {
      hide Lawful, OutsideStep, ProgramStep, Concluded, Wrote;
      var recovered := RecoverJournal();
      if !recovered {
        return Conflict;
      }
      var done := IsolateLocked(expected, checks, writes);
      ghost var seen := trail;
      RemoveIfRestored();
      SawStays(seen, trail, |old(trail)|);
      return if done then Done else Raised;
    }
  }

  /** From here on the operation's own writes, in order. */
  ghost predicate Wrote(trail: seq<Event>, start: nat, writes: seq<Write>) {
    && start + |writes| <= |trail|
    && forall m :: 0 <= m < |writes| ==> Event(true, trail[start + m].cells.(parent := writes[m].parent,
                                                                             log := writes[m].log)) == trail[start + m]
  }

  /** The operation found this entry at the log's path, and then wrote. */
  ghost predicate Saw(trail: seq<Event>, from: nat, shown: Option<Entry>, writes: seq<Write>) {
    exists at: nat :: from <= at < |trail| && FoundAt(trail, at, shown) && Wrote(trail, at + 1, writes)
  }

  ghost predicate FoundAt(trail: seq<Event>, at: nat, shown: Option<Entry>)
    requires at < |trail|
  {
    trail[at].cells.parent.Real? && trail[at].cells.log == shown
  }

  lemma SawThen(trail: seq<Event>, from: nat, at: nat, shown: Option<Entry>, writes: seq<Write>)
    requires from <= at < |trail| && FoundAt(trail, at, shown) && Wrote(trail, at + 1, writes)
    ensures Saw(trail, from, shown, writes)
  {
    hide Wrote;
  }

  lemma StillSaw(trail: seq<Event>, more: seq<Event>, from: nat, shown: Option<Entry>, writes: seq<Write>)
    requires trail <= more && Saw(trail, from, shown, writes)
    ensures Saw(more, from, shown, writes)
  {
    var at: nat :| from <= at < |trail| && FoundAt(trail, at, shown) && Wrote(trail, at + 1, writes);
    SawThen(more, from, at, shown, writes);
  }

  lemma SawStays(trail: seq<Event>, more: seq<Event>, from: nat)
    requires trail <= more
    ensures forall shown, writes :: Saw(trail, from, shown, writes) ==> Saw(more, from, shown, writes)
  {
    hide Saw;
    forall shown, writes | Saw(trail, from, shown, writes) ensures Saw(more, from, shown, writes) {
      StillSaw(trail, more, from, shown, writes);
    }
  }

  /** How a run that reached the operation ends: done when the operation succeeded and left
      what it was shown, with everything else it left set aside. */
  predicate Concluded(before: seq<Relic>, shown: Option<Entry>, checks: Checks, writes: seq<Write>, done: bool,
                      after: seq<Relic>) {
    && done == (checks.operationOk && checks.cleanAfter && Left(shown, writes) == Site(Real, shown))
    && after == before + Aside(shown, Left(shown, writes))
  }

  /** Recovery knows what to do: no journal, or the log, in its own directory, is one of the
      two known states. */
  predicate Recoverable(c: Cells) {
    c.journal.None? || (c.parent.Real? && (c.log == Original(c.journal.value) || c.log == Exposed(c.journal.value)))
  }

  /** The evidence that isolation starts from, after recovery. */
  function Evidence(c: Cells): Option<Entry> {
    if c.journal.Some? then Original(c.journal.value) else c.log
  }

  /** Nothing stops the isolation before the operation. */
  predicate Runs(checks: Checks) {
    checks.evidenceOk && checks.parentsOk && checks.hiding == Hidden && checks.cleanBefore
  }

  function JournalFor(evidence: File, expected: Option<Bytes>): Journal {
    Journal(evidence.bytes, evidence.mode, expected)
  }

  /** A log to be isolated. */
  predicate IsEvidence(c: Cells) {
    !c.parent.Linked? && Evidence(c).Some? && Evidence(c).value.Plain?
  }

  function After(c: Cells, writes: seq<Write>): Cells {
    if writes == [] then c else
      var last := writes[|writes| - 1];
      c.(parent := last.parent, log := last.log)
  }

  /** What the operation leaves in place of what it was shown. */
  function Left(shown: Option<Entry>, writes: seq<Write>): Site {
    if writes == [] then Site(Real, shown) else writes[|writes| - 1]
  }

  /** What a new directory still holds of the old one. */
  function Inside(c: Cells): Option<Entry> {
    if c.parent.Real? then c.log else None
  }

  /** A substituted parent, set aside. */
  function Lost(c: Cells): seq<Relic> {
    if ForeignParent(c.parent) then [MovedParent(c.parent.content, c.log)] else []
  }

  /** What is set aside before the evidence returns. */
  function Unexpected(shown: Option<Entry>, current: Option<Entry>): seq<Relic> {
    if current.None? || current == shown then []
    else if current.value.Plain? then [Copy(current.value.file.bytes)]
    else [Moved(current.value)]
  }

  /** The same for what an operation left. */
  function Aside(shown: Option<Entry>, left: Site): seq<Relic> {
    if left.parent.Real? then Unexpected(shown, left.log)
    else if ForeignParent(left.parent) then [MovedParent(left.parent.content, left.log)]
    else []
  }

  // ------------------------------------------------- histories with crashes

  /* A history strings together any number of runs, crashes (a run that stops after
     any of its writes), and outside changes; a crash itself changes no cell. */

  predicate Released(h: seq<Event>, m: nat, j: Journal)
    requires 0 < m < |h|
  {
    && !h[m].outside && h[m - 1].cells.journal == Some(j) && h[m].cells.journal == None
    && h[m - 1].cells.log == Original(j) && h[m].cells.log == Original(j)
  }

  ghost predicate ReleasedWithin(h: seq<Event>, i: nat, k: nat, j: Journal) {
    exists m: nat :: i < m <= k && 0 < m < |h| && Released(h, m, j)
  }

  /** From journal write onward the evidence is in the journal, unchanged, until the
      moment the log itself holds it again. */
  lemma {:induction false} HeldUntilRestored(h: seq<Event>, i: nat, k: nat, j: Journal)
    requires Lawful(h) && i <= k < |h| && h[i].cells.journal == Some(j)
    ensures h[k].cells.journal == Some(j) || ReleasedWithin(h, i, k, j)
    decreases k
  {
    if i < k {
      HeldUntilRestored(h, i, k - 1, j);
      if h[k - 1].cells.journal == Some(j) && h[k].cells.journal != Some(j) {
        assert Released(h, k, j);
      }
    }
  }

  /** A crash at any point before the operation wrote anything can be recovered. */
  lemma {:induction false} UntouchedIsRecoverable(h: seq<Event>, i: nat, k: nat, j: Journal)
    requires Lawful(h) && 0 < i <= k < |h|
    requires JournalWritten(h[i - 1].cells, h[i].cells) && h[i].cells.journal == Some(j)
    requires forall m :: i < m <= k ==> !h[m].outside && h[m].cells.journal == Some(j)
    ensures Recoverable(h[k].cells) && h[k].cells.parent.Real?
    decreases k
  {
    if i < k {
      UntouchedIsRecoverable(h, i, k - 1, j);
    }
  }

  /** Conflict files are never dropped. */
  lemma {:induction false} ConflictsStay(h: seq<Event>, i: nat, k: nat)
    requires Lawful(h) && i <= k < |h|
    ensures h[i].cells.conflicts <= h[k].cells.conflicts
    decreases k
  {
    if i < k {
      ConflictsStay(h, i, k - 1);
    }
  }

  /** Whatever the program replaces stays available: as the evidence in the journal, as
      the committed checkout, or set aside for good. */
  lemma ReplacedContentIsKept(h: seq<Event>, i: nat, k: nat, f: Entry)
    requires Lawful(h) && 0 < i <= k < |h| && !h[i].outside
    requires h[i - 1].cells.log == Some(f) && h[i].cells.log != Some(f)
    ensures Available(h[i].cells.journal, h[k].cells.conflicts, f)
  {
    ConflictsStay(h, i, k);
    Prefixed(h[i].cells.conflicts, h[k].cells.conflicts);
    var a, b := h[i - 1].cells, h[i].cells;
    if Quarantined(a, b) || ParentMoved(a, b) {
      assert b.conflicts[|b.conflicts| - 1] in b.conflicts;
    }
  }

  predicate Available(journal: Option<Journal>, conflicts: seq<Relic>, f: Entry) {
    || (journal.Some? && (Some(f) == Original(journal.value) || Some(f) == Exposed(journal.value)))
    || (f.Plain? && Copy(f.file.bytes) in conflicts)
    || (!f.Plain? && Moved(f) in conflicts)
    || (exists r :: r in conflicts && r.MovedParent? && r.log == Some(f))
  }

  lemma Prefixed(a: seq<Relic>, b: seq<Relic>)
    requires a <= b
    ensures forall x :: x in a ==> x in b
  {
    assert b == a + b[|a|..];
  }

  // ------------------------------------------------------------ runs after crashes

  /** A crash leaves a prefix of a run; the trail of a later run, after whatever others did
      to the log in between, continues it to one lawful history. */
  lemma CrashThenRun(crashed: seq<Event>, n: nat, later: seq<Event>)
    requires Lawful(crashed) && Lawful(later) && 0 < n <= |crashed| && later != []
    requires later[0].outside && OutsideStep(crashed[n - 1].cells, later[0].cells)
    ensures Lawful(crashed[..n] + later)
  {
    hide OutsideStep, ProgramStep;
    var h := crashed[..n] + later;
    forall i | 0 < i < |h|
      ensures if h[i].outside then OutsideStep(h[i - 1].cells, h[i].cells) else ProgramStep(h[i - 1].cells, h[i].cells)
    {
      if i < n {
        assert h[i - 1] == crashed[i - 1] && h[i] == crashed[i];
      } else if i > n {
        assert h[i - 1] == later[i - n - 1] && h[i] == later[i - n];
      }
    }
  }

  /** Evidence that a crash left in the journal is there until a later run puts it back. */
  lemma EvidenceOutlivesCrash(crashed: seq<Event>, n: nat, later: seq<Event>, k: nat, j: Journal)
    requires Lawful(crashed) && Lawful(later) && 0 < n <= |crashed| && k < |later|
    requires later[0].outside && OutsideStep(crashed[n - 1].cells, later[0].cells)
    requires crashed[n - 1].cells.journal == Some(j)
    ensures later[k].cells.journal == Some(j) || ReleasedWithin(crashed[..n] + later, n - 1, n + k, j)
  {
    hide Lawful, OutsideStep, ReleasedWithin;
    CrashThenRun(crashed, n, later);
    var h := crashed[..n] + later;
    assert h[n - 1] == crashed[n - 1] && h[n + k] == later[k];
    HeldUntilRestored(h, n - 1, n + k, j);
  }
}
