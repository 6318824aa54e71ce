/** Prepare, commit, abort and recover under arbitrary interleaving and crashes. */
module TransactionSafety {
  import opened Collections
  import opened RecordStore
  import opened Transactions

  /** Where one process is inside a coordinator call. */
  datatype Process =
    | Outside
    | Checking(id: Key, candidate: Transaction, todo: set<Key>)
    | Committing(id: Key, record: Record<Transaction>)
    | Aborting(id: Key, record: Record<Transaction>, reason: string)
    | Materializing(id: Key)

  datatype Lock = Open | Held(owner: nat) | Abandoned

  /** `applied` collects the transactions for which materialization has run. */
  datatype System = System(ledger: Ledger, lock: Lock, processes: seq<Process>, applied: set<Key>)

  function Moved(s: System, i: nat, p: Process): System
    requires i < |s.processes|
  {
    s.(processes := s.processes[i := p])
  }

  function Replaced(s: System, record: Record<Transaction>, t: Transaction, writer: Writer): System {
    s.(ledger := s.ledger[record.key := Successor(record, t, writer)])
  }

  /** The compare-and-swap of the record store succeeds. */
  predicate Current(s: System, id: Key, record: Record<Transaction>) {
    id in s.ledger && s.ledger[id].revision == record.revision
  }

  // --------------------------------------------------------------------- steps

  /** Take the coordinator lock and list the stored transactions. */
  ghost predicate BeginPrepare(s: System, s': System, i: nat, id: Key, t: Transaction)
    requires i < |s.processes|
  {
    && s.processes[i] == Outside && s.lock == Open && WellFormed(t) && t.status == Prepared
    && s' == Moved(s, i, Checking(id, t, s.ledger.Keys)).(lock := Held(i))
  }

  /** Read one listed transaction; a prepared conflict ends the call. */
  ghost predicate CheckOne(s: System, s': System, i: nat, k: Key)
    requires i < |s.processes|
  {
    && s.processes[i].Checking? && k in s.processes[i].todo && k in s.ledger
    && var p := s.processes[i];
      if k != p.id && s.ledger[k].value.status == Prepared && SetsConflict(p.candidate, s.ledger[k].value)
      then s' == Moved(s, i, Outside).(lock := Open)
      else s' == Moved(s, i, Checking(p.id, p.candidate, p.todo - {k}))
  }

  /** Create the record and release the lock. */
  ghost predicate EndPrepare(s: System, s': System, i: nat, writer: Writer)
    requires i < |s.processes|
  {
    && s.processes[i].Checking? && s.processes[i].todo == {}
    && var p := s.processes[i];
      if p.id in s.ledger then s' == Moved(s, i, Outside).(lock := Open)
      else s' == Moved(s, i, Outside).(lock := Open, ledger := s.ledger[p.id := First(p.id, p.candidate, writer)])
  }

  /** Read the record, validate, and choose what to write. Recovery takes the same
      readings but never commits. */
  ghost predicate Begin(s: System, s': System, i: nat, id: Key)
    requires i < |s.processes|
  {
    && s.processes[i] == Outside && id in s.ledger
    && match s.ledger[id].value.status
      case Aborted => s' == s
      case Committed => s' == Moved(s, i, Materializing(id)) || s' == s
      case Prepared =>
        || s' == s
        || s' == Moved(s, i, Committing(id, s.ledger[id]))
        || exists reason :: s' == Moved(s, i, Aborting(id, s.ledger[id], reason))
  }

  ghost predicate EndCommit(s: System, s': System, i: nat, writer: Writer)
    requires i < |s.processes|
  {
    && s.processes[i].Committing?
    && var p := s.processes[i];
      if Current(s, p.id, p.record)
      then s' == Moved(Replaced(s, p.record, Ended(p.record.value, Committed, None), writer), i, Materializing(p.id))
      else s' == Moved(s, i, Outside)
  }

  ghost predicate EndAbort(s: System, s': System, i: nat, writer: Writer)
    requires i < |s.processes|
  {
    && s.processes[i].Aborting?
    && var p := s.processes[i];
      if Current(s, p.id, p.record)
      then s' == Moved(Replaced(s, p.record, Ended(p.record.value, Aborted, Some(p.reason)), writer), i, Outside)
      else s' == Moved(s, i, Outside)
  }

  ghost predicate Apply(s: System, s': System, i: nat)
    requires i < |s.processes|
  {
    && s.processes[i].Materializing?
    && s' == Moved(s, i, Outside).(applied := s.applied + {s.processes[i].id})
  }

  /** The process stops anywhere; its coordinator lock directory stays behind. */
  ghost predicate Crash(s: System, s': System, i: nat)
    requires i < |s.processes|
  {
    s' == Moved(s, i, Outside).(lock := if s.lock == Held(i) then Abandoned else s.lock)
  }

  /** Somebody removes the lock directory of a dead process. */
  ghost predicate Unlock(s: System, s': System) {
    s.lock == Abandoned && s' == s.(lock := Open)
  }

  ghost predicate Step(s: System, s': System, i: nat)
    requires i < |s.processes|
  {
    || (exists id, t :: BeginPrepare(s, s', i, id, t))
    || (exists k :: CheckOne(s, s', i, k))
    || (exists w :: EndPrepare(s, s', i, w))
    || (exists id :: Begin(s, s', i, id))
    || (exists w :: EndCommit(s, s', i, w))
    || (exists w :: EndAbort(s, s', i, w))
    || Apply(s, s', i)
    || Crash(s, s', i)
  }

  ghost predicate Next(s: System, s': System) {
    Unlock(s, s') || exists i: nat :: i < |s.processes| && Step(s, s', i)
  }

  // ----------------------------------------------------------------- invariant

  /** Revision 0 is prepared, revision 1 is decided, and there is no revision 2. */
  predicate Settled(record: Record<Transaction>) {
    && record.revision <= 1 && (record.revision == 0 <==> record.value.status == Prepared)
    && LinkOk(record)
  }

  ghost predicate LedgerOk(ledger: Ledger) {
    forall k :: k in ledger ==> ledger[k].key == k && Settled(ledger[k])
  }

  predicate IsPrepared(ledger: Ledger, id: Key) {
    id in ledger && ledger[id].value.status == Prepared
  }

  ghost predicate NoConflicts(ledger: Ledger) {
    forall a, b :: a != b && IsPrepared(ledger, a) && IsPrepared(ledger, b) ==>
      !SetsConflict(ledger[a].value, ledger[b].value)
  }

  ghost predicate ProcessOk(s: System, i: nat, p: Process) {
    match p
    case Outside => true
    case Checking(id, t, todo) =>
      s.lock == Held(i) && t.status == Prepared && NoPreparedConflict(s.ledger, s.ledger.Keys - todo, id, t)
    case Committing(id, record) => Snapshot(s.ledger, id, record)
    case Aborting(id, record, _) => Snapshot(s.ledger, id, record)
    case Materializing(id) => IsCommitted(s.ledger, id)
  }

  /** A prepared reading: still the stored record unless the revision has moved on. */
  predicate Snapshot(ledger: Ledger, id: Key, record: Record<Transaction>) {
    && id in ledger && record.key == id && record.revision == 0 && record.value.status == Prepared
    && (ledger[id].revision == 0 ==> ledger[id] == record)
  }

  predicate IsCommitted(ledger: Ledger, id: Key) {
    id in ledger && ledger[id].value.status == Committed
  }

  ghost predicate Inv(s: System) {
    && LedgerOk(s.ledger) && NoConflicts(s.ledger)
    && (forall i :: 0 <= i < |s.processes| ==> ProcessOk(s, i, s.processes[i]))
    && (forall k :: k in s.applied ==> IsCommitted(s.ledger, k))
  }

  /** Records only move from prepared to a final status, keeping their sets. */
  ghost predicate LedgerGrows(old_: Ledger, new_: Ledger) {
    forall k :: k in old_ ==> k in new_ && (new_[k] == old_[k] || Decides(old_[k], new_[k]))
  }

  predicate Decides(before: Record<Transaction>, after: Record<Transaction>) {
    && before.value.status == Prepared && after.value.status != Prepared && after.revision == 1
    && after.value.readSet == before.value.readSet && after.value.writeSet == before.value.writeSet
  }

  /** A step of one process, seen by the others. */
  lemma OtherProcess(s: System, s': System, j: nat, p: Process)
    requires LedgerOk(s.ledger) && LedgerGrows(s.ledger, s'.ledger) && ProcessOk(s, j, p)
    requires p.Checking? ==> s'.lock == s.lock && s'.ledger.Keys == s.ledger.Keys
    ensures ProcessOk(s', j, p)
  {
    hide SetsConflict;
  }

  lemma OthersOk(s: System, s': System, i: nat)
    requires Inv(s) && i < |s.processes| && LedgerGrows(s.ledger, s'.ledger)
    requires |s'.processes| == |s.processes| && s'.processes == s.processes[i := s'.processes[i]]
    requires s.lock == s'.lock || s.lock == Open || s.lock == Held(i)
    requires s'.ledger.Keys == s.ledger.Keys || s.lock == Held(i)
    ensures forall j :: 0 <= j < |s.processes| && j != i ==> ProcessOk(s', j, s'.processes[j])
  {
    hide LedgerGrows, LedgerOk, NoConflicts;
    forall j | 0 <= j < |s.processes| && j != i ensures ProcessOk(s', j, s'.processes[j]) {
      assert ProcessOk(s, j, s.processes[j]);
      OtherProcess(s, s', j, s.processes[j]);
    }
  }

  lemma AppliedStay(s: System, s': System)
    requires Inv(s) && LedgerGrows(s.ledger, s'.ledger)
    ensures forall k :: k in s.applied ==> IsCommitted(s'.ledger, k)
  {
  }

  lemma SameLedger(l: Ledger)
    ensures LedgerGrows(l, l)
  {
  }

  lemma CreateIsOk(s: System, s': System, i: nat, w: Writer)
    requires Inv(s) && i < |s.processes| && EndPrepare(s, s', i, w)
    ensures LedgerGrows(s.ledger, s'.ledger) && LedgerOk(s'.ledger) && NoConflicts(s'.ledger)
  {
    hide SetsConflict;
    var p := s.processes[i];
    assert ProcessOk(s, i, p);
    if p.id !in s.ledger {
      forall k | k in s.ledger && s.ledger[k].value.status == Prepared
        ensures !SetsConflict(p.candidate, s.ledger[k].value) && !SetsConflict(s.ledger[k].value, p.candidate)
      {
        ConflictIsClash(p.candidate, s.ledger[k].value);
      }
    }
  }

  lemma DecideIsOk(s: System, s': System, id: Key, record: Record<Transaction>, status: Status,
                   reason: Option<string>, w: Writer)
    requires Inv(s) && Snapshot(s.ledger, id, record) && Current(s, id, record) && status != Prepared
    requires s'.ledger == Replaced(s, record, Ended(record.value, status, reason), w).ledger
    ensures LedgerGrows(s.ledger, s'.ledger) && LedgerOk(s'.ledger) && NoConflicts(s'.ledger)
    ensures s'.ledger.Keys == s.ledger.Keys && id in s'.ledger && s'.ledger[id].value.status == status
  {
    hide SetsConflict, ProcessOk;
  }

  lemma BeginPrepareIsOk(s: System, s': System, i: nat, id: Key, t: Transaction)
    requires i < |s.processes| && BeginPrepare(s, s', i, id, t)
    ensures ProcessOk(s', i, s'.processes[i])
  {
  }

  lemma CheckOneIsOk(s: System, s': System, i: nat, k: Key)
    requires Inv(s) && i < |s.processes| && CheckOne(s, s', i, k)
    ensures ProcessOk(s', i, s'.processes[i])
  {
    hide SetsConflict, LedgerOk, NoConflicts;
    assert ProcessOk(s, i, s.processes[i]);
  }

  lemma BeginIsOk(s: System, s': System, i: nat, id: Key)
    requires Inv(s) && i < |s.processes| && Begin(s, s', i, id)
    ensures ProcessOk(s', i, s'.processes[i]) && s'.ledger == s.ledger && s'.lock == s.lock && s'.applied == s.applied
    ensures |s'.processes| == |s.processes| && s'.processes == s.processes[i := s'.processes[i]]
  {
    hide SetsConflict, NoConflicts;
    assert Settled(s.ledger[id]);
    if s' != s {
      assert s'.processes[i] == Materializing(id) || s'.processes[i] == Committing(id, s.ledger[id])
          || exists reason :: s'.processes[i] == Aborting(id, s.ledger[id], reason);
    }
  }

  lemma StepIsOk(s: System, s': System, i: nat)
    requires Inv(s) && i < |s.processes| && Step(s, s', i)
    ensures LedgerGrows(s.ledger, s'.ledger) && Inv(s')
  {
    hide SetsConflict, LedgerGrows, LedgerOk, NoConflicts, WellFormed, Snapshot, Replaced, Current, NoPreparedConflict;
    var p := s.processes[i];
    assert ProcessOk(s, i, p);
    SameLedger(s.ledger);
    if id, t :| BeginPrepare(s, s', i, id, t) {
      BeginPrepareIsOk(s, s', i, id, t);
    } else if k :| CheckOne(s, s', i, k) {
      CheckOneIsOk(s, s', i, k);
    } else if id :| Begin(s, s', i, id) {
      BeginIsOk(s, s', i, id);
    } else if w :| EndPrepare(s, s', i, w) {
      CreateIsOk(s, s', i, w);
    } else {
      DecisionIsOk(s, s', i);
    }
    OthersOk(s, s', i);
    AppliedStay(s, s');
  }

  lemma DecisionIsOk(s: System, s': System, i: nat)
    requires Inv(s) && i < |s.processes|
    requires (exists w :: EndCommit(s, s', i, w)) || (exists w :: EndAbort(s, s', i, w)) || Apply(s, s', i)
      || Crash(s, s', i)
    ensures LedgerGrows(s.ledger, s'.ledger) && LedgerOk(s'.ledger) && NoConflicts(s'.ledger)
    ensures s'.ledger.Keys == s.ledger.Keys && |s'.processes| == |s.processes|
    ensures s'.processes == s.processes[i := s'.processes[i]] && ProcessOk(s', i, s'.processes[i])
    ensures s'.lock == s.lock || s.lock == Held(i)
    ensures forall k :: k in s'.applied ==> k in s.applied || IsCommitted(s'.ledger, k)
  {
    hide SetsConflict, LedgerGrows, LedgerOk, NoConflicts, Snapshot, Replaced, Current;
    var p := s.processes[i];
    assert ProcessOk(s, i, p);
    SameLedger(s.ledger);
    if w :| EndCommit(s, s', i, w) {
      if Current(s, p.id, p.record) {
        ReplacedIsFramed(s, p.record, Ended(p.record.value, Committed, None), w);
        DecideIsOk(s, s', p.id, p.record, Committed, None, w);
      }
    } else if w :| EndAbort(s, s', i, w) {
      if Current(s, p.id, p.record) {
        ReplacedIsFramed(s, p.record, Ended(p.record.value, Aborted, Some(p.reason)), w);
        DecideIsOk(s, s', p.id, p.record, Aborted, Some(p.reason), w);
      }
    }
  }

  lemma ReplacedIsFramed(s: System, record: Record<Transaction>, t: Transaction, w: Writer)
    ensures Replaced(s, record, t, w) == s.(ledger := Replaced(s, record, t, w).ledger)
  {
  }

  // ---------------------------------------------------- calls are runs of steps

  /** Steps of one process only. */
  ghost predicate Steps(trace: seq<System>, i: nat) {
    && trace != [] && (forall k :: 0 <= k < |trace| ==> i < |trace[k].processes|)
    && forall k :: 0 <= k < |trace| - 1 ==> Step(trace[k], trace[k + 1], i)
  }

  lemma AddStep(trace: seq<System>, next: System, i: nat)
    requires Steps(trace, i) && i < |next.processes| && Step(trace[|trace| - 1], next, i)
    ensures Steps(trace + [next], i)
  {
    hide Step;
  }

  /** What one undisturbed call of the coordinator's `Commit` does to the ledger is what its
      steps do, and exactly a committing call materializes. */
  lemma CommitIsSteps(s: System, i: nat, id: Key, valid: bool, w: Writer) returns (trace: seq<System>)
    requires i < |s.processes| && s.processes[i] == Outside && IsPrepared(s.ledger, id) && s.ledger[id].key == id
    ensures Steps(trace, i) && trace[0] == s
    ensures trace[|trace| - 1] == s.(
      ledger := s.ledger[id := Successor(s.ledger[id], Decided(s.ledger[id].value, valid), w)],
      applied := if valid then s.applied + {id} else s.applied)
  {
    hide BeginPrepare, CheckOne, EndPrepare, Crash;
    var record := s.ledger[id];
    if valid {
      var s1 := Moved(s, i, Committing(id, record));
      var s2 := Moved(Replaced(s1, record, Ended(record.value, Committed, None), w), i, Materializing(id));
      var s3 := Moved(s2, i, Outside).(applied := s2.applied + {id});
      assert Begin(s, s1, i, id) && EndCommit(s1, s2, i, w) && Apply(s2, s3, i);
      assert s3.processes == s.processes;
      trace := [s, s1, s2, s3];
    } else {
      trace := AbortIsSteps(s, i, id, STALE, w);
    }
  }

  lemma AbortIsSteps(s: System, i: nat, id: Key, reason: string, w: Writer) returns (trace: seq<System>)
    requires i < |s.processes| && s.processes[i] == Outside && IsPrepared(s.ledger, id) && s.ledger[id].key == id
    ensures Steps(trace, i) && trace[0] == s
    ensures trace[|trace| - 1] == s.(
      ledger := s.ledger[id := Successor(s.ledger[id], Ended(s.ledger[id].value, Aborted, Some(reason)), w)])
  {
    hide BeginPrepare, CheckOne, EndPrepare, Crash;
    var record := s.ledger[id];
    var s1 := Moved(s, i, Aborting(id, record, reason));
    var s2 := Moved(Replaced(s1, record, Ended(record.value, Aborted, Some(reason)), w), i, Outside);
    assert Begin(s, s1, i, id) && EndAbort(s1, s2, i, w);
    assert s2.processes == s.processes;
    trace := [s, s1, s2];
  }

  /** A committed transaction can always be materialized again, and nothing else changes. */
  lemma CommittedIsMaterialized(s: System, i: nat, id: Key) returns (trace: seq<System>)
    requires i < |s.processes| && s.processes[i] == Outside && IsCommitted(s.ledger, id)
    ensures Steps(trace, i) && trace[0] == s && trace[|trace| - 1] == s.(applied := s.applied + {id})
  {
    hide BeginPrepare, CheckOne, EndPrepare, Crash;
    var s1 := Moved(s, i, Materializing(id));
    var s2 := Moved(s1, i, Outside).(applied := s.applied + {id});
    assert Begin(s, s1, i, id) && Apply(s1, s2, i);
    assert s2.processes == s.processes;
    trace := [s, s1, s2];
  }

  lemma OneCheck(s: System, here: System, i: nat, id: Key, t: Transaction, todo: set<Key>, k: Key)
    returns (next: System)
    requires i < |s.processes| && s.processes[i] == Outside && s.lock == Open && k in todo && k in s.ledger
    requires here == Moved(s, i, Checking(id, t, todo)).(lock := Held(i))
    ensures i < |next.processes| && Step(here, next, i)
    ensures next ==
      if k != id && s.ledger[k].value.status == Prepared && SetsConflict(t, s.ledger[k].value) then s
      else Moved(s, i, Checking(id, t, todo - {k})).(lock := Held(i))
  {
    hide Begin, EndCommit, EndAbort, Apply, Crash, SetsConflict, BeginPrepare, EndPrepare;
    if k != id && s.ledger[k].value.status == Prepared && SetsConflict(t, s.ledger[k].value) {
      next := Moved(here, i, Outside).(lock := Open);
      assert next.processes == s.processes;
    } else {
      next := Moved(here, i, Checking(id, t, todo - {k}));
      assert next.processes == Moved(s, i, Checking(id, t, todo - {k})).processes;
    }
    assert CheckOne(here, next, i, k);
  }

  /** The same for `Prepare`: it creates exactly when nothing prepared conflicts. */
  lemma PrepareIsSteps(s: System, i: nat, id: Key, t: Transaction, w: Writer) returns (trace: seq<System>)
    requires i < |s.processes| && s.processes[i] == Outside && s.lock == Open && WellFormed(t) && t.status == Prepared
    ensures Steps(trace, i) && trace[0] == s
    ensures trace[|trace| - 1] ==
      if id !in s.ledger && NoPreparedConflict(s.ledger, s.ledger.Keys, id, t)
      then s.(ledger := s.ledger[id := First(id, t, w)]) else s
  {
    hide Begin, EndCommit, EndAbort, Apply, Crash, SetsConflict;
    var s1 := Moved(s, i, Checking(id, t, s.ledger.Keys)).(lock := Held(i));
    assert BeginPrepare(s, s1, i, id, t);
    trace := [s, s1];
    var todo := s.ledger.Keys;
    while todo != {}
      invariant todo <= s.ledger.Keys && Steps(trace, i) && trace[0] == s
      invariant trace[|trace| - 1] == Moved(s, i, Checking(id, t, todo)).(lock := Held(i))
      invariant NoPreparedConflict(s.ledger, s.ledger.Keys - todo, id, t)
      decreases |todo|
    {
      var k :| k in todo;
      var here := trace[|trace| - 1];
      var next := OneCheck(s, here, i, id, t, todo, k);
      AddStep(trace, next, i);
      trace := trace + [next];
      if k != id && s.ledger[k].value.status == Prepared && SetsConflict(t, s.ledger[k].value) {
        return;
      }
      todo := todo - {k};
    }
    var here := trace[|trace| - 1];
    var last := Moved(if id in s.ledger then here else here.(ledger := s.ledger[id := First(id, t, w)]), i,
                      Outside).(lock := Open);
    assert EndPrepare(here, last, i, w);
    assert last.processes == s.processes;
    AddStep(trace, last, i);
    trace := trace + [last];
  }

  // ----------------------------------------------------------------- whole runs

  ghost predicate Init(s: System) {
    && s.ledger == map[] && s.lock == Open && s.applied == {}
    && forall i :: 0 <= i < |s.processes| ==> s.processes[i] == Outside
  }

  ghost predicate Run(trace: seq<System>) {
    && trace != [] && Init(trace[0]) && forall i :: 0 <= i < |trace| - 1 ==> Next(trace[i], trace[i + 1])
  }

  lemma NextIsOk(s: System, s': System)
    requires Inv(s) && Next(s, s')
    ensures LedgerGrows(s.ledger, s'.ledger) && Inv(s')
  {
    hide Step, LedgerGrows, LedgerOk, NoConflicts;
    if Unlock(s, s') {
      SameLedger(s.ledger);
      forall j | 0 <= j < |s.processes| ensures ProcessOk(s', j, s'.processes[j]) {
        assert ProcessOk(s, j, s.processes[j]);
      }
    } else {
      var i: nat :| i < |s.processes| && Step(s, s', i);
      StepIsOk(s, s', i);
    }
  }

  /** In every interleaving: prepared transactions never conflict, every record is
      decided at most once, and only committed transactions have been materialized. */
  lemma {:induction false} RunIsSafe(trace: seq<System>, i: nat)
    requires Run(trace) && i < |trace|
    ensures Inv(trace[i])
  {
    hide Next;
    if i > 0 {
      RunIsSafe(trace, i - 1);
      assert Next(trace[i - 1], trace[i - 1 + 1]);
      NextIsOk(trace[i - 1], trace[i]);
    }
  }

  /** No two transactions that are prepared together touch a member one of them writes. */
  lemma PreparedNeverClash(trace: seq<System>, i: nat, a: Key, b: Key)
    requires Run(trace) && i < |trace| && a != b
    requires IsPrepared(trace[i].ledger, a) && IsPrepared(trace[i].ledger, b)
    ensures !Clash(trace[i].ledger[a].value, trace[i].ledger[b].value)
  {
    hide Next, Init, SetsConflict, ProcessOk, Clash;
    RunIsSafe(trace, i);
    ConflictIsClash(trace[i].ledger[a].value, trace[i].ledger[b].value);
  }

  /** A decision is final: the record never changes again, whatever happens later. */
  lemma {:induction false} DecisionIsFinal(trace: seq<System>, i: nat, j: nat, id: Key)
    requires Run(trace) && i <= j < |trace| && id in trace[i].ledger
    ensures id in trace[j].ledger
    ensures trace[i].ledger[id].value.status != Prepared ==> trace[j].ledger[id] == trace[i].ledger[id]
    ensures trace[j].ledger[id].value.writeSet == trace[i].ledger[id].value.writeSet
    ensures trace[j].ledger[id].revision <= 1
    decreases j - i
  {
    hide Next, Init, NoConflicts, ProcessOk;
    RunIsSafe(trace, i);
    if i < j {
      assert Next(trace[i], trace[i + 1]);
      NextIsOk(trace[i], trace[i + 1]);
      DecisionIsFinal(trace, i + 1, j, id);
    }
  }

  /** What was materialized stays committed for good, and is never aborted. */
  lemma AppliedIsCommitted(trace: seq<System>, i: nat, j: nat, id: Key)
    requires Run(trace) && i <= j < |trace| && id in trace[i].applied
    ensures IsCommitted(trace[i].ledger, id) && IsCommitted(trace[j].ledger, id)
    ensures trace[j].ledger[id] == trace[i].ledger[id]
  {
    hide Next, Init, NoConflicts, ProcessOk, LedgerOk;
    RunIsSafe(trace, i);
    DecisionIsFinal(trace, i, j, id);
  }
}
