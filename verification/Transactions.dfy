/** The write-ahead coordinator: what it stores and one call at a time. */
module Transactions {
  import opened Collections
  import opened RecordStore

  datatype Status = Prepared | Committed | Aborted

  datatype Member = Member(domain: string, key: string)

  datatype Reference = Reference(member: Member, revision: nat, identity: Option<string>)

  datatype Write = Write(member: Member, value: string)

  /** The reason is present exactly in aborted transactions. */
  datatype Transaction = Transaction(status: Status, readSet: seq<Reference>, writeSet: seq<Write>,
                                     reason: Option<string>)

  type Ledger = Records<Transaction>

  function ReadMembers(t: Transaction): set<Member> {
    set r | r in t.readSet :: r.member
  }

  function WriteMembers(t: Transaction): set<Member> {
    set w | w in t.writeSet :: w.member
  }

  function SetsConflict(t: Transaction, existing: Transaction): bool {
    || WriteMembers(t) * (ReadMembers(existing) + WriteMembers(existing)) != {}
    || WriteMembers(existing) * ReadMembers(t) != {}
  }

  predicate Reads(t: Transaction, m: Member) {
    exists i :: 0 <= i < |t.readSet| && t.readSet[i].member == m
  }

  predicate Writes(t: Transaction, m: Member) {
    exists i :: 0 <= i < |t.writeSet| && t.writeSet[i].member == m
  }

  /** One of them reads or writes a member that the other writes. */
  ghost predicate Clash(t: Transaction, u: Transaction) {
    exists m :: (Writes(t, m) && (Reads(u, m) || Writes(u, m))) || (Reads(t, m) && Writes(u, m))
  }

  lemma MembersOf(t: Transaction, m: Member)
    ensures m in ReadMembers(t) <==> Reads(t, m)
    ensures m in WriteMembers(t) <==> Writes(t, m)
  {
    if m in ReadMembers(t) {
      var r :| r in t.readSet && r.member == m;
    }
    if m in WriteMembers(t) {
      var w :| w in t.writeSet && w.member == m;
    }
  }

  lemma ConflictIsClash(t: Transaction, u: Transaction)
    ensures SetsConflict(t, u) <==> Clash(t, u)
    ensures SetsConflict(t, u) <==> SetsConflict(u, t)
  {
    hide ReadMembers, WriteMembers, Reads, Writes;
    forall m
      ensures (m in ReadMembers(t) <==> Reads(t, m)) && (m in WriteMembers(t) <==> Writes(t, m))
      ensures (m in ReadMembers(u) <==> Reads(u, m)) && (m in WriteMembers(u) <==> Writes(u, m))
    {
      MembersOf(t, m);
      MembersOf(u, m);
    }
    if Clash(t, u) {
      var m :| (Writes(t, m) && (Reads(u, m) || Writes(u, m))) || (Reads(t, m) && Writes(u, m));
      assert m in WriteMembers(t) * (ReadMembers(u) + WriteMembers(u)) || m in WriteMembers(u) * ReadMembers(t);
      assert m in WriteMembers(u) * (ReadMembers(t) + WriteMembers(t)) || m in WriteMembers(t) * ReadMembers(u);
    }
    if SetsConflict(t, u) {
      var m :| m in WriteMembers(t) * (ReadMembers(u) + WriteMembers(u)) || m in WriteMembers(u) * ReadMembers(t);
      assert Writes(t, m) || Writes(u, m);
    }
    if SetsConflict(u, t) {
      var m :| m in WriteMembers(u) * (ReadMembers(t) + WriteMembers(t)) || m in WriteMembers(t) * ReadMembers(u);
      assert Writes(t, m) || Writes(u, m);
    }
  }

  /** No member twice. */
  predicate UniqueMembers(members: seq<Member>) {
    |Elements(members)| == |members|
  }

  function ReadList(t: Transaction): seq<Member> {
    seq(|t.readSet|, i requires 0 <= i < |t.readSet| => t.readSet[i].member)
  }

  function WriteList(t: Transaction): seq<Member> {
    seq(|t.writeSet|, i requires 0 <= i < |t.writeSet| => t.writeSet[i].member)
  }

  lemma UniqueIsDistinct(t: Transaction)
    ensures UniqueMembers(ReadList(t)) <==> DistinctReads(t.readSet)
    ensures UniqueMembers(WriteList(t)) <==> DistinctWrites(t.writeSet)
  {
    SizeIsDistinct(ReadList(t));
    SizeIsDistinct(WriteList(t));
    assert Distinct(ReadList(t)) <==> DistinctReads(t.readSet) by {
      assert forall i :: 0 <= i < |t.readSet| ==> ReadList(t)[i] == t.readSet[i].member;
    }
    assert Distinct(WriteList(t)) <==> DistinctWrites(t.writeSet) by {
      assert forall i :: 0 <= i < |t.writeSet| ==> WriteList(t)[i] == t.writeSet[i].member;
    }
  }

  lemma SizeIsDistinct(members: seq<Member>)
    ensures UniqueMembers(members) <==> Distinct(members)
  {
    if Distinct(members) {
      DistinctSize(members);
    } else {
      RepetitionShrinks(members);
    }
  }

  predicate DistinctReads(s: seq<Reference>) {
    forall i, j :: 0 <= i < j < |s| ==> s[i].member != s[j].member
  }

  predicate DistinctWrites(s: seq<Write>) {
    forall i, j :: 0 <= i < j < |s| ==> s[i].member != s[j].member
  }

  /** No member is listed twice, and neither set is empty. */
  ghost predicate WellFormed(t: Transaction) {
    && t.readSet != [] && t.writeSet != []
    && DistinctReads(t.readSet) && DistinctWrites(t.writeSet)
    && (t.status == Aborted <==> t.reason.Some?)
  }

  /** No prepared transaction of the ledger, other than `id` itself, conflicts with `t`. */
  ghost predicate NoPreparedConflict(ledger: Ledger, ids: set<Key>, id: Key, t: Transaction) {
    forall k :: k in ledger && k in ids && k != id && ledger[k].value.status == Prepared ==>
      !SetsConflict(t, ledger[k].value)
  }

  /** Read and write sets of stored transactions never change. */
  ghost predicate KeepsSets(before: Ledger, after: Ledger) {
    forall k :: k in before ==> k in after && after[k].value.readSet == before[k].value.readSet
                                && after[k].value.writeSet == before[k].value.writeSet
  }

  /** A terminal status together with its reason. */
  function Ended(t: Transaction, status: Status, reason: Option<string>): Transaction {
    t.(status := status, reason := reason)
  }

  datatype Verdict = Rejected | Refused | StaleAbort | Materialize(writes: seq<Write>) | Unchanged

  class SemanticTransactionCoordinator {
    const store: JsonRecordStore<Transaction>

    constructor (store: JsonRecordStore<Transaction>)
      ensures this.store == store
    {
      this.store := store;
    }

    /** Scan every stored transaction, then create the record. */
    method Prepare(id: Key, t: Transaction, writer: Writer) returns (ok: bool)
      requires store.Valid() && t.status == Prepared && t.reason == None
      modifies store
      ensures store.Valid()
      ensures ok <==> (WellFormed(t) && old(id !in store.records)
                       && NoPreparedConflict(old(store.records), old(store.records).Keys, id, t))
      ensures store.records == if ok then old(store.records)[id := First(id, t, writer)] else old(store.records)
    {
      hide SetsConflict, UniqueMembers, DistinctReads, DistinctWrites, ReadList, WriteList;
      UniqueIsDistinct(t);
      if t.readSet == [] || t.writeSet == [] || !UniqueMembers(ReadList(t)) || !UniqueMembers(WriteList(t)) {
        return false;
      }
      var todo := store.records.Keys;
      while todo != {}
        invariant todo <= store.records.Keys
        invariant NoPreparedConflict(store.records, store.records.Keys - todo, id, t)
        decreases |todo|
      {
        var k :| k in todo;
        var existing := store.records[k].value;
        if k != id && existing.status == Prepared && SetsConflict(t, existing) {
          return false;
        }
        todo := todo - {k};
      }
      var outcome := store.Create(id, t, writer);
      return outcome.Stored?;
    }

    /** `valid` is what the caller's validation of the read set answers. */
    method Commit(id: Key, valid: bool, writer: Writer) returns (verdict: Verdict)
      requires store.Valid()
      modifies store
      ensures store.Valid()
      ensures old(id !in store.records) ==> verdict == Rejected
      ensures old(id in store.records) ==> verdict == match old(store.records[id].value.status)
        case Aborted => Refused
        case Committed => Materialize(old(store.records[id].value.writeSet))
        case Prepared => if valid then Materialize(old(store.records[id].value.writeSet)) else StaleAbort
      ensures store.records == if old(id in store.records && store.records[id].value.status == Prepared)
        then old(store.records)[
          id := Successor(old(store.records[id]), Decided(old(store.records[id].value), valid), writer)]
        else old(store.records)
      ensures verdict.Materialize? ==>
        && store.records[id].value.status == Committed && store.records[id].value.writeSet == verdict.writes
        && (old(store.records[id].value.status) == Prepared ==> store.records[id].value.reason == None)
      ensures verdict.StaleAbort? ==>
        store.records[id].value.status == Aborted && store.records[id].value.reason == Some(STALE)
      ensures KeepsSets(old(store.records), store.records)
    {
      hide Solid, IdentityOk, Chain, KeepsSets;
      EndedKeepsSets(store.records, id, writer);
      var read := store.Read(id);
      if !read.Stored? {
        return Rejected;
      }
      var t := read.record.value;
      match t.status
      case Aborted => return Refused;
      case Committed => return Materialize(t.writeSet);
      case Prepared =>
        var _ := store.Replace(id, read.record.revision, Decided(t, valid), writer);
        return if valid then Materialize(t.writeSet) else StaleAbort;
    }

    method Abort(id: Key, reason: string, writer: Writer) returns (verdict: Verdict)
      requires store.Valid() && reason != ""
      modifies store
      ensures store.Valid()
      ensures verdict == Rejected <==> old(id !in store.records)
      ensures verdict == Refused <==> old(id in store.records && store.records[id].value.status == Committed)
      ensures store.records == if old(id in store.records && store.records[id].value.status == Prepared)
        then old(store.records)[id := Successor(old(store.records[id]),
                                                Ended(old(store.records[id].value), Aborted, Some(reason)), writer)]
        else old(store.records)
      ensures verdict.Unchanged? ==> store.records[id].value.status == Aborted
      ensures verdict.Unchanged? && old(store.records[id].value.status) == Prepared ==>
        store.records[id].value.reason == Some(reason)
      ensures KeepsSets(old(store.records), store.records)
    {
      hide Solid, IdentityOk, Chain, KeepsSets;
      EndedKeepsSets(store.records, id, writer);
      var read := store.Read(id);
      if !read.Stored? {
        return Rejected;
      }
      var t := read.record.value;
      match t.status
      case Committed => return Refused;
      case Aborted => return Unchanged;
      case Prepared =>
        var _ := store.Replace(id, read.record.revision, Ended(t, Aborted, Some(reason)), writer);
        return Unchanged;
    }
  }

  lemma EndedKeepsSets(ledger: Ledger, id: Key, writer: Writer)
    ensures KeepsSets(ledger, ledger)
    ensures id in ledger ==> forall status, reason ::
      KeepsSets(ledger, ledger[id := Successor(ledger[id], Ended(ledger[id].value, status, reason), writer)])
  {
  }

  const STALE: string := "stale authoritative read set"

  function Decided(t: Transaction, valid: bool): Transaction {
    if valid then Ended(t, Committed, None) else Ended(t, Aborted, Some(STALE))
  }
}
