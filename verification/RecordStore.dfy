/** Versioned records with compare-and-swap replacement. */
module RecordStore {
  import opened Collections
  import Texts

  type Key = string

  datatype Identity = Identity(writerId: string, sessionId: string)

  predicate IdentityOk(i: Identity) {
    Texts.Word(i.writerId) && Texts.Word(i.sessionId)
  }

  /** Not empty, and without white space. */
  predicate Solid(id: string) {
    |id| > 0 && forall i :: 0 <= i < |id| ==> !Texts.Space(id[i])
  }

  /** Nobody writes without a proper identity. */
  type Writer = i: Identity | IdentityOk(i) witness Identity("w", "s")

  const SCHEMA_VERSION: nat := 1

  /** A record as it was read back; its fields need not make sense. */
  datatype Record<+V> = Record(schema: nat, key: Key, revision: nat, previous: Option<nat>, writer: Identity, value: V)

  type Records<V> = map<Key, Record<V>>

  datatype Outcome<+V> = Stored(record: Record<V>) | Missing | Invalid | Exists | Stale(current: nat)

  /** The reader's revision rule: revision 0 has no predecessor, others the one before. */
  predicate LinkOk<V>(record: Record<V>) {
    record.previous == if record.revision == 0 then None else Some(record.revision - 1)
  }

  /** What the reader demands of a stored record. */
  predicate RecordOk<V>(key: Key, record: Record<V>) {
    record.schema == SCHEMA_VERSION && record.key == key && LinkOk(record) && IdentityOk(record.writer)
  }

  function First<V>(key: Key, value: V, writer: Writer): Record<V> {
    Record(SCHEMA_VERSION, key, 0, None, writer, value)
  }

  function Successor<V>(record: Record<V>, value: V, writer: Writer): Record<V> {
    Record(SCHEMA_VERSION, record.key, record.revision + 1, Some(record.revision), writer, value)
  }

  /** All versions of one record, oldest first, without a gap. */
  ghost predicate Chain<V>(key: Key, versions: seq<Record<V>>) {
    versions != [] && forall i :: 0 <= i < |versions| ==> RecordOk(key, versions[i]) && versions[i].revision == i
  }

  /** Every stored record is the last link of an unbroken chain of versions. */
  ghost predicate Consistent<V>(records: Records<V>, history: map<Key, seq<Record<V>>>) {
    && history.Keys == records.Keys
    && forall k :: k in records ==> Chain(k, history[k]) && history[k][|history[k]| - 1] == records[k]
  }

  lemma AddFirst<V>(records: Records<V>, history: map<Key, seq<Record<V>>>, record: Record<V>)
    requires Consistent(records, history) && record.revision == 0 && RecordOk(record.key, record)
    ensures Consistent(records[record.key := record], history[record.key := [record]])
  {
    assert Chain(record.key, [record]);
  }

  lemma AddNext<V>(records: Records<V>, history: map<Key, seq<Record<V>>>, key: Key, value: V, writer: Writer)
    requires Consistent(records, history) && key in records
    ensures var next := Successor(records[key], value, writer);
      next.key == key && Consistent(records[key := next], history[key := history[key] + [next]])
  {
    ChainLength(key, history[key]);
  }

  class JsonRecordStore<V> {
    var records: Records<V>
    ghost var history: map<Key, seq<Record<V>>>

    ghost predicate Valid()
      reads this
    {
      Consistent(records, history)
    }

    constructor ()
      ensures Valid() && records == map[] && history == map[]
    {
      records, history := map[], map[];
    }

    /** Only well-formed records are handed out; in a store that only `Create` and `Replace`
        wrote, every record is, it is the latest version, and its revision counts them. */
    method Read(key: Key) returns (outcome: Outcome<V>)
      ensures outcome == Missing <==> key !in records
      ensures outcome == Invalid <==> key in records && !RecordOk(key, records[key])
      ensures outcome.Missing? || outcome.Invalid?
        || (outcome.Stored? && key in records && outcome.record == records[key])
      ensures outcome.Stored? ==> Solid(outcome.record.writer.writerId) && Solid(outcome.record.writer.sessionId)
      ensures Valid() && key in records ==> outcome.Stored? && key in history && history[key] != []
      ensures (Valid() && outcome.Stored? ==>
        outcome.record == history[key][|history[key]| - 1] && outcome.record.revision == |history[key]| - 1)
    {
      if key !in records {
        return Missing;
      }
      var record := records[key];
      if Valid() {
        ChainLength(key, history[key]);
      }
      if record.schema != SCHEMA_VERSION || record.key != key {
        return Invalid;
      }
      if record.revision == 0 {
        if record.previous.Some? {
          return Invalid;
        }
      } else if record.previous != Some(record.revision - 1) {
        return Invalid;
      }
      if !IdentityOk(record.writer) {
        return Invalid;
      }
      return Stored(record);
    }

    method Create(key: Key, value: V, writer: Writer) returns (outcome: Outcome<V>)
      requires Valid()
      modifies this
      ensures Valid()
      ensures old(key in records) ==> outcome == Exists && records == old(records) && history == old(history)
      ensures old(key !in records) ==> (
        && outcome == Stored(First(key, value, writer))
        && outcome.record == Record(SCHEMA_VERSION, key, 0, None, writer, value)
        && records == old(records)[key := outcome.record] && history == old(history)[key := [outcome.record]])
    {
      hide Chain;
      if key in records {
        return Exists;
      }
      var record := First(key, value, writer);
      AddFirst(records, history, record);
      records := records[key := record];
      history := history[key := [record]];
      return Stored(record);
    }

    /** Replace exactly the expected revision; anything newer is left alone. */
    method Replace(key: Key, expected: nat, value: V, writer: Writer) returns (outcome: Outcome<V>)
      modifies this
      ensures old(Valid()) ==> Valid() && outcome != Invalid
      ensures outcome == Missing <==> old(key !in records)
      ensures outcome == Invalid <==> old(key in records && !RecordOk(key, records[key]))
      ensures old(key in records && RecordOk(key, records[key]) && records[key].revision != expected) ==>
        outcome == Stale(old(records[key].revision))
      ensures !outcome.Stored? ==> records == old(records) && history == old(history)
      ensures outcome.Stored? <==>
        old(key in records && RecordOk(key, records[key]) && records[key].revision == expected)
      ensures outcome.Stored? ==> outcome.record == Successor(old(records[key]), value, writer)
      ensures outcome.Stored? ==>
        outcome.record == Record(SCHEMA_VERSION, key, expected + 1, Some(expected), writer, value)
      ensures outcome.Stored? ==> records == old(records)[key := outcome.record]
      ensures outcome.Stored? && old(Valid()) ==>
        old(key in history) && history == old(history)[key := old(history[key]) + [outcome.record]]
    {
      hide Chain;
      var read := Read(key);
      if !read.Stored? {
        return read;
      }
      var current := read.record;
      if current.revision != expected {
        return Stale(current.revision);
      }
      var record := Successor(current, value, writer);
      if Valid() {
        AddNext(records, history, key, value, writer);
      }
      records := records[key := record];
      history := if key in history then history[key := history[key] + [record]] else history;
      return Stored(record);
    }
  }

  /** A chain is determined by its length: version numbers are positions. */
  lemma ChainLength<V>(key: Key, versions: seq<Record<V>>)
    requires Chain(key, versions)
    ensures |versions| == versions[|versions| - 1].revision + 1
    ensures forall i :: 0 < i < |versions| ==> versions[i].previous == Some(versions[i - 1].revision)
  {
  }
}
