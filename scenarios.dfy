/**
 * Runs of the store from an empty collection, without storage faults: the
 * behaviour a client sees through `set`, `get`, `list` and `wipe`.
 */
module Scenarios {
  import opened Wrappers
  import opened Mongo
  import opened Perms

  /** A subject without a document has the empty record. */
  lemma AbsentRecord(docs: map<string, map<string, int>>, id: string)
    requires id !in docs
    ensures IsRecordOf(map[], FieldsOf(docs, id))
  {
  }

  /** The records of the end-to-end run. */
  lemma ReadWrite(read: string, write: string)
    requires !IsBadKey(read) && !IsBadKey(write) && read != write
    ensures !HasBadEntry([(read, 1), (write, 2)]) && DistinctKeys([(read, 1), (write, 2)])
    ensures !HasBadEntry([(write, 0)])
    ensures NonZero(map[] + Requested([(read, 1), (write, 2)])) == map[read := 1, write := 2]
    ensures NonZero(map[read := 1, write := 2] + Requested([(write, 0)])) == map[read := 1]
  {
    assert [(read, 1), (write, 2)][..1] == [(read, 1)];
  }

  /** A request of level 0 alone sets no field and creates an empty record. */
  lemma ZeroOnly(k: string)
    ensures SetFields([(k, 0)]) == map[]
    ensures NonZero(map[] + Requested([(k, 0)])) == map[]
  {
    assert [(k, 0)][..0] == [];
  }

  /** The records of setting a key to 5, then to 7. */
  lemma Overwrite(k: string)
    ensures NonZero(map[] + Requested([(k, 5)])) == map[k := 5]
    ensures NonZero(map[k := 5] + Requested([(k, 7)])) == map[k := 7]
  {
  }

  /** The record of the partial-projection run. */
  lemma ABC(a: string, b: string, c: string)
    requires !IsBadKey(a) && !IsBadKey(b) && !IsBadKey(c)
    requires a != b && a != c && b != c
    ensures !HasBadEntry([(a, 1), (b, 2), (c, 3)]) && DistinctKeys([(a, 1), (b, 2), (c, 3)])
    ensures NonZero(map[] + Requested([(a, 1), (b, 2), (c, 3)])) == map[a := 1, b := 2, c := 3]
  {
    var e := [(a, 1), (b, 2), (c, 3)];
    assert e[..2] == [(a, 1), (b, 2)] && e[..2][..1] == [(a, 1)];
    assert Requested(e[..2][..1]) == map[a := 1];
    assert Requested(e[..2]) == map[a := 1, b := 2];
    assert Requested(e) == map[a := 1, b := 2, c := 3];
    assert map[] + Requested(e) == Requested(e);
  }

  /** The part of that record `get` of `a`, `c` and `z` asks for. */
  lemma ACZ(a: string, b: string, c: string, z: string)
    requires !IsBadKey(a) && !IsBadKey(c) && !IsBadKey(z)
    requires a != b && a != c && b != c && z != a && z != b && z != c
    ensures !HasBadKey([a, c, z])
    ensures Restrict(map[a := 1, b := 2, c := 3], [a, c, z]) == map[a := 1, c := 3]
  {
  }

  /**
   * A fault-free `set` of `entries` on a subject whose record is `before`,
   * followed by `list`: the listed record is `before` overridden by the
   * request, without the keys set to 0.
   */
  method SetThenList(coll: Collection, id: string, entries: seq<Entry>, ghost before: map<string, U32>)
    returns (r: Result<()>, listed: Result<map<string, U32>>)
    requires Consistent(coll.docs) && !HasBadEntry(entries) && DistinctKeys(entries)
    requires IsRecordOf(before, FieldsOf(coll.docs, id))
    modifies coll
    ensures r == Ok(()) && listed == Ok(NonZero(before + Requested(entries)))
    ensures Consistent(coll.docs) && IsRecordOf(listed.value, FieldsOf(coll.docs, id))
    ensures coll.docs == Upserted(old(coll.docs), id, entries)
  {
    ghost var docs := coll.docs;
    r := Set(coll, id, entries, None, None);
    UpsertedRecord(docs, id, entries, before);
    listed := List(coll, id, None);
    RecordUnique(listed.value, NonZero(before + Requested(entries)), FieldsOf(coll.docs, id));
  }

  /**
   * Setting `read` to 1 and `write` to 2 lists both; setting `write` to 0
   * then removes it; wiping leaves an empty record. Any two distinct
   * accepted keys behave like `read` and `write`.
   */
  method EndToEnd(read: string, write: string)
    returns (set1: Result<()>, list1: Result<map<string, U32>>,
             set2: Result<()>, list2: Result<map<string, U32>>,
             wiped: Result<()>, list3: Result<map<string, U32>>)
    requires !IsBadKey(read) && !IsBadKey(write) && read != write
    ensures set1 == Ok(()) && list1 == Ok(map[read := 1, write := 2])
    ensures set2 == Ok(()) && list2 == Ok(map[read := 1])
    ensures wiped == Ok(()) && list3 == Ok(map[])
  {
    var coll := new Collection();
    AbsentRecord(coll.docs, "u1");
    ReadWrite(read, write);
    set1, list1 := SetThenList(coll, "u1", [(read, 1), (write, 2)], map[]);
    set2, list2 := SetThenList(coll, "u1", [(write, 0)], list1.value);
    wiped := Wipe(coll, "u1", None);
    list3 := List(coll, "u1", None);
    AbsentRecord(coll.docs, "u1");
    RecordUnique(list3.value, map[], FieldsOf(coll.docs, "u1"));
  }

  /**
   * Setting a key to 0 on a subject without a record matches no document, so
   * the fallback insert creates an empty document for the subject; neither
   * `get` of that key nor `list` shows the key.
   */
  method ZeroMeansAbsent(id: string, k: string)
    returns (stored: map<string, map<string, int>>, shown: Result<map<string, U32>>, listed: Result<map<string, U32>>)
    requires !IsBadKey(k)
    ensures stored == map[id := map[]]
    ensures shown == Ok(map[]) && listed == Ok(map[])
  {
    var coll := new Collection();
    AbsentRecord(coll.docs, id);
    ZeroOnly(k);
    var r;
    r, listed := SetThenList(coll, id, [(k, 0)], map[]);
    stored := coll.docs;
    shown := Get(coll, id, [k], None);
    PartIsRestriction(listed.value, shown.value, FieldsOf(coll.docs, id), [k]);
  }

  /**
   * A second `set` of the same key updates the record the first one created:
   * there is still one document, and the key holds the new level.
   */
  method UpsertThenUpdate(id: string, k: string) returns (documents: nat, listed: Result<map<string, U32>>)
    requires !IsBadKey(k)
    ensures documents == 1
    ensures listed == Ok(map[k := 7])
  {
    var coll := new Collection();
    AbsentRecord(coll.docs, id);
    Overwrite(k);
    var r1, listed1 := SetThenList(coll, id, [(k, 5)], map[]);
    var r2;
    r2, listed := SetThenList(coll, id, [(k, 7)], listed1.value);
    documents := |coll.docs.Keys|;
  }

  /**
   * On the record `{a: 1, b: 2, c: 3}`, `get` of `a`, `c` and `z` returns
   * `{a: 1, c: 3}`: `z` is absent, `b` was not asked for. Any four distinct
   * accepted keys behave like these.
   */
  method PartialProjection(a: string, b: string, c: string, z: string) returns (shown: Result<map<string, U32>>)
    requires !IsBadKey(a) && !IsBadKey(b) && !IsBadKey(c) && !IsBadKey(z)
    requires a != b && a != c && b != c && z != a && z != b && z != c
    ensures shown == Ok(map[a := 1, c := 3])
  {
    var coll := new Collection();
    AbsentRecord(coll.docs, "u");
    ABC(a, b, c);
    ACZ(a, b, c, z);
    var r, listed := SetThenList(coll, "u", [(a, 1), (b, 2), (c, 3)], map[]);
    shown := Get(coll, "u", [a, c, z], None);
    PartIsRestriction(listed.value, shown.value, FieldsOf(coll.docs, "u"), [a, c, z]);
  }
}
