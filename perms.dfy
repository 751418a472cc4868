/**
 * The permission store (`Perms` in src/perm.rs): one document per subject,
 * whose fields are the encoded permission keys and whose values are the
 * nonzero levels. Level 0 means "unset" and is never stored.
 *
 * The public `set`/`get`/`list`/`wipe` only forward to `set_int`, `get_int`,
 * `list_int` and `wipe_int`; each pair is one method here.
 */
module Perms {
  import opened Wrappers
  import opened Mongo
  import opened Codec

  /** A permission level: Rust's `u32`. */
  type U32 = n: int | 0 <= n < 0x1_0000_0000

  /** One entry of a `set` request: a key and the level to give it. */
  type Entry = (string, U32)

  /** The error `bad_key!()` builds: a custom error whose message is "bad key". */
  const BadKey: DriverError := DriverError(Some("bad key"), "custom error")

  /** `cond_bad_key!`: the empty key and the identity field's name are refused. */
  predicate IsBadKey(k: string) {
    k == IdField || |k| == 0
  }

  /**
   * The refused keys are exactly those whose encoding would be the empty
   * field name or the identity field's name.
   */
  lemma RefusedKeys(k: string)
    ensures IsBadKey(k) <==> Escaped(k) == [] || Escaped(k) == IdField
  {
    EscapedReservedNames(k);
  }

  /** Some key of a `get` request is refused. */
  predicate HasBadKey(keys: seq<string>) {
    exists i :: 0 <= i < |keys| && IsBadKey(keys[i])
  }

  /** Some key of a `set` request is refused. */
  predicate HasBadEntry(entries: seq<Entry>) {
    exists i :: 0 <= i < |entries| && IsBadKey(entries[i].0)
  }

  /** No key occurs twice in a `set` request. */
  predicate DistinctKeys(entries: seq<Entry>) {
    forall i, j :: 0 <= i < j < |entries| ==> entries[i].0 != entries[j].0
  }

  /** `as u32` on an `i64`: keeps the low 32 bits. */
  function AsU32(n: int): (r: U32)
    ensures 0 <= n < 0x1_0000_0000 ==> r == n
  {
    n % 0x1_0000_0000
  }

  /** `Bson::as_i64`. */
  function AsI64(v: Bson): (r: Option<int>)
    ensures r.Some? <==> v.BInt64?
  {
    match v
    case BInt64(n) => Some(n)
    case BString(_) => None
  }

  // ---------------------------------------------------------------------
  // What `set_int`'s loop builds, and what the update and insert make of it
  // ---------------------------------------------------------------------

  /** `m_set`: the encoded keys of the entries with a nonzero level, with those levels. */
  function SetFields(entries: seq<Entry>): (m: map<string, int>)
    ensures forall f :: f in m ==> 0 < m[f] < 0x1_0000_0000
  {
    if entries == [] then map[]
    else
      var k, v := entries[|entries| - 1].0, entries[|entries| - 1].1;
      if v == 0 then SetFields(entries[..|entries| - 1])
      else SetFields(entries[..|entries| - 1])[Escaped(k) := v]
  }

  /** `m_unset`: the encoded keys of the entries whose level is 0. */
  function UnsetFields(entries: seq<Entry>): (s: set<string>)
    ensures forall i :: 0 <= i < |entries| && entries[i].1 == 0 ==> Escaped(entries[i].0) in s
  {
    if entries == [] then {}
    else
      var k, v := entries[|entries| - 1].0, entries[|entries| - 1].1;
      if v == 0 then UnsetFields(entries[..|entries| - 1]) + {Escaped(k)}
      else UnsetFields(entries[..|entries| - 1])
  }

  /** Every field of `m_set` is the encoding of a request key with a nonzero level. */
  lemma {:induction false} SetFieldOrigin(entries: seq<Entry>, f: string) returns (i: nat)
    requires f in SetFields(entries)
    ensures i < |entries| && Escaped(entries[i].0) == f && entries[i].1 != 0
  {
    var init, k, v := entries[..|entries| - 1], entries[|entries| - 1].0, entries[|entries| - 1].1;
    if v != 0 && f == Escaped(k) {
      i := |entries| - 1;
    } else {
      i := SetFieldOrigin(init, f);
    }
  }

  /** Every field of `m_unset` is the encoding of a request key with level 0. */
  lemma {:induction false} UnsetFieldOrigin(entries: seq<Entry>, f: string) returns (i: nat)
    requires f in UnsetFields(entries)
    ensures i < |entries| && Escaped(entries[i].0) == f && entries[i].1 == 0
  {
    var init, k, v := entries[..|entries| - 1], entries[|entries| - 1].0, entries[|entries| - 1].1;
    if v == 0 && f == Escaped(k) {
      i := |entries| - 1;
    } else {
      i := UnsetFieldOrigin(init, f);
    }
  }

  /** The fields of an existing document after the `$set`/`$unset` update of `set`. */
  function Assign(fields: map<string, int>, entries: seq<Entry>): (a: map<string, int>)
    ensures forall f :: f in SetFields(entries) ==> f in a && a[f] == SetFields(entries)[f]
    ensures forall f :: f in UnsetFields(entries) && f !in SetFields(entries) ==> f !in a
    ensures forall f :: f !in SetFields(entries) && f !in UnsetFields(entries) ==>
      (f in a <==> f in fields) && (f in a ==> a[f] == fields[f])
  {
    (fields - UnsetFields(entries)) + SetFields(entries)
  }

  /**
   * The collection after a `set` with no refused key and no storage fault:
   * an existing document is updated in place, an absent one is created with
   * exactly the nonzero entries.
   */
  function Upserted(docs: map<string, map<string, int>>, id: string, entries: seq<Entry>)
    : (docs': map<string, map<string, int>>)
    ensures docs'.Keys == docs.Keys + {id}
    ensures forall other :: other in docs && other != id ==> docs'[other] == docs[other]
  {
    if id in docs then docs[id := Assign(docs[id], entries)] else docs[id := SetFields(entries)]
  }

  // ---------------------------------------------------------------------
  // The stored representation and the permission record it stands for
  // ---------------------------------------------------------------------

  /** A field name `set` can write: the encoding of a key that is not refused. */
  ghost predicate IsField(f: string) {
    exists k :: !IsBadKey(k) && Escaped(k) == f
  }

  /** Every field of a document is such a name, holding a nonzero `u32` level. */
  ghost predicate ConsistentFields(fields: map<string, int>) {
    forall f :: f in fields ==> IsField(f) && 0 < fields[f] < 0x1_0000_0000
  }

  /** The invariant of the collection: every document is consistent. */
  ghost predicate Consistent(docs: map<string, map<string, int>>) {
    forall id :: id in docs ==> ConsistentFields(docs[id])
  }

  /**
   * The field names `set` can write are exactly the non-empty names of the
   * escape grammar other than the identity field.
   */
  lemma FieldGrammar(f: string)
    ensures IsField(f) <==> WellFormed(f) && f != [] && f != IdField
  {
    if IsField(f) {
      var k :| !IsBadKey(k) && Escaped(k) == f;
      EscapedWellFormed(k);
      EscapedReservedNames(k);
    }
    if WellFormed(f) && f != [] && f != IdField {
      WellFormedInverse(f);
      var k := Unescaped(f);
      EscapedReservedNames(k);
      assert !IsBadKey(k) && Escaped(k) == f;
    }
  }

  /**
   * A stored field name is never the identity field, decodes without a panic,
   * and is the encoding of the (accepted) key it decodes to.
   */
  lemma FieldDecodes(f: string)
    requires IsField(f)
    ensures f != IdField && Decodable(f) && Escaped(Unescaped(f)) == f && !IsBadKey(Unescaped(f))
  {
    var k :| !IsBadKey(k) && Escaped(k) == f;
    RoundTrip(k);
    EscapedReservedNames(k);
  }

  /** `encode` is injective: no other key encodes like `k`. */
  lemma EscapedInjectiveAt(k: string)
    ensures forall k' :: Escaped(k') == Escaped(k) ==> k' == k
  {
    forall k' | Escaped(k') == Escaped(k)
      ensures k' == k
    {
      EscapedInjective(k', k);
    }
  }

  /** The fields of subject `id`'s document; an absent document has none. */
  function FieldsOf(docs: map<string, map<string, int>>, id: string): map<string, int> {
    if id in docs then docs[id] else map[]
  }

  /** The level a document gives key `k`: its field's value, 0 when there is no field. */
  function LevelOf(fields: map<string, int>, k: string): int {
    if Escaped(k) in fields then fields[Escaped(k)] else 0
  }

  /**
   * `r` is the permission record of `fields`: it holds exactly the keys with
   * a nonzero level, each with that level. Keys at level 0 are absent, never
   * present with 0.
   */
  ghost predicate IsRecordOf(r: map<string, U32>, fields: map<string, int>) {
    forall k :: (k in r <==> LevelOf(fields, k) != 0) && (k in r ==> r[k] == LevelOf(fields, k))
  }

  /** `r` is the part of the record of `fields` that a request for `keys` covers. */
  ghost predicate IsPartOf(r: map<string, U32>, fields: map<string, int>, keys: seq<string>) {
    forall k :: (k in r <==> k in keys && LevelOf(fields, k) != 0) && (k in r ==> r[k] == LevelOf(fields, k))
  }

  /** The record of a document is determined by the document. */
  lemma RecordUnique(a: map<string, U32>, b: map<string, U32>, fields: map<string, int>)
    requires IsRecordOf(a, fields) && IsRecordOf(b, fields)
    ensures a == b
  {
    assert a.Keys == b.Keys;
  }

  /** The part of a record that `keys` covers is the record restricted to `keys`. */
  lemma PartIsRestriction(all: map<string, U32>, part: map<string, U32>, fields: map<string, int>, keys: seq<string>)
    requires IsRecordOf(all, fields) && IsPartOf(part, fields, keys)
    ensures part == Restrict(all, keys)
  {
    assert part.Keys == Restrict(all, keys).Keys;
  }

  /** Every field of a consistent document shows up in its record, under its decoded key. */
  lemma StoredFieldInRecord(fields: map<string, int>, f: string)
    requires ConsistentFields(fields) && f in fields
    ensures Decodable(f) && LevelOf(fields, Unescaped(f)) == fields[f] != 0
  {
    FieldDecodes(f);
  }

  /** No key of the record of a consistent document is a refused key. */
  lemma RecordKeysAccepted(r: map<string, U32>, fields: map<string, int>, k: string)
    requires ConsistentFields(fields) && IsRecordOf(r, fields) && k in r
    ensures !IsBadKey(k)
  {
    FieldDecodes(Escaped(k));
    RoundTrip(k);
  }

  /** The entries of a `set` request as a map from key to level. */
  function Requested(entries: seq<Entry>): (m: map<string, U32>)
    ensures forall k :: k in m <==> exists i :: 0 <= i < |entries| && entries[i].0 == k
  {
    if entries == [] then map[]
    else Requested(entries[..|entries| - 1])[entries[|entries| - 1].0 := entries[|entries| - 1].1]
  }

  /** The part of record `r` that a `get` of `keys` asks for. */
  function Restrict(r: map<string, U32>, keys: seq<string>): (p: map<string, U32>)
    ensures forall k :: k in p <==> k in r && k in keys
    ensures forall k :: k in p ==> p[k] == r[k]
  {
    map k | k in r && k in keys :: r[k]
  }

  // ---------------------------------------------------------------------
  // What `set` does to a document
  // ---------------------------------------------------------------------

  /** No field of `m_set` or `m_unset` comes from a key other than the request's. */
  lemma {:induction false} Untouched(entries: seq<Entry>, k: string)
    requires forall i :: 0 <= i < |entries| ==> entries[i].0 != k
    ensures Escaped(k) !in SetFields(entries) && Escaped(k) !in UnsetFields(entries)
  {
    if Escaped(k) in SetFields(entries) {
      var i := SetFieldOrigin(entries, Escaped(k));
      EscapedInjective(entries[i].0, k);
    }
    if Escaped(k) in UnsetFields(entries) {
      var i := UnsetFieldOrigin(entries, Escaped(k));
      EscapedInjective(entries[i].0, k);
    }
  }

  /** With distinct keys, no field is both set and unset, so the update is accepted. */
  lemma {:induction false} SetUnsetDisjoint(entries: seq<Entry>)
    requires DistinctKeys(entries)
    ensures SetFields(entries).Keys !! UnsetFields(entries)
  {
    if entries != [] {
      var init, k := entries[..|entries| - 1], entries[|entries| - 1].0;
      SetUnsetDisjoint(init);
      Untouched(init, k);
    }
  }

  /** The effect of the last entry of a request on the document. */
  lemma AssignLast(fields: map<string, int>, entries: seq<Entry>)
    requires DistinctKeys(entries) && entries != []
    ensures var init, k, v := entries[..|entries| - 1], entries[|entries| - 1].0, entries[|entries| - 1].1;
      Assign(fields, entries) ==
        if v == 0 then Assign(fields, init) - {Escaped(k)} else Assign(fields, init)[Escaped(k) := v]
  {
    var init, k, v := entries[..|entries| - 1], entries[|entries| - 1].0, entries[|entries| - 1].1;
    Untouched(init, k);
    var s, u, e := SetFields(init), UnsetFields(init), Escaped(k);
    assert Assign(fields, init) == (fields - u) + s;
    if v == 0 {
      assert SetFields(entries) == s && UnsetFields(entries) == u + {e};
      RemoveAfterUpdate(fields, u, s, e);
      assert Assign(fields, entries) == Assign(fields, init) - {e};
    } else {
      assert SetFields(entries) == s[e := v] && UnsetFields(entries) == u;
      assert Assign(fields, entries) == Assign(fields, init)[e := v];
    }
  }

  /** Removing one more field that `$set` does not write commutes with the update. */
  lemma RemoveAfterUpdate(m: map<string, int>, u: set<string>, s: map<string, int>, e: string)
    requires e !in s
    ensures (m - (u + {e})) + s == ((m - u) + s) - {e}
  {
    var a, b := (m - (u + {e})) + s, ((m - u) + s) - {e};
    assert a.Keys == b.Keys;
  }

  /**
   * `set` on a document, key by key: every requested key gets its requested
   * level (0 meaning the key is gone) and every other key keeps its level.
   */
  lemma {:induction false} AssignLevel(fields: map<string, int>, entries: seq<Entry>, k: string)
    requires DistinctKeys(entries)
    ensures LevelOf(Assign(fields, entries), k) ==
      if k in Requested(entries) then Requested(entries)[k] else LevelOf(fields, k)
  {
    if entries == [] {
      assert Assign(fields, entries) == fields;
    } else {
      var init, k', v := entries[..|entries| - 1], entries[|entries| - 1].0, entries[|entries| - 1].1;
      AssignLast(fields, entries);
      AssignLevel(fields, init, k);
      EscapedInjective(k, k');
    }
  }

  /** A `set` with no refused key keeps a document consistent. */
  lemma AssignConsistent(fields: map<string, int>, entries: seq<Entry>)
    requires ConsistentFields(fields) && !HasBadEntry(entries)
    ensures ConsistentFields(Assign(fields, entries))
  {
    var a := Assign(fields, entries);
    forall f | f in a
      ensures IsField(f) && 0 < a[f] < 0x1_0000_0000
    {
      if f in SetFields(entries) {
        var i := SetFieldOrigin(entries, f);
        assert !IsBadKey(entries[i].0);
      }
    }
  }

  /**
   * The same, field by field on the stored document: each nonzero entry's
   * encoded key holds its level, each zero entry's encoded key is gone, and
   * every other field of the document is unchanged.
   */
  lemma AssignFields(fields: map<string, int>, entries: seq<Entry>)
    requires DistinctKeys(entries)
    ensures forall i :: 0 <= i < |entries| && entries[i].1 != 0 ==>
      Escaped(entries[i].0) in Assign(fields, entries) &&
      Assign(fields, entries)[Escaped(entries[i].0)] == entries[i].1
    ensures forall i :: 0 <= i < |entries| && entries[i].1 == 0 ==>
      Escaped(entries[i].0) !in Assign(fields, entries)
    ensures forall f :: (forall i :: 0 <= i < |entries| ==> Escaped(entries[i].0) != f) ==>
      (f in Assign(fields, entries) <==> f in fields) &&
      (f in fields ==> Assign(fields, entries)[f] == fields[f])
  {
    var a := Assign(fields, entries);
    SetUnsetDisjoint(entries);
    forall f | (forall i :: 0 <= i < |entries| ==> Escaped(entries[i].0) != f)
      ensures f !in SetFields(entries) && f !in UnsetFields(entries)
    {
      if f in SetFields(entries) {
        var i := SetFieldOrigin(entries, f);
      }
      if f in UnsetFields(entries) {
        var i := UnsetFieldOrigin(entries, f);
      }
    }
    forall i | 0 <= i < |entries|
      ensures entries[i].1 != 0 ==> Escaped(entries[i].0) in a && a[Escaped(entries[i].0)] == entries[i].1
      ensures entries[i].1 == 0 ==> Escaped(entries[i].0) !in a
    {
      if entries[i].1 != 0 {
        RequestedAt(entries, i);
        AssignLevel(fields, entries, entries[i].0);
      }
    }
  }

  /** With distinct keys, `Requested` holds each entry's own level. */
  lemma {:induction false} RequestedAt(entries: seq<Entry>, i: nat)
    requires DistinctKeys(entries) && i < |entries|
    ensures entries[i].0 in Requested(entries)
    ensures Requested(entries)[entries[i].0] == entries[i].1
  {
    if i < |entries| - 1 {
      RequestedAt(entries[..|entries| - 1], i);
    }
  }

  /**
   * A fault-free `set` on the collection, key by key: on subject `id` every
   * requested key gets its requested level and every other key keeps its
   * level, whether the document existed or was created (so zero levels
   * never become stored fields); other subjects are untouched.
   */
  lemma UpsertedLevel(docs: map<string, map<string, int>>, id: string, entries: seq<Entry>, k: string)
    requires DistinctKeys(entries)
    ensures LevelOf(FieldsOf(Upserted(docs, id, entries), id), k) ==
      if k in Requested(entries) then Requested(entries)[k] else LevelOf(FieldsOf(docs, id), k)
    ensures forall other :: other != id ==> FieldsOf(Upserted(docs, id, entries), other) == FieldsOf(docs, other)
  {
    if id !in docs {
      assert Assign(map[], entries) == SetFields(entries);
    }
    AssignLevel(FieldsOf(docs, id), entries, k);
  }

  /** The entries of `m` with a nonzero level. */
  function NonZero(m: map<string, U32>): (n: map<string, U32>)
    ensures forall k :: k in n <==> k in m && m[k] != 0
    ensures forall k :: k in n ==> n[k] == m[k]
  {
    map k | k in m && m[k] != 0 :: m[k]
  }

  /**
   * A fault-free `set` on the subject's record: the requested levels
   * override the old ones and the keys left at level 0 disappear. This holds
   * for an absent subject too, whose record is empty.
   */
  lemma UpsertedRecord(docs: map<string, map<string, int>>, id: string, entries: seq<Entry>, before: map<string, U32>)
    requires DistinctKeys(entries)
    requires IsRecordOf(before, FieldsOf(docs, id))
    ensures IsRecordOf(NonZero(before + Requested(entries)), FieldsOf(Upserted(docs, id, entries), id))
  {
    var after := NonZero(before + Requested(entries));
    forall k
      ensures (k in after <==> LevelOf(FieldsOf(Upserted(docs, id, entries), id), k) != 0)
      ensures k in after ==> after[k] == LevelOf(FieldsOf(Upserted(docs, id, entries), id), k)
    {
      UpsertedLevel(docs, id, entries, k);
    }
  }

  /** A fault-free `set` with no refused key keeps the collection consistent. */
  lemma UpsertedConsistent(docs: map<string, map<string, int>>, id: string, entries: seq<Entry>)
    requires Consistent(docs) && !HasBadEntry(entries)
    ensures Consistent(Upserted(docs, id, entries))
  {
    AssignConsistent(FieldsOf(docs, id), entries);
    if id !in docs {
      assert Assign(map[], entries) == SetFields(entries);
    }
  }

  // ---------------------------------------------------------------------
  // Reading a document back
  // ---------------------------------------------------------------------

  /** The field names a projection on `keys` asks for. */
  function Encoded(keys: seq<string>): (names: set<string>)
    ensures forall k :: k in keys ==> Escaped(k) in names
  {
    set k | k in keys :: Escaped(k)
  }

  /**
   * Projecting a document on the encodings of `keys` keeps the level of each
   * requested key and drops every other key.
   */
  lemma ProjectedLevel(fields: map<string, int>, keys: seq<string>, k: string)
    ensures LevelOf(Project(fields, Encoded(keys)), k) == if k in keys then LevelOf(fields, k) else 0
  {
    if Escaped(k) in Encoded(keys) {
      var k' :| k' in keys && Escaped(k') == Escaped(k);
      EscapedInjective(k', k);
    }
  }

  /** The record of a projected document is the requested part of the whole record. */
  lemma ProjectedRecord(r: map<string, U32>, fields: map<string, int>, keys: seq<string>)
    requires IsRecordOf(r, Project(fields, Encoded(keys)))
    ensures IsPartOf(r, fields, keys)
  {
    forall k
      ensures (k in r <==> k in keys && LevelOf(fields, k) != 0) && (k in r ==> r[k] == LevelOf(fields, k))
    {
      ProjectedLevel(fields, keys, k);
    }
  }

  /**
   * What the decoding loops of `get` and `list` build: every field decoded
   * to its key, with its level. On a consistent document that is its record.
   */
  lemma DecodedRecord(out: map<string, U32>, fields: map<string, int>)
    requires ConsistentFields(fields)
    requires DecodedExcept(out, fields, {})
    ensures IsRecordOf(out, fields)
  {
  }

  /** A projection of a consistent document is consistent. */
  lemma ProjectedConsistent(fields: map<string, int>, names: set<string>)
    requires ConsistentFields(fields)
    ensures ConsistentFields(Project(fields, names))
  {
  }

  /** The fetched document, identity field stripped, is the stored one. */
  lemma StrippedDocument(id: string, fields: map<string, int>)
    requires ConsistentFields(fields)
    ensures (AsDocument(id, fields) - {IdField}).Keys == fields.Keys
    ensures forall f :: f in fields ==> (AsDocument(id, fields) - {IdField})[f] == BInt64(fields[f])
  {
    if IdField in fields {
      FieldDecodes(IdField);
    }
  }

  // ---------------------------------------------------------------------
  // The operations
  // ---------------------------------------------------------------------

  /**
   * `set` (`set_int`): refuses the request if any key is refused, before any
   * storage call; otherwise updates the subject's document, and inserts it
   * with the nonzero entries when no document matched.
   */
  method Set(coll: Collection, id: string, entries: seq<Entry>,
             updateFault: Option<DriverError>, insertFault: Option<DriverError>)
    returns (r: Result<()>)
    requires DistinctKeys(entries)
    modifies coll
    ensures Consistent(old(coll.docs)) ==> Consistent(coll.docs)
    ensures HasBadEntry(entries) ==> r == Err(BadKey) && coll.docs == old(coll.docs)
    ensures !HasBadEntry(entries) && updateFault.Some? ==>
      r == Err(updateFault.value) && coll.docs == old(coll.docs)
    ensures !HasBadEntry(entries) && updateFault.None? && id in old(coll.docs) ==>
      r == Ok(()) && coll.docs == Upserted(old(coll.docs), id, entries)
    ensures !HasBadEntry(entries) && updateFault.None? && id !in old(coll.docs) && insertFault.Some? ==>
      r == Err(insertFault.value) && coll.docs == old(coll.docs)
    ensures !HasBadEntry(entries) && updateFault.None? && id !in old(coll.docs) && insertFault.None? ==>
      r == Ok(()) && coll.docs == Upserted(old(coll.docs), id, entries)
  {
    var mSet: map<string, int> := map[];
    var mUnset: set<string> := {};
    var i := 0;
    while i < |entries|
      invariant 0 <= i <= |entries|
      invariant coll.docs == old(coll.docs)
      invariant forall j :: 0 <= j < i ==> !IsBadKey(entries[j].0)
      invariant mSet == SetFields(entries[..i]) && mUnset == UnsetFields(entries[..i])
    {
      var k, v := entries[i].0, entries[i].1;
      if IsBadKey(k) {
        return Err(BadKey);
      }
      var f := Encode(k);
      if v == 0 {
        mUnset := mUnset + {f};
      } else {
        mSet := mSet[f := v];
      }
      assert entries[..i + 1][..i] == entries[..i];
      i := i + 1;
    }
    assert entries[..i] == entries;
    SetUnsetDisjoint(entries);
    if Consistent(coll.docs) {
      UpsertedConsistent(coll.docs, id, entries);
    }
    var updated := coll.UpdateOne(id, mSet, mUnset, updateFault);
    if updated.Err? {
      return Err(updated.error);
    }
    if updated.value == 1 {
      return Ok(());
    }
    var inserted := coll.InsertOne(id, mSet, insertFault);
    if inserted.Err? {
      return Err(inserted.error);
    }
    r := Ok(());
  }

  /**
   * `wipe` (`wipe_int`): deletes the subject's document; succeeds whether or
   * not there was one.
   */
  method Wipe(coll: Collection, id: string, fault: Option<DriverError>) returns (r: Result<()>)
    modifies coll
    ensures fault.Some? ==> r == Err(fault.value) && coll.docs == old(coll.docs)
    ensures fault.None? ==> r == Ok(()) && coll.docs == old(coll.docs) - {id}
    ensures Consistent(old(coll.docs)) ==> Consistent(coll.docs)
  {
    var deleted := coll.DeleteOne(id, fault);
    if deleted.Err? {
      return Err(deleted.error);
    }
    r := Ok(());
  }

  /** `out` holds the decoded keys of exactly the fields of `fields` not in `rest`, with their levels. */
  ghost predicate DecodedExcept(out: map<string, U32>, fields: map<string, int>, rest: set<string>) {
    && (forall k :: k in out ==> Escaped(k) in fields && Escaped(k) !in rest && out[k] == fields[Escaped(k)])
    && (forall k :: Escaped(k) in fields && Escaped(k) !in rest ==> k in out)
  }

  /** Decoding one more field `Escaped(k)` of `rest` adds its key `k` with its level. */
  lemma DecodeStep(out: map<string, U32>, fields: map<string, int>, rest: set<string>, k: string, level: U32)
    requires DecodedExcept(out, fields, rest)
    requires Escaped(k) in rest && Escaped(k) in fields && level == fields[Escaped(k)]
    ensures DecodedExcept(out[k := level], fields, rest - {Escaped(k)})
  {
    EscapedInjectiveAt(k);
  }

  /**
   * The decoding loop of `get` and `list`: each field of the fetched document
   * (identity stripped) is decoded to its key and its `Int64` value cast to
   * `u32`. `get` falls back to 0 for a value that is not an `Int64`
   * (`unwrap_or_default`), `list` unwraps it; neither case arises on a
   * consistent document, where the result is the document's record.
   */
  method DecodeEntry(entry: map<string, Bson>, ghost fields: map<string, int>, orZero: bool)
    returns (out: map<string, U32>)
    requires ConsistentFields(fields)
    requires entry.Keys == fields.Keys
    requires forall f :: f in entry ==> entry[f] == BInt64(fields[f])
    ensures IsRecordOf(out, fields)
  {
    out := map[];
    var rest := entry.Keys;
    while rest != {}
      invariant rest <= fields.Keys
      invariant DecodedExcept(out, fields, rest)
      decreases rest
    {
      var f :| f in rest;
      FieldDecodes(f);
      var k := Decode(f);
      var level := if orZero then AsU32(AsI64(entry[f]).GetOr(0)) else AsU32(AsI64(entry[f]).value);
      DecodeStep(out, fields, rest, k, level);
      out := out[k := level];
      rest := rest - {f};
    }
    DecodedRecord(out, fields);
  }

  /**
   * The projection loop of `get`: refuses the request at the first refused
   * key; otherwise the projection names the encodings of all the keys.
   */
  method ProjectionOf(keys: seq<string>) returns (r: Result<set<string>>)
    ensures HasBadKey(keys) ==> r == Err(BadKey)
    ensures !HasBadKey(keys) ==> r == Ok(Encoded(keys))
  {
    var projection: set<string> := {};
    var i := 0;
    while i < |keys|
      invariant 0 <= i <= |keys|
      invariant forall j :: 0 <= j < i ==> !IsBadKey(keys[j])
      invariant projection == Encoded(keys[..i])
    {
      var k := keys[i];
      if IsBadKey(k) {
        return Err(BadKey);
      }
      var f := Encode(k);
      projection := projection + {f};
      assert keys[..i + 1] == keys[..i] + [k];
      i := i + 1;
    }
    assert keys[..i] == keys;
    r := Ok(projection);
  }

  /**
   * `get` (`get_int`): refuses the request if any key is refused, before
   * reading; otherwise fetches the subject's document projected on the
   * encoded keys and returns exactly the requested keys the record holds,
   * with their levels (no zero padding). An absent document reads as an
   * empty record. With no keys at all the projection is empty, which the
   * server treats as no projection: the whole record comes back.
   */
  method Get(coll: Collection, id: string, keys: seq<string>, fault: Option<DriverError>)
    returns (r: Result<map<string, U32>>)
    requires Consistent(coll.docs)
    ensures HasBadKey(keys) ==> r == Err(BadKey)
    ensures !HasBadKey(keys) && fault.Some? ==> r == Err(fault.value)
    ensures !HasBadKey(keys) && fault.None? && keys != [] ==>
      r.Ok? && IsPartOf(r.value, FieldsOf(coll.docs, id), keys)
    ensures !HasBadKey(keys) && fault.None? && keys == [] ==>
      r.Ok? && IsRecordOf(r.value, FieldsOf(coll.docs, id))
  {
    var names := ProjectionOf(keys);
    if names.Err? {
      return Err(names.error);
    }
    var projection := names.value;
    assert keys == [] <==> projection == {} by {
      if keys != [] {
        assert Escaped(keys[0]) in projection;
      }
    }
    var found := coll.FindOne(id, Some(projection), fault);
    if found.Err? {
      return Err(found.error);
    }
    ghost var all := FieldsOf(coll.docs, id);
    ghost var fields := if keys == [] then all else Project(all, projection);
    assert found.value == if id in coll.docs then Some(AsDocument(id, fields)) else None;
    ProjectedConsistent(all, projection);
    StrippedDocument(id, fields);
    var entry := found.value.GetOr(map[]) - {IdField};
    var out := DecodeEntry(entry, fields, true);
    if keys != [] {
      ProjectedRecord(out, all, keys);
    }
    r := Ok(out);
  }

  /**
   * `list` (`list_int`): the whole record of the subject, every stored field
   * but the identity decoded to its key with its level; an absent document
   * reads as an empty record. Every stored value is an `Int64`, so the
   * `unwrap` never panics.
   */
  method List(coll: Collection, id: string, fault: Option<DriverError>)
    returns (r: Result<map<string, U32>>)
    requires Consistent(coll.docs)
    ensures fault.Some? ==> r == Err(fault.value)
    ensures fault.None? ==> r.Ok? && IsRecordOf(r.value, FieldsOf(coll.docs, id))
  {
    var found := coll.FindOne(id, None, fault);
    if found.Err? {
      return Err(found.error);
    }
    ghost var fields := FieldsOf(coll.docs, id);
    StrippedDocument(id, fields);
    var entry := found.value.GetOr(map[]) - {IdField};
    var out := DecodeEntry(entry, fields, false);
    r := Ok(out);
  }
}
