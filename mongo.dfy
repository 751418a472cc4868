/**
 * The part of the MongoDB driver the permission store uses: its error type,
 * the values of a fetched document, and a collection of documents offering
 * single-document update, insert, find (with an optional projection) and
 * delete. Every document has the identity field `_id`; here a collection is a
 * map from that identity to the document's other fields.
 *
 * A storage fault is outside the program's control: each operation takes it
 * as a parameter. `Some(e)` means the driver reports `e` and, in this model,
 * changes nothing; `None` means the operation goes through.
 */
module Mongo {
  import opened Wrappers

  /**
   * `mongodb::error::Error`: an optional custom message (present for errors
   * the application raises itself) and the description of its kind.
   */
  datatype DriverError = DriverError(custom: Option<string>, kind: string)

  /** `Result<T, mongodb::error::Error>`. */
  datatype Result<+T> = Ok(value: T) | Err(error: DriverError)

  /** A value of a fetched document: the identity is a string, levels are `Int64`. */
  datatype Bson = BString(str: string) | BInt64(n: int)

  /** The name of the identity field. */
  const IdField: string := "_id"

  /** The fault the driver reports when an insert reuses an existing identity. */
  const DuplicateKey: DriverError := DriverError(None, "duplicate key error")

  /** The document the driver returns for identity `id` and (projected) fields `fields`. */
  function AsDocument(id: string, fields: map<string, int>): (d: map<string, Bson>)
    ensures d.Keys == fields.Keys + {IdField}
    ensures d[IdField] == BString(id)
    ensures forall f :: f in fields && f != IdField ==> d[f] == BInt64(fields[f])
  {
    (map f | f in fields :: BInt64(fields[f]))[IdField := BString(id)]
  }

  /** The fields of `fields` that a projection on `names` keeps. */
  function Project(fields: map<string, int>, names: set<string>): (p: map<string, int>)
    ensures p.Keys == fields.Keys * names
    ensures forall f :: f in p ==> p[f] == fields[f]
  {
    map f | f in fields && f in names :: fields[f]
  }

  class Collection {
    /** The documents, by identity; each maps its other field names to levels. */
    var docs: map<string, map<string, int>>

    constructor ()
      ensures docs == map[]
    {
      docs := map[];
    }

    /**
     * `update_one` with filter `{_id: id}` and update `{$set: setFields, $unset: unsetFields}`:
     * when a document matches, assigns the fields of `setFields`, removes those in
     * `unsetFields` and keeps every other field; never creates a document. Returns the
     * matched count. The driver refuses an update that both sets and unsets a
     * field, so the two must be disjoint.
     */
    method UpdateOne(id: string, setFields: map<string, int>, unsetFields: set<string>, fault: Option<DriverError>)
      returns (r: Result<nat>)
      requires setFields.Keys !! unsetFields
      modifies this
      ensures fault.Some? ==> r == Err(fault.value) && docs == old(docs)
      ensures fault.None? && id in old(docs) ==>
        r == Ok(1) && docs == old(docs)[id := (old(docs)[id] - unsetFields) + setFields]
      ensures fault.None? && id !in old(docs) ==> r == Ok(0) && docs == old(docs)
    {
      if fault.Some? {
        return Err(fault.value);
      }
      if id in docs {
        docs := docs[id := (docs[id] - unsetFields) + setFields];
        r := Ok(1);
      } else {
        r := Ok(0);
      }
    }

    /**
     * `insert_one` of the document `{_id: id} + fields`; an identity already
     * present is the driver's duplicate-key fault.
     */
    method InsertOne(id: string, fields: map<string, int>, fault: Option<DriverError>)
      returns (r: Result<()>)
      modifies this
      ensures fault.Some? ==> r == Err(fault.value) && docs == old(docs)
      ensures fault.None? && id in old(docs) ==> r == Err(DuplicateKey) && docs == old(docs)
      ensures fault.None? && id !in old(docs) ==> r == Ok(()) && docs == old(docs)[id := fields]
    {
      if fault.Some? {
        return Err(fault.value);
      }
      if id in docs {
        return Err(DuplicateKey);
      }
      docs := docs[id := fields];
      r := Ok(());
    }

    /**
     * `find_one` with filter `{_id: id}`: the matching document, with its
     * identity field, restricted to the projected fields when a projection is
     * given. An empty projection document selects nothing in particular, so
     * the server returns the whole document, as without a projection.
     */
    method FindOne(id: string, projection: Option<set<string>>, fault: Option<DriverError>)
      returns (r: Result<Option<map<string, Bson>>>)
      ensures fault.Some? ==> r == Err(fault.value)
      ensures fault.None? && id !in docs ==> r == Ok(None)
      ensures fault.None? && id in docs && (projection.None? || projection == Some({})) ==>
        r == Ok(Some(AsDocument(id, docs[id])))
      ensures fault.None? && id in docs && projection.Some? && projection.value != {} ==>
        r == Ok(Some(AsDocument(id, Project(docs[id], projection.value))))
    {
      if fault.Some? {
        return Err(fault.value);
      }
      if id !in docs {
        return Ok(None);
      }
      var fields := docs[id];
      if projection.Some? && projection.value != {} {
        fields := Project(fields, projection.value);
      }
      r := Ok(Some(AsDocument(id, fields)));
    }

    /**
     * `delete_one` with filter `{_id: id}`: removes the document if there is
     * one; returns the deleted count, and deleting nothing is not a fault.
     */
    method DeleteOne(id: string, fault: Option<DriverError>) returns (r: Result<nat>)
      modifies this
      ensures fault.Some? ==> r == Err(fault.value) && docs == old(docs)
      ensures fault.None? ==> r == Ok(if id in old(docs) then 1 else 0) && docs == old(docs) - {id}
    {
      if fault.Some? {
        return Err(fault.value);
      }
      r := Ok(if id in docs then 1 else 0);
      docs := docs - {id};
    }
  }
}
