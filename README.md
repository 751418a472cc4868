# atom-perms permission store, in Dafny

atom-perms is a small HTTP service that stores one permission record per
subject in a MongoDB collection. A record maps permission keys (any
non-empty string other than `_id`) to `u32` levels. Level 0 means "unset",
and a key at level 0 is never stored. This project models and proves the
service's core:

- **The key codec** of `Perms` (module `Codec`). In a MongoDB field name `.`
  separates path components and `$` marks an operator, so `encode` writes `$`
  as `$d` and `.` as `$p`. An encoded name never contains `.`, but it still
  starts with `$` when the key starts with `$` or `.`. `decode` is a scanner with an "escape pending" flag. `Escaped` and
  `Scan` specify both loops character by character. The lemmas prove:
  - the round trip, and that `encode` is injective;
  - the length law, and that other characters pass through unchanged;
  - that encoded names fall in the grammar where `decode` never panics;
  - the exact condition under which `decode` panics, and both quirks of the
    scanner.
- **The store operations** `set`, `get`, `list` and `wipe` (module `Perms`).
  They run over an abstract collection (module `Mongo`, class `Collection`)
  whose state is `docs: map<id, map<field, level>>`. That class offers
  `UpdateOne`, `InsertOne`, `FindOne` and `DeleteOne`.
  - Each operation is a method with the source's loops. `Set` is proved
    against the specification function `Upserted`. `Get` and `List` are
    proved against the record view `IsRecordOf`/`IsPartOf`: every key with a
    nonzero stored level, with that level.
  - The collection invariant `Consistent` says every stored field is the
    encoding of an accepted key and holds a nonzero `u32`. Every mutating
    operation preserves it.
- **The response schema** of `list`, `show` and `wipe` (modules `ListSchema`,
  `ShowSchema`, `WipeSchema`, with the shared `Responses`). This covers each
  tagged response, its `success`/`failure`/`status`, its serialized `type`
  tag, and the `InternalRouter` method that maps the store's `Result` onto
  it.
- **Scenarios** (module `Scenarios`). Complete fault-free runs from an empty
  collection, over arbitrary accepted keys: set then list, zero-means-absent,
  upsert then update, and partial projection.

Storage faults are parameters. Each collection call takes an
`Option<DriverError>`: `Some(e)` means the driver reports `e` and nothing
changes.

`get` with an empty key list sends an empty projection, which the server
treats as no projection. So `Perms.Get` with no keys returns the whole
record.

## Model

| member | source | states |
|---|---|---|
| Codec.EscapeChar | src/perm.rs:28-32 | `$` and `.` become two characters starting with `$`; any other character is written as itself |
| Codec.Escaped | src/perm.rs:24-36 | the encoding of `k` is one character longer than `k` per `$` or `.` in `k` |
| Codec.Encode | src/perm.rs:24-36 | the loop writes exactly `Escaped(s)` |
| Codec.Scan | src/perm.rs:38-58 | the scanner's state after reading a string: what it has written is never longer than the input, and strictly shorter while an escape is pending |
| Codec.Unescaped | src/perm.rs:38-58 | the key `decode` returns is never longer than the field name it decodes |
| Codec.Step | src/perm.rs:42-54 | once panicked the scanner stays panicked; outside a panic, `$` always arms the escape (the `$` arm is tried before the pending arm) |
| Codec.Decode | src/perm.rs:38-58 | on any input where the scanner does not reach the panic, the loop returns exactly what `Scan` has written |
| Codec.PanicIsFinal | src/perm.rs:45-50 | a panic on a prefix is a panic on the whole input |
| Codec.EscapedAppend | src/perm.rs:27-33 | encoding is a homomorphism: `Escaped(a + b) == Escaped(a) + Escaped(b)` |
| Codec.EscapedPassThrough | src/perm.rs:31 | a key with no `$` and no `.` encodes to itself |
| Codec.ScanEscaped | src/perm.rs:24-58 | scanning the encoding of `k` ends in the normal state having written `k` |
| Codec.RoundTrip | src/perm.rs:24-58 | `decode(encode(k)) == k` for every `k`, and it does not panic |
| Codec.EscapedInjective | src/perm.rs:24-36 | two keys with the same encoding are equal |
| Codec.EscapedWellFormed | src/perm.rs:27-33 | an encoding contains no `.`, and every `$` in it is followed by `d` or `p` |
| Codec.ScanNearlyWellFormed | src/perm.rs:42-55 | with no `.` and every non-final `$` followed by `d`/`p`, the scan does not panic and re-encoding its output gives back the input, less a trailing pending `$` |
| Codec.WellFormedInverse | src/perm.rs:38-58 | on a well-formed name `decode` does not panic and `encode(decode(f)) == f` |
| Codec.ScanShape | src/perm.rs:42-55 | the scan panics iff some non-final `$` is followed by something other than `$`, `d` or `p`; it ends pending iff the input ends in `$` |
| Codec.DecodableExactly | src/perm.rs:44-49 | `decode` returns rather than panics iff every non-final `$` is followed by `$`, `d` or `p` |
| Codec.DecodeQuirks | src/perm.rs:44-49 | `decode("$$d") == "$"` (a `$` re-arms the escape), `decode("a$") == "a"` (a trailing `$` is dropped), and `decode("$x")` panics |
| Codec.EscapedLeadingDollar | src/perm.rs:27-33 | an encoded name starts with `$` exactly when the key starts with `$` or `.` |
| Codec.EscapedReservedNames | src/perm.rs:15 | only the empty key encodes to the empty name, and only `_id` encodes to `_id` |
| Mongo.AsDocument | src/perm.rs:115-120 | a fetched document holds the identity field `_id` as a string and every other field as its `Int64` level |
| Mongo.Project | src/perm.rs:118 | a projection keeps exactly the stored fields it names, with their values |
| Mongo.Collection.UpdateOne | src/perm.rs:77-85 | on a match, assigns the `$set` fields, removes the `$unset` fields, keeps the rest and reports 1 matched; otherwise changes nothing and reports 0; a fault changes nothing |
| Mongo.Collection.InsertOne | src/perm.rs:89-90 | adds the document for an absent identity; an existing identity is a duplicate-key fault; a fault changes nothing |
| Mongo.Collection.FindOne | src/perm.rs:115-120 | returns the matching document with its identity, projected when the projection is non-empty, whole when there is none or it is empty; `None` when nothing matches |
| Mongo.Collection.DeleteOne | src/perm.rs:96-99 | removes the document if there is one and reports the deleted count; deleting nothing is not a fault |
| Perms.AsU32 | src/perm.rs:127 | the `as u32` cast keeps every value already in `u32` range |
| Perms.AsI64 | src/perm.rs:127 | `as_i64` succeeds exactly on `Int64` values |
| Perms.RefusedKeys | src/perm.rs:13-19 | `cond_bad_key!` refuses exactly the keys whose encoding would be the empty name or `_id` |
| ShowSchema.BadKeyReason | src/perm.rs:7-11 | the `bad_key!` error is a custom error whose failure response carries the reason "bad key" |
| Perms.UnsetFields | src/perm.rs:70-71 | every entry with level 0 puts its encoded key in `m_unset` |
| Perms.SetFields | src/perm.rs:68-75 | every field of `m_set` holds a nonzero `u32` level |
| Perms.SetFieldOrigin | src/perm.rs:72-73 | every field of `m_set` is the encoding of a request key with a nonzero level |
| Perms.UnsetFieldOrigin | src/perm.rs:70-71 | every field of `m_unset` is the encoding of a request key with level 0 |
| Perms.Untouched | src/perm.rs:68-75 | a key not in the request contributes to neither `m_set` nor `m_unset` |
| Perms.SetUnsetDisjoint | src/perm.rs:68-81 | with distinct keys no field is both set and unset, so the update is well formed |
| Perms.Upserted | src/perm.rs:77-91 | after a fault-free `set` the subject has a document and every other subject's document is unchanged |
| Perms.FieldGrammar | src/perm.rs:13-36 | the field names `set` can write are exactly the non-empty well-formed names other than `_id` |
| Perms.FieldDecodes | src/perm.rs:13-58 | a stored field name is not `_id`, decodes without a panic, re-encodes to itself and decodes to an accepted key |
| Perms.EscapedInjectiveAt | src/perm.rs:24-36 | no other key encodes like `k` |
| Perms.RecordUnique | src/perm.rs:124-150 | a document has only one record |
| Perms.PartIsRestriction | src/perm.rs:110-128 | what `get` returns for `keys` is the whole record restricted to `keys` |
| Perms.StoredFieldInRecord | src/perm.rs:146-148 | every field of a consistent document shows up in its record under its decoded key with its level |
| Perms.RecordKeysAccepted | src/perm.rs:13-19 | no key of a stored record is a refused key |
| Perms.Requested | src/perm.rs:68 | the request as a map holds exactly the keys of its entries |
| Perms.Restrict | src/perm.rs:110-128 | the restriction keeps exactly the requested keys the record holds, with their levels |
| Perms.Assign | src/perm.rs:77-82 | the `$set`/`$unset` update: every `$set` field holds its value, an `$unset` field not also set is gone, and every other field is unchanged |
| Perms.AssignLast | src/perm.rs:70-81 | the last entry of a request sets its field to its level, or removes the field when the level is 0 |
| Perms.AssignLevel | src/perm.rs:70-87 | on an existing document every requested key gets its requested level (0 = gone) and every other key keeps its level |
| Perms.AssignConsistent | src/perm.rs:68-87 | updating a consistent document with accepted keys keeps it consistent |
| Perms.AssignFields | src/perm.rs:70-87 | on any existing document, field by field: each nonzero entry's field holds its level, each zero entry's field is gone, every other field is unchanged |
| Perms.RequestedAt | src/perm.rs:68 | with distinct keys the request map holds each entry's own level |
| Perms.UpsertedLevel | src/perm.rs:70-91 | on the subject, requested keys get their levels and other keys keep theirs, whether the document existed or was inserted with only the nonzero entries; other subjects are untouched |
| Perms.NonZero | src/perm.rs:70-74 | keeps exactly the keys with a nonzero level, with their levels |
| Perms.UpsertedRecord | src/perm.rs:70-91 | the record after `set` is the old record overridden by the request, without the keys set to 0 |
| Perms.UpsertedConsistent | src/perm.rs:68-91 | a fault-free `set` with accepted keys keeps the collection consistent |
| Perms.Encoded | src/perm.rs:110-113 | the projection names the encoding of every requested key |
| Perms.ProjectedLevel | src/perm.rs:110-120 | projecting on the encoded keys keeps each requested key's level and drops every other key |
| Perms.ProjectedRecord | src/perm.rs:110-128 | the record of the projected document is the requested part of the whole record |
| Perms.DecodedRecord | src/perm.rs:126-128 | decoding every field of a consistent document to its key with its level builds its record |
| Perms.ProjectedConsistent | src/perm.rs:118 | a projection of a consistent document is consistent |
| Perms.StrippedDocument | src/perm.rs:122 | removing `_id` from the fetched document leaves exactly the stored fields as `Int64` values |
| Perms.DecodeStep | src/perm.rs:126-128 | decoding one more field adds its key with its level |
| Perms.Set | src/perm.rs:60-93 | a refused key fails with "bad key" before any storage call and changes nothing; an update fault changes nothing; otherwise the collection becomes `Upserted`, through the insert when no document matched (an insert fault changes nothing); for any collection, and a consistent collection stays consistent |
| Perms.Wipe | src/perm.rs:95-101 | removes the subject's document and succeeds whether or not it existed; a fault changes nothing |
| Perms.DecodeEntry | src/perm.rs:124-128 | the decoding loop over a fetched consistent document returns its record, for both the `unwrap_or_default` and the `unwrap` variant |
| Perms.ProjectionOf | src/perm.rs:108-113 | fails with "bad key" iff some key is refused, otherwise names the encodings of all the keys |
| Perms.Get | src/perm.rs:103-131 | a refused key fails with "bad key" before reading; a fault is returned; otherwise the result is exactly the requested keys the record holds, with their levels (an absent subject gives an empty map); no keys gives the whole record |
| Perms.List | src/perm.rs:133-151 | a fault is returned; otherwise the result is the subject's whole record, every field but `_id` decoded with its level (an absent subject gives an empty map) |
| Responses.Reason | src/schema/list.rs:34-40 | the reason is the error's custom message if present, else its kind's description |
| ListSchema.ListRes.Status | src/schema/list.rs:43-48 | 200 exactly for `List`, 500 for `Error` |
| ListSchema.ListRes.Tag | src/schema/list.rs:19-26 | the serialized tag is `"error"` exactly for `Error`, and `"list"` for `List` |
| ListSchema.Success | src/schema/list.rs:30-32 | `List` with the values unchanged, status 200 |
| ListSchema.Failure | src/schema/list.rs:34-41 | `Error` with the error's reason, status 500 |
| ListSchema.Respond | src/schema/list.rs:53-58 | `Ok(m)` becomes `success(m)` and `Err(e)` becomes `failure(e)`; status is 200 iff the store succeeded |
| ListSchema.InternalList | src/schema/list.rs:53-58 | a fault becomes its failure response; otherwise `List` of the subject's whole record |
| ShowSchema.ShowRes.Status | src/schema/show.rs:41-46 | 200 exactly for `Show`, 500 for `Error` |
| ShowSchema.ShowRes.Tag | src/schema/show.rs:18-25 | the serialized tag is `"error"` exactly for `Error`, and `"show"` for `Show` |
| ShowSchema.Success | src/schema/show.rs:28-30 | `Show` with the values unchanged, status 200 |
| ShowSchema.Failure | src/schema/show.rs:32-39 | `Error` with the error's reason, status 500 |
| ShowSchema.Respond | src/schema/show.rs:50-55 | `Ok(m)` becomes `success(m)` and `Err(e)` becomes `failure(e)`; status is 200 iff the store succeeded |
| ShowSchema.InternalShow | src/schema/show.rs:50-55 | a refused key is `Error { reason: "bad key" }` with status 500; a fault becomes its failure response; otherwise `Show` of the requested part of the record (the whole record for no keys) |
| WipeSchema.WipeRes.Status | src/schema/wipe.rs:38-43 | 200 exactly for `Wiped`, 500 for `Error` |
| WipeSchema.WipeRes.Tag | src/schema/wipe.rs:15-22 | the serialized tag is `"error"` exactly for `Error`, and `"wiped"` for `Wiped` |
| WipeSchema.Success | src/schema/wipe.rs:25-27 | always `Wiped`, status 200 |
| WipeSchema.Failure | src/schema/wipe.rs:29-36 | `Error` with the error's reason, status 500 |
| WipeSchema.Respond | src/schema/wipe.rs:47-52 | `Ok(())` becomes `Wiped` and `Err(e)` becomes `failure(e)`; status is 200 iff the store succeeded |
| WipeSchema.InternalWipe | src/schema/wipe.rs:47-52 | a fault becomes its failure response and changes nothing; otherwise `Wiped` and the subject's document is gone; consistency is preserved |
| WipeSchema.WipeTwice | src/schema/wipe.rs:47-52 | wiping twice without faults answers `Wiped` both times and leaves no document for the subject |
| Scenarios.AbsentRecord | src/perm.rs:137-141 | a subject without a document has the empty record |
| Scenarios.SetThenList | src/perm.rs:60-151 | a fault-free `set` leaves the collection `Upserted`, and `list` then lists the old record overridden by the request, without the keys set to 0 |
| Scenarios.EndToEnd | src/perm.rs:60-151 | setting `read`=1 and `write`=2 lists both; setting `write`=0 leaves only `read`; wiping leaves an empty record |
| Scenarios.ZeroMeansAbsent | src/perm.rs:70-74 | setting a key to 0 on an absent subject matches nothing, so the fallback insert creates an empty document for it; neither `get` of the key nor `list` shows the key |
| Scenarios.UpsertThenUpdate | src/perm.rs:77-91 | a first `set` inserts the subject's document and a second updates it in place: one document, holding the latest level |
| Scenarios.PartialProjection | src/perm.rs:103-131 | on the record `{a:1, b:2, c:3}`, `get` of `a`, `c`, `z` returns `{a:1, c:3}` |

## Left out

- The public `set`/`get`/`list`/`wipe` (src/perm.rs:154-181) only forward to
  the `_int` functions, so each pair is one method here.
- The HTTP layer is not modelled: the axum `Router::*` handlers, the route
  table, process start-up and the configuration and connection setup. Serde
  encoding is reduced to each response's `Tag()`.
- The `set` request and response schema is not part of this model.
- MongoDB itself is the abstract class `Mongo.Collection`. Its faults are
  parameters, and a faulty call changes nothing. Partial writes inside the
  driver are not modelled.
- Concurrency is not modelled. `set` is an update followed, when nothing
  matched, by an insert, and two concurrent callers can race between the
  two. The model is sequential. An insert that finds the identity taken is
  still modelled, as the duplicate-key fault.
- Perms.Set: requires distinct keys in one request. With a repeated key,
  the resulting fields depend on how the driver merges the update
  documents, and the code does not decide that.
- Mongo.Collection.UpdateOne: requires that no field is both set and
  unset. The server refuses such an update, and `set` with distinct keys
  never sends one (`Perms.SetUnsetDisjoint`).
- The abstract collection accepts any field name, including names that
  start with `$`, which `encode` produces for keys starting with `$` or `.`
  (`Codec.EscapedLeadingDollar`). Whether a server refuses such a name in
  `$set`, an insert or a projection is not modelled; such a refusal can only
  appear as a storage fault.
- Codec.Decode: requires that the scanner does not panic. The panic itself
  is modelled as the `Panicked` state of `Scan`, and `Codec.DecodableExactly`
  says exactly when it happens.
- Perms.Get, Perms.List: require a consistent collection: only what `set`
  writes. Stored values that are not `Int64`, where `list` would panic and
  `get` would read 0, are therefore outside the model. So are fields that
  some other writer stored under an undecodable name.
- Levels are `u32`, stored as `Int64` and cast back with `as u32`.
  `Perms.AsU32` keeps only the low 32 bits, but on a consistent collection
  every value is already in range.
