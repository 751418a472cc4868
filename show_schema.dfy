/** The `show` request and response (src/schema/show.rs). */
module ShowSchema {
  import opened Wrappers
  import opened Mongo
  import opened Responses
  import Perms

  /** `ShowReq`: the subject and the keys asked for. */
  datatype ShowReq = ShowReq(id: string, entries: seq<string>)

  /** `ShowRes`: the requested part of the record, or the reason of the failure. */
  datatype ShowRes = Show(values: map<string, Perms.U32>) | Error(reason: string) {

    /** `status`: only a record is a success. */
    function Status(): (s: StatusCode)
      ensures s == OK <==> this.Show?
      ensures this.Error? ==> s == InternalServerError
    {
      match this
      case Show(_) => OK
      case Error(_) => InternalServerError
    }

    /** The `type` discriminant of the serialized response. */
    function Tag(): (t: string)
      ensures t == ErrorTag <==> this.Error?
      ensures this.Show? ==> t == "show"
    {
      match this
      case Show(_) => "show"
      case Error(_) => ErrorTag
    }
  }

  /** `ShowRes::success`: the values are passed on unchanged. */
  function Success(values: map<string, Perms.U32>): (r: ShowRes)
    ensures r.Show? && r.values == values && r.Status() == OK
  {
    Show(values)
  }

  /** `ShowRes::failure`. */
  function Failure(e: DriverError): (r: ShowRes)
    ensures r.Error? && r.reason == Reason(e) && r.Status() == InternalServerError
  {
    Error(Reason(e))
  }

  /** `.map(ShowRes::success).unwrap_or_else(ShowRes::failure)`. */
  function Respond(res: Result<map<string, Perms.U32>>): (r: ShowRes)
    ensures r.Status() == OK <==> res.Ok?
    ensures res.Ok? ==> r == Success(res.value)
    ensures res.Err? ==> r == Failure(res.error)
  {
    match res
    case Ok(values) => Success(values)
    case Err(e) => Failure(e)
  }

  /** The refused-key error of the store fails a request with the reason "bad key". */
  lemma BadKeyReason()
    ensures Failure(Perms.BadKey) == Error("bad key")
  {
  }

  /**
   * `InternalRouter::show`: the requested part of the subject's record. A
   * refused key is not a client error: it comes back as `Error { reason:
   * "bad key" }` with status 500, like a storage fault.
   */
  method InternalShow(coll: Collection, req: ShowReq, fault: Option<DriverError>) returns (res: ShowRes)
    requires Perms.Consistent(coll.docs)
    ensures Perms.HasBadKey(req.entries) ==> res == Error("bad key") && res.Status() == InternalServerError
    ensures !Perms.HasBadKey(req.entries) && fault.Some? ==> res == Failure(fault.value)
    ensures !Perms.HasBadKey(req.entries) && fault.None? && req.entries != [] ==>
      res.Show? && Perms.IsPartOf(res.values, Perms.FieldsOf(coll.docs, req.id), req.entries)
    ensures !Perms.HasBadKey(req.entries) && fault.None? && req.entries == [] ==>
      res.Show? && Perms.IsRecordOf(res.values, Perms.FieldsOf(coll.docs, req.id))
  {
    var r := Perms.Get(coll, req.id, req.entries, fault);
    res := Respond(r);
  }
}
