/** The `list` request and response (src/schema/list.rs). */
module ListSchema {
  import opened Wrappers
  import opened Mongo
  import opened Responses
  import Perms

  /** `ListReq`: the subject whose whole record is asked for. */
  datatype ListReq = ListReq(id: string)

  /** `ListRes`: the record, or the reason of the failure. */
  datatype ListRes = List(values: map<string, Perms.U32>) | Error(reason: string) {

    /** `status`: only a record is a success. */
    function Status(): (s: StatusCode)
      ensures s == OK <==> this.List?
      ensures this.Error? ==> s == InternalServerError
    {
      match this
      case List(_) => OK
      case Error(_) => InternalServerError
    }

    /** The `type` discriminant of the serialized response. */
    function Tag(): (t: string)
      ensures t == ErrorTag <==> this.Error?
      ensures this.List? ==> t == "list"
    {
      match this
      case List(_) => "list"
      case Error(_) => ErrorTag
    }
  }

  /** `ListRes::success`: the record is passed on unchanged. */
  function Success(values: map<string, Perms.U32>): (r: ListRes)
    ensures r.List? && r.values == values && r.Status() == OK
  {
    List(values)
  }

  /** `ListRes::failure`. */
  function Failure(e: DriverError): (r: ListRes)
    ensures r.Error? && r.reason == Reason(e) && r.Status() == InternalServerError
  {
    Error(Reason(e))
  }

  /** `.map(ListRes::success).unwrap_or_else(ListRes::failure)`. */
  function Respond(res: Result<map<string, Perms.U32>>): (r: ListRes)
    ensures r.Status() == OK <==> res.Ok?
    ensures res.Ok? ==> r == Success(res.value)
    ensures res.Err? ==> r == Failure(res.error)
  {
    match res
    case Ok(values) => Success(values)
    case Err(e) => Failure(e)
  }

  /**
   * `InternalRouter::list`: the subject's whole record, or the storage
   * fault's reason.
   */
  method InternalList(coll: Collection, req: ListReq, fault: Option<DriverError>) returns (res: ListRes)
    requires Perms.Consistent(coll.docs)
    ensures fault.Some? ==> res == Failure(fault.value)
    ensures fault.None? ==> res.List? && Perms.IsRecordOf(res.values, Perms.FieldsOf(coll.docs, req.id))
  {
    var r := Perms.List(coll, req.id, fault);
    res := Respond(r);
  }
}
