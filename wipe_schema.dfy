/** The `wipe` request and response (src/schema/wipe.rs). */
module WipeSchema {
  import opened Wrappers
  import opened Mongo
  import opened Responses
  import Perms

  /** `WipeReq`: the subject whose record is to be deleted. */
  datatype WipeReq = WipeReq(id: string)

  /** `WipeRes`: an acknowledgement without payload, or the reason of the failure. */
  datatype WipeRes = Wiped | Error(reason: string) {

    /** `status`: only the acknowledgement is a success. */
    function Status(): (s: StatusCode)
      ensures s == OK <==> this.Wiped?
      ensures this.Error? ==> s == InternalServerError
    {
      match this
      case Wiped => OK
      case Error(_) => InternalServerError
    }

    /** The `type` discriminant of the serialized response. */
    function Tag(): (t: string)
      ensures t == ErrorTag <==> this.Error?
      ensures this.Wiped? ==> t == "wiped"
    {
      match this
      case Wiped => "wiped"
      case Error(_) => ErrorTag
    }
  }

  /** `WipeRes::success`: always the bare acknowledgement. */
  function Success(u: ()): (r: WipeRes)
    ensures r == Wiped && r.Status() == OK
  {
    Wiped
  }

  /** `WipeRes::failure`. */
  function Failure(e: DriverError): (r: WipeRes)
    ensures r.Error? && r.reason == Reason(e) && r.Status() == InternalServerError
  {
    Error(Reason(e))
  }

  /** `.map(WipeRes::success).unwrap_or_else(WipeRes::failure)`. */
  function Respond(res: Result<()>): (r: WipeRes)
    ensures r.Status() == OK <==> res.Ok?
    ensures res.Ok? ==> r == Wiped
    ensures res.Err? ==> r == Failure(res.error)
  {
    match res
    case Ok(u) => Success(u)
    case Err(e) => Failure(e)
  }

  /**
   * `InternalRouter::wipe`: deletes the subject's document, acknowledging
   * whether or not there was one.
   */
  method InternalWipe(coll: Collection, req: WipeReq, fault: Option<DriverError>) returns (res: WipeRes)
    modifies coll
    ensures fault.Some? ==> res == Failure(fault.value) && coll.docs == old(coll.docs)
    ensures fault.None? ==> res == Wiped && coll.docs == old(coll.docs) - {req.id}
    ensures Perms.Consistent(old(coll.docs)) ==> Perms.Consistent(coll.docs)
  {
    var r := Perms.Wipe(coll, req.id, fault);
    res := Respond(r);
  }

  /**
   * Wiping a subject twice without storage faults acknowledges both times,
   * whether or not it had a record, and leaves no document for it.
   */
  method WipeTwice(coll: Collection, id: string) returns (first: WipeRes, second: WipeRes)
    modifies coll
    ensures first == Wiped && second == Wiped
    ensures id !in coll.docs
    ensures coll.docs == old(coll.docs) - {id}
  {
    first := InternalWipe(coll, WipeReq(id), None);
    second := InternalWipe(coll, WipeReq(id), None);
  }
}
