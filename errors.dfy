/** The four error kinds a membership operation can fail with, each bound to
    the HTTP status and the message the boundary layer reports, plus the
    result carriers that stand for the service's thrown MembershipException. */
module Errors {

  datatype ErrorResult =
    | NotMembershipOwner
    | MembershipNotFound
    | DuplicatedMembershipRegister
    | UnknownException

  /** HTTP status of each kind: "not owner" and "duplicate" are 400, "not
      found" is 404, and only the catch-all is a server error (500). */
  function HttpStatus(e: ErrorResult): (status: nat)
    ensures 400 <= status < 600
    ensures status == 400 <==> e == NotMembershipOwner || e == DuplicatedMembershipRegister
    ensures status == 404 <==> e == MembershipNotFound
    ensures status == 500 <==> e == UnknownException
    ensures status < 500 <==> e != UnknownException
  {
    match e
    case NotMembershipOwner => 400
    case MembershipNotFound => 404
    case DuplicatedMembershipRegister => 400
    case UnknownException => 500
  }

  /** The fixed human-readable message of each kind. */
  function Message(e: ErrorResult): (msg: string)
    ensures |msg| > 0
  {
    match e
    case NotMembershipOwner => "Not a membership owner"
    case MembershipNotFound => "Membership Not found"
    case DuplicatedMembershipRegister => "Duplicated Membership Register Request"
    case UnknownException => "Unknown Exception"
  }

  /** Every kind carries its own message, so the message identifies the kind. */
  lemma MessagesIdentifyKinds(e1: ErrorResult, e2: ErrorResult)
    ensures Message(e1) == Message(e2) <==> e1 == e2
  {
  }

  /** An operation that returns a value or fails with one error kind. */
  datatype Result<T> = Ok(value: T) | Err(error: ErrorResult)

  /** An operation that returns nothing or fails with one error kind. */
  datatype Outcome = Pass | Fail(error: ErrorResult)
}
