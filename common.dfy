/** Optional values, the failures the system raises, results that carry them, and the
    `Array.prototype.findIndex` scan the code uses for every lookup. */
module Common {

  datatype Option<+T> = None | Some(value: T) {
    function GetOr(default: T): T {
      match this
      case Some(v) => v
      case None => default
    }
  }

  /** A clock reading (`new Date()`), kept opaque. */
  type Timestamp = int

  /** The kinds of exception the code throws. `BadRequest` and `NotFound` stand for both the
      domain's BadRequestError/NotFoundError and NestJS's BadRequestException/NotFoundException;
      `Plain` is a bare `Error`; `Storage` is a rejection coming from the persistence layer. */
  datatype FailureKind = BadRequest | NotFound | Plain | Storage

  datatype Failure = Failure(kind: FailureKind, message: string)

  datatype Result<+T> = Ok(value: T) | Err(failure: Failure)

  /** A check that either passes or throws. */
  datatype Outcome = Pass | Fail(failure: Failure)

  /** `s.findIndex(p)`: the index of the first element satisfying `p`, or -1. */
  function FindIndex<T>(s: seq<T>, p: T -> bool): (r: int)
    ensures -1 <= r < |s|
    ensures r >= 0 ==> p(s[r])
    ensures forall j :: 0 <= j < |s| && (r < 0 || j < r) ==> !p(s[j])
  {
    if s == [] then -1
    else if p(s[0]) then 0
    else
      var k := FindIndex(s[1..], p);
      if k < 0 then -1 else k + 1
  }
}
