/** The transport's socket status codes and the wrapper's four-way error enum
    (src/network/error.rs). */
module SocketError {
  import opened Results

  /** The raw values of CSFML's `sfSocketStatus`, in the order of its declaration. */
  const DONE: int := 0
  const NOT_READY: int := 1
  const PARTIAL: int := 2
  const DISCONNECTED: int := 3
  const ERROR: int := 4

  predicate IsKnownStatus(code: int) {
    code == DONE || code == NOT_READY || code == PARTIAL || code == DISCONNECTED || code == ERROR
  }

  datatype Error = NotReady | Partial | Disconnected | OtherError

  /** `code_to_err`: a successful status is `Ok(())`, the four failure statuses become
      the error of the same meaning, and any other code is a panic (the precondition). */
  function CodeToErr(code: int): (r: Result<(), Error>)
    requires IsKnownStatus(code)
    ensures r.Ok? <==> code == DONE
    ensures code == NOT_READY ==> r == Err(NotReady)
    ensures code == PARTIAL ==> r == Err(Partial)
    ensures code == DISCONNECTED ==> r == Err(Disconnected)
    ensures code == ERROR ==> r == Err(OtherError)
  {
    if code == DONE then Ok(())
    else if code == NOT_READY then Err(NotReady)
    else if code == PARTIAL then Err(Partial)
    else if code == DISCONNECTED then Err(Disconnected)
    else Err(OtherError)
  }

  /** The status that a result of `code_to_err` came from. */
  function StatusOf(r: Result<(), Error>): (code: int)
    ensures IsKnownStatus(code)
  {
    match r
    case Ok(_) => DONE
    case Err(NotReady) => NOT_READY
    case Err(Partial) => PARTIAL
    case Err(Disconnected) => DISCONNECTED
    case Err(OtherError) => ERROR
  }

  /** No information is lost: every known status is recovered from its result,
      and every result is produced by exactly one status. */
  lemma CodeToErrRoundTrip(code: int, r: Result<(), Error>)
    requires IsKnownStatus(code)
    ensures StatusOf(CodeToErr(code)) == code
    ensures CodeToErr(StatusOf(r)) == r
  {
    match r
    case Ok(u) => assert u == ();
    case Err(e) =>
  }

  /** Distinct known statuses map to distinct results. */
  lemma CodeToErrInjective(a: int, b: int)
    requires IsKnownStatus(a) && IsKnownStatus(b)
    requires CodeToErr(a) == CodeToErr(b)
    ensures a == b
  {
    CodeToErrRoundTrip(a, Ok(()));
    CodeToErrRoundTrip(b, Ok(()));
  }
}
