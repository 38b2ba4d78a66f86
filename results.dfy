/**
 * One request attempt of the load test and the record it leaves behind
 * (main.go: the `Result` struct, the body of each request goroutine and
 * the predicate that picks the status codes listed as "other" codes).
 */
module Results {

  /** Status code recorded when the request failed before any response arrived. */
  const FailureCode: int := 0

  /** Bounds of the range of status codes counted as successful: [200, 300). */
  const SuccessLow: int := 200
  const SuccessHigh: int := 300

  /** The code the report prints on its own line; it is excluded from "other" codes. */
  const OkCode: int := 200

  /**
   * What the HTTP client reports for one request: either a transport error
   * (no response at all) or a response carrying a status code.
   */
  datatype Outcome = TransportError | Responded(code: int)

  /** One record sent over the results channel. `duration` is in nanoseconds. */
  datatype Result = Result(statusCode: int, duration: int)

  /**
   * Builds the single record of one attempt. On a transport error the code
   * is the sentinel 0; otherwise it is the response's code. The measured
   * duration is carried through unchanged in both branches.
   */
  function Classify(outcome: Outcome, duration: int): (r: Result)
    ensures r.duration == duration
    ensures outcome.TransportError? ==> r.statusCode == FailureCode
    ensures outcome.Responded? ==> r.statusCode == outcome.code
  {
    match outcome
    case TransportError => Result(FailureCode, duration)
    case Responded(code) => Result(code, duration)
  }

  /**
   * The success test of the aggregation loop: 200 <= code < 300.
   * `LoadTest.Aggregate` writes the same test out literally, as main.go:83 does.
   */
  predicate IsSuccess(code: int)
  {
    SuccessLow <= code < SuccessHigh
  }

  /**
   * The filter of the report loop: a histogram entry is listed among the
   * "other" codes when it is not 200 and lies outside [200, 300). The
   * `code != 200` conjunct is redundant: exactly the non-successes are
   * listed, transport failures included.
   */
  function ListedAsOther(code: int): (listed: bool)
    ensures listed <==> !IsSuccess(code)
    ensures code == FailureCode ==> listed
  {
    code != OkCode && (code < SuccessLow || code >= SuccessHigh)
  }

  /**
   * The sentinel identifies failures exactly when no response carries code 0:
   * a record has code 0 iff the attempt failed or the response itself said 0.
   * A failed attempt is never a success and is always listed among "other" codes.
   */
  lemma ClassifiedFailure(outcome: Outcome, duration: int)
    ensures Classify(outcome, duration).statusCode == FailureCode
        <==> outcome.TransportError? || outcome.code == FailureCode
    ensures outcome.TransportError? ==>
              !IsSuccess(Classify(outcome, duration).statusCode)
              && ListedAsOther(Classify(outcome, duration).statusCode)
    ensures outcome.Responded? ==>
              (IsSuccess(Classify(outcome, duration).statusCode) <==> IsSuccess(outcome.code))
  {
  }
}
