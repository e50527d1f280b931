/**
 * The four-argument `AbstractURLHandler.validatePutStatusCode`: the status
 * code of a PUT response either accepts the upload or fails it with one of
 * two messages. The codes are those of section 6 of RFC 7231.
 */
module PutStatus {
  import opened JavaStrings

  const HttpOk: int := 200
  const HttpCreated: int := 201
  const HttpAccepted: int := 202
  const HttpNoContent: int := 204
  const HttpUnauthorized: int := 401
  const HttpForbidden: int := 403

  /** Returning normally, or the `IOException` the method throws. */
  datatype PutOutcome = Success | Failure(msg: string)

  datatype StatusClass = Accepted | AccessDenied | Rejected

  /** The `switch` of the source: which of its three arms a code reaches. */
  function ClassOf(statusCode: int): (c: StatusClass)
    ensures c == Accepted <==> statusCode in {200, 201, 202, 204}
    ensures c == AccessDenied <==> statusCode in {401, 403}
  {
    if statusCode == HttpOk || statusCode == HttpCreated
       || statusCode == HttpAccepted || statusCode == HttpNoContent then Accepted
    else if statusCode == HttpUnauthorized || statusCode == HttpForbidden then AccessDenied
    else Rejected
  }

  function AccessDeniedMessage(dest: string, message: string): string
  {
    "Access to URL " + dest + " was refused by the server" + ": " + message
  }

  function RejectedPrefix(dest: string): string
  {
    "PUT operation to URL " + dest + " failed with status code "
  }

  function RejectedMessage(dest: string, statusCode: int, exceptionMessage: string): string
  {
    RejectedPrefix(dest) + DecimalString(statusCode) + ": " + exceptionMessage
  }

  /**
   * `validatePutStatusCode(dest, statusCode, message, exceptionMessage)`,
   * `dest` being the URL's external form.
   */
  function ValidatePutStatusCode(dest: string, statusCode: int, message: string, exceptionMessage: string)
    : (r: PutOutcome)
    ensures r == Success <==> statusCode in {200, 201, 202, 204}
    ensures statusCode in {401, 403} ==> r == Failure(AccessDeniedMessage(dest, message))
    ensures statusCode !in {200, 201, 202, 204, 401, 403} ==>
              r == Failure(RejectedMessage(dest, statusCode, exceptionMessage))
  {
    match ClassOf(statusCode)
    case Accepted => Success
    case AccessDenied => Failure(AccessDeniedMessage(dest, message))
    case Rejected => Failure(RejectedMessage(dest, statusCode, exceptionMessage))
  }

  /**
   * Every code reaches exactly one of the three arms: the outcome is one of
   * three pairwise distinct values, and which one is fixed by the code alone.
   */
  lemma OutcomesPartition(dest: string, statusCode: int, message: string, exceptionMessage: string)
    ensures ClassOf(statusCode) == Rejected <==> statusCode !in {200, 201, 202, 204, 401, 403}
    ensures var r := ValidatePutStatusCode(dest, statusCode, message, exceptionMessage);
            var denied, rejected := Failure(AccessDeniedMessage(dest, message)),
                                    Failure(RejectedMessage(dest, statusCode, exceptionMessage));
            (r == Success || r == denied || r == rejected) && denied != rejected
  {
    FailureMessagesDistinct(dest, message, statusCode, exceptionMessage);
  }

  /** The two failure messages cannot be mistaken for one another. */
  lemma FailureMessagesDistinct(dest: string, message: string, code: int, exceptionMessage: string)
    ensures AccessDeniedMessage(dest, message) != RejectedMessage(dest, code, exceptionMessage)
  {
    assert AccessDeniedMessage(dest, message)[0] == 'A';
    assert RejectedMessage(dest, code, exceptionMessage)[0] == 'P';
  }

  /**
   * The generic failure message names the status code: two codes that fail
   * the same upload with the same diagnostic give different messages.
   */
  lemma RejectedMessageNamesCode(dest: string, a: int, b: int, exceptionMessage: string)
    requires RejectedMessage(dest, a, exceptionMessage) == RejectedMessage(dest, b, exceptionMessage)
    ensures a == b
  {
    var p := RejectedPrefix(dest);
    var da, db := DecimalString(a), DecimalString(b);
    var ta, tb := da + ": " + exceptionMessage, db + ": " + exceptionMessage;
    assert p + ta == RejectedMessage(dest, a, exceptionMessage);
    assert p + tb == RejectedMessage(dest, b, exceptionMessage);
    assert ta == tb by {
      assert ta == (p + ta)[|p|..];
      assert tb == (p + tb)[|p|..];
    }
    // the ':' after the shorter rendering would face a digit of the longer one
    assert |da| == |db|;
    assert da == ta[..|da|] && db == tb[..|db|];
    DecimalStringInjective(a, b);
  }

  /** Three sample codes: 204, 403 and 500. */
  lemma StatusExamples(dest: string, message: string, exceptionMessage: string)
    ensures ValidatePutStatusCode(dest, 204, message, exceptionMessage) == Success
    ensures ValidatePutStatusCode(dest, 403, message, exceptionMessage) == Failure(AccessDeniedMessage(dest, message))
    ensures ValidatePutStatusCode(dest, 500, message, exceptionMessage) ==
              Failure(RejectedPrefix(dest) + "500" + ": " + exceptionMessage)
  {
    assert DecimalString(500) == "500";
  }
}
