/** Values shared by both schemas: nullable values, exceptions, remote outcomes. */
module Common {

  /** A Kotlin nullable value: `None` is `null`. */
  datatype Option<+T> = None | Some(value: T) {
    /** Kotlin's `x ?: default`. */
    function GetOr(default: T): T {
      match this
      case Some(v) => v
      case None => default
    }
  }

  /** The exception classes the modelled code distinguishes. */
  datatype ExceptionKind =
    | IOException                // network failures, file failures, and the repository's own failures
    | HttpException              // a non-2xx reply to a call that returns a body
    | SQLiteConstraintException  // a foreign-key violation raised by the local database
    | NullPointerException       // Kotlin's `!!` on a null value
    | OtherException             // anything else (for example a malformed reply)

  datatype Exception = Exception(kind: ExceptionKind, message: Option<string>)

  /** Kotlin's `e.message ?: fallback`. */
  function MessageOr(e: Exception, fallback: string): string {
    e.message.GetOr(fallback)
  }

  /** The exception `x!!` raises; its message is null. */
  const NullIdException := Exception(NullPointerException, None)

  /** What a remote call did: returned a value or threw. The remote service is an oracle. */
  datatype ApiResult<+T> = Returned(value: T) | Threw(error: Exception)

  /** A Retrofit `Response<Unit>`, of which only the status code is read. */
  datatype HttpResponse = HttpResponse(code: int) {
    /** `Response.isSuccessful`: a status code in 200..299. */
    predicate IsSuccessful() {
      200 <= code <= 299
    }
  }

  /** Which of the two callbacks a write operation of a view model invoked. */
  datatype Callback = OnSuccess | OnError(message: string)

  /** Kotlin's `Result<T>`. */
  datatype Result<+T> = Success(value: T) | Failure(error: Exception)

  /** Decimal rendering of an integer, as string interpolation writes it. */
  function IntToString(n: int): string
    decreases if n < 0 then 1 - n else n
  {
    if n < 0 then "-" + IntToString(-n)
    else if n < 10 then [DigitChar(n)]
    else IntToString(n / 10) + [DigitChar(n % 10)]
  }

  function DigitChar(d: int): char
    requires 0 <= d < 10
  {
    ['0', '1', '2', '3', '4', '5', '6', '7', '8', '9'][d]
  }
}
