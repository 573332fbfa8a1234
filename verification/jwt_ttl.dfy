/**
 This module models `get_jwt_ttl_info`, which reads the `exp` claim of a JWT
 (decoded without checking its signature) and reports whether the token has
 expired and how long it has left.

 The decoder and the clock are inputs: the decoder's result is a `DecodeOutcome`
 and the current time is a count of microseconds since the Unix epoch (UTC),
 the resolution of Python's `datetime.now`. A Python `timedelta` is an exact
 count of microseconds, so `time_remaining` is one too.
 */
module JwtTtl {

  datatype Option<T> = None | Some(value: T)

  /** The value that `decoded_payload.get('exp')` produces. */
  datatype ExpClaim =
    /** No `exp` key, or `"exp": null`: both read back as Python `None`. */
    | Missing
    /** An integer count of seconds since the Unix epoch. */
    | Seconds(n: int)
    /** A value `datetime.fromtimestamp` refuses (a string, list or object);
        `description` is the text of the exception it raises. */
    | NotTimestamp(description: string)

  /** What `jwt.decode(..., verify_signature=False)` did with the token. */
  datatype DecodeOutcome =
    | Decoded(exp: ExpClaim)
    /** `jwt.exceptions.DecodeError`: the token is not a well-formed JWT. */
    | DecodeError
    /** Any other exception; `description` is its text, `str(e)`. */
    | OtherFault(description: string)

  /** The dictionary the function returns. `error == None` means the dictionary
      has no `'error'` key at all. Instants and durations are microseconds. */
  datatype TtlReport = TtlReport(
    expirationTimestamp: Option<int>,
    expirationDatetimeUtc: Option<int>,
    isExpired: Option<bool>,
    timeRemaining: Option<int>,
    error: Option<string>)

  const MicrosPerSecond: int := 1_000_000

  /** Unix seconds of 0001-01-01T00:00:00Z and 9999-12-31T23:59:59Z, the first and
      last whole seconds a Python `datetime` can hold. */
  const MinTimestamp: int := -62135596800
  const MaxTimestamp: int := 253402300799

  const InvalidFormatMessage: string := "Invalid JWT format"
  const UnexpectedPrefix: string := "An unexpected error occurred: "

  /** Stand-in for the text of the exception `datetime.fromtimestamp` raises for an
      integer outside the representable years; the real text depends on the
      platform and Python version. */
  const OutOfRangeDescription: string := "timestamp out of range for datetime"

  predicate InDatetimeRange(n: int) {
    MinTimestamp <= n <= MaxTimestamp
  }

  /** `datetime.fromtimestamp(n, tz=timezone.utc)`, as microseconds since the epoch. */
  function ToUtcInstant(n: int): (micros: int)
    ensures micros % MicrosPerSecond == 0
    ensures micros / MicrosPerSecond == n
  {
    n * MicrosPerSecond
  }

  /** `time_remaining` as lines 29-32 compute it and line 38 re-checks it:
      the gap to the expiration instant, clamped to zero once it has passed. */
  function ClampedRemaining(instant: int, now: int): (remaining: int)
    ensures remaining >= 0
    ensures remaining >= instant - now
    ensures remaining == 0 || remaining == instant - now
    ensures now > instant ==> remaining == 0
  {
    var expired := now > instant;
    var computed := if !expired then instant - now else 0;
    if !expired then computed else 0
  }

  /** The report for a failure: every TTL field `None` and `'error'` set. */
  function FailureReport(message: string): TtlReport {
    TtlReport(None, None, None, None, Some(message))
  }

  /** The report both `except` clauses and the `exp`-absent branch share the
      shape of: every TTL field `None`. */
  predicate AllFieldsNone(r: TtlReport) {
    && r.expirationTimestamp.None?
    && r.expirationDatetimeUtc.None?
    && r.isExpired.None?
    && r.timeRemaining.None?
  }

  /** The report for an `exp` claim of `n` seconds read at `now`. Python raises
      inside the `try` when `datetime.fromtimestamp` cannot represent `n`. */
  function ReportForSeconds(n: int, now: int): (r: TtlReport)
    ensures InDatetimeRange(n) ==>
      && r.error.None?
      && r.expirationTimestamp == Some(n)
      && r.expirationDatetimeUtc == Some(ToUtcInstant(n))
      && r.isExpired == Some(now > ToUtcInstant(n))
      && r.timeRemaining.Some?
      && r.timeRemaining.value >= 0
      && (now > ToUtcInstant(n) ==> r.timeRemaining.value == 0)
      && (now <= ToUtcInstant(n) ==> r.timeRemaining.value == ToUtcInstant(n) - now)
    ensures !InDatetimeRange(n) ==> AllFieldsNone(r) && r.error == Some(UnexpectedPrefix + OutOfRangeDescription)
  {
    if !InDatetimeRange(n) then
      FailureReport(UnexpectedPrefix + OutOfRangeDescription)
    else
      var instant := ToUtcInstant(n);
      var expired := now > instant;
      TtlReport(Some(n), Some(instant), Some(expired), Some(ClampedRemaining(instant, now)), None)
  }

  /** `get_jwt_ttl_info`: total over every decoder outcome and clock reading. */
  function GetJwtTtlInfo(decoded: DecodeOutcome, now: int): (r: TtlReport)
    // Absent `exp` is a normal outcome: no TTL fields and no error.
    ensures decoded == Decoded(Missing) ==> AllFieldsNone(r) && r.error.None?
    // A present, representable `exp` is reported unchanged, with its instant.
    ensures decoded.Decoded? && decoded.exp.Seconds? && InDatetimeRange(decoded.exp.n) ==>
      && r.error.None?
      && r.expirationTimestamp == Some(decoded.exp.n)
      && r.expirationDatetimeUtc.Some?
      && r.expirationDatetimeUtc.value / MicrosPerSecond == decoded.exp.n
      && r.expirationDatetimeUtc.value % MicrosPerSecond == 0
    // Expiry is strict: expired exactly when the clock is past the instant.
    ensures r.expirationDatetimeUtc.Some? ==>
      && r.isExpired == Some(now > r.expirationDatetimeUtc.value)
      && r.timeRemaining.Some?
      && r.timeRemaining.value >= 0
      && (r.isExpired.value ==> r.timeRemaining.value == 0)
      && (!r.isExpired.value ==> now + r.timeRemaining.value == r.expirationDatetimeUtc.value)
    // The two `except` clauses.
    ensures decoded.DecodeError? ==> AllFieldsNone(r) && r.error == Some(InvalidFormatMessage)
    ensures decoded.OtherFault? ==>
      AllFieldsNone(r) && r.error == Some(UnexpectedPrefix + decoded.description)
    ensures decoded.Decoded? && decoded.exp.NotTimestamp? ==>
      AllFieldsNone(r) && r.error == Some(UnexpectedPrefix + decoded.exp.description)
    // A report carries `'error'` exactly when the call failed, and then no TTL field.
    ensures r.error.Some? <==> !(decoded.Decoded? && (decoded.exp.Missing? || (decoded.exp.Seconds? && InDatetimeRange(decoded.exp.n))))
    ensures r.error.Some? ==> AllFieldsNone(r)
  {
    match decoded
    case DecodeError => FailureReport(InvalidFormatMessage)
    case OtherFault(e) => FailureReport(UnexpectedPrefix + e)
    case Decoded(Missing) => TtlReport(None, None, None, None, None)
    case Decoded(NotTimestamp(e)) => FailureReport(UnexpectedPrefix + e)
    case Decoded(Seconds(n)) => ReportForSeconds(n, now)
  }
}
