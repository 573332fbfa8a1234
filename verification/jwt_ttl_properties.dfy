/**
 Properties of `JwtTtl.GetJwtTtlInfo` that relate several calls, or the report to
 a description of it written independently of the function.
 */
module JwtTtlProperties {
  import opened JwtTtl

  /** The invariants every report keeps, stated on the report alone. */
  predicate WellFormed(r: TtlReport) {
    if r.error.Some? then
      // A failure: no TTL field, and one of the two messages.
      && AllFieldsNone(r)
      && (r.error.value == InvalidFormatMessage || UnexpectedPrefix <= r.error.value)
    else if r.expirationTimestamp.None? then
      // No `exp` claim: nothing else is set either.
      AllFieldsNone(r)
    else
      && InDatetimeRange(r.expirationTimestamp.value)
      && r.expirationDatetimeUtc == Some(r.expirationTimestamp.value * MicrosPerSecond)
      && r.isExpired.Some?
      && r.timeRemaining.Some?
      && r.timeRemaining.value >= 0
      && (r.isExpired.value ==> r.timeRemaining.value == 0)
  }

  /** How a caller tells the outcomes apart from the report: the presence of
      `'error'` first, then whether `expiration_timestamp` is `None`. */
  datatype Outcome = NoExpiry | HasExpiry(expired: bool) | InvalidFormat | UnexpectedFault

  function Classify(r: TtlReport): Outcome {
    if r.error.Some? then
      if r.error.value == InvalidFormatMessage then InvalidFormat else UnexpectedFault
    else if r.expirationTimestamp.Some? then
      HasExpiry(r.isExpired == Some(true))
    else
      NoExpiry
  }

  /** The outcome a call should have, read off its inputs alone. */
  function ExpectedOutcome(decoded: DecodeOutcome, now: int): Outcome {
    match decoded
    case DecodeError => InvalidFormat
    case OtherFault(_) => UnexpectedFault
    case Decoded(Missing) => NoExpiry
    case Decoded(NotTimestamp(_)) => UnexpectedFault
    case Decoded(Seconds(n)) =>
      if InDatetimeRange(n) then HasExpiry(now > n * MicrosPerSecond) else UnexpectedFault
  }

  /** A message carrying the unexpected-fault prefix is never the invalid-format one. */
  lemma PrefixedIsNotInvalidFormat(s: string)
    requires UnexpectedPrefix <= s
    ensures s != InvalidFormatMessage
  {
  }

  /** The outcomes are mutually distinguishable: reading the report the way a
      caller does recovers exactly the outcome the inputs call for. */
  lemma OutcomesDistinguishable(decoded: DecodeOutcome, now: int)
    ensures Classify(GetJwtTtlInfo(decoded, now)) == ExpectedOutcome(decoded, now)
  {
    match decoded
    case OtherFault(e) => PrefixedIsNotInvalidFormat(UnexpectedPrefix + e);
    case Decoded(NotTimestamp(e)) => PrefixedIsNotInvalidFormat(UnexpectedPrefix + e);
    case _ =>
  }

  /** Every report the function returns is well formed. */
  lemma ReportsAreWellFormed(decoded: DecodeOutcome, now: int)
    ensures WellFormed(GetJwtTtlInfo(decoded, now))
  {
  }

  /** Conversely, every well-formed report is returned for some decoder outcome
      and clock reading: the invariants describe the reports completely. */
  lemma WellFormedReportsAreReachable(r: TtlReport)
    requires WellFormed(r)
    ensures exists decoded, now :: GetJwtTtlInfo(decoded, now) == r
  {
    if r.error.Some? {
      var s := r.error.value;
      if s == InvalidFormatMessage {
        assert GetJwtTtlInfo(DecodeError, 0) == r;
      } else {
        assert UnexpectedPrefix <= s;
        var e := s[|UnexpectedPrefix|..];
        assert s[..|UnexpectedPrefix|] == UnexpectedPrefix;
        assert s == UnexpectedPrefix + e;
        assert GetJwtTtlInfo(OtherFault(e), 0) == r;
      }
    } else if r.expirationTimestamp.None? {
      assert GetJwtTtlInfo(Decoded(Missing), 0) == r;
    } else {
      var n := r.expirationTimestamp.value;
      var instant := n * MicrosPerSecond;
      var now := if r.isExpired.value then instant + 1 else instant - r.timeRemaining.value;
      assert GetJwtTtlInfo(Decoded(Seconds(n)), now) == r;
    }
  }

  /** Both directions together. */
  lemma WellFormedIffReachable(r: TtlReport)
    ensures WellFormed(r) <==> exists decoded, now :: GetJwtTtlInfo(decoded, now) == r
  {
    if WellFormed(r) {
      WellFormedReportsAreReachable(r);
    }
    if exists decoded, now :: GetJwtTtlInfo(decoded, now) == r {
      var decoded, now :| GetJwtTtlInfo(decoded, now) == r;
      ReportsAreWellFormed(decoded, now);
    }
  }

  /** With a clock read on a whole second, the expiry rule in seconds: expired
      exactly when `now > exp`, so `exp == now` is still valid with nothing left. */
  lemma WholeSecondClock(exp: int, nowSeconds: int)
    requires InDatetimeRange(exp)
    ensures var r := GetJwtTtlInfo(Decoded(Seconds(exp)), nowSeconds * MicrosPerSecond);
      && r.isExpired == Some(nowSeconds > exp)
      && r.timeRemaining == Some(if nowSeconds > exp then 0 else (exp - nowSeconds) * MicrosPerSecond)
  {
  }

  /** The boundary: at the expiration instant the token is not expired and has no
      time left; one microsecond later it is expired. */
  lemma ExpiryBoundary(exp: int)
    requires InDatetimeRange(exp)
    ensures var r := GetJwtTtlInfo(Decoded(Seconds(exp)), exp * MicrosPerSecond);
      r.isExpired == Some(false) && r.timeRemaining == Some(0)
    ensures var r := GetJwtTtlInfo(Decoded(Seconds(exp)), exp * MicrosPerSecond + 1);
      r.isExpired == Some(true) && r.timeRemaining == Some(0)
  {
  }

  /** A later clock reading never makes a token less expired or gives it more time. */
  lemma ClockMonotone(decoded: DecodeOutcome, now: int, later: int)
    requires now <= later
    ensures var r, r' := GetJwtTtlInfo(decoded, now), GetJwtTtlInfo(decoded, later);
      && (r.isExpired == Some(true) ==> r'.isExpired == Some(true))
      && (r.timeRemaining.Some? ==> r'.timeRemaining.Some? && r'.timeRemaining.value <= r.timeRemaining.value)
  {
  }

  /** The test for a present claim is `is not None`, so a claim of 0 is a real
      expiration instant (the epoch), not a missing one. */
  lemma ZeroClaimIsPresent(now: int)
    ensures GetJwtTtlInfo(Decoded(Seconds(0)), now).expirationTimestamp == Some(0)
    ensures GetJwtTtlInfo(Decoded(Seconds(0)), now).isExpired == Some(now > 0)
  {
  }

  /** A token with `exp` 1700000000 (2023-11-14T22:13:20Z) read at
      2023-11-13T00:00:00Z, at 2023-11-14T00:00:00Z and at 2023-11-15T00:00:00Z. */
  lemma ConcreteScenarios()
    ensures GetJwtTtlInfo(Decoded(Seconds(1700000000)), 1699833600 * MicrosPerSecond)
      == TtlReport(Some(1700000000), Some(1700000000 * MicrosPerSecond), Some(false), Some(166400 * MicrosPerSecond), None)
    ensures GetJwtTtlInfo(Decoded(Seconds(1700000000)), 1699920000 * MicrosPerSecond)
      == TtlReport(Some(1700000000), Some(1700000000 * MicrosPerSecond), Some(false), Some(80000 * MicrosPerSecond), None)
    ensures GetJwtTtlInfo(Decoded(Seconds(1700000000)), 1700006400 * MicrosPerSecond)
      == TtlReport(Some(1700000000), Some(1700000000 * MicrosPerSecond), Some(true), Some(0), None)
  {
  }
}
