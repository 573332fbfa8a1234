# JWT time-to-live inspector, modelled in Dafny

`get_jwt_ttl_info` takes a JWT string and decodes it without checking its signature.
It reads the `exp` claim and returns a dictionary with four fields:
`expiration_timestamp`, `expiration_datetime_utc`, `is_expired` and `time_remaining`.
When decoding or the timestamp conversion fails, the dictionary also has an `error` entry.
No exception escapes the function.

The model has two modules.

- `JwtTtl` (`jwt_ttl.dfy`) holds the data model and the operation. `GetJwtTtlInfo` is a pure, total function of:
  - a decoder outcome (`DecodeOutcome`): decoded with an `exp` claim that is missing, an integer, or a value `datetime.fromtimestamp` refuses; or `DecodeError`; or any other fault with its text;
  - the clock reading `now`, in microseconds since the Unix epoch (UTC).
- `JwtTtlProperties` (`jwt_ttl_properties.dfy`) holds the report invariants (`WellFormed`), the way a caller reads a report (`Classify`), a reference description of the expected outcome (`ExpectedOutcome`), and lemmas that connect them to the function.

Units: `datetime.now` has microsecond resolution and a `timedelta` is an exact count of microseconds.
So the model keeps instants and `time_remaining` in integer microseconds, while `exp` stays in whole seconds.
`expiration_datetime_utc` is the instant `exp * 1_000_000`.
A report's `error == None` stands for a dictionary without an `'error'` key.

The behaviour follows the code:

- The expiry test is strict (`now > exp`). At `now == exp` the token is not expired and has zero time left (`ExpiryBoundary`).
- Once the token has expired, `time_remaining` is a zero duration, not `None`. The function's docstring says `None` there; the code at lines 31-32 and 38 returns `timedelta(seconds=0)`.
- A claim of `0` is present, because the test is `is not None` (`ZeroClaimIsPresent`).
- `"exp": null` reads back as `None` and is treated like a missing claim.
- The integer 1700000000 is 2023-11-14T22:13:20Z. A clock at 2023-11-14T00:00:00Z is therefore before it: the token is not expired and has 80000 s left (`ConcreteScenarios`).
- `datetime.fromtimestamp` raises for an `exp` it cannot represent. That happens for a non-numeric value, and for an integer outside years 1..9999, that is outside [-62135596800, 253402300799]. The `except Exception` clause turns either case into an "unexpected error" report.

## Model

| member | source | states |
|---|---|---|
| `JwtTtl.GetJwtTtlInfo` | check_jwt_ttl.py:19-63 | Total over every decoder outcome and clock. A missing `exp` gives all four fields `None` and no error. A representable `exp` is reported unchanged, with an instant that is that many whole seconds. `is_expired` holds exactly when now is strictly past the instant. `time_remaining` is never negative: zero once expired, otherwise now plus it equals the instant. `DecodeError` gives `"Invalid JWT format"`. Any other fault gives the unexpected-error prefix followed by the fault's text. `error` is present exactly on the failure paths, and then every TTL field is `None`. |
| `JwtTtl.ReportForSeconds` | check_jwt_ttl.py:24-39 | An integer claim that `datetime` can represent is reported unchanged, without error. Its instant is that many whole seconds. `is_expired` holds exactly when now is strictly past the instant. `time_remaining` is never negative: zero once expired, otherwise the gap to the instant. Outside years 1..9999 the `fromtimestamp` fault becomes an unexpected-error report with every TTL field `None`. |
| `JwtTtl.ToUtcInstant` | check_jwt_ttl.py:25 | The expiration instant is a whole number of seconds, and dividing it back gives the claim value. |
| `JwtTtl.ClampedRemaining` | check_jwt_ttl.py:27-38 | The remaining time is never negative and is at least `instant - now`. It is either zero or exactly the gap, and zero once now is past the instant. The line-38 re-check gives the value computed at lines 29-32. |
| `JwtTtlProperties.PrefixedIsNotInvalidFormat` | check_jwt_ttl.py:54-62 | An unexpected-error message can never equal the invalid-format message. |
| `JwtTtlProperties.OutcomesDistinguishable` | check_jwt_ttl.py:34-63 | Reading the report as a caller does (`'error'` first, then `expiration_timestamp`) recovers the outcome named by the inputs alone. The outcomes are no claim, claim with its expiry, invalid format, and unexpected fault. |
| `JwtTtlProperties.ReportsAreWellFormed` | check_jwt_ttl.py:34-63 | Every returned report keeps the invariants. A failure has no TTL field and one of the two messages. A missing claim has nothing set. A present claim has its instant, an expiry flag and a non-negative remaining time that is zero when expired. |
| `JwtTtlProperties.WellFormedReportsAreReachable` | check_jwt_ttl.py:34-63 | Every report that keeps those invariants is returned for some decoder outcome and clock reading. |
| `JwtTtlProperties.WellFormedIffReachable` | check_jwt_ttl.py:34-63 | A report keeps the invariants if and only if the function can return it. |
| `JwtTtlProperties.WholeSecondClock` | check_jwt_ttl.py:26-32 | For a clock on a whole second, the token is expired exactly when `now > exp`. Otherwise the remaining time is `exp - now` seconds, and it is zero once expired. |
| `JwtTtlProperties.ExpiryBoundary` | check_jwt_ttl.py:27 | At the expiration instant the token is not expired and has zero time left. One microsecond later it is expired. |
| `JwtTtlProperties.ClockMonotone` | check_jwt_ttl.py:26-38 | A later clock reading keeps an expired token expired and never increases the remaining time. |
| `JwtTtlProperties.ZeroClaimIsPresent` | check_jwt_ttl.py:22-24 | A claim of `0` counts as present, because the test is `is not None` rather than truthiness. |
| `JwtTtlProperties.ConcreteScenarios` | check_jwt_ttl.py:24-39 | For `exp` 1700000000: at 2023-11-13T00:00:00Z the token is valid with 166400 s left. At 2023-11-14T00:00:00Z it is valid with 80000 s left. At 2023-11-15T00:00:00Z it is expired with zero left. |

Two helpers carry no contract of their own and so have no row. `JwtTtl.InDatetimeRange` is the domain `datetime.fromtimestamp` accepts at line 25. `JwtTtl.FailureReport` is the dictionary both `except` clauses build (lines 49-55 and 57-63).

## Left out

- PyJWT's `jwt.decode` (line 21): segment splitting, base64url and JSON decoding, and the skipped signature check belong to a library that is not part of this model. Its result is the `DecodeOutcome` input.
- The clock read `datetime.now(timezone.utc)` (line 26): the current time is the `now` parameter.
- Time zones and calendar dates: instants are integer microseconds since the epoch, not `datetime` objects.
- Float and boolean `exp` values: Python accepts them through `fromtimestamp`, but the model takes integer seconds only.
- Exception text: the model carries `str(e)` as an opaque string.
- JwtTtl.ReportForSeconds: for an out-of-range integer claim the error text is the prefix followed by a fixed stand-in, `OutOfRangeDescription`. Python's real message depends on the value, the platform and the version: ValueError "year N is out of range", OverflowError "timestamp out of range for platform time_t", or an OSError from `gmtime`. Only the `"An unexpected error occurred: "` prefix of that message is faithful; `GetJwtTtlInfo` promises nothing more than an error with every TTL field `None` in that case.
- The platform limits of `gmtime`: some platforms reject negative timestamps that Linux accepts. The model uses `datetime`'s own year range.
- Exceptions that are not `Exception` subclasses, such as `KeyboardInterrupt`: `except Exception` does not catch them, and the model does not include them.
- The example driver (lines 65-83) only prints to the console. `Classify` follows its reading of a report: `'error'` first (line 72), then `expiration_timestamp` (line 76). The driver prints whatever `error` holds. Splitting invalid format from unexpected fault by the message text is an extra step a caller can take; the driver does not take it.
- Calling the function twice with the same token and the same frozen clock gives identical reports. This holds because `GetJwtTtlInfo` is a function, so no separate lemma states it.
