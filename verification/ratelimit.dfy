/** The rate-limit decision taken after every response (main.go, right
    after the next link is read). `X-RateLimit-Remaining` is parsed as a
    decimal integer; when at most one request remains, `X-RateLimit-Reset`
    (the Unix second at which the quota is renewed) is parsed too and the
    crawler sleeps until one second past it. The clock reading is a
    parameter. */
module RateLimit {
  import opened Wrappers
  import opened GoStrings

  /** What the crawler does before handling the body. */
  datatype Throttle = Proceed | Pause(seconds: Int64)

  /** Which header failed to parse; the source panics on either. */
  datatype HeaderError = BadRemaining | BadReset

  /** Nanoseconds per second, the factor of `time.Second`. */
  const NanosPerSecond: int := 1_000_000_000

  /** The longest pause, in seconds, whose nanosecond count fits 64 bits. */
  const MaxPauseSeconds: int := MaxInt64 / NanosPerSecond

  /** The decision for the two header values and the current Unix time
      `now`. The pause is computed in 64-bit arithmetic and is neither
      clamped nor checked: a reset instant already past gives a pause of
      zero or fewer seconds. */
  function Decide(remaining: string, reset: string, now: Int64): (r: Result<Throttle, HeaderError>)
    ensures r == Failure(BadRemaining) <==> Atoi(remaining).None?
    ensures r == Success(Proceed) <==> Atoi(remaining).Some? && Atoi(remaining).value > 1
    ensures r == Failure(BadReset) <==>
              Atoi(remaining).Some? && Atoi(remaining).value <= 1 && Atoi(reset).None?
    ensures r.Success? && r.value.Pause? ==>
              Atoi(remaining).Some? && Atoi(remaining).value <= 1 && Atoi(reset).Some? &&
              exists k: int :: now + r.value.seconds == Atoi(reset).value + 1 + k * TwoTo64
  {
    match Atoi(remaining)
      case None => Failure(BadRemaining)
      case Some(limit) =>
        if limit > 1 then Success(Proceed)
        else match Atoi(reset)
          case None => Failure(BadReset)
          case Some(resetAt) => Success(Pause(Wrap64(resetAt - now + 1)))
  }

  /** `time.Duration(seconds) * time.Second`: the sleep in nanoseconds,
      wrapped to 64 bits as Go's multiplication does. */
  function SleepNanos(seconds: Int64): (d: Int64)
    ensures -MaxPauseSeconds <= seconds <= MaxPauseSeconds ==>
              d == seconds * NanosPerSecond
  {
    ScaleBounds(seconds, MaxPauseSeconds, NanosPerSecond);
    Wrap64(seconds * NanosPerSecond)
  }

  lemma ScaleBounds(x: int, c: int, n: int)
    ensures 0 <= n && -c <= x <= c ==> -c * n <= x * n <= c * n
  {
  }

  /** Whether `time.Sleep` blocks at all: it returns at once for a duration
      that is zero or negative. */
  predicate Sleeps(t: Throttle) {
    t.Pause? && SleepNanos(t.seconds) > 0
  }

  /** When the reset instant lies at most about 292 years from now, the
      crawler resumes exactly one second after it. */
  lemma ResumesAfterReset(remaining: string, reset: string, now: Int64)
    requires Decide(remaining, reset, now).Success?
    requires Decide(remaining, reset, now).value.Pause?
    requires MinInt64 <= Atoi(reset).value - now + 1 <= MaxInt64
    ensures now + Decide(remaining, reset, now).value.seconds == Atoi(reset).value + 1
  {
  }

  /** The crawler blocks exactly when the reset instant is not yet past
      (for pauses small enough not to overflow the nanosecond count). */
  lemma {:induction false} SleepsIffResetAhead(remaining: string, reset: string, now: Int64)
    requires Decide(remaining, reset, now).Success?
    requires Decide(remaining, reset, now).value.Pause?
    requires -MaxPauseSeconds <= Atoi(reset).value - now + 1 <= MaxPauseSeconds
    ensures Sleeps(Decide(remaining, reset, now).value) <==> Atoi(reset).value >= now
  {
    var s := Decide(remaining, reset, now).value.seconds;
    assert s == Atoi(reset).value - now + 1;
    assert SleepNanos(s) == s * NanosPerSecond;
  }

  /** The reset header is read only when the quota is nearly spent: with
      more than one request left, any reset value, even a malformed one,
      and any clock reading give the same decision. */
  lemma ResetIgnoredWhileQuotaLeft(remaining: string, reset1: string, reset2: string, now1: Int64, now2: Int64)
    requires Atoi(remaining).Some? && Atoi(remaining).value > 1
    ensures Decide(remaining, reset1, now1) == Decide(remaining, reset2, now2) == Success(Proceed)
  {
  }

  /** A later clock reading never lengthens the pause (absent overflow). */
  lemma PauseShrinksWithTime(remaining: string, reset: string, now1: Int64, now2: Int64)
    requires now1 <= now2
    requires Atoi(remaining).Some? && Atoi(remaining).value <= 1 && Atoi(reset).Some?
    requires MinInt64 <= Atoi(reset).value - now2 + 1
    requires Atoi(reset).value - now1 + 1 <= MaxInt64
    ensures Decide(remaining, reset, now2).value.seconds <= Decide(remaining, reset, now1).value.seconds
  {
  }

  /** One request left and the quota renewed ten seconds from now: an
      eleven-second pause. */
  lemma LastRequestExample(now: nat)
    requires now + 10 <= MaxInt64
    ensures Decide("1", Itoa(now + 10), now) == Success(Pause(11))
  {
    AtoiItoa(1);
    AtoiItoa(now + 10);
    assert Itoa(1) == "1";
  }

  /** Fifty requests left: no pause, whatever the reset header holds. */
  lemma QuotaLeftExample(reset: string, now: Int64)
    ensures Decide("50", reset, now) == Success(Proceed)
  {
    AtoiItoa(50);
    assert Itoa(50) == "50";
  }

  /** A missing remaining-header reads as the empty string and fails. */
  lemma MissingRemainingFails(reset: string, now: Int64)
    ensures Decide("", reset, now) == Failure(BadRemaining)
  {
  }
}
