/**
 * Randomized exponential back-off with overflow-checked 64-bit arithmetic. Times are
 * microseconds; doubles are reals; the clock and the random number are arguments.
 */
module Backoff {
  import opened Numbers

  // ------------------------------------------------------------------
  // 64-bit arithmetic
  // ------------------------------------------------------------------

  const I64_MAX: int := 0x7FFF_FFFF_FFFF_FFFF
  const I64_MIN: int := -0x8000_0000_0000_0000
  const US_PER_MS: int := 1000

  predicate IsI64(x: int) {
    I64_MIN <= x <= I64_MAX
  }

  /** A number that has stayed in range through every step, or has not. */
  datatype Checked = Valid(value: int) | Overflow {
    function Plus(x: int): Checked {
      if Valid? && IsI64(value + x) then Valid(value + x) else Overflow
    }

    function Times(x: int): Checked {
      if Valid? && IsI64(value * x) then Valid(value * x) else Overflow
    }

    function ValueOrMax(): int {
      if Valid? then value else I64_MAX
    }
  }

  function Truncated(x: real): int {
    if x >= 0.0 then x.Floor else -((-x).Floor)
  }

  function CheckedOf(x: real): Checked {
    if IsI64(Truncated(x)) then Valid(Truncated(x)) else Overflow
  }

  /** Addition of times and durations saturates. */
  function Saturated(x: int): (r: int)
    ensures IsI64(r) && (IsI64(x) ==> r == x)
  {
    if x > I64_MAX then I64_MAX else if x < I64_MIN then I64_MIN else x
  }

  // ------------------------------------------------------------------
  // Policy and entry
  // ------------------------------------------------------------------

  datatype Policy = Policy(
    numErrorsToIgnore: int, initialDelayMs: int, multiplyFactor: real, jitterFactor: real,
    maximumBackoffMs: int, entryLifetimeMs: int, alwaysUseInitialDelay: bool)
  {
    /** Delays and factors that make sense; a negative maximum means none. */
    predicate Sane() {
      && 0 <= initialDelayMs < 0x8000_0000 && multiplyFactor >= 0.0 && 0.0 <= jitterFactor <= 1.0
      && IsI64(maximumBackoffMs) && IsI64(entryLifetimeMs)
    }
  }

  datatype Entry = Entry(failureCount: nat, release: int)

  const FRESH := Entry(0, 0)

  function Pow(base: real, n: nat): (r: real)
    ensures base >= 0.0 ==> r >= 0.0
  {
    if n == 0 then 1.0 else base * Pow(base, n - 1)
  }

  /** The delay before jitter, in milliseconds, at the given number of counted failures. */
  function BaseDelayMs(p: Policy, n: nat): real
    requires n >= 1
  {
    p.initialDelayMs as real * Pow(p.multiplyFactor, n - 1)
  }

  function Jittered(delay: real, jitter: real, random: real): real {
    delay - random * jitter * delay
  }

  function DelayMs(p: Policy, n: nat, random: real): real
    requires n >= 1
  {
    Jittered(BaseDelayMs(p, n), p.jitterFactor, random)
  }

  /** Jitter takes off at most its share and never adds. */
  lemma JitterRange(p: Policy, n: nat, random: real)
    requires p.Sane() && n >= 1 && 0.0 <= random < 1.0
    ensures 0.0 <= (1.0 - p.jitterFactor) * BaseDelayMs(p, n) <= DelayMs(p, n, random) <= BaseDelayMs(p, n)
  {
    DelayIsPositive(p, n);
    hide BaseDelayMs, Jittered;
    JitteredRange(BaseDelayMs(p, n), p.jitterFactor, random);
  }

  lemma DelayIsPositive(p: Policy, n: nat)
    requires p.Sane() && n >= 1
    ensures BaseDelayMs(p, n) >= 0.0
  {
    var initial, power := p.initialDelayMs as real, Pow(p.multiplyFactor, n - 1);
    hide Pow;
    ProductMonotone(0.0, initial, power);
    assert 0.0 * power == 0.0;
  }

  lemma JitteredRange(x: real, jitter: real, random: real)
    requires x >= 0.0 && 0.0 <= jitter <= 1.0 && 0.0 <= random <= 1.0
    ensures 0.0 <= (1.0 - jitter) * x <= Jittered(x, jitter, random) <= x
  {
    var share := random * jitter;
    ProductMonotone(0.0, random, jitter);
    ProductMonotone(random, 1.0, jitter);
    assert 0.0 <= share <= jitter;
    ProductMonotone(0.0, 1.0 - jitter, x);
    ProductMonotone(0.0, share, x);
    ProductMonotone(share, jitter, x);
    assert Jittered(x, jitter, random) == x - share * x;
    assert (1.0 - jitter) * x == x - jitter * x;
  }

  lemma ProductMonotone(a: real, b: real, x: real)
    requires a <= b && x >= 0.0
    ensures a * x <= b * x
  {
  }

  function BackoffDurationUs(delayMs: real): int {
    CheckedOf(delayMs + 0.5).Times(US_PER_MS).ValueOrMax()
  }

  /** The checked duration is the rounded delay in microseconds, capped at the largest number. */
  lemma DurationIsCapped(delayMs: real)
    requires delayMs >= 0.0
    ensures BackoffDurationUs(delayMs) == Min(I64_MAX, (delayMs + 0.5).Floor * US_PER_MS)
    ensures BackoffDurationUs(delayMs) >= 0
  {
  }

  function MaximumReleaseUs(p: Policy, now: int): int {
    if p.maximumBackoffMs >= 0
    then Valid(p.maximumBackoffMs).Times(US_PER_MS).Plus(now).ValueOrMax()
    else I64_MAX
  }

  function BackoffDurationToReleaseTime(p: Policy, now: int, duration: int): int {
    Min(Valid(duration).Plus(now).ValueOrMax(), MaximumReleaseUs(p, now))
  }

  /** The exact release time, capped by the largest number and by the policy's maximum. */
  function CappedRelease(p: Policy, now: int, duration: int): int {
    var exact := Min(I64_MAX, now + duration);
    if p.maximumBackoffMs >= 0 then Min(exact, now + p.maximumBackoffMs * US_PER_MS) else exact
  }

  /**
   * The checked arithmetic gives the exact release time, capped, just when the sum does not
   * fall below the smallest number. (When it does, the result is the latest time the policy allows.)
   */
  lemma ReleaseTimeIsCapped(p: Policy, now: int, duration: int)
    requires p.Sane() && IsI64(now) && IsI64(duration)
    ensures BackoffDurationToReleaseTime(p, now, duration) == CappedRelease(p, now, duration)
       <==> now + duration >= I64_MIN
  {
  }

  // ------------------------------------------------------------------
  // Reports
  // ------------------------------------------------------------------

  function EffectiveFailures(p: Policy, failureCount: nat): nat {
    var n := Max(0, failureCount - p.numErrorsToIgnore);
    if p.alwaysUseInitialDelay then n + 1 else n
  }

  function CalculateReleaseTime(p: Policy, e: Entry, now: int, random: real): int {
    var n := EffectiveFailures(p, e.failureCount);
    if n == 0 then Max(now, e.release)
    else Max(BackoffDurationToReleaseTime(p, now, BackoffDurationUs(DelayMs(p, n, random))), e.release)
  }

  function InformOfRequest(p: Policy, e: Entry, now: int, succeeded: bool, random: real): Entry {
    if !succeeded then
      var e1 := e.(failureCount := e.failureCount + 1);
      e1.(release := CalculateReleaseTime(p, e1, now, random))
    else
      var delay := if p.alwaysUseInitialDelay then p.initialDelayMs * US_PER_MS else 0;
      Entry(if e.failureCount > 0 then e.failureCount - 1 else 0, Max(Saturated(now + delay), e.release))
  }

  predicate ShouldRejectRequest(e: Entry, now: int) {
    e.release > now
  }

  // ------------------------------------------------------------------
  // Every run of reports
  // ------------------------------------------------------------------

  datatype Report = Report(now: int, succeeded: bool, random: real)

  ghost predicate ValidReports(rs: seq<Report>) {
    && (forall i :: 0 <= i < |rs| ==> 0 <= rs[i].now <= I64_MAX && 0.0 <= rs[i].random < 1.0)
    && (forall i, j :: 0 <= i < j < |rs| ==> rs[i].now <= rs[j].now)
  }

  function Run(p: Policy, e: Entry, rs: seq<Report>): Entry
    decreases |rs|
  {
    if rs == [] then e
    else Run(p, InformOfRequest(p, e, rs[0].now, rs[0].succeeded, rs[0].random), rs[1..])
  }

  /** The longest the policy may keep a request waiting, in microseconds. */
  function LongestWaitUs(p: Policy): int {
    Max(p.maximumBackoffMs, if p.alwaysUseInitialDelay then p.initialDelayMs else 0) * US_PER_MS
  }

  /** The release time lies no further ahead of `now` than the policy allows. */
  ghost predicate WithinHorizon(p: Policy, e: Entry, now: int) {
    p.maximumBackoffMs >= 0 ==> e.release <= now + LongestWaitUs(p)
  }

  /** One report: the horizon does not move back, reaches the report, and stays within bounds. */
  lemma ReportKeeps(p: Policy, e: Entry, r: Report)
    requires p.Sane() && 0 <= r.now <= I64_MAX && 0.0 <= r.random < 1.0 && 0 <= e.release <= I64_MAX
    requires WithinHorizon(p, e, r.now)
    ensures var e' := InformOfRequest(p, e, r.now, r.succeeded, r.random);
            && e.release <= e'.release <= I64_MAX
            && r.now <= e'.release
            && WithinHorizon(p, e', r.now)
  {
    if !r.succeeded {
      var n := EffectiveFailures(p, e.failureCount + 1);
      if n > 0 {
        JitterRange(p, n, r.random);
        var delay := DelayMs(p, n, r.random);
        hide DelayMs;
        DurationIsCapped(delay);
        ReleaseTimeIsCapped(p, r.now, BackoffDurationUs(delay));
      }
    }
  }

  /** The exact effect of a failure that counts: the horizon or the capped delay from now, whichever is later. */
  lemma FailureReleaseExact(p: Policy, e: Entry, now: int, random: real)
    requires p.Sane() && 0 <= now <= I64_MAX && 0.0 <= random < 1.0
    requires EffectiveFailures(p, e.failureCount + 1) > 0
    ensures var n := EffectiveFailures(p, e.failureCount + 1);
            var duration := Min(I64_MAX, (DelayMs(p, n, random) + 0.5).Floor * US_PER_MS);
            InformOfRequest(p, e, now, false, random)
            == Entry(e.failureCount + 1, Max(CappedRelease(p, now, duration), e.release))
  {
    var n := EffectiveFailures(p, e.failureCount + 1);
    JitterRange(p, n, random);
    var delay := DelayMs(p, n, random);
    hide DelayMs;
    DurationIsCapped(delay);
    ReleaseTimeIsCapped(p, now, BackoffDurationUs(delay));
  }

  /**
   * Over any run of reports under a clock that does not go back, the release horizon never
   * moves back, has reached the last report, and with a maximum configured is never
   * further from it than the maximum or the always-used initial delay.
   */
  lemma {:induction false} HorizonOverRuns(p: Policy, e: Entry, rs: seq<Report>)
    requires p.Sane() && ValidReports(rs) && rs != [] && 0 <= e.release <= I64_MAX
    requires WithinHorizon(p, e, rs[0].now)
    ensures var e' := Run(p, e, rs);
            var last := rs[|rs| - 1].now;
            e.release <= e'.release <= I64_MAX && last <= e'.release && WithinHorizon(p, e', last)
    decreases |rs|
  {
    hide InformOfRequest;
    ReportKeeps(p, e, rs[0]);
    var e1 := InformOfRequest(p, e, rs[0].now, rs[0].succeeded, rs[0].random);
    if |rs| == 1 {
      assert rs[1..] == [];
    } else {
      HorizonOverRuns(p, e1, rs[1..]);
    }
  }

  lemma {:induction false} RunSplits(p: Policy, e: Entry, rs: seq<Report>, i: nat)
    requires i <= |rs|
    ensures Run(p, e, rs) == Run(p, Run(p, e, rs[..i]), rs[i..])
    decreases i
  {
    hide InformOfRequest;
    if i == 0 {
      assert rs[..0] == [] && rs[0..] == rs;
    } else {
      var e1 := InformOfRequest(p, e, rs[0].now, rs[0].succeeded, rs[0].random);
      RunSplits(p, e1, rs[1..], i - 1);
      assert rs[1..][..i - 1] == rs[..i][1..] && rs[1..][i - 1..] == rs[i..];
    }
  }

  /** At every two moments of a run from a fresh entry the later horizon is no earlier than the earlier one. */
  lemma HorizonMonotone(p: Policy, rs: seq<Report>, i: nat, j: nat)
    requires p.Sane() && ValidReports(rs) && 0 < i <= j <= |rs|
    ensures Run(p, FRESH, rs[..i]).release <= Run(p, FRESH, rs[..j]).release
    ensures WithinHorizon(p, Run(p, FRESH, rs[..j]), rs[j - 1].now)
  {
    hide Run, ValidReports, WithinHorizon;
    PartsAreValid(rs, 0, i);
    PartsAreValid(rs, 0, j);
    FreshIsWithin(p, rs[0].now);
    HorizonOverRuns(p, FRESH, rs[..j]);
    if i < j {
      HorizonOverRuns(p, FRESH, rs[..i]);
      PartsAreValid(rs, i, j);
      LaterIsWithin(p, Run(p, FRESH, rs[..i]), rs, i - 1, i);
      HorizonOverRuns(p, Run(p, FRESH, rs[..i]), rs[i..j]);
      RunSplits(p, FRESH, rs[..j], i);
      assert rs[..j][..i] == rs[..i] && rs[..j][i..] == rs[i..j];
    }
  }

  lemma PartsAreValid(rs: seq<Report>, i: nat, j: nat)
    requires ValidReports(rs) && i <= j <= |rs|
    ensures ValidReports(rs[i..j]) && ValidReports(rs[..j])
    ensures i < j ==> 0 <= rs[i].now
  {
  }

  lemma FreshIsWithin(p: Policy, now: int)
    requires p.Sane() && now >= 0
    ensures WithinHorizon(p, FRESH, now)
  {
  }

  lemma LaterIsWithin(p: Policy, e: Entry, rs: seq<Report>, i: nat, j: nat)
    requires ValidReports(rs) && i <= j < |rs| && WithinHorizon(p, e, rs[i].now)
    ensures WithinHorizon(p, e, rs[j].now)
  {
  }

  // ------------------------------------------------------------------
  // Discarding
  // ------------------------------------------------------------------

  /** Durations are turned into whole milliseconds towards zero. */
  function InMilliseconds(us: int): int {
    if us >= 0 then us / US_PER_MS else -((-us) / US_PER_MS)
  }

  /** How long an entry has to lie unused, in milliseconds, before it may go. */
  function KeepMs(p: Policy, e: Entry): int {
    if e.failureCount > 0 then Max(p.maximumBackoffMs, p.entryLifetimeMs) else p.entryLifetimeMs
  }

  predicate CanDiscard(p: Policy, e: Entry, now: int) {
    && p.entryLifetimeMs != -1
    && InMilliseconds(Saturated(now - e.release)) >= 0
    && InMilliseconds(Saturated(now - e.release)) >= KeepMs(p, e)
  }

  /** Nobody reporting, an entry that may be discarded may still be discarded later. */
  lemma DiscardStays(p: Policy, e: Entry, now: int, later: int)
    requires IsI64(now) && IsI64(later) && IsI64(e.release) && now <= later && CanDiscard(p, e, now)
    ensures CanDiscard(p, e, later)
  {
  }

  /**
   * An entry that may be discarded is not rejecting requests, except in one case: the
   * release is less than a millisecond away, which counts as none, and the entry is to be
   * kept for no time at all.
   */
  lemma DiscardWhileRejecting(p: Policy, e: Entry, now: int)
    requires IsI64(now) && IsI64(e.release)
    ensures CanDiscard(p, e, now) && ShouldRejectRequest(e, now)
       <==> p.entryLifetimeMs != -1 && KeepMs(p, e) <= 0 && 0 < e.release - now < US_PER_MS
  {
  }

  /** For instance an entry of no lifetime, one microsecond before its release. */
  lemma DiscardedTooEarly()
    ensures var p := Policy(0, 0, 1.0, 0.0, -1, 0, false);
            CanDiscard(p, Entry(0, 1), 0) && ShouldRejectRequest(Entry(0, 1), 0)
  {
    DiscardWhileRejecting(Policy(0, 0, 1.0, 0.0, -1, 0, false), Entry(0, 1), 0);
  }
}
