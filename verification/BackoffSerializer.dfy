/** The back-off entry as an object, and its serialization across restarts and clock changes. */
module BackoffSerializer {
  import opened Numbers
  import opened Options
  import opened Backoff

  class BackoffEntry {
    const policy: Policy
    var failureCount: nat
    var release: int

    ghost function View(): Entry
      reads this
    {
      Entry(failureCount, release)
    }

    constructor (p: Policy)
      ensures policy == p && View() == FRESH
    {
      policy := p;
      failureCount, release := 0, 0;
    }

    method CalculateReleaseTime(now: int, random: real) returns (r: int)
      ensures r == Backoff.CalculateReleaseTime(policy, View(), now, random)
    {
      hide Jittered;
      var effective := Max(0, failureCount - policy.numErrorsToIgnore);
      if policy.alwaysUseInitialDelay {
        effective := effective + 1;
      }
      if effective == 0 {
        return Max(now, release);
      }
      assert effective == EffectiveFailures(policy, failureCount);
      var delayMs := policy.initialDelayMs as real * Pow(policy.multiplyFactor, effective - 1);
      assert delayMs == BaseDelayMs(policy, effective);
      delayMs := Jittered(delayMs, policy.jitterFactor, random);
      var duration := CheckedOf(delayMs + 0.5).Times(US_PER_MS).ValueOrMax();
      var releaseTime := BackoffDurationToReleaseTime(policy, now, duration);
      return Max(releaseTime, release);
    }

    method InformOfRequest(now: int, succeeded: bool, random: real)
      modifies this
      ensures View() == Backoff.InformOfRequest(policy, old(View()), now, succeeded, random)
    {
      if !succeeded {
        failureCount := failureCount + 1;
        release := CalculateReleaseTime(now, random);
      } else {
        if failureCount > 0 {
          failureCount := failureCount - 1;
        }
        var delay := 0;
        if policy.alwaysUseInitialDelay {
          delay := policy.initialDelayMs * US_PER_MS;
        }
        release := Max(Saturated(now + delay), release);
      }
    }

    method SetCustomReleaseTime(releaseTime: int)
      modifies this
      ensures View() == old(View()).(release := releaseTime)
    {
      release := releaseTime;
    }

    method Reset()
      modifies this
      ensures View() == FRESH
    {
      failureCount, release := 0, 0;
    }
  }

  // ------------------------------------------------------------------
  // The serialized form
  // ------------------------------------------------------------------

  const FORMAT_VERSION: int := 1
  const US_PER_SECOND: real := 1000000.0

  /** A string value is told by the 64-bit number it spells, if it spells one. */
  datatype Value = Integer(i: int) | Double(d: real) | Text(number: Option<int>) | List(items: seq<Value>) | Other

  function Serialize(e: Entry, ticksNow: int, timeNow: int): Value {
    var duration := Saturated(e.release - ticksNow);
    List([Integer(FORMAT_VERSION), Integer(e.failureCount), Double(duration as real / US_PER_SECOND),
          Text(Some(Saturated(duration + timeNow)))])
  }

  /** Seconds to microseconds, saturating. */
  function FromSeconds(d: real): int {
    Saturated(Truncated(d * US_PER_SECOND))
  }

  lemma SecondsRoundTrip(us: int)
    requires IsI64(us)
    ensures FromSeconds(us as real / US_PER_SECOND) == us
  {
    assert us as real / US_PER_SECOND * US_PER_SECOND == us as real;
  }

  /** The stored form: a version, the count, the time left in seconds, and the wall-clock release time. */
  lemma StoredForm(e: Entry, ticksNow: int, timeNow: int)
    requires IsI64(e.release - ticksNow) && IsI64(e.release - ticksNow + timeNow)
    ensures var v := Serialize(e, ticksNow, timeNow);
            && v.List? && |v.items| == 4
            && v.items[0] == Integer(1) && v.items[1] == Integer(e.failureCount)
            && v.items[2].Double? && v.items[2].d * 1000000.0 == (e.release - ticksNow) as real
            && v.items[3] == Text(Some(e.release - ticksNow + timeNow))
  {
  }

  /** The three stored fields, when the value has the right form. */
  datatype Fields = Fields(failureCount: nat, duration: int, absoluteRelease: int)

  function Parse(v: Value): Option<Fields> {
    if !v.List? || |v.items| != 4 then None
    else if !v.items[0].Integer? || v.items[0].i != FORMAT_VERSION then None
    else if !v.items[1].Integer? || v.items[1].i < 0 then None
    else if !v.items[2].Double? && !v.items[2].Integer? then None
    else if !v.items[3].Text? || v.items[3].number.None? || v.items[3].number.value < 0 then None
    else
      var seconds := if v.items[2].Double? then v.items[2].d else v.items[2].i as real;
      Some(Fields(v.items[1].i, FromSeconds(seconds), v.items[3].number.value))
  }

  /** What is accepted: four items, the version, a count, a number and the text of a time, neither of them negative. */
  lemma AcceptedExactly(v: Value)
    ensures Parse(v).Some? <==>
              && v.List? && |v.items| == 4 && v.items[0] == Integer(1)
              && v.items[1].Integer? && 0 <= v.items[1].i
              && (v.items[2].Double? || v.items[2].Integer?)
              && v.items[3].Text? && v.items[3].number.Some? && 0 <= v.items[3].number.value
    ensures Parse(v).Some? ==>
              Parse(v).value.failureCount == v.items[1].i && Parse(v).value.absoluteRelease == v.items[3].number.value
  {
  }

  /** The remaining time after a restart: by the wall clock, but no more than there was. */
  function RemainingAfter(f: Fields, timeNow: int): int {
    Min(Saturated(f.absoluteRelease - timeNow), f.duration)
  }

  method Deserialize(v: Value, p: Policy, ticksNow: int, timeNow: int, randoms: nat -> real)
    returns (entry: BackoffEntry?)
    ensures entry == null <==> Parse(v).None?
    ensures entry != null ==> fresh(entry) && entry.policy == p
    ensures entry != null ==>
              var f := Parse(v).value;
              var release := BackoffDurationToReleaseTime(p, ticksNow, RemainingAfter(f, timeNow));
              entry.View() == Entry(f.failureCount, release)
  {
    if Parse(v).None? { return null; }
    var f := Parse(v).value;
    var e := new BackoffEntry(p);
    for n := 0 to f.failureCount
      invariant fresh(e) && e.policy == p && e.failureCount == n
    {
      e.InformOfRequest(ticksNow, false, randoms(n));
    }
    var backoffDuration := Saturated(f.absoluteRelease - timeNow);
    if backoffDuration > f.duration {
      backoffDuration := f.duration;
    }
    e.SetCustomReleaseTime(BackoffDurationToReleaseTime(p, ticksNow, backoffDuration));
    return e;
  }

  // ------------------------------------------------------------------
  // The round trip
  // ------------------------------------------------------------------

  /** What a saved entry comes back as, under the same policy, at later clock readings. */
  function Restored(e: Entry, p: Policy, ticks0: int, time0: int, ticks1: int, time1: int): Option<Entry> {
    match Parse(Serialize(e, ticks0, time0))
    case None => None
    case Some(f) => Some(Entry(f.failureCount, BackoffDurationToReleaseTime(p, ticks1, RemainingAfter(f, time1))))
  }

  /** The longest wait the policy allows from now on, if it has a maximum. */
  function CapUs(p: Policy): int {
    if p.maximumBackoffMs >= 0 then p.maximumBackoffMs * US_PER_MS else I64_MAX
  }

  /**
   * A saved entry comes back unless its absolute release time is negative. Its failure
   * count is restored, and the remaining time is the least of what the wall clock says,
   * what remained when it was saved, and the policy's maximum.
   */
  lemma RoundTrip(e: Entry, p: Policy, ticks0: int, time0: int, ticks1: int, time1: int)
    requires p.Sane() && IsI64(e.release) && IsI64(time0) && IsI64(time1) && IsI64(ticks0) && 0 <= ticks1 <= I64_MAX
    ensures var saved := Saturated(e.release - ticks0);
            var absolute := Saturated(saved + time0);
            var r := Restored(e, p, ticks0, time0, ticks1, time1);
            if absolute < 0 then r == None
            else r == Some(Entry(e.failureCount,
                                 Min(I64_MAX, ticks1 + Min(Min(Saturated(absolute - time1), saved), CapUs(p)))))
  {
    var saved := Saturated(e.release - ticks0);
    SecondsRoundTrip(saved);
    var absolute := Saturated(saved + time0);
    if absolute >= 0 {
      var f := Fields(e.failureCount, saved, absolute);
      assert Parse(Serialize(e, ticks0, time0)) == Some(f);
      ReleaseTimeIsCapped(p, ticks1, RemainingAfter(f, time1));
    }
  }

  /** Whatever the wall clock does in between, the remaining time does not grow. */
  lemma RemainingNeverGrows(e: Entry, p: Policy, ticks0: int, time0: int, ticks1: int, time1: int)
    requires p.Sane() && IsI64(e.release) && IsI64(time0) && IsI64(time1) && IsI64(ticks0) && 0 <= ticks1 <= I64_MAX
    ensures var r := Restored(e, p, ticks0, time0, ticks1, time1);
            r.Some? ==> r.value.release - ticks1 <= Saturated(e.release - ticks0)
  {
    RoundTrip(e, p, ticks0, time0, ticks1, time1);
  }

  /**
   * When both clocks advance together and nothing saturates, the release time itself is
   * preserved exactly when it lies within the policy's maximum from now.
   */
  lemma ReleasePreserved(e: Entry, p: Policy, ticks0: int, time0: int, elapsed: nat)
    requires p.Sane() && IsI64(e.release) && 0 <= ticks0 && ticks0 + elapsed <= I64_MAX
    requires 0 <= time0 && time0 + elapsed <= I64_MAX
    requires 0 <= e.release - ticks0 + time0 <= I64_MAX
    ensures var r := Restored(e, p, ticks0, time0, ticks0 + elapsed, time0 + elapsed);
            && r.Some? && r.value.failureCount == e.failureCount
            && (r.value.release == e.release <==> e.release - (ticks0 + elapsed) <= CapUs(p))
  {
    RoundTrip(e, p, ticks0, time0, ticks0 + elapsed, time0 + elapsed);
  }

  /** A wall clock set back leaves the remaining time as it was saved, up to the policy's maximum. */
  lemma RewoundClock(e: Entry, p: Policy, ticks0: int, time0: int, ticks1: int, time1: int)
    requires p.Sane() && IsI64(e.release) && 0 <= ticks0 <= I64_MAX && 0 <= ticks1 <= I64_MAX
    requires 0 <= time1 <= time0 <= I64_MAX
    requires 0 <= e.release - ticks0 + time0 <= I64_MAX && ticks1 + (e.release - ticks0) <= I64_MAX
    ensures Restored(e, p, ticks0, time0, ticks1, time1)
         == Some(Entry(e.failureCount, ticks1 + Min(e.release - ticks0, CapUs(p))))
  {
    RoundTrip(e, p, ticks0, time0, ticks1, time1);
  }
}
