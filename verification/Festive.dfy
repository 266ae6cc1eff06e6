/**
 * The Festive rate-adaptation rule: one step at a time towards the quality the bandwidth
 * allows, with patience on the way up and a score that has to pay for the change.
 */
module Festive {
  import opened Options
  import opened Reals

  const DIMINUATION := 0.85
  const ALPHA := 12.0
  const HORIZON := 5
  const SWITCH_UP_THRESHOLD: seq<nat> := [0, 1, 2, 3, 4, 5, 6, 7, 8, 9]

  /** The bitrates of the qualities: at least one, positive, ascending. */
  predicate Ladder(rates: seq<real>) {
    && |rates| > 0
    && (forall i :: 0 <= i < |rates| ==> rates[i] > 0.0)
    && (forall i, j :: 0 <= i < j < |rates| ==> rates[i] < rates[j])
  }

  /** The best quality within the bitrate; the lowest if none is. */
  ghost predicate Selects(rates: seq<real>, bitrate: real, quality: nat) {
    && quality < |rates|
    && (quality > 0 ==> bitrate >= rates[quality])
    && (forall j :: quality < j < |rates| ==> bitrate < rates[j])
  }

  // ------------------------------------------------------------------
  // The decision, for any outcome of the scores
  // ------------------------------------------------------------------

  datatype Memory = Memory(quality: nat, count: nat)

  /** Past the end of the thresholds the comparison is with nothing and fails. */
  predicate Patient(count: nat, quality: nat) {
    quality < |SWITCH_UP_THRESHOLD| && count > SWITCH_UP_THRESHOLD[quality]
  }

  /** The quality under consideration. */
  function Reference(m: Memory, target: nat): nat {
    if target > m.quality then (if Patient(m.count + 1, m.quality) then m.quality + 1 else m.quality)
    else if target < m.quality then m.quality - 1
    else m.quality
  }

  /** `keeps` says that the score of the reference does not beat the current one. */
  function Decide(m: Memory, target: nat, keeps: bool): Memory {
    var reference := Reference(m, target);
    var count := if target > m.quality then m.count + 1 else 0;
    if reference == m.quality || keeps then Memory(m.quality, count)
    else Memory(reference, if reference > m.quality then 0 else count)
  }

  /** One level at most, towards the target and never past it. */
  lemma MovesTowardsTarget(m: Memory, target: nat, keeps: bool, n: nat)
    requires m.quality < n && target < n
    ensures var q := Decide(m, target, keeps).quality;
            && q < n
            && (m.quality <= target ==> m.quality <= q <= target && q <= m.quality + 1)
            && (target <= m.quality ==> target <= q <= m.quality && m.quality <= q + 1)
  {
  }

  datatype Input = Input(target: nat, keeps: bool)

  datatype Step = Step(target: nat, before: nat, after: nat)

  function Run(inputs: seq<Input>): Memory {
    if inputs == [] then Memory(0, 0)
    else
      var n := |inputs| - 1;
      Decide(Run(inputs[..n]), inputs[n].target, inputs[n].keeps)
  }

  function History(inputs: seq<Input>): (h: seq<Step>)
    ensures |h| == |inputs|
  {
    if inputs == [] then []
    else
      var n := |inputs| - 1;
      History(inputs[..n]) + [Step(inputs[n].target, Run(inputs[..n]).quality, Run(inputs).quality)]
  }

  /** The last `count` decisions were all at this quality, kept it, and aimed higher. */
  ghost predicate Waited(h: seq<Step>, m: Memory) {
    && m.count <= |h|
    && (forall j :: |h| - m.count <= j < |h| ==> h[j].before == h[j].after == m.quality && h[j].target > m.quality)
  }

  lemma {:induction false} CountMeansWaiting(inputs: seq<Input>)
    ensures Waited(History(inputs), Run(inputs))
  {
    if inputs != [] {
      var n := |inputs| - 1;
      CountMeansWaiting(inputs[..n]);
    }
  }

  /** The step stays at this quality and aims higher. */
  ghost predicate IsWaiting(step: Step, quality: nat) {
    step.before == step.after == quality && step.target > quality
  }

  /** In every run the count is the number of decisions in a row, up to now, that have waited at the quality. */
  lemma {:induction false} CountExactly(inputs: seq<Input>)
    ensures var h, m := History(inputs), Run(inputs);
            && m.count <= |h|
            && (forall j :: |h| - m.count <= j < |h| ==> IsWaiting(h[j], m.quality))
            && (m.count < |h| ==> !IsWaiting(h[|h| - m.count - 1], m.quality))
  {
    if inputs != [] {
      CountExactly(inputs[..|inputs| - 1]);
    }
  }

  lemma {:induction false} HistoryPrefix(inputs: seq<Input>, k: nat)
    requires k < |inputs|
    ensures History(inputs)[..k + 1] == History(inputs[..k + 1])
  {
    var n := |inputs| - 1;
    if k == n {
      assert inputs[..k + 1] == inputs;
      assert History(inputs)[..k + 1] == History(inputs);
    } else {
      HistoryPrefix(inputs[..n], k);
      assert inputs[..n][..k + 1] == inputs[..k + 1];
      assert History(inputs)[..k + 1] == History(inputs[..n])[..k + 1];
    }
  }

  /** Step `k` does not climb, or climbs one level from q after q + 1 steps at q that aimed higher. */
  ghost predicate ClimbsPatiently(h: seq<Step>, k: nat)
    requires k < |h|
  {
    var q := h[k].before;
    h[k].after > q ==>
      q <= k && h[k].after == q + 1 && forall j :: k - q <= j <= k ==> h[j].before == q && h[j].target > q
  }

  /** From each of the first ten levels one more than its number; never from above. */
  lemma PatientMeansMore(count: nat, quality: nat)
    ensures Patient(count, quality) <==> quality <= 9 && count >= quality + 1
  {
  }

  lemma ClimbStep(h: seq<Step>, m: Memory, target: nat, keeps: bool)
    requires Waited(h, m)
    ensures ClimbsPatiently(h + [Step(target, m.quality, Decide(m, target, keeps).quality)], |h|)
  {
    hide Patient;
    PatientMeansMore(m.count + 1, m.quality);
  }

  lemma LastClimbsPatiently(inputs: seq<Input>)
    requires inputs != []
    ensures ClimbsPatiently(History(inputs), |inputs| - 1)
  {
    hide Run, History, Decide, ClimbsPatiently;
    var k := |inputs| - 1;
    CountMeansWaiting(inputs[..k]);
    ClimbStep(History(inputs[..k]), Run(inputs[..k]), inputs[k].target, inputs[k].keeps);
    HistoryEnds(inputs);
  }

  lemma HistoryEnds(inputs: seq<Input>)
    requires inputs != []
    ensures var k := |inputs| - 1;
            var m := Run(inputs[..k]);
            History(inputs) == History(inputs[..k])
              + [Step(inputs[k].target, m.quality, Decide(m, inputs[k].target, inputs[k].keeps).quality)]
  {
  }

  /**
   * In every run, for any scores: an up-switch from level q comes only after at least
   * q + 1 decisions in a row at q that aimed higher, the switching one included.
   */
  lemma UpSwitchIsPatient(inputs: seq<Input>, k: nat)
    requires k < |inputs|
    ensures ClimbsPatiently(History(inputs), k)
  {
    LastClimbsPatiently(inputs[..k + 1]);
    HistoryPrefix(inputs, k);
    PrefixClimbs(History(inputs), k);
  }

  lemma PrefixClimbs(h: seq<Step>, k: nat)
    requires k < |h| && ClimbsPatiently(h[..k + 1], k)
    ensures ClimbsPatiently(h, k)
  {
    var p := h[..k + 1];
    assert forall j :: 0 <= j <= k ==> p[j] == h[j];
  }

  /** In every run the quality stays on the ladder. */
  lemma {:induction false} StaysOnLadder(inputs: seq<Input>, n: nat)
    requires n > 0 && forall k :: 0 <= k < |inputs| ==> inputs[k].target < n
    ensures Run(inputs).quality < n
  {
    if inputs != [] {
      var last := |inputs| - 1;
      StaysOnLadder(inputs[..last], n);
      MovesTowardsTarget(Run(inputs[..last]), inputs[last].target, inputs[last].keeps, n);
    }
  }

  // ------------------------------------------------------------------
  // The scores
  // ------------------------------------------------------------------

  function Lookup(log: map<nat, real>, i: nat): Option<real> {
    if i in log then Some(log[i]) else None
  }

  /** How often the logged quality changes between the indices `first` and `last`. */
  function Changes(log: map<nat, real>, first: nat, last: nat): nat
    requires first <= last
    decreases last
  {
    if first == last then 0
    else (if Lookup(log, last - 1) != Lookup(log, last) then 1 else 0) + Changes(log, first, last - 1)
  }

  function Start(last: nat): nat {
    if last + 1 <= HORIZON then 0 else last + 1 - HORIZON
  }

  function RecentChanges(log: map<nat, real>, last: nat): nat {
    Changes(log, Start(last), last)
  }

  function Pow2(n: nat): real {
    if n == 0 then 1.0 else 2.0 * Pow2(n - 1)
  }

  /** The combined score of quality `b` when the divisor is not zero. */
  function Score(rates: seq<real>, b: nat, reference: nat, current: nat, w: real, changes: nat): real
    requires b < |rates| && reference < |rates| && Min(w, rates[reference]) != 0.0
  {
    Pow2(changes + if b != current then 1 else 0) + ALPHA * Abs(rates[b] / Min(w, rates[reference]) - 1.0)
  }

  /** With a zero divisor both scores are infinite, and equal. */
  predicate Keeps(rates: seq<real>, reference: nat, current: nat, w: real, changes: nat)
    requires reference < |rates| && current < |rates|
  {
    var divisor := Min(w, rates[reference]);
    divisor == 0.0 ||
    Score(rates, current, reference, current, w, changes) <= Score(rates, reference, reference, current, w, changes)
  }

  lemma ChangesBounded(log: map<nat, real>, first: nat, last: nat)
    requires first <= last
    ensures Changes(log, first, last) <= last - first
    decreases last
  {
    if first < last {
      ChangesBounded(log, first, last - 1);
    }
  }

  /**
   * Up-switches, exactly: the target is higher, the patience is used up, and the step on
   * the ladder is worth more than the recent changes cost.
   */
  lemma UpSwitchExactly(rates: seq<real>, m: Memory, target: nat, w: real, changes: nat)
    requires Ladder(rates) && m.quality < |rates| && Selects(rates, DIMINUATION * w, target)
    ensures var reference := Reference(m, target);
            var keeps := Keeps(rates, reference, m.quality, w, changes);
            Decide(m, target, keeps).quality > m.quality <==>
              && target > m.quality && Patient(m.count + 1, m.quality)
              && ALPHA * (1.0 - rates[m.quality] / rates[m.quality + 1]) > Pow2(changes)
  {
    var q := m.quality;
    if target > q && Patient(m.count + 1, q) {
      var next := rates[q + 1];
      assert next <= rates[target];
      assert w >= next by {
        assert DIMINUATION * w >= rates[target] > 0.0;
      }
      RatioBelowOne(rates[q], next);
      assert next / next == 1.0;
      assert Pow2(changes + 1) == 2.0 * Pow2(changes);
      assert Score(rates, q, q + 1, q, w, changes) == Pow2(changes) + ALPHA * (1.0 - rates[q] / next);
      assert Score(rates, q + 1, q + 1, q, w, changes) == 2.0 * Pow2(changes);
    }
  }

  /** The step down is worth more than the recent changes cost: twelve times its height against their power of two. */
  ghost predicate WorthGoingDown(rates: seq<real>, q: nat, w: real, changes: nat)
    requires 1 <= q < |rates|
  {
    12.0 * (rates[q] - rates[q - 1]) > Pow2(changes) * Abs(Min(w, rates[q - 1]))
  }

  /**
   * Down-switches, exactly: the target is lower, the bandwidth is not zero, and the step on
   * the ladder, in parts of what the link can carry, is worth more than the recent changes cost.
   */
  lemma DownSwitchExactly(rates: seq<real>, m: Memory, target: nat, w: real, changes: nat)
    requires Ladder(rates) && m.quality < |rates| && Selects(rates, DIMINUATION * w, target)
    ensures var reference := Reference(m, target);
            var keeps := Keeps(rates, reference, m.quality, w, changes);
            Decide(m, target, keeps).quality < m.quality <==>
              target < m.quality && w != 0.0 && WorthGoingDown(rates, m.quality, w, changes)
  {
    hide WorthGoingDown;
    var q := m.quality;
    if target < q {
      var divisor := Min(w, rates[q - 1]);
      assert divisor == 0.0 <==> w == 0.0;
      if w != 0.0 {
        KeepsBelow(rates, q, w, changes);
      }
      hide Keeps, Pow2;
    }
  }

  /** The score keeps the current quality against the one below exactly if the gain does not exceed the cost. */
  lemma KeepsBelow(rates: seq<real>, q: nat, w: real, changes: nat)
    requires Ladder(rates) && 1 <= q < |rates| && w != 0.0
    ensures Min(w, rates[q - 1]) != 0.0
    ensures Keeps(rates, q - 1, q, w, changes) <==> !WorthGoingDown(rates, q, w, changes)
  {
    var low, high, divisor := rates[q - 1], rates[q], Min(w, rates[q - 1]);
    assert 0.0 < low < high;
    assert Pow2(changes + 1) == 2.0 * Pow2(changes);
    var cost, here, below := Pow2(changes), Abs(high / divisor - 1.0), Abs(low / divisor - 1.0);
    assert Score(rates, q, q - 1, q, w, changes) == cost + ALPHA * here;
    assert Score(rates, q - 1, q - 1, q, w, changes) == 2.0 * cost + ALPHA * below;
    ScoreGain(low, high, divisor);
    hide Pow2, Score;
    ScoresCompare(here, below, cost, high - low, Abs(divisor));
  }

  lemma ScoresCompare(here: real, below: real, cost: real, gain: real, d: real)
    requires d > 0.0 && here - below == gain / d
    ensures cost + 12.0 * here <= 2.0 * cost + 12.0 * below <==> 12.0 * gain <= cost * d
  {
    var x := gain / d;
    assert x * d == gain;
    var y := cost - 12.0 * x;
    assert y * d == cost * d - 12.0 * gain;
    SignMatches(y, d);
  }

  lemma SignMatches(y: real, d: real)
    requires d > 0.0
    ensures y >= 0.0 <==> y * d >= 0.0
  {
  }

  /** Going down a step gains its height in parts of the divisor. */
  lemma ScoreGain(low: real, high: real, divisor: real)
    requires 0.0 < low < high && divisor != 0.0 && divisor <= low
    ensures Abs(high / divisor - 1.0) - Abs(low / divisor - 1.0) == (high - low) / Abs(divisor)
  {
    var x, y := high / divisor, low / divisor;
    assert x - y == (high - low) / divisor;
    if divisor > 0.0 {
      QuotientAtLeastOne(low, divisor);
      QuotientAtLeastOne(high, divisor);
    } else {
      NegativeQuotient(low, divisor);
      NegativeQuotient(high, divisor);
      assert (high - low) / divisor == -((high - low) / (-divisor));
    }
  }

  lemma QuotientAtLeastOne(a: real, b: real)
    requires 0.0 < b <= a
    ensures a / b >= 1.0
  {
    var x := a / b;
    assert x * b == a;
    assert (x - 1.0) * b == a - b;
    SignAtLeastZero(x - 1.0, b);
  }

  lemma SignAtLeastZero(y: real, b: real)
    requires b > 0.0 && y * b >= 0.0
    ensures y >= 0.0
  {
  }

  lemma NegativeQuotient(a: real, b: real)
    requires a > 0.0 && b < 0.0
    ensures a / b < 0.0
  {
  }

  lemma RatioBelowOne(a: real, b: real)
    requires 0.0 < a < b
    ensures 0.0 < a / b < 1.0
  {
    FactorBelowOne(a / b, b, a);
  }

  lemma FactorBelowOne(x: real, b: real, a: real)
    requires x * b == a && 0.0 < a < b
    ensures x < 1.0
  {
    var rest := (1.0 - x) * b;
    assert rest == b - a;
    SignOfFactor(1.0 - x, b);
  }

  lemma SignOfFactor(y: real, b: real)
    requires b > 0.0 && y * b > 0.0
    ensures y > 0.0
  {
  }

  /** The powers of two that occur. */
  lemma Powers()
    ensures Pow2(0) == 1.0 && Pow2(1) == 2.0 && Pow2(2) == 4.0 && Pow2(3) == 8.0 && Pow2(4) == 16.0 && Pow2(5) == 32.0
  {
    assert Pow2(3) == 2.0 * Pow2(2);
    assert Pow2(4) == 2.0 * Pow2(3);
    assert Pow2(5) == 2.0 * Pow2(4);
  }

  predicate ChangedAfter(log: map<nat, real>, i: nat) {
    Lookup(log, i) != Lookup(log, i + 1)
  }

  ghost function ChangesAt(log: map<nat, real>, first: nat, last: nat): set<nat> {
    set i: nat | first <= i < last && ChangedAfter(log, i)
  }

  lemma {:induction false} ChangesCounted(log: map<nat, real>, first: nat, last: nat)
    requires first <= last
    ensures Changes(log, first, last) == |ChangesAt(log, first, last)|
    decreases last
  {
    if first < last {
      ChangesCounted(log, first, last - 1);
      var before, here := ChangesAt(log, first, last - 1), last - 1;
      assert ChangesAt(log, first, last)
          == if ChangedAfter(log, here) then before + {here} else before;
    }
  }

  /** The changes that count are those between neighbours among the last five indices. */
  lemma RecentChangesCounted(log: map<nat, real>, last: nat)
    ensures RecentChanges(log, last)
         == |set i: nat | i < last && last <= i + 4 && ChangedAfter(log, i)|
  {
    ChangesCounted(log, Start(last), last);
    assert ChangesAt(log, Start(last), last)
        == set i: nat | i < last && last <= i + 4 && ChangedAfter(log, i);
  }

  /** Four changes among the last five segments rule out every up-switch. */
  lemma RestlessNeverClimbs(rates: seq<real>, m: Memory, target: nat, w: real, log: map<nat, real>, last: nat)
    requires Ladder(rates) && m.quality < |rates| && Selects(rates, DIMINUATION * w, target)
    ensures RecentChanges(log, last) <= HORIZON - 1
    ensures RecentChanges(log, last) == HORIZON - 1 ==>
              var reference := Reference(m, target);
              var keeps := Keeps(rates, reference, m.quality, w, RecentChanges(log, last));
              Decide(m, target, keeps).quality <= m.quality
  {
    var changes := RecentChanges(log, last);
    ChangesBounded(log, Start(last), last);
    UpSwitchExactly(rates, m, target, w, changes);
    if changes == 4 && m.quality + 1 < |rates| {
      RatioBelowOne(rates[m.quality], rates[m.quality + 1]);
      assert Pow2(1) == 2.0 && Pow2(2) == 4.0 && Pow2(3) == 8.0 && Pow2(4) == 16.0;
    }
  }
}

/** The algorithm object. */
module FestiveObject {
  import F = Festive

  class Festive {
    const rates: seq<real>
    var qualityLog: map<nat, real>
    var prevQuality: nat
    var lastIndex: nat
    var switchUpCount: nat

    ghost predicate Valid()
      reads this
    {
      F.Ladder(rates) && prevQuality < |rates|
    }

    ghost function Value(): F.Memory
      reads this
    {
      F.Memory(prevQuality, switchUpCount)
    }

    constructor (rates: seq<real>)
      requires F.Ladder(rates)
      ensures Valid() && this.rates == rates && Value() == F.Memory(0, 0)
      ensures qualityLog == map[0 := 0.0] && lastIndex == 0
    {
      this.rates := rates;
      qualityLog, prevQuality, lastIndex, switchUpCount := map[0 := 0.0], 0, 0, 0;
    }

    method SelectQuality(bitrate: real) returns (quality: nat)
      requires Valid()
      ensures F.Selects(rates, bitrate, quality)
    {
      quality := |rates|;
      var i := |rates| - 1;
      while i >= 0
        invariant -1 <= i < |rates| && quality == i + 1
        invariant forall j :: i < j < |rates| ==> bitrate < rates[j]
      {
        quality := i;
        if bitrate >= rates[i] {
          return;
        }
        i := i - 1;
      }
    }

    method CountChanges() returns (changes: nat)
      requires Valid()
      ensures changes == F.RecentChanges(qualityLog, lastIndex)
    {
      changes := 0;
      if lastIndex >= 1 {
        var start := F.Start(lastIndex);
        var i: nat := start;
        while i <= lastIndex - 1
          invariant start <= i <= lastIndex
          invariant changes == F.Changes(qualityLog, start, i)
        {
          if F.Lookup(qualityLog, i) != F.Lookup(qualityLog, i + 1) {
            changes := changes + 1;
          }
          i := i + 1;
        }
      }
    }

    method GetDecision(prediction: real, index: nat) returns (quality: nat)
      requires Valid()
      modifies this
      ensures Valid() && quality == prevQuality && lastIndex == index
      ensures qualityLog == old(qualityLog)[index := rates[quality]]
      ensures exists target ::
                && F.Selects(rates, 0.85 * prediction, target)
                && var changes := F.RecentChanges(old(qualityLog), old(lastIndex));
                   var reference := F.Reference(old(Value()), target);
                   && reference < |rates|
                   && Value() == F.Decide(old(Value()), target,
                        F.Keeps(rates, reference, old(prevQuality), prediction, changes))
    {
      var target := SelectQuality(F.DIMINUATION * prediction);
      var current, reference := prevQuality, 0;
      if target > current {
        switchUpCount := switchUpCount + 1;
        if current < |F.SWITCH_UP_THRESHOLD| && switchUpCount > F.SWITCH_UP_THRESHOLD[current] {
          reference := current + 1;
        } else {
          reference := current;
        }
      } else if target < current {
        reference := current - 1;
        switchUpCount := 0;
      } else {
        reference := current;
        switchUpCount := 0;
      }
      if reference != current {
        var changes := CountChanges();
        if F.Keeps(rates, reference, current, prediction, changes) {
          quality := current;
        } else {
          quality := reference;
          if quality > current {
            switchUpCount := 0;
          }
        }
      } else {
        quality := current;
      }
      qualityLog := qualityLog[index := rates[quality]];
      prevQuality := quality;
      lastIndex := index;
      assert reference == F.Reference(old(Value()), target);
    }
  }
}
