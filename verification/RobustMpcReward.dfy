/**
 * What a plan's reward is made of: sums over the plan and the worst deficit of the buffer,
 * without the simulation.
 */
module RobustMpcReward {
  import opened Reals
  import opened RobustMpc

  // ------------------------------------------------------------------
  // Sums over a plan
  // ------------------------------------------------------------------

  ghost function RateSum(v: Video, plan: seq<nat>): real
    requires IsPlan(v, plan)
    decreases |plan|
  {
    if plan == [] then 0.0 else v.bitRates[plan[0]] as real + RateSum(v, plan[1..])
  }

  /** How far the bit rate moves along the plan, up or down. */
  ghost function Switching(v: Video, last: nat, plan: seq<nat>): (r: real)
    requires last < v.Rates() && IsPlan(v, plan)
    ensures r >= 0.0
    decreases |plan|
  {
    if plan == [] then 0.0
    else Distance(v.bitRates[last], v.bitRates[plan[0]]) + Switching(v, plan[0], plan[1..])
  }

  ghost function Distance(a: nat, b: nat): (d: real)
    ensures d >= 0.0
  {
    (if a <= b then b - a else a - b) as real
  }

  lemma {:induction false} SimSums(v: Video, s: Sim, plan: seq<nat>, index: int, bandwidth: real)
    requires v.Valid() && IsPlan(v, plan) && s.lastQuality < v.Rates() && bandwidth > 0.0
    ensures var e := SimPlan(v, s, plan, index, bandwidth);
            && e.bitRateSum == s.bitRateSum + RateSum(v, plan)
            && e.smoothness == s.smoothness + Switching(v, s.lastQuality, plan)
    decreases |plan|
  {
    if plan != [] {
      hide DownloadTime;
      SimSums(v, SimStep(v, s, plan[0], index, bandwidth), plan[1..], index + 1, bandwidth);
    }
  }

  // ------------------------------------------------------------------
  // The worst deficit
  // ------------------------------------------------------------------

  /** How much playable time is short when segment `k` of the plan has come in, had nobody waited. */
  ghost function Deficit(v: Video, plan: seq<nat>, index: int, bandwidth: real, buffer: real, k: nat): real
    requires v.Valid() && IsPlan(v, plan) && bandwidth > 0.0 && 1 <= k <= |plan|
  {
    TotalDownload(v, plan[..k], index, bandwidth) - TotalTime(v, plan[..k - 1], index) - buffer
  }

  /** `r` is the worst deficit along the plan, or zero if there is none. */
  ghost predicate IsWorstDeficit(v: Video, plan: seq<nat>, index: int, bandwidth: real, buffer: real, r: real)
    requires v.Valid() && IsPlan(v, plan) && bandwidth > 0.0
  {
    && r >= 0.0
    && (forall k :: 1 <= k <= |plan| ==> Deficit(v, plan, index, bandwidth, buffer, k) <= r)
    && (r == 0.0 || exists k :: 1 <= k <= |plan| && Deficit(v, plan, index, bandwidth, buffer, k) == r)
  }

  lemma FirstDeficit(v: Video, plan: seq<nat>, index: int, bandwidth: real, buffer: real)
    requires v.Valid() && IsPlan(v, plan) && bandwidth > 0.0 && plan != []
    ensures Deficit(v, plan, index, bandwidth, buffer, 1) == DownloadTime(v, plan[0], index, bandwidth) - buffer
  {
    hide DownloadTime;
    assert plan[..1][1..] == [] && plan[..1][0] == plan[0] && plan[..1 - 1] == [];
    assert TotalDownload(v, [], index + 1, bandwidth) == 0.0;
    assert TotalDownload(v, plan[..1], index, bandwidth) == DownloadTime(v, plan[0], index, bandwidth);
  }

  lemma LaterDeficit(v: Video, plan: seq<nat>, index: int, bandwidth: real, buffer: real, k: nat)
    requires v.Valid() && IsPlan(v, plan) && bandwidth > 0.0 && 2 <= k <= |plan|
    ensures Deficit(v, plan, index, bandwidth, buffer, k)
         == Deficit(v, plan[1..], index + 1, bandwidth,
                    buffer - DownloadTime(v, plan[0], index, bandwidth) + v.ChunkTime(plan[0], index), k - 1)
  {
    hide DownloadTime;
    assert plan[..k][1..] == plan[1..][..k - 1];
    assert plan[..k - 1][1..] == plan[1..][..k - 2];
  }

  /** A plan waits for exactly the worst deficit along it. */
  lemma {:induction false} WaitsForWorstDeficit(v: Video, s: Sim, plan: seq<nat>, index: int, bandwidth: real)
    requires v.Valid() && IsPlan(v, plan) && s.lastQuality < v.Rates() && bandwidth > 0.0
    ensures IsWorstDeficit(v, plan, index, bandwidth, s.buffer,
                           SimPlan(v, s, plan, index, bandwidth).rebuffer - s.rebuffer)
    decreases |plan|
  {
    if plan != [] {
      var d, t := DownloadTime(v, plan[0], index, bandwidth), v.ChunkTime(plan[0], index);
      var s1 := SimStep(v, s, plan[0], index, bandwidth);
      var wait := if s.buffer < d then d - s.buffer else 0.0;
      assert s1.rebuffer == s.rebuffer + wait && s1.buffer == s.buffer - d + t + wait;
      WaitsForWorstDeficit(v, s1, plan[1..], index + 1, bandwidth);
      var r := SimPlan(v, s, plan, index, bandwidth).rebuffer - s.rebuffer;
      hide SimPlan, SimStep, DownloadTime, TotalDownload, TotalTime;
      WorstUnfolds(v, plan, index, bandwidth, s.buffer, wait, r);
    }
  }

  lemma WorstUnfolds(v: Video, plan: seq<nat>, index: int, bandwidth: real, buffer: real, wait: real, r: real)
    requires v.Valid() && IsPlan(v, plan) && bandwidth > 0.0 && plan != []
    requires var d := DownloadTime(v, plan[0], index, bandwidth);
             && wait == (if buffer < d then d - buffer else 0.0)
             && IsWorstDeficit(v, plan[1..], index + 1, bandwidth,
                               buffer - d + v.ChunkTime(plan[0], index) + wait, r - wait)
    ensures IsWorstDeficit(v, plan, index, bandwidth, buffer, r)
  {
    var d, t := DownloadTime(v, plan[0], index, bandwidth), v.ChunkTime(plan[0], index);
    var tail, b := plan[1..], buffer - d + t + wait;
    FirstDeficit(v, plan, index, bandwidth, buffer);
    forall k | 2 <= k <= |plan|
      ensures Deficit(v, plan, index, bandwidth, buffer, k)
           == Deficit(v, tail, index + 1, bandwidth, b, k - 1) + wait
    {
      LaterDeficit(v, plan, index, bandwidth, buffer, k);
    }
    hide DownloadTime;
    if r != 0.0 {
      if r - wait == 0.0 {
        assert Deficit(v, plan, index, bandwidth, buffer, 1) == r;
      } else {
        var k :| 1 <= k <= |tail| && Deficit(v, tail, index + 1, bandwidth, b, k) == r - wait;
        assert Deficit(v, plan, index, bandwidth, buffer, k + 1) == r;
      }
    }
  }

  // ------------------------------------------------------------------
  // The reward
  // ------------------------------------------------------------------

  ghost function Waiting(v: Video, x: Situation, plan: seq<nat>): real
    requires Sane(v, x) && IsPlan(v, plan)
  {
    SimPlan(v, Start(x.buffer, x.lastQuality), plan, x.index, x.bandwidth).rebuffer
  }

  /**
   * A plan's reward is its bit rates, less 4.3 for each second of the worst deficit, less
   * its switching, with rates per thousand.
   */
  lemma PlanRewardExactly(v: Video, x: Situation, plan: seq<nat>)
    requires Sane(v, x) && IsPlan(v, plan)
    ensures IsWorstDeficit(v, plan, x.index, x.bandwidth, x.buffer, Waiting(v, x, plan))
    ensures PlanReward(v, x, plan)
         == RateSum(v, plan) / 1000.0 - 4.3 * Waiting(v, x, plan) - Switching(v, x.lastQuality, plan) / 1000.0
  {
    SimSums(v, Start(x.buffer, x.lastQuality), plan, x.index, x.bandwidth);
    WaitsForWorstDeficit(v, Start(x.buffer, x.lastQuality), plan, x.index, x.bandwidth);
  }

  /** And the waiting is what the downloads and the last buffer take beyond the start buffer and the played time. */
  lemma WaitingBalances(v: Video, x: Situation, plan: seq<nat>)
    requires Sane(v, x) && IsPlan(v, plan)
    ensures var e := SimPlan(v, Start(x.buffer, x.lastQuality), plan, x.index, x.bandwidth);
            Waiting(v, x, plan)
            == TotalDownload(v, plan, x.index, x.bandwidth) + e.buffer - x.buffer - TotalTime(v, plan, x.index)
  {
    BufferConservation(v, Start(x.buffer, x.lastQuality), plan, x.index, x.bandwidth);
  }

  /** No plan earns more than its bit rates, and just that exactly if it neither waits nor switches. */
  lemma RewardAtMostRates(v: Video, x: Situation, plan: seq<nat>)
    requires Sane(v, x) && IsPlan(v, plan)
    ensures PlanReward(v, x, plan) <= RateSum(v, plan) / 1000.0
    ensures PlanReward(v, x, plan) == RateSum(v, plan) / 1000.0 <==>
              && (forall k :: 1 <= k <= |plan| ==> Deficit(v, plan, x.index, x.bandwidth, x.buffer, k) <= 0.0)
              && Switching(v, x.lastQuality, plan) == 0.0
  {
    PlanRewardExactly(v, x, plan);
    hide RateSum, Switching, Deficit, PlanReward;
  }

  // ------------------------------------------------------------------
  // The quantities of the video and the link
  // ------------------------------------------------------------------

  /** Eight bits a byte at a million bits a second for each unit of bandwidth. */
  lemma DownloadTimeExactly(v: Video, quality: nat, index: int, bandwidth: real)
    requires v.Valid() && quality < v.Rates() && bandwidth > 0.0
    ensures DownloadTime(v, quality, index, bandwidth) * bandwidth * 1000000.0
         == 8.0 * v.ChunkSize(quality, index) as real
  {
  }

  /** Chunk `k + 1` has the size of segment `k`, chunk zero that of the last, and there are no others. */
  lemma ChunkSizesByNumber(v: Video, quality: nat, k: int)
    requires v.Valid() && quality < v.Rates()
    ensures 0 <= k < |v.info[quality]| ==> v.ChunkSize(quality, k + 1) == v.info[quality][k].size
    ensures v.ChunkSize(quality, 0) == v.info[quality][|v.info[quality]| - 1].size
    ensures k < 0 || k > |v.info[quality]| ==> v.ChunkSize(quality, k) == 0 && v.ChunkTime(quality, k) == 0.0
  {
  }

  /** The times of chunks played one after the other add up to the distance of their starts. */
  lemma {:induction false} ChunkTimesAddUp(v: Video, quality: nat, index: nat, n: nat)
    requires v.Valid() && quality < v.Rates() && 1 <= index && index + n <= v.Chunks()
    ensures TotalTime(v, seq(n, _ => quality), index)
         == v.info[quality][index + n - 1].startTime - v.info[quality][index - 1].startTime
    decreases n
  {
    if n > 0 {
      ChunkTimesAddUp(v, quality, index + 1, n - 1);
      assert seq(n, _ => quality)[1..] == seq(n - 1, _ => quality);
    }
  }

  /** The last chunk counts as long as the one before it. */
  lemma LastChunkTime(v: Video, quality: nat)
    requires v.Valid() && quality < v.Rates()
    ensures v.ChunkTime(quality, v.Chunks()) == v.ChunkTime(quality, v.Chunks() - 1)
  {
  }

  /** Up to the last chunk a plan looks five steps ahead, or as far as there are chunks. */
  lemma LooksAhead(v: Video, x: Situation)
    requires v.Valid()
    ensures x.index <= v.Chunks() ==>
              x.index + DepthAt(v, x) <= v.Chunks() && (DepthAt(v, x) == 5 || x.index + DepthAt(v, x) == v.Chunks())
    ensures x.index > v.Chunks() ==>
              DepthAt(v, x) == if x.index - v.Chunks() <= 5 then 5 - (x.index - v.Chunks()) else 0
  {
  }

  // ------------------------------------------------------------------
  // The prediction
  // ------------------------------------------------------------------

  lemma LastOfIsSuffix(a: seq<real>, b: seq<real>, n: nat)
    requires |b| == n
    ensures LastOf(a + b, n) == b
    ensures forall xs :: |xs| <= n ==> LastOf(xs, n) == xs
  {
    if a != [] {
      assert (a + b)[|a + b| - n..] == b;
    } else {
      assert a + b == b;
    }
  }

  /** The harmonic mean times the sum of the inverses is the number of samples. */
  lemma HarmonicMeanExactly(xs: seq<real>)
    requires xs != [] && AtLeast(xs, MIN_BW_EST_MBPS)
    ensures SumOfInverses(xs) > 0.0 && HarmonicMean(xs) * SumOfInverses(xs) == |xs| as real
  {
    assert SumOfInverses(xs) > 0.0 by {
      SamplesHaveMean(xs);
    }
    var n, sum := |xs| as real, SumOfInverses(xs);
    assert HarmonicMean(xs) == n / sum;
    hide SumOfInverses, HarmonicMean;
    QuotientTimes(n, sum);
  }

  lemma {:induction false} InversesAddUp(a: real, xs: seq<real>)
    requires a > 0.0 && forall i :: 0 <= i < |xs| ==> xs[i] > 0.0
    ensures SumOfInverses([]) == 0.0 && SumOfInverses([a] + xs) == 1.0 / a + SumOfInverses(xs)
  {
    assert ([a] + xs)[1..] == xs;
  }

  lemma QuotientTimes(n: real, d: real)
    requires d > 0.0
    ensures n / d * d == n
  {
  }

  lemma MaxIs(xs: seq<real>, worst: real)
    requires worst in xs && AtMost(xs, worst)
    ensures MaxOf(xs) == worst
  {
    hide MaxOf;
    var i :| 0 <= i < |xs| && xs[i] == MaxOf(xs);
    var j :| 0 <= j < |xs| && xs[j] == worst;
  }

  /** Cutting the mean gives `f`, but never less than the floor of 0.1. */
  ghost predicate CutsTo(mean: real, cut: real, f: real) {
    if mean < 0.1 * cut then f == 0.1 else f * cut == mean
  }

  /** The estimate times one plus the largest recent error is the mean, unless that would fall below the floor. */
  lemma FutureBandwidthExactly(samples: seq<real>, errors: seq<real>, worst: real)
    requires samples != [] && errors != []
    requires AtLeast(samples, MIN_BW_EST_MBPS) && AtLeast(errors, 0.0)
    requires worst in LastOf(errors, 5) && AtMost(LastOf(errors, 5), worst)
    ensures SumOfInverses(LastOf(samples, 5)) > 0.0
    ensures CutsTo(HarmonicMean(LastOf(samples, 5)), 1.0 + worst, FutureBandwidth(samples, errors))
  {
    SamplesHaveMean(LastOf(samples, 5));
    hide HarmonicMean, SumOfInverses, LastOf, MaxOf;
    MaxIs(LastOf(errors, 5), worst);
    assert worst >= 0.0;
    var mean, cut := HarmonicMean(LastOf(samples, 5)), 1.0 + worst;
    assert FutureBandwidth(samples, errors) == Max(mean / cut, 0.1);
    hide FutureBandwidth, Max, CutsTo;
    FlooredQuotient(mean, cut);
  }

  lemma FlooredQuotient(mean: real, cut: real)
    requires cut > 0.0
    ensures CutsTo(mean, cut, Max(mean / cut, 0.1))
  {
    var q := mean / cut;
    assert q * cut == mean;
    ProductOrder(q, 0.1, cut);
    ProductOrder(0.1, q, cut);
  }

  /** The error is the distance from the last estimate, relative to what was measured. */
  lemma PredictionErrorExactly(estimates: seq<real>, last: real, bandwidth: real)
    requires bandwidth > 0.0
    ensures PredictionError([], bandwidth) == 0.0
    ensures last >= bandwidth ==> PredictionError(estimates + [last], bandwidth) * bandwidth == last - bandwidth
    ensures last < bandwidth ==> PredictionError(estimates + [last], bandwidth) * bandwidth == bandwidth - last
  {
  }
}
