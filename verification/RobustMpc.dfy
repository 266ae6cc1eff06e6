/**
 * RobustMPC: predicts the bandwidth from the last five samples, simulates every plan of
 * qualities over a short horizon, and takes the first quality of the best plan.
 */
module RobustMpc {
  import opened Reals

  const M_IN_K: real := 1000.0
  const REBUF_PENALTY: real := 4.3
  const HORIZON: nat := 5
  const MIN_BW_EST_MBPS: real := 0.1

  // ------------------------------------------------------------------
  // The video
  // ------------------------------------------------------------------

  datatype Segment = Segment(size: nat, startTime: real)

  /** Bit rates in ascending order, and the segments of each. */
  datatype Video = Video(bitRates: seq<nat>, info: seq<seq<Segment>>) {
    ghost predicate Valid() {
      && |bitRates| == |info| > 0
      && |info[0]| > 0
      && forall q :: 0 <= q < |info| ==> |info[q]| == |info[0]|
    }

    function Rates(): nat {
      |bitRates|
    }

    function Chunks(): nat
      requires |info| > 0
    {
      |info[0]|
    }

    /** Segments are numbered from one; number zero wraps around to the last. */
    function At(quality: nat, index: nat): Segment
      requires Valid() && quality < Rates() && index <= Chunks()
    {
      info[quality][if index == 0 then Chunks() - 1 else index - 1]
    }

    function ChunkSize(quality: nat, index: int): (size: nat)
      requires Valid() && quality < Rates()
    {
      if index > Chunks() || index < 0 then 0 else At(quality, index).size
    }

    function StartTime(quality: nat, index: int): real
      requires Valid() && quality < Rates()
    {
      if index > Chunks() || index < 0 then 0.0 else At(quality, index).startTime
    }

    function ChunkTime(quality: nat, index: int): real
      requires Valid() && quality < Rates()
    {
      if index > Chunks() || index < 0 then 0.0
      else
        var i := if index == Chunks() then index - 1 else index;
        StartTime(quality, i + 1) - StartTime(quality, i)
    }
  }

  // ------------------------------------------------------------------
  // Simulating a plan
  // ------------------------------------------------------------------

  datatype Sim = Sim(buffer: real, rebuffer: real, bitRateSum: real, smoothness: real, lastQuality: nat)

  ghost predicate IsPlan(v: Video, plan: seq<nat>) {
    forall i :: 0 <= i < |plan| ==> plan[i] < v.Rates()
  }

  function DownloadTime(v: Video, quality: nat, index: int, bandwidth: real): real
    requires v.Valid() && quality < v.Rates() && bandwidth > 0.0
  {
    8.0 * v.ChunkSize(quality, index) as real / (M_IN_K * M_IN_K) / bandwidth
  }

  function SimStep(v: Video, s: Sim, quality: nat, index: int, bandwidth: real): Sim
    requires v.Valid() && quality < v.Rates() && s.lastQuality < v.Rates() && bandwidth > 0.0
  {
    var d := DownloadTime(v, quality, index, bandwidth);
    Sim((if s.buffer < d then 0.0 else s.buffer - d) + v.ChunkTime(quality, index),
        if s.buffer < d then s.rebuffer + (d - s.buffer) else s.rebuffer,
        s.bitRateSum + v.bitRates[quality] as real,
        s.smoothness + Abs(v.bitRates[quality] as real - v.bitRates[s.lastQuality] as real),
        quality)
  }

  function SimPlan(v: Video, s: Sim, plan: seq<nat>, index: int, bandwidth: real): (r: Sim)
    requires v.Valid() && IsPlan(v, plan) && s.lastQuality < v.Rates() && bandwidth > 0.0
    ensures r.lastQuality < v.Rates()
    decreases |plan|
  {
    if plan == [] then s
    else SimPlan(v, SimStep(v, s, plan[0], index, bandwidth), plan[1..], index + 1, bandwidth)
  }

  function Start(buffer: real, lastQuality: nat): Sim {
    Sim(buffer, 0.0, 0.0, 0.0, lastQuality)
  }

  function Reward(s: Sim): real {
    s.bitRateSum / M_IN_K - REBUF_PENALTY * s.rebuffer - s.smoothness / M_IN_K
  }

  /** The situation the planner is called in. */
  datatype Situation = Situation(index: int, buffer: real, lastQuality: nat, bandwidth: real)

  ghost predicate Sane(v: Video, x: Situation) {
    v.Valid() && x.lastQuality < v.Rates() && x.bandwidth > 0.0
  }

  function PlanReward(v: Video, x: Situation, plan: seq<nat>): real
    requires Sane(v, x) && IsPlan(v, plan)
  {
    Reward(SimPlan(v, Start(x.buffer, x.lastQuality), plan, x.index, x.bandwidth))
  }

  // ------------------------------------------------------------------
  // Properties of the simulation
  // ------------------------------------------------------------------

  ghost function TotalTime(v: Video, plan: seq<nat>, index: int): real
    requires v.Valid() && IsPlan(v, plan)
    decreases |plan|
  {
    if plan == [] then 0.0 else v.ChunkTime(plan[0], index) + TotalTime(v, plan[1..], index + 1)
  }

  ghost function TotalDownload(v: Video, plan: seq<nat>, index: int, bandwidth: real): real
    requires v.Valid() && IsPlan(v, plan) && bandwidth > 0.0
    decreases |plan|
  {
    if plan == [] then 0.0
    else DownloadTime(v, plan[0], index, bandwidth) + TotalDownload(v, plan[1..], index + 1, bandwidth)
  }

  /** Along every plan, playable time in equals playable time out: what was buffered, downloaded and waited for. */
  lemma {:induction false} BufferConservation(v: Video, s: Sim, plan: seq<nat>, index: int, bandwidth: real)
    requires v.Valid() && IsPlan(v, plan) && s.lastQuality < v.Rates() && bandwidth > 0.0
    ensures var e := SimPlan(v, s, plan, index, bandwidth);
            s.buffer + TotalTime(v, plan, index) + (e.rebuffer - s.rebuffer)
            == e.buffer + TotalDownload(v, plan, index, bandwidth)
    decreases |plan|
  {
    if plan != [] {
      hide DownloadTime;
      BufferConservation(v, SimStep(v, s, plan[0], index, bandwidth), plan[1..], index + 1, bandwidth);
    }
  }

  /** A faster link never takes longer. */
  lemma DownloadFaster(v: Video, quality: nat, index: int, slow: real, fast: real)
    requires v.Valid() && quality < v.Rates() && 0.0 < slow <= fast
    ensures 0.0 <= DownloadTime(v, quality, index, fast) <= DownloadTime(v, quality, index, slow)
  {
    var size := 8.0 * v.ChunkSize(quality, index) as real / (M_IN_K * M_IN_K);
    assert size >= 0.0;
    QuotientMonotone(size, slow, fast);
  }

  lemma QuotientMonotone(x: real, slow: real, fast: real)
    requires x >= 0.0 && 0.0 < slow <= fast
    ensures 0.0 <= x / fast <= x / slow
  {
    var a, b := x / fast, x / slow;
    assert a * fast == x && b * slow == x;
    ProductOrder(a, b, fast);
    ProductOrder(slow, fast, b);
  }

  lemma ProductOrder(x: real, y: real, c: real)
    ensures c > 0.0 && x > y ==> x * c > y * c
    ensures c >= 0.0 && x <= y ==> x * c <= y * c
  {
    if c > 0.0 && x > y {
      assert (x - y) * c > 0.0;
    }
    if c >= 0.0 && x <= y {
      assert (y - x) * c >= 0.0;
    }
  }

  /** `t` waits no more and has no less in its buffer, and is otherwise the same. */
  ghost predicate NoWorse(s: Sim, t: Sim) {
    && s.buffer <= t.buffer && s.rebuffer >= t.rebuffer
    && s.bitRateSum == t.bitRateSum && s.smoothness == t.smoothness && s.lastQuality == t.lastQuality
  }

  /** More buffer to start with, or more bandwidth, never makes any plan wait longer. */
  lemma {:induction false} SimMonotone(v: Video, s: Sim, t: Sim, plan: seq<nat>, index: int, slow: real, fast: real)
    requires v.Valid() && IsPlan(v, plan) && s.lastQuality < v.Rates() && 0.0 < slow <= fast && NoWorse(s, t)
    ensures NoWorse(SimPlan(v, s, plan, index, slow), SimPlan(v, t, plan, index, fast))
    decreases |plan|
  {
    if plan != [] {
      DownloadFaster(v, plan[0], index, slow, fast);
      hide DownloadTime;
      SimMonotone(v, SimStep(v, s, plan[0], index, slow), SimStep(v, t, plan[0], index, fast),
                  plan[1..], index + 1, slow, fast);
    }
  }

  // ------------------------------------------------------------------
  // All plans, in product order
  // ------------------------------------------------------------------

  /** Every tail with `q` in front. */
  function Prefixed(q: nat, tails: seq<seq<nat>>): (r: seq<seq<nat>>)
    ensures |r| == |tails| && forall i :: 0 <= i < |r| ==> r[i] == [q] + tails[i]
  {
    seq(|tails|, i requires 0 <= i < |tails| => [q] + tails[i])
  }

  /** Every tail with 0, then every tail with 1, and so on below `k`. */
  function Blocks(k: nat, tails: seq<seq<nat>>): seq<seq<nat>> {
    if k == 0 then [] else Blocks(k - 1, tails) + Prefixed(k - 1, tails)
  }

  /** All sequences of `n` qualities below `rates`, the last position varying fastest. */
  function Product(rates: nat, n: nat): seq<seq<nat>> {
    if n == 0 then [[]] else Blocks(rates, Product(rates, n - 1))
  }

  ghost predicate LexLess(a: seq<nat>, b: seq<nat>) {
    |a| == |b| > 0 && (a[0] < b[0] || (a[0] == b[0] && LexLess(a[1..], b[1..])))
  }

  ghost predicate AllOfLength(plans: seq<seq<nat>>, rates: nat, n: nat) {
    forall i :: 0 <= i < |plans| ==> |plans[i]| == n && forall j :: 0 <= j < n ==> plans[i][j] < rates
  }

  ghost predicate Ascending(plans: seq<seq<nat>>) {
    forall i, j :: 0 <= i < j < |plans| ==> LexLess(plans[i], plans[j])
  }

  lemma {:induction false} BlocksOrdered(k: nat, tails: seq<seq<nat>>, rates: nat, n: nat)
    requires k <= rates && AllOfLength(tails, rates, n) && Ascending(tails)
    ensures AllOfLength(Blocks(k, tails), rates, n + 1) && Ascending(Blocks(k, tails))
    ensures forall i :: 0 <= i < |Blocks(k, tails)| ==> Blocks(k, tails)[i][0] < k
  {
    if k > 0 {
      BlocksOrdered(k - 1, tails, rates, n);
      var front, last := Blocks(k - 1, tails), Prefixed(k - 1, tails);
      forall i, j | 0 <= i < j < |last| ensures LexLess(last[i], last[j]) {
        assert LexLess(tails[i], tails[j]);
        assert last[i][1..] == tails[i] && last[j][1..] == tails[j];
      }
      var all := front + last;
      forall i, j | 0 <= i < j < |all| ensures LexLess(all[i], all[j]) {
        if i >= |front| {
          assert all[i] == last[i - |front|] && all[j] == last[j - |front|];
        } else if j >= |front| {
          assert all[j] == last[j - |front|];
        }
      }
    }
  }

  /** The enumeration is in lexicographic order, so without repetitions. */
  lemma {:induction false} ProductOrdered(rates: nat, n: nat)
    ensures AllOfLength(Product(rates, n), rates, n) && Ascending(Product(rates, n))
  {
    if n > 0 {
      ProductOrdered(rates, n - 1);
      BlocksOrdered(rates, Product(rates, n - 1), rates, n - 1);
    }
  }

  lemma {:induction false} BlocksComplete(k: nat, tails: seq<seq<nat>>, plan: seq<nat>)
    requires plan != [] && plan[0] < k && plan[1..] in tails
    ensures plan in Blocks(k, tails)
  {
    if plan[0] == k - 1 {
      var i :| 0 <= i < |tails| && tails[i] == plan[1..];
      assert Prefixed(k - 1, tails)[i] == [plan[0]] + plan[1..] == plan;
    } else {
      BlocksComplete(k - 1, tails, plan);
    }
  }

  /** And it leaves no plan out. */
  lemma {:induction false} ProductComplete(rates: nat, plan: seq<nat>)
    requires forall j :: 0 <= j < |plan| ==> plan[j] < rates
    ensures plan in Product(rates, |plan|)
  {
    if plan != [] {
      ProductComplete(rates, plan[1..]);
      BlocksComplete(rates, Product(rates, |plan| - 1), plan);
    }
  }

  // ------------------------------------------------------------------
  // Searching
  // ------------------------------------------------------------------

  /** How many steps of a plan are looked at: a slice to a negative bound cuts from the end. */
  function Depth(left: int): (n: nat)
    ensures n <= HORIZON
  {
    if left >= HORIZON then HORIZON
    else if left >= 0 then left
    else if HORIZON + left >= 0 then HORIZON + left
    else 0
  }

  function DepthAt(v: Video, x: Situation): nat
    requires v.Valid()
  {
    Depth(v.Chunks() - x.index)
  }

  /** The reward of a plan of the full horizon, cut to the depth. */
  function CutReward(v: Video, x: Situation, plan: seq<nat>): real
    requires Sane(v, x) && IsPlan(v, plan) && |plan| == HORIZON
  {
    PlanReward(v, x, plan[..DepthAt(v, x)])
  }

  /** The best reward seen and the first quality of the plan that had it, or zero and zero. */
  datatype Best = Best(reward: real, rate: nat)

  function Better(v: Video, x: Situation, best: Best, plan: seq<nat>): Best
    requires Sane(v, x) && IsPlan(v, plan) && |plan| == HORIZON
  {
    if CutReward(v, x, plan) > best.reward then Best(CutReward(v, x, plan), plan[0]) else best
  }

  function Search(v: Video, x: Situation, plans: seq<seq<nat>>, best: Best): Best
    requires Sane(v, x) && AllOfLength(plans, v.Rates(), HORIZON)
    decreases |plans|
  {
    if plans == [] then best
    else Search(v, x, plans[1..], Better(v, x, best, plans[0]))
  }

  function Decide(v: Video, x: Situation): Best
    requires Sane(v, x)
  {
    ProductOrdered(v.Rates(), HORIZON);
    Search(v, x, Product(v.Rates(), HORIZON), Best(0.0, 0))
  }

  /** `k` is the first of the plans with the greatest reward. */
  ghost predicate IsFirstBest(v: Video, x: Situation, plans: seq<seq<nat>>, k: nat)
    requires Sane(v, x) && AllOfLength(plans, v.Rates(), HORIZON)
  {
    && k < |plans|
    && (forall j :: 0 <= j < |plans| ==> CutReward(v, x, plans[j]) <= CutReward(v, x, plans[k]))
    && (forall j :: 0 <= j < k ==> CutReward(v, x, plans[j]) < CutReward(v, x, plans[k]))
  }

  /** What the scan ends with: the starting value when no plan beats it, otherwise the first best plan. */
  lemma {:induction false} SearchFinds(v: Video, x: Situation, plans: seq<seq<nat>>, best: Best) returns (k: nat)
    requires Sane(v, x) && AllOfLength(plans, v.Rates(), HORIZON)
    ensures var r := Search(v, x, plans, best);
            if forall j :: 0 <= j < |plans| ==> CutReward(v, x, plans[j]) <= best.reward
            then r == best
            else IsFirstBest(v, x, plans, k) && r == Best(CutReward(v, x, plans[k]), plans[k][0])
                 && r.reward > best.reward
    decreases |plans|
  {
    hide CutReward;
    k := 0;
    if plans != [] {
      var best1 := Better(v, x, best, plans[0]);
      var k1 := SearchFinds(v, x, plans[1..], best1);
      assert forall j :: 0 < j < |plans| ==> plans[j] == plans[1..][j - 1];
      assert forall j :: 0 <= j < |plans| - 1 ==> plans[1..][j] == plans[j + 1];
      if forall j :: 0 <= j < |plans[1..]| ==> CutReward(v, x, plans[1..][j]) <= best1.reward {
        k := 0;
      } else {
        k := k1 + 1;
      }
    }
  }

  ghost predicate IsOptimal(v: Video, x: Situation, plan: seq<nat>)
    requires Sane(v, x)
  {
    && |plan| == HORIZON && IsPlan(v, plan)
    && forall other :: |other| == HORIZON && IsPlan(v, other) ==> CutReward(v, x, other) <= CutReward(v, x, plan)
  }

  /**
   * The decision, over all plans there are: zero when no plan has a positive reward;
   * otherwise the smallest first quality any reward-maximal plan has, with that reward.
   */
  lemma DecisionIsOptimal(v: Video, x: Situation) returns (best: seq<nat>)
    requires Sane(v, x)
    ensures |best| == HORIZON && IsPlan(v, best)
    ensures (forall p :: |p| == HORIZON && IsPlan(v, p) ==> CutReward(v, x, p) <= 0.0) ==> Decide(v, x) == Best(0.0, 0)
    ensures (exists p :: |p| == HORIZON && IsPlan(v, p) && CutReward(v, x, p) > 0.0) ==>
              && IsOptimal(v, x, best)
              && Decide(v, x) == Best(CutReward(v, x, best), best[0])
              && (forall p :: IsOptimal(v, x, p) ==> best[0] <= p[0])
              && (forall p :: IsOptimal(v, x, p) && p != best ==> LexLess(best, p))
  {
    hide CutReward, Product, Search;
    var plans := Product(v.Rates(), HORIZON);
    ProductOrdered(v.Rates(), HORIZON);
    forall p | |p| == HORIZON && IsPlan(v, p) ensures p in plans {
      ProductComplete(v.Rates(), p);
    }
    best := [0, 0, 0, 0, 0];
    var k := SearchFinds(v, x, plans, Best(0.0, 0));
    if p :| |p| == HORIZON && IsPlan(v, p) && CutReward(v, x, p) > 0.0 {
      assert p in plans;
      best := plans[k];
      forall p | IsOptimal(v, x, p) && p != best ensures LexLess(best, p) {
        var j :| 0 <= j < |plans| && plans[j] == p;
        assert j > k;
      }
    }
  }

  /** More buffer or more bandwidth never lowers the best reward. */
  lemma BestRewardMonotone(v: Video, x: Situation, y: Situation)
    requires Sane(v, x) && Sane(v, y)
    requires x.index == y.index && x.lastQuality == y.lastQuality
    requires x.buffer <= y.buffer && x.bandwidth <= y.bandwidth
    ensures Decide(v, x).reward <= Decide(v, y).reward
  {
    forall p | |p| == HORIZON && IsPlan(v, p) ensures CutReward(v, x, p) <= CutReward(v, y, p) {
      SimMonotone(v, Start(x.buffer, x.lastQuality), Start(y.buffer, y.lastQuality),
                  p[..DepthAt(v, x)], x.index, x.bandwidth, y.bandwidth);
    }
    hide CutReward, Product, Search;
    var plans := Product(v.Rates(), HORIZON);
    ProductOrdered(v.Rates(), HORIZON);
    var i := SearchFinds(v, x, plans, Best(0.0, 0));
    var j := SearchFinds(v, y, plans, Best(0.0, 0));
    if k :| 0 <= k < |plans| && CutReward(v, x, plans[k]) > 0.0 {
      assert CutReward(v, x, plans[i]) <= CutReward(v, y, plans[i]);
    }
  }

  // ------------------------------------------------------------------
  // Predicting the bandwidth
  // ------------------------------------------------------------------

  function LastOf(xs: seq<real>, n: nat): (r: seq<real>)
    ensures |r| == if |xs| <= n then |xs| else n
    ensures forall i :: 0 <= i < |r| ==> r[i] in xs
  {
    if |xs| <= n then xs else xs[|xs| - n..]
  }

  ghost predicate AtLeast(xs: seq<real>, lo: real) {
    forall i :: 0 <= i < |xs| ==> xs[i] >= lo
  }

  ghost predicate AtMost(xs: seq<real>, hi: real) {
    forall i :: 0 <= i < |xs| ==> xs[i] <= hi
  }

  function SumOfInverses(xs: seq<real>): real
    requires forall i :: 0 <= i < |xs| ==> xs[i] > 0.0
  {
    if xs == [] then 0.0 else 1.0 / xs[0] + SumOfInverses(xs[1..])
  }

  lemma OneMore(n: real, d: real)
    requires d > 0.0
    ensures (n - 1.0) / d + 1.0 / d == n / d
  {
  }

  lemma {:induction false} InversesBounded(xs: seq<real>, lo: real, hi: real)
    requires 0.0 < lo <= hi && AtLeast(xs, lo) && AtMost(xs, hi)
    ensures |xs| as real / hi <= SumOfInverses(xs) <= |xs| as real / lo
  {
    if xs != [] {
      InversesBounded(xs[1..], lo, hi);
      QuotientMonotone(1.0, lo, xs[0]);
      QuotientMonotone(1.0, xs[0], hi);
      OneMore(|xs| as real, hi);
      OneMore(|xs| as real, lo);
    }
  }

  function HarmonicMean(xs: seq<real>): real
    requires xs != [] && forall i :: 0 <= i < |xs| ==> xs[i] > 0.0
    requires SumOfInverses(xs) > 0.0
  {
    |xs| as real / SumOfInverses(xs)
  }

  /** The harmonic mean lies between the smallest and the largest sample. */
  lemma HarmonicMeanBounded(xs: seq<real>, lo: real, hi: real)
    requires xs != [] && 0.0 < lo <= hi && AtLeast(xs, lo) && AtMost(xs, hi)
    ensures SumOfInverses(xs) > 0.0
    ensures lo <= HarmonicMean(xs) <= hi
  {
    InversesBounded(xs, lo, hi);
    var n, sum := |xs| as real, SumOfInverses(xs);
    PositiveQuotient(n, hi);
    Crosswise(n, lo, sum);
    Crosswise(n, sum, hi);
  }

  lemma PositiveQuotient(n: real, d: real)
    requires n > 0.0 && d > 0.0
    ensures n / d > 0.0
  {
  }

  /** Both ways of bounding a quotient by a third number. */
  lemma Crosswise(n: real, a: real, b: real)
    requires n > 0.0 && a > 0.0 && b > 0.0
    ensures b <= n / a ==> a <= n / b
    ensures n / b <= a ==> n / a <= b
  {
    assert (n / a) * a == n && (n / b) * b == n;
    ProductOrder(b, n / a, a);
    ProductOrder(a, n / b, b);
    ProductOrder(n / b, a, b);
    ProductOrder(n / a, b, a);
  }

  function MaxOf(xs: seq<real>): (m: real)
    requires xs != []
    ensures m in xs && forall i :: 0 <= i < |xs| ==> xs[i] <= m
  {
    if |xs| == 1 then xs[0]
    else
      var m := MaxOf(xs[1..]);
      assert forall i :: 0 < i < |xs| ==> xs[i] == xs[1..][i - 1];
      Max(xs[0], m)
  }

  /** The harmonic mean of the last samples, cut by the largest recent error, but never below the floor. */
  function FutureBandwidth(samples: seq<real>, errors: seq<real>): (r: real)
    requires samples != [] && errors != []
    requires AtLeast(samples, MIN_BW_EST_MBPS) && AtLeast(errors, 0.0)
  {
    SamplesHaveMean(LastOf(samples, HORIZON));
    Max(HarmonicMean(LastOf(samples, HORIZON)) / (1.0 + MaxOf(LastOf(errors, HORIZON))), MIN_BW_EST_MBPS)
  }

  lemma SamplesHaveMean(xs: seq<real>)
    requires xs != [] && AtLeast(xs, MIN_BW_EST_MBPS)
    ensures SumOfInverses(xs) > 0.0
    ensures MIN_BW_EST_MBPS <= HarmonicMean(xs) <= MaxOf(xs)
  {
    HarmonicMeanBounded(xs, MIN_BW_EST_MBPS, MaxOf(xs));
  }

  /** The planner never plans with less than the floor, nor with more than the samples' harmonic mean. */
  lemma FutureBandwidthBounded(samples: seq<real>, errors: seq<real>)
    requires samples != [] && errors != []
    requires AtLeast(samples, MIN_BW_EST_MBPS) && AtLeast(errors, 0.0)
    ensures SumOfInverses(LastOf(samples, HORIZON)) > 0.0
    ensures MIN_BW_EST_MBPS <= FutureBandwidth(samples, errors) <= HarmonicMean(LastOf(samples, HORIZON))
    ensures HarmonicMean(LastOf(samples, HORIZON)) <= MaxOf(LastOf(samples, HORIZON))
  {
    SamplesHaveMean(LastOf(samples, HORIZON));
    QuotientMonotone(HarmonicMean(LastOf(samples, HORIZON)), 1.0, 1.0 + MaxOf(LastOf(errors, HORIZON)));
  }

  /** How far the last estimate was off, relative to what was measured. */
  function PredictionError(estimates: seq<real>, bandwidth: real): (e: real)
    requires bandwidth > 0.0
    ensures e >= 0.0
  {
    if estimates == [] then 0.0
    else
      var distance := Abs(estimates[|estimates| - 1] - bandwidth);
      QuotientMonotone(distance, bandwidth, bandwidth);
      distance / bandwidth
  }

  // ------------------------------------------------------------------
  // The component
  // ------------------------------------------------------------------

  /** The inner loop: runs one plan through the buffer model. */
  method SimulatePlan(v: Video, x: Situation, combo: seq<nat>) returns (reward: real)
    requires Sane(v, x) && IsPlan(v, combo)
    ensures reward == PlanReward(v, x, combo)
  {
    var rebuffer, buffer, bitRateSum, smoothness := 0.0, x.buffer, 0.0, 0.0;
    var lastQuality: nat := x.lastQuality;
    ghost var end := SimPlan(v, Start(x.buffer, x.lastQuality), combo, x.index, x.bandwidth);
    assert combo[0..] == combo;
    for position := 0 to |combo|
      invariant lastQuality < v.Rates()
      invariant SimPlan(v, Sim(buffer, rebuffer, bitRateSum, smoothness, lastQuality),
                        combo[position..], x.index + position, x.bandwidth) == end
    {
      var quality := combo[position];
      var index := x.index + position;
      assert combo[position..][1..] == combo[position + 1..];
      var size := 8.0 * v.ChunkSize(quality, index) as real / (M_IN_K * M_IN_K);
      var downloadTime := size / x.bandwidth;
      if buffer < downloadTime {
        rebuffer := rebuffer + (downloadTime - buffer);
        buffer := 0.0;
      } else {
        buffer := buffer - downloadTime;
      }
      buffer := buffer + v.ChunkTime(quality, index);
      bitRateSum := bitRateSum + v.bitRates[quality] as real;
      smoothness := smoothness + Abs(v.bitRates[quality] as real - v.bitRates[lastQuality] as real);
      lastQuality := quality;
    }
    assert combo[|combo|..] == [];
    reward := bitRateSum / M_IN_K - REBUF_PENALTY * rebuffer - smoothness / M_IN_K;
  }

  /** The outer loop: all plans in product order, keeping the first best. */
  method SearchPlans(v: Video, x: Situation) returns (bestRate: nat)
    requires Sane(v, x)
    ensures bestRate == Decide(v, x).rate
    ensures bestRate < v.Rates()
  {
    ProductOrdered(v.Rates(), HORIZON);
    var combos := Product(v.Rates(), HORIZON);
    var maxReward := 0.0;
    bestRate := 0;
    hide Product, PlanReward;
    assert combos[0..] == combos;
    for i := 0 to |combos|
      invariant bestRate < v.Rates()
      invariant Search(v, x, combos[i..], Best(maxReward, bestRate)) == Decide(v, x)
    {
      assert combos[i..][1..] == combos[i + 1..];
      var combo := combos[i][..Depth(v.Chunks() - x.index)];
      var reward := SimulatePlan(v, x, combo);
      if reward > maxReward {
        maxReward := reward;
        bestRate := combos[i][0];
      }
    }
    assert combos[|combos|..] == [];
  }

  class Mpc {
    const video: Video
    var lastRebufferTime: real
    var lastBitRate: real
    var lastQuality: nat
    var bandwidths: seq<real>
    var pastBandwidthEsts: seq<real>
    var pastErrors: seq<real>

    ghost predicate Valid()
      reads this
    {
      && video.Valid() && lastQuality < video.Rates()
      && AtLeast(bandwidths, MIN_BW_EST_MBPS) && AtLeast(pastErrors, 0.0)
      && |bandwidths| == |pastErrors| == |pastBandwidthEsts|
    }

    constructor (v: Video)
      requires v.Valid()
      ensures Valid() && video == v && bandwidths == [] && lastQuality == 0
    {
      video := v;
      lastRebufferTime, lastBitRate, lastQuality := 0.0, 0.0, 0;
      bandwidths, pastBandwidthEsts, pastErrors := [], [], [];
    }

    /** One report of the player: its rebuffering, bandwidth and buffer, and the chunk to decide on. */
    method Process(totalRebufferMs: real, bandwidthKbps: real, bufferMs: real, index: int)
      returns (decision: nat, futureBandwidth: real)
      requires Valid()
      modifies this
      ensures Valid()
      ensures bandwidths == old(bandwidths) + [Max(bandwidthKbps / M_IN_K, MIN_BW_EST_MBPS)]
      ensures lastRebufferTime == totalRebufferMs / M_IN_K
      ensures lastBitRate == video.bitRates[old(lastQuality)] as real
      ensures pastErrors == old(pastErrors) + [PredictionError(old(pastBandwidthEsts), bandwidths[|bandwidths| - 1])]
      ensures SumOfInverses(LastOf(bandwidths, HORIZON)) > 0.0
      ensures pastBandwidthEsts == old(pastBandwidthEsts) + [HarmonicMean(LastOf(bandwidths, HORIZON))]
      ensures futureBandwidth == FutureBandwidth(bandwidths, pastErrors)
      ensures decision == lastQuality
      ensures decision == Decide(video, Situation(index, bufferMs / M_IN_K, old(lastQuality), futureBandwidth)).rate
    {
      hide PredictionError, HarmonicMean, SumOfInverses, MaxOf, LastOf, Decide;
      lastBitRate := video.bitRates[lastQuality] as real;
      lastRebufferTime := totalRebufferMs / M_IN_K;
      var bandwidth := Max(bandwidthKbps / M_IN_K, MIN_BW_EST_MBPS);
      bandwidths := bandwidths + [bandwidth];
      pastErrors := pastErrors + [PredictionError(pastBandwidthEsts, bandwidth)];
      FutureBandwidthBounded(bandwidths, pastErrors);
      var harmonicBandwidth := HarmonicMean(LastOf(bandwidths, HORIZON));
      var maxError := MaxOf(LastOf(pastErrors, HORIZON));
      futureBandwidth := Max(harmonicBandwidth / (1.0 + maxError), MIN_BW_EST_MBPS);
      pastBandwidthEsts := pastBandwidthEsts + [harmonicBandwidth];
      decision := SearchPlans(video, Situation(index, bufferMs / M_IN_K, lastQuality, futureBandwidth));
      lastQuality := decision;
    }
  }
}
