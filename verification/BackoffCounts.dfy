/** What the failure count is over a run of reports, and how the delays grow with it. */
module BackoffCounts {
  import opened Numbers
  import opened Backoff

  // ------------------------------------------------------------------
  // The failure count
  // ------------------------------------------------------------------

  /** Failures less successes. */
  ghost function Excess(rs: seq<Report>): int {
    if rs == [] then 0 else Excess(rs[..|rs| - 1]) + (if rs[|rs| - 1].succeeded then -1 else 1)
  }

  /** `n` is the largest excess of failures among the ends of the run, the empty one included. */
  ghost predicate IsLargestExcess(rs: seq<Report>, n: int) {
    && (forall i :: 0 <= i <= |rs| ==> Excess(rs[i..]) <= n)
    && (exists i :: 0 <= i <= |rs| && Excess(rs[i..]) == n)
  }

  lemma CountAfterLast(p: Policy, e: Entry, rs: seq<Report>)
    requires rs != []
    ensures var before := Run(p, e, rs[..|rs| - 1]).failureCount;
            Run(p, e, rs).failureCount
            == if !rs[|rs| - 1].succeeded then before + 1 else if before > 0 then before - 1 else 0
  {
    var n := |rs| - 1;
    RunSplits(p, e, rs, n);
    assert rs[n..][1..] == [];
  }

  lemma LargestExcessAfter(rs: seq<Report>, n: int)
    requires rs != [] && IsLargestExcess(rs[..|rs| - 1], n)
    ensures n >= 0
    ensures IsLargestExcess(rs, if !rs[|rs| - 1].succeeded then n + 1 else if n > 0 then n - 1 else 0)
  {
    var m := |rs| - 1;
    var front, step := rs[..m], if rs[m].succeeded then -1 else 1;
    assert front[m..] == [] && rs[|rs|..] == [];
    forall i | 0 <= i <= m ensures Excess(rs[i..]) == Excess(front[i..]) + step {
      assert rs[i..][..|rs[i..]| - 1] == front[i..];
    }
    var i :| 0 <= i <= m && Excess(front[i..]) == n;
    assert Excess(rs[i..]) == n + step;
  }

  /**
   * Over every run from a fresh entry the failure count is the largest excess of failures
   * over successes among the ends of the run.
   */
  lemma {:induction false} CountIsLargestExcess(p: Policy, rs: seq<Report>)
    ensures IsLargestExcess(rs, Run(p, FRESH, rs).failureCount)
  {
    if rs == [] {
      assert rs[0..] == [];
    } else {
      CountIsLargestExcess(p, rs[..|rs| - 1]);
      CountAfterLast(p, FRESH, rs);
      LargestExcessAfter(rs, Run(p, FRESH, rs[..|rs| - 1]).failureCount);
    }
  }

  /** It depends on neither policy nor clock, random numbers or release times. */
  lemma {:induction false} CountDependsOnOutcomes(p: Policy, q: Policy, e: Entry, f: Entry,
                                                  rs: seq<Report>, ss: seq<Report>)
    requires e.failureCount == f.failureCount && |rs| == |ss|
    requires forall i :: 0 <= i < |rs| ==> rs[i].succeeded == ss[i].succeeded
    ensures Run(p, e, rs).failureCount == Run(q, f, ss).failureCount
    decreases |rs|
  {
    if rs != [] {
      var e1 := InformOfRequest(p, e, rs[0].now, rs[0].succeeded, rs[0].random);
      var f1 := InformOfRequest(q, f, ss[0].now, ss[0].succeeded, ss[0].random);
      CountDependsOnOutcomes(p, q, e1, f1, rs[1..], ss[1..]);
    }
  }

  /** Failures and then successes leave what the successes have not made up for. */
  lemma {:induction false} FailuresThenSuccesses(p: Policy, rs: seq<Report>, n: nat)
    requires n <= |rs| && forall i :: 0 <= i < |rs| ==> rs[i].succeeded == (i >= n)
    ensures Run(p, FRESH, rs).failureCount == Max(0, n - (|rs| - n))
  {
    if rs != [] {
      var m := |rs| - 1;
      CountAfterLast(p, FRESH, rs);
      FailuresThenSuccesses(p, rs[..m], if n <= m then n else m);
    }
  }

  // ------------------------------------------------------------------
  // One report
  // ------------------------------------------------------------------

  /** A success takes one failure back and, if the initial delay always applies, asks for that much. */
  lemma SuccessExactly(p: Policy, e: Entry, now: int, random: real)
    requires p.Sane() && 0 <= now <= I64_MAX
    ensures var e' := InformOfRequest(p, e, now, true, random);
            && e'.failureCount == (if e.failureCount == 0 then 0 else e.failureCount - 1)
            && e'.release >= e.release
            && (p.alwaysUseInitialDelay ==> e'.release == Max(e.release, Min(I64_MAX, now + 1000 * p.initialDelayMs)))
            && (!p.alwaysUseInitialDelay ==> e'.release == Max(e.release, now))
  {
  }

  /** A failure that does not count asks for nothing but the present. */
  lemma IgnoredFailureExactly(p: Policy, e: Entry, now: int, random: real)
    requires e.failureCount < p.numErrorsToIgnore && !p.alwaysUseInitialDelay
    ensures InformOfRequest(p, e, now, false, random) == Entry(e.failureCount + 1, Max(now, e.release))
  {
  }

  // ------------------------------------------------------------------
  // The delays
  // ------------------------------------------------------------------

  /** The delay asked for, before jitter, after `k` failures in a row. */
  ghost function DelayAfter(p: Policy, k: nat): real {
    var n := EffectiveFailures(p, k);
    if n == 0 then 0.0 else BaseDelayMs(p, n)
  }

  /**
   * The failures to ignore ask for nothing, or for the initial delay if it always applies;
   * the next one starts from the initial delay; each one more multiplies.
   */
  lemma DelaySequence(p: Policy, k: nat)
    requires p.numErrorsToIgnore >= 0
    ensures k <= p.numErrorsToIgnore ==>
              DelayAfter(p, k) == if p.alwaysUseInitialDelay then p.initialDelayMs as real else 0.0
    ensures k == p.numErrorsToIgnore && !p.alwaysUseInitialDelay ==> DelayAfter(p, k + 1) == p.initialDelayMs as real
    ensures k > p.numErrorsToIgnore || (p.alwaysUseInitialDelay && k == p.numErrorsToIgnore) ==>
              DelayAfter(p, k + 1) == p.multiplyFactor * DelayAfter(p, k)
  {
    var n := EffectiveFailures(p, k);
    if n >= 1 {
      var initial, power := p.initialDelayMs as real, Pow(p.multiplyFactor, n - 1);
      assert Pow(p.multiplyFactor, n) == p.multiplyFactor * power;
      assert initial * (p.multiplyFactor * power) == p.multiplyFactor * (initial * power);
    }
    assert Pow(p.multiplyFactor, 0) == 1.0;
  }

  /** The delay is spread evenly over the share below the base delay that jitter allows. */
  lemma JitterExactly(p: Policy, n: nat, random: real)
    requires n >= 1
    ensures DelayMs(p, n, random) == (1.0 - random * p.jitterFactor) * BaseDelayMs(p, n)
  {
    hide BaseDelayMs;
    var x := BaseDelayMs(p, n);
    assert (1.0 - random * p.jitterFactor) * x == x - random * p.jitterFactor * x;
  }

  /**
   * Past its release an entry may go once it has not been used for its lifetime and, if it
   * remembers failures, for the longest backoff too; a lifetime of -1 keeps it for ever.
   */
  lemma DiscardExactly(p: Policy, e: Entry, now: int)
    requires 0 <= e.release <= now <= I64_MAX
    ensures CanDiscard(p, e, now) <==>
              && p.entryLifetimeMs != -1
              && (p.entryLifetimeMs > 0 ==> now - e.release >= 1000 * p.entryLifetimeMs)
              && (e.failureCount > 0 && p.maximumBackoffMs > 0 ==> now - e.release >= 1000 * p.maximumBackoffMs)
  {
  }
}
