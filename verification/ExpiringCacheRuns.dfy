/** What holds over every run of puts, gets and clears. */
module ExpiringCacheRuns {
  import opened Options
  import opened ExpiringCache

  // ------------------------------------------------------------------
  // One put
  // ------------------------------------------------------------------

  /** Entries that left are as many as reports. */
  lemma {:induction false} AccountsSize<K, V, X>(before: map<K, Entry<V, X>>, after: map<K, Entry<V, X>>,
                                                 log: seq<Eviction<K, V, X>>, now: X, onGet: bool)
    requires Accounts(before, after, log, now, onGet)
    ensures |before| == |after| + |log|
    decreases |log|
  {
    if log == [] {
      assert before.Keys == after.Keys;
    } else {
      var n := |log| - 1;
      var k := log[n].key;
      AccountsOneFewer(before, after, log, now, onGet);
      hide Accounts;
      AccountsSize(before, after[k := before[k]], log[..n], now, onGet);
      SizeOfUpdate(after, k, before[k]);
    }
  }

  /** Taking back the last report. */
  lemma AccountsOneFewer<K, V, X>(before: map<K, Entry<V, X>>, after: map<K, Entry<V, X>>,
                                  log: seq<Eviction<K, V, X>>, now: X, onGet: bool)
    requires Accounts(before, after, log, now, onGet) && log != []
    ensures var k := log[|log| - 1].key;
            && k in before && k !in after
            && Accounts(before, after[k := before[k]], log[..|log| - 1], now, onGet)
  {
    var n := |log| - 1;
    var k := log[n].key;
    var after', log' := after[k := before[k]], log[..n];
    forall c | c in before && c !in after' ensures exists i :: 0 <= i < |log'| && log'[i].key == c {
      var i :| 0 <= i < |log| && log[i].key == c;
      assert log'[i].key == c;
    }
  }

  /**
   * A put that has to make room evicts only expired entries if there are any, and
   * otherwise exactly one entry.
   */
  lemma PutEvicts<K(!new), V(!new), X(!new)>(
      before: map<K, Entry<V, X>>, key: K, e: Entry<V, X>, now: X, max: nat, valid: (X, X) -> bool,
      after: map<K, Entry<V, X>>, log: seq<Eviction<K, V, X>>)
    requires Puts(before, key, e, now, max, valid, after, log) && max >= 1 && |before| <= max
    ensures |after| <= max && key in after && after[key] == e
    ensures key in before || |before| < max ==> after == before[key := e] && log == []
    ensures if exists k :: k in before && !valid(now, before[k].expiration)
            then forall i :: 0 <= i < |log| ==> !valid(now, log[i].entry.expiration)
            else |log| == if key in before || |before| < max then 0 else 1
  {
    hide Compacts;
    if key in before || |before| != max {
      SizeOfUpdate(before, key, e);
    } else {
      var m :| Compacts(before, m, log, now, max, valid) && after == m[key := e];
      FullCompacts(before, m, log, now, max, valid);
      SizeOfUpdate(m, key, e);
    }
  }

  lemma SizeOfUpdate<K, E>(m: map<K, E>, key: K, e: E)
    ensures |m[key := e]| == if key in m then |m| else |m| + 1
  {
    assert m[key := e].Keys == m.Keys + {key};
  }

  /** Compaction of a full cache: the expired entries, or one. */
  lemma FullCompacts<K, V, X>(before: map<K, Entry<V, X>>, after: map<K, Entry<V, X>>, log: seq<Eviction<K, V, X>>,
                              now: X, max: nat, valid: (X, X) -> bool)
    requires Compacts(before, after, log, now, max, valid) && |before| == max >= 1
    ensures |after| < max
    ensures if exists k :: k in before && !valid(now, before[k].expiration)
            then forall i :: 0 <= i < |log| ==> !valid(now, log[i].entry.expiration)
            else |log| == 1
  {
    AccountsSize(before, after, log, now, false);
    var kept := Unexpired(before, now, valid);
    assert kept.Keys <= before.Keys;
    if k :| k in before && !valid(now, before[k].expiration) {
      assert kept.Keys < before.Keys;
      ProperSubset(kept.Keys, before.Keys);
      assert after == kept;
    } else {
      assert kept == before;
    }
  }

  lemma ProperSubset<T>(a: set<T>, b: set<T>)
    requires a < b
    ensures |a| < |b|
  {
    var x :| x in b && x !in a;
    assert a <= b - {x};
    SubsetSize(a, b - {x});
  }

  lemma {:induction false} SubsetSize<T>(a: set<T>, b: set<T>)
    requires a <= b
    ensures |a| <= |b|
    decreases a
  {
    if x :| x in a {
      SubsetSize(a - {x}, b - {x});
    }
  }

  /** The bound on the size is kept by every put exactly when the capacity is not zero. */
  lemma BoundNeedsCapacity(max: nat)
    ensures (forall before: map<int, Entry<int, int>>, key, e, now, valid, after, log ::
               |before| <= max && Puts(before, key, e, now, max, valid, after, log) ==> |after| <= max)
       <==> max >= 1
  {
    if max >= 1 {
      hide Puts;
      forall before: map<int, Entry<int, int>>, key, e, now, valid, after, log
        | |before| <= max && Puts(before, key, e, now, max, valid, after, log)
        ensures |after| <= max
      {
        PutEvicts(before, key, e, now, max, valid, after, log);
      }
    } else {
      var before, e, valid, after := ZeroCapacityOverflows();
      assert Puts(before, 0, e, 0, max, valid, after, []);
    }
  }

  /** The first put into a cache of capacity zero compacts nothing and stays. */
  lemma ZeroCapacityOverflows()
    returns (before: map<int, Entry<int, int>>, e: Entry<int, int>, valid: (int, int) -> bool,
             after: map<int, Entry<int, int>>)
    ensures |before| == 0 && |after| == 1 && Puts(before, 0, e, 0, 0, valid, after, [])
  {
    before, e, valid := map[], Entry(0, 0), (now: int, expiration: int) => now < expiration;
    after := before[0 := e];
    assert Compacts(before, before, [], 0, 0, valid);
  }

  // ------------------------------------------------------------------
  // Runs
  // ------------------------------------------------------------------

  datatype Op<K, V, X> = PutOp(key: K, entry: Entry<V, X>, now: X) | GetOp(key: K, now: X) | ClearOp

  datatype Move<K, V, X> = Move(op: Op<K, V, X>, before: map<K, Entry<V, X>>, after: map<K, Entry<V, X>>,
                                log: seq<Eviction<K, V, X>>, result: Option<V>)

  ghost predicate IsMove<K(!new), V(!new), X(!new)>(m: Move<K, V, X>, max: nat, valid: (X, X) -> bool) {
    match m.op
    case PutOp(key, e, now) => Puts(m.before, key, e, now, max, valid, m.after, m.log) && m.result == None
    case GetOp(key, now) => Gets(m.before, key, now, valid, m.after, m.log, m.result)
    case ClearOp => m.after == map[] && m.log == [] && m.result == None
  }

  ghost function End<K, V, X>(run: seq<Move<K, V, X>>): map<K, Entry<V, X>> {
    if run == [] then map[] else run[|run| - 1].after
  }

  ghost predicate IsRun<K(!new), V(!new), X(!new)>(run: seq<Move<K, V, X>>, max: nat, valid: (X, X) -> bool) {
    run == [] ||
    (var n := |run| - 1;
     IsRun(run[..n], max, valid) && run[n].before == End(run[..n]) && IsMove(run[n], max, valid))
  }

  /** With room for at least one entry, the cache never outgrows its capacity. */
  lemma {:induction false} NeverTooBig<K(!new), V(!new), X(!new)>(
      run: seq<Move<K, V, X>>, max: nat, valid: (X, X) -> bool)
    requires IsRun(run, max, valid) && max >= 1
    ensures |End(run)| <= max
  {
    if run != [] {
      var n := |run| - 1;
      NeverTooBig(run[..n], max, valid);
      var m := run[n];
      match m.op
      case PutOp(key, e, now) =>
        PutEvicts(m.before, key, e, now, max, valid, m.after, m.log);
      case GetOp(key, now) =>
        assert m.after.Keys <= m.before.Keys;
        SubsetSize(m.after.Keys, m.before.Keys);
      case ClearOp =>
    }
  }

  /** The last entry put for a key in a run. */
  ghost function LastPut<K, V, X>(run: seq<Move<K, V, X>>, key: K): Option<Entry<V, X>> {
    if run == [] then None
    else
      var n := |run| - 1;
      if run[n].op.PutOp? && run[n].op.key == key then Some(run[n].op.entry) else LastPut(run[..n], key)
  }

  lemma {:induction false} HoldsLastPut<K(!new), V(!new), X(!new)>(
      run: seq<Move<K, V, X>>, max: nat, valid: (X, X) -> bool, key: K)
    requires IsRun(run, max, valid) && key in End(run)
    ensures LastPut(run, key) == Some(End(run)[key])
  {
    var n := |run| - 1;
    var m := run[n];
    if m.op.PutOp? && |m.before| == max && m.op.key !in m.before {
      var c :| Compacts(m.before, c, m.log, m.op.now, max, valid) && m.after == c[m.op.key := m.op.entry];
    }
    if !(m.op.PutOp? && m.op.key == key) {
      HoldsLastPut(run[..n], max, valid, key);
    }
  }

  /** A get that finds something finds what was last put for the key, and it is still valid. */
  lemma GetReturnsLastPut<K(!new), V(!new), X(!new)>(run: seq<Move<K, V, X>>, max: nat, valid: (X, X) -> bool)
    requires IsRun(run, max, valid) && run != []
    requires run[|run| - 1].op.GetOp? && run[|run| - 1].result.Some?
    ensures var m := run[|run| - 1];
            var put := LastPut(run[..|run| - 1], m.op.key);
            put.Some? && m.result == Some(put.value.value) && valid(m.op.now, put.value.expiration)
  {
    HoldsLastPut(run[..|run| - 1], max, valid, run[|run| - 1].op.key);
  }

  // ------------------------------------------------------------------
  // Conservation
  // ------------------------------------------------------------------

  ghost function Reports<K, V, X>(log: seq<Eviction<K, V, X>>, key: K): nat {
    if log == [] then 0 else (if log[|log| - 1].key == key then 1 else 0) + Reports(log[..|log| - 1], key)
  }

  ghost function Flag(b: bool): nat {
    if b then 1 else 0
  }

  lemma {:induction false} ReportsOfAbsent<K, V, X>(log: seq<Eviction<K, V, X>>, key: K)
    requires forall i :: 0 <= i < |log| ==> log[i].key != key
    ensures Reports(log, key) == 0
  {
    if log != [] {
      ReportsOfAbsent(log[..|log| - 1], key);
    }
  }

  lemma {:induction false} ReportedOnce<K, V, X>(log: seq<Eviction<K, V, X>>, key: K, at: nat)
    requires at < |log| && log[at].key == key
    requires forall i, j :: 0 <= i < j < |log| ==> log[i].key != log[j].key
    ensures Reports(log, key) == 1
  {
    var n := |log| - 1;
    if at == n {
      ReportsOfAbsent(log[..n], key);
    } else {
      ReportedOnce(log[..n], key, at);
    }
  }

  /** In one pass, an entry is reported once if it left and not at all if it stayed. */
  lemma AccountsReports<K, V, X>(before: map<K, Entry<V, X>>, after: map<K, Entry<V, X>>,
                                 log: seq<Eviction<K, V, X>>, now: X, onGet: bool, key: K)
    requires Accounts(before, after, log, now, onGet)
    ensures Flag(key in before) == Flag(key in after) + Reports(log, key)
  {
    if key in before && key !in after {
      var i :| 0 <= i < |log| && log[i].key == key;
      ReportedOnce(log, key, i);
    } else {
      ReportsOfAbsent(log, key);
    }
  }

  ghost function Inserted<K, V, X>(m: Move<K, V, X>, key: K): nat {
    Flag(m.op.PutOp? && m.op.key == key && key !in m.before)
  }

  ghost function Cleared<K, V, X>(m: Move<K, V, X>, key: K): nat {
    Flag(m.op.ClearOp? && key in m.before)
  }

  lemma MoveBalances<K(!new), V(!new), X(!new)>(m: Move<K, V, X>, max: nat, valid: (X, X) -> bool, key: K)
    requires IsMove(m, max, valid)
    ensures Flag(key in m.before) + Inserted(m, key) == Flag(key in m.after) + Reports(m.log, key) + Cleared(m, key)
  {
    match m.op
    case PutOp(k, e, now) =>
      if k in m.before || |m.before| != max {
      } else {
        var c :| Compacts(m.before, c, m.log, now, max, valid) && m.after == c[k := e];
        AccountsReports(m.before, c, m.log, now, false, key);
      }
    case GetOp(k, now) =>
      if k in m.before && !valid(now, m.before[k].expiration) {
        assert m.log[..0] == [];
      }
    case ClearOp =>
  }

  ghost function TotalInserted<K, V, X>(run: seq<Move<K, V, X>>, key: K): nat {
    if run == [] then 0 else TotalInserted(run[..|run| - 1], key) + Inserted(run[|run| - 1], key)
  }

  ghost function TotalReports<K, V, X>(run: seq<Move<K, V, X>>, key: K): nat {
    if run == [] then 0 else TotalReports(run[..|run| - 1], key) + Reports(run[|run| - 1].log, key)
  }

  ghost function TotalCleared<K, V, X>(run: seq<Move<K, V, X>>, key: K): nat {
    if run == [] then 0 else TotalCleared(run[..|run| - 1], key) + Cleared(run[|run| - 1], key)
  }

  /**
   * Over every run, for every key: each time it entered the cache it is still there, was
   * cleared away, or was reported to the eviction handler, once.
   */
  lemma {:induction false} NothingLeavesUnreported<K(!new), V(!new), X(!new)>(
      run: seq<Move<K, V, X>>, max: nat, valid: (X, X) -> bool, key: K)
    requires IsRun(run, max, valid)
    ensures TotalInserted(run, key) == TotalReports(run, key) + TotalCleared(run, key) + Flag(key in End(run))
  {
    if run != [] {
      var n := |run| - 1;
      NothingLeavesUnreported(run[..n], max, valid, key);
      MoveBalances(run[n], max, valid, key);
    }
  }
}
