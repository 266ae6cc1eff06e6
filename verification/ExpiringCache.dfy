/**
 * A bounded cache whose entries expire. The order in which the map is walked is left
 * open, so everything here holds for every order.
 */
module ExpiringCache {
  import opened Options

  datatype Entry<V, X> = Entry(value: V, expiration: X)

  /** What the eviction handler is told. */
  datatype Eviction<K, V, X> = Eviction(key: K, entry: Entry<V, X>, now: X, onGet: bool)

  // ------------------------------------------------------------------
  // What the operations may do to the entries
  // ------------------------------------------------------------------

  /** Every entry is either still there, untouched, or reported once. */
  ghost predicate Accounts<K, V, X>(before: map<K, Entry<V, X>>, after: map<K, Entry<V, X>>,
                                    log: seq<Eviction<K, V, X>>, now: X, onGet: bool) {
    && after.Keys <= before.Keys
    && (forall k :: k in after ==> after[k] == before[k])
    && (forall i :: 0 <= i < |log| ==>
                      && log[i].key in before && log[i].key !in after
                      && log[i] == Eviction(log[i].key, before[log[i].key], now, onGet))
    && (forall i, j :: 0 <= i < j < |log| ==> log[i].key != log[j].key)
    && (forall k :: k in before && k !in after ==> exists i :: 0 <= i < |log| && log[i].key == k)
  }

  ghost function Unexpired<K, V, X>(m: map<K, Entry<V, X>>, now: X, valid: (X, X) -> bool): map<K, Entry<V, X>> {
    map k | k in m && valid(now, m[k].expiration) :: m[k]
  }

  /** Expired entries go first; unexpired ones only while there is no room without them. */
  ghost predicate Compacts<K, V, X>(before: map<K, Entry<V, X>>, after: map<K, Entry<V, X>>,
                                    log: seq<Eviction<K, V, X>>, now: X, max: nat, valid: (X, X) -> bool) {
    && Accounts(before, after, log, now, false)
    && var kept := Unexpired(before, now, valid);
    && (if |kept| < max then after == kept
        else after.Keys <= kept.Keys && |after| == if max == 0 then 0 else max - 1)
  }

  ghost predicate Puts<K(!new), V(!new), X(!new)>(
      before: map<K, Entry<V, X>>, key: K, e: Entry<V, X>, now: X, max: nat, valid: (X, X) -> bool,
      after: map<K, Entry<V, X>>, log: seq<Eviction<K, V, X>>) {
    if key in before || |before| != max then after == before[key := e] && log == []
    else exists m :: Compacts(before, m, log, now, max, valid) && after == m[key := e]
  }

  ghost predicate Gets<K, V, X>(before: map<K, Entry<V, X>>, key: K, now: X, valid: (X, X) -> bool,
                                after: map<K, Entry<V, X>>, log: seq<Eviction<K, V, X>>, r: Option<V>) {
    if key !in before then after == before && log == [] && r == None
    else if !valid(now, before[key].expiration) then
      after == before - {key} && log == [Eviction(key, before[key], now, true)] && r == None
    else after == before && log == [] && r == Some(before[key].value)
  }

  // ------------------------------------------------------------------
  // The cache
  // ------------------------------------------------------------------

  class Cache<K(==,!new), V(!new), X(!new)> {
    const maxEntries: nat
    const valid: (X, X) -> bool
    var entries: map<K, Entry<V, X>>
    /** Everything the eviction handler has been told. */
    var evictions: seq<Eviction<K, V, X>>

    constructor (max: nat, comp: (X, X) -> bool)
      ensures maxEntries == max && valid == comp && entries == map[] && evictions == []
    {
      maxEntries, valid, entries, evictions := max, comp, map[], [];
    }

    method Evict(key: K, now: X, onGet: bool)
      requires key in entries
      modifies this
      ensures entries == old(entries) - {key}
      ensures evictions == old(evictions) + [Eviction(key, old(entries)[key], now, onGet)]
    {
      evictions := evictions + [Eviction(key, entries[key], now, onGet)];
      entries := entries - {key};
    }

    method Get(key: K, now: X) returns (r: Option<V>)
      modifies this
      ensures old(evictions) <= evictions
      ensures Gets(old(entries), key, now, valid, entries, evictions[|old(evictions)|..], r)
    {
      if key !in entries { return None; }
      if !valid(now, entries[key].expiration) {
        Evict(key, now, true);
        return None;
      }
      return Some(entries[key].value);
    }

    /** First pass of compaction: the expired entries go. */
    method ClearExpired(now: X)
      modifies this
      ensures old(evictions) <= evictions
      ensures Accounts(old(entries), entries, evictions[|old(evictions)|..], now, false)
      ensures entries == Unexpired(old(entries), now, valid)
    {
      hide Accounts;
      var todo := entries.Keys;
      AccountsNothing(entries, now);
      assert evictions[|old(evictions)|..] == [];
      while todo != {}
        invariant old(evictions) <= evictions
        invariant todo <= entries.Keys <= old(entries).Keys
        invariant forall k :: k in entries ==> entries[k] == old(entries)[k]
        invariant Accounts(old(entries), entries, evictions[|old(evictions)|..], now, false)
        invariant forall k :: k in entries && k !in todo ==> valid(now, entries[k].expiration)
        invariant forall k :: k in old(entries) && k !in entries ==> !valid(now, old(entries)[k].expiration)
        decreases |todo|
      {
        var k :| k in todo;
        todo := todo - {k};
        if !valid(now, entries[k].expiration) {
          ghost var log, m := evictions[|old(evictions)|..], entries;
          Evict(k, now, false);
          AccountsOneMore(old(entries), m, log, k, now);
          assert evictions[|old(evictions)|..] == log + [Eviction(k, old(entries)[k], now, false)];
        }
      }
    }

    method Compact(now: X)
      modifies this
      ensures old(evictions) <= evictions
      ensures Compacts(old(entries), entries, evictions[|old(evictions)|..], now, maxEntries, valid)
    {
      hide Accounts;
      ClearExpired(now);
      if |entries| < maxEntries { return; }
      ghost var kept := entries;
      var todo := entries.Keys;
      while todo != {} && |entries| >= maxEntries
        invariant old(evictions) <= evictions
        invariant todo == entries.Keys <= kept.Keys
        invariant forall k :: k in entries ==> entries[k] == old(entries)[k]
        invariant Accounts(old(entries), entries, evictions[|old(evictions)|..], now, false)
        invariant |entries| + 1 >= maxEntries
        decreases |todo|
      {
        var k :| k in todo;
        todo := todo - {k};
        ghost var log, m := evictions[|old(evictions)|..], entries;
        Evict(k, now, false);
        AccountsOneMore(old(entries), m, log, k, now);
        SizeOfRemoval(m, k);
        assert evictions[|old(evictions)|..] == log + [Eviction(k, old(entries)[k], now, false)];
      }
    }

    method Put(key: K, value: V, now: X, expiration: X)
      modifies this
      ensures old(evictions) <= evictions
      ensures Puts(old(entries), key, Entry(value, expiration), now, maxEntries, valid,
                   entries, evictions[|old(evictions)|..])
    {
      if key !in entries {
        if |entries| == maxEntries {
          Compact(now);
        }
        ghost var m := entries;
        entries := entries[key := Entry(value, expiration)];
        assert entries == m[key := Entry(value, expiration)];
      } else {
        entries := entries[key := Entry(value, expiration)];
      }
    }

    method Clear()
      modifies this`entries
      ensures entries == map[]
    {
      entries := map[];
    }
  }

  lemma SizeOfRemoval<K, V, X>(m: map<K, Entry<V, X>>, k: K)
    requires k in m
    ensures |m - {k}| == |m| - 1
  {
    assert (m - {k}).Keys == m.Keys - {k};
  }

  lemma AccountsNothing<K, V, X>(m: map<K, Entry<V, X>>, now: X)
    ensures Accounts(m, m, [], now, false)
  {
  }

  lemma AccountsOneMore<K, V, X>(before: map<K, Entry<V, X>>, m: map<K, Entry<V, X>>,
                                 log: seq<Eviction<K, V, X>>, k: K, now: X)
    requires Accounts(before, m, log, now, false) && k in m
    ensures Accounts(before, m - {k}, log + [Eviction(k, before[k], now, false)], now, false)
  {
    var log' := log + [Eviction(k, before[k], now, false)];
    forall c | c in before && c !in m - {k} ensures exists i :: 0 <= i < |log'| && log'[i].key == c {
      if c == k {
        assert log'[|log|].key == k;
      } else {
        var i :| 0 <= i < |log| && log[i].key == c;
        assert log'[i].key == c;
      }
    }
  }
}
