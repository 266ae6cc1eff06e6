/**
 * The interceptor that holds back the player's segment requests and answers them when the
 * backend's response for the same segment arrives, whichever of the two comes first.
 */
module Interceptor {
  /** Everything that happens to it, by the segment `index` and the player's request `ctx`. */
  datatype Action =
    | Issue(index: nat)
    | Arrive(index: nat)
    | Bypass(index: nat)
    | Open(ctx: nat, index: nat)
    | Send(ctx: nat, index: nat)

  /** An entry of the table of segments to intercept: announced, or held back for a request. */
  datatype Slot = Announced | Holds(ctx: nat)

  datatype Serve = Serve(ctx: nat, index: nat)

  /**
   * The tables, and what came out: the requests answered from a response, the requests
   * that went to the network, and the segments reported to the request callback.
   */
  datatype State = State(toIntercept: map<nat, Slot>, onIntercept: set<nat>, done: set<nat>, bypass: set<nat>,
                         hooked: set<nat>, served: seq<Serve>, native: seq<nat>, asked: seq<nat>)

  const FRESH := State(map[], {}, {}, {}, {}, [], [], [])

  function Answer(s: State, ctx: nat, index: nat): State {
    s.(served := s.served + [Serve(ctx, index)])
  }

  function DoArrive(s: State, index: nat): State {
    var s1 := s.(onIntercept := s.onIntercept + {index});
    if index in s.toIntercept && s.toIntercept[index].Holds? then Answer(s1, s.toIntercept[index].ctx, index) else s1
  }

  function DoOpen(s: State, ctx: nat, index: nat): State {
    if index !in s.done then
      s.(done := s.done + {index}, asked := s.asked + [index], hooked := s.hooked + {ctx})
    else if index in s.bypass then s.(asked := s.asked + [index])
    else s.(hooked := s.hooked + {ctx})
  }

  function DoSend(s: State, ctx: nat, index: nat): State {
    if ctx in s.hooked && index in s.toIntercept then
      var s1 := s.(toIntercept := s.toIntercept[index := Holds(ctx)]);
      if index in s.onIntercept then Answer(s1, ctx, index) else s1
    else s.(native := s.native + [ctx])
  }

  function Apply(s: State, a: Action): State {
    match a
    case Issue(index) => s.(toIntercept := s.toIntercept[index := Announced])
    case Arrive(index) => DoArrive(s, index)
    case Bypass(index) => s.(bypass := s.bypass + {index})
    case Open(ctx, index) => DoOpen(s, ctx, index)
    case Send(ctx, index) => DoSend(s, ctx, index)
  }

  /** The state after the first `n` actions. */
  function Play(t: seq<Action>, n: nat): State
    requires n <= |t|
  {
    if n == 0 then FRESH else Apply(Play(t, n - 1), t[n - 1])
  }

  // ------------------------------------------------------------------
  // What a trace says, without the tables
  // ------------------------------------------------------------------

  ghost predicate Before(t: seq<Action>, n: nat, a: Action)
    requires n <= |t|
  {
    exists j :: 0 <= j < n && t[j] == a
  }

  ghost predicate OpenedBefore(t: seq<Action>, n: nat, index: nat)
    requires n <= |t|
  {
    exists j :: 0 <= j < n && t[j].Open? && t[j].index == index
  }

  /** Opening a request puts it under interception unless it is a retry and a bypass is set. */
  ghost predicate Hooks(t: seq<Action>, k: nat)
    requires k < |t|
  {
    t[k].Open? && !(OpenedBefore(t, k, t[k].index) && Before(t, k, Bypass(t[k].index)))
  }

  ghost predicate HookedBefore(t: seq<Action>, n: nat, ctx: nat)
    requires n <= |t|
  {
    exists j :: 0 <= j < n && Hooks(t, j) && t[j].ctx == ctx
  }

  /** The request sent by action `k` is held back: it is hooked and its segment is announced. */
  ghost predicate Caught(t: seq<Action>, k: nat)
    requires k < |t|
  {
    t[k].Send? && HookedBefore(t, k, t[k].ctx) && Before(t, k, Issue(t[k].index))
  }

  /** It is the latest one held back for its segment among the first `n` actions. */
  ghost predicate Latest(t: seq<Action>, n: nat, k: nat)
    requires k < n <= |t|
  {
    t[k].Send? && Caught(t, k) && forall m :: k < m < n && Caught(t, m) ==> t[m].index != t[k].index
  }

  /** It is the latest when the response arrives. */
  ghost predicate LatestAtArrival(t: seq<Action>, n: nat, k: nat)
    requires k < n <= |t|
  {
    exists m :: k < m < n && t[m] == Arrive(t[k].index) && Latest(t, m, k)
  }

  /** The requests that must be answered: sent after the response, or latest when it arrives. */
  ghost predicate Due(t: seq<Action>, n: nat, k: nat)
    requires k < n <= |t|
  {
    t[k].Send? && Caught(t, k) && (Before(t, k, Arrive(t[k].index)) || LatestAtArrival(t, n, k))
  }

  /**
   * What the request pool and the player guarantee: a segment is announced once and
   * answered once, and a request is opened once and sent once, for the same segment.
   */
  ghost predicate WellFormed(t: seq<Action>) {
    && (forall j, k :: 0 <= j < k < |t| && t[j].Issue? ==> t[k] != t[j])
    && (forall j, k :: 0 <= j < k < |t| && t[j].Arrive? ==> t[k] != t[j])
    && (forall j, k :: 0 <= j < k < |t| && t[j].Send? && t[k].Send? ==> t[k].ctx != t[j].ctx)
    && (forall j, k :: 0 <= j < k < |t| && t[j].Open? && t[k].Open? ==> t[k].ctx != t[j].ctx)
    && (forall k :: 0 <= k < |t| && t[k].Send? ==> Before(t, k, Open(t[k].ctx, t[k].index)))
  }

  // ------------------------------------------------------------------
  // The tables agree with the trace
  // ------------------------------------------------------------------

  ghost predicate Records(t: seq<Action>, n: nat, s: State)
    requires n <= |t|
  {
    && (forall i :: i in s.onIntercept <==> Before(t, n, Arrive(i)))
    && (forall i :: i in s.toIntercept <==> Before(t, n, Issue(i)))
    && (forall i :: i in s.bypass <==> Before(t, n, Bypass(i)))
    && (forall i :: i in s.done <==> OpenedBefore(t, n, i))
    && (forall c :: c in s.hooked <==> HookedBefore(t, n, c))
  }

  lemma BeforeNext(t: seq<Action>, n: nat, a: Action)
    requires n < |t|
    ensures Before(t, n + 1, a) <==> Before(t, n, a) || t[n] == a
  {
  }

  lemma OpenedNext(t: seq<Action>, n: nat, index: nat)
    requires n < |t|
    ensures OpenedBefore(t, n + 1, index) <==> OpenedBefore(t, n, index) || (t[n].Open? && t[n].index == index)
  {
  }

  lemma HookedNext(t: seq<Action>, n: nat, ctx: nat)
    requires n < |t|
    ensures HookedBefore(t, n + 1, ctx) <==> HookedBefore(t, n, ctx) || (Hooks(t, n) && t[n].ctx == ctx)
  {
  }

  lemma NothingRecorded(t: seq<Action>)
    ensures Records(t, 0, FRESH)
  {
  }

  lemma {:induction false} TablesRecord(t: seq<Action>, n: nat)
    requires n <= |t|
    ensures Records(t, n, Play(t, n))
  {
    hide Records, Apply;
    if n == 0 {
      NothingRecorded(t);
    } else {
      TablesRecord(t, n - 1);
      TablesStep(t, n - 1, Play(t, n - 1), Play(t, n));
    }
  }

  lemma TablesStep(t: seq<Action>, n: nat, s: State, s': State)
    requires n < |t| && Records(t, n, s) && s' == Apply(s, t[n])
    ensures Records(t, n + 1, s')
  {
    hide Before, OpenedBefore, HookedBefore;
    forall i: nat
      ensures i in s'.onIntercept <==> Before(t, n + 1, Arrive(i))
      ensures i in s'.toIntercept <==> Before(t, n + 1, Issue(i))
      ensures i in s'.bypass <==> Before(t, n + 1, Bypass(i))
      ensures i in s'.done <==> OpenedBefore(t, n + 1, i)
      ensures i in s'.hooked <==> HookedBefore(t, n + 1, i)
    {
      BeforeNext(t, n, Arrive(i));
      BeforeNext(t, n, Issue(i));
      BeforeNext(t, n, Bypass(i));
      OpenedNext(t, n, i);
      HookedNext(t, n, i);
    }
  }

  /** The slot of a segment holds exactly the latest request held back for it. */
  ghost predicate SlotsRecord(t: seq<Action>, n: nat, s: State)
    requires n <= |t|
  {
    && (forall i :: i in s.toIntercept && s.toIntercept[i].Holds? ==>
          exists k :: 0 <= k < n && t[k] == Send(s.toIntercept[i].ctx, i) && Latest(t, n, k))
    && (forall k :: 0 <= k < n && Latest(t, n, k) ==>
          t[k].index in s.toIntercept && s.toIntercept[t[k].index] == Holds(t[k].ctx))
  }

  lemma LatestIsCaught(t: seq<Action>, n: nat, k: nat)
    requires k < n <= |t|
    ensures Latest(t, n, k) ==> Caught(t, k) && t[k].Send?
    ensures Caught(t, k) ==> t[k].Send?
  {
  }

  lemma LatestNext(t: seq<Action>, n: nat, k: nat)
    requires k < n < |t|
    ensures Latest(t, n + 1, k) <==> Latest(t, n, k) && !(Caught(t, n) && t[n].index == t[k].index)
  {
  }

  /** The table of slots changes only where a segment is announced or a request is held back. */
  lemma SlotsChange(t: seq<Action>, n: nat, s: State, i: nat)
    requires n < |t| && Records(t, n, s)
    ensures var before, after := s.toIntercept, Apply(s, t[n]).toIntercept;
            if t[n] == Issue(i) then i in after && after[i] == Announced
            else if Caught(t, n) && t[n].index == i then i in after && after[i] == Holds(t[n].ctx)
            else (i in after <==> i in before) && (i in after ==> after[i] == before[i])
  {
    hide HookedBefore, Before;
  }

  /** No request is held back for a segment that is announced only later. */
  lemma NotYetAnnounced(t: seq<Action>, n: nat, k: nat)
    requires WellFormed(t) && k < n < |t| && Caught(t, k)
    ensures t[n] != Issue(t[k].index)
  {
    hide HookedBefore;
    var j :| 0 <= j < k && t[j] == Issue(t[k].index);
  }

  lemma SlotsStep(t: seq<Action>, n: nat, s: State, s': State)
    requires WellFormed(t) && n < |t| && Records(t, n, s) && s' == Apply(s, t[n])
    requires SlotsRecord(t, n, s)
    ensures SlotsRecord(t, n + 1, s')
  {
    hide WellFormed, Records, Apply, Caught;
    forall i | i in s'.toIntercept && s'.toIntercept[i].Holds?
      ensures exists k :: 0 <= k < n + 1 && t[k] == Send(s'.toIntercept[i].ctx, i) && Latest(t, n + 1, k)
    {
      SlotsChange(t, n, s, i);
      if Caught(t, n) && t[n].index == i {
        LatestIsCaught(t, n + 1, n);
        assert Latest(t, n + 1, n);
      } else {
        var k :| 0 <= k < n && t[k] == Send(s.toIntercept[i].ctx, i) && Latest(t, n, k);
        LatestNext(t, n, k);
      }
    }
    forall k | 0 <= k < n + 1 && Latest(t, n + 1, k)
      ensures t[k].index in s'.toIntercept && s'.toIntercept[t[k].index] == Holds(t[k].ctx)
    {
      SlotsChange(t, n, s, t[k].index);
      if k < n {
        LatestNext(t, n, k);
        NotYetAnnounced(t, n, k);
      }
    }
  }

  lemma NothingHeld(t: seq<Action>)
    ensures SlotsRecord(t, 0, FRESH)
  {
  }

  lemma {:induction false} SlotsHoldLatest(t: seq<Action>, n: nat)
    requires WellFormed(t) && n <= |t|
    ensures SlotsRecord(t, n, Play(t, n))
  {
    hide SlotsRecord, WellFormed, Records, Apply;
    if n == 0 {
      NothingHeld(t);
    } else {
      SlotsHoldLatest(t, n - 1);
      TablesRecord(t, n - 1);
      SlotsStep(t, n - 1, Play(t, n - 1), Play(t, n));
    }
  }

  // ------------------------------------------------------------------
  // Every request is answered at most once, and exactly those that are due
  // ------------------------------------------------------------------

  /** The answer `e` is for a request that is due. */
  ghost predicate Owed(t: seq<Action>, n: nat, e: Serve)
    requires n <= |t|
  {
    exists k :: 0 <= k < n && t[k] == Send(e.ctx, e.index) && Due(t, n, k)
  }

  ghost predicate ServesDue(t: seq<Action>, n: nat, served: seq<Serve>)
    requires n <= |t|
  {
    && (forall a :: 0 <= a < |served| ==> Owed(t, n, served[a]))
    && (forall k :: 0 <= k < n && Due(t, n, k) ==> Serve(t[k].ctx, t[k].index) in served)
    && (forall a, b :: 0 <= a < b < |served| ==> served[a].ctx != served[b].ctx)
  }

  /** Action `n` makes the request sent by action `k` due. */
  ghost predicate NewlyDue(t: seq<Action>, n: nat, k: nat)
    requires k <= n < |t|
  {
    if k == n then t[n].Send? && Caught(t, n) && Before(t, n, Arrive(t[n].index))
    else t[k].Send? && t[n] == Arrive(t[k].index) && Latest(t, n, k)
  }

  lemma DueNext(t: seq<Action>, n: nat, k: nat)
    requires k <= n < |t|
    ensures Due(t, n + 1, k) <==> (k < n && Due(t, n, k)) || NewlyDue(t, n, k)
    ensures Due(t, n + 1, k) ==> t[k].Send?
  {
    hide Latest, Caught, Before;
    if k == n {
      assert !LatestAtArrival(t, n + 1, k);
    } else {
      LatestIsCaught(t, n, k);
      if LatestAtArrival(t, n + 1, k) && !LatestAtArrival(t, n, k) {
        var m :| k < m < n + 1 && t[m] == Arrive(t[k].index) && Latest(t, m, k);
        assert m == n;
      }
    }
  }

  /** A request that was due is not made due again. */
  lemma DueOnce(t: seq<Action>, n: nat, j: nat, k: nat)
    requires WellFormed(t) && j < n && k <= n < |t| && Due(t, n, j) && NewlyDue(t, n, k)
    ensures t[k].Send? && t[k].ctx != t[j].ctx
  {
    hide Latest, Caught;
  }

  /** Each action answers the request it makes due, and no other. */
  lemma ServesNew(t: seq<Action>, n: nat, s: State) returns (k: nat)
    requires n < |t| && Records(t, n, s) && SlotsRecord(t, n, s)
    ensures k <= n
    ensures forall j :: 0 <= j <= n && j != k ==> !NewlyDue(t, n, j)
    ensures Apply(s, t[n]).served ==
            if NewlyDue(t, n, k) then s.served + [Serve(t[k].ctx, t[k].index)] else s.served
  {
    k := n;
    hide Before, HookedBefore;
    if t[n].Arrive? && t[n].index in s.toIntercept && s.toIntercept[t[n].index].Holds? {
      var i := t[n].index;
      k :| 0 <= k < n && t[k] == Send(s.toIntercept[i].ctx, i) && Latest(t, n, k);
      forall j | 0 <= j < n && j != k ensures !NewlyDue(t, n, j) {
        if t[j].index == i {
          OneLatest(t, n, j, k);
        }
      }
    }
  }

  lemma OneLatest(t: seq<Action>, n: nat, j: nat, k: nat)
    requires j < n && k < n <= |t| && j != k && Latest(t, n, k) && t[j].index == t[k].index
    ensures !Latest(t, n, j)
  {
    hide Caught;
  }

  lemma ServesStep(t: seq<Action>, n: nat, s: State)
    requires WellFormed(t) && n < |t| && Records(t, n, s) && SlotsRecord(t, n, s)
    requires ServesDue(t, n, s.served)
    ensures ServesDue(t, n + 1, Apply(s, t[n]).served)
  {
    hide WellFormed, Records, SlotsRecord, Apply, Due, NewlyDue, Owed;
    var served, served' := s.served, Apply(s, t[n]).served;
    var k := ServesNew(t, n, s);
    forall j | 0 <= j <= n
      ensures Due(t, n + 1, j) <==> (j < n && Due(t, n, j)) || NewlyDue(t, n, j)
      ensures Due(t, n + 1, j) ==> t[j].Send?
    {
      DueNext(t, n, j);
    }
    forall a | 0 <= a < |served|
      ensures Owed(t, n + 1, served[a])
      ensures NewlyDue(t, n, k) ==> served[a].ctx != t[k].ctx
    {
      OwedStays(t, n, served[a], k);
    }
    if NewlyDue(t, n, k) {
      OwedNow(t, n, k);
    }
    forall j | 0 <= j < n + 1 && Due(t, n + 1, j) ensures Serve(t[j].ctx, t[j].index) in served' {
      assert j == k || Serve(t[j].ctx, t[j].index) in served;
    }
  }

  lemma OwedStays(t: seq<Action>, n: nat, e: Serve, k: nat)
    requires WellFormed(t) && k <= n < |t| && Owed(t, n, e)
    ensures Owed(t, n + 1, e)
    ensures NewlyDue(t, n, k) ==> t[k].Send? && e.ctx != t[k].ctx
  {
    hide WellFormed, Due, NewlyDue;
    var j :| 0 <= j < n && t[j] == Send(e.ctx, e.index) && Due(t, n, j);
    DueNext(t, n, j);
    if NewlyDue(t, n, k) {
      DueOnce(t, n, j, k);
    }
  }

  lemma OwedNow(t: seq<Action>, n: nat, k: nat)
    requires k <= n < |t| && NewlyDue(t, n, k)
    ensures t[k].Send? && Owed(t, n + 1, Serve(t[k].ctx, t[k].index))
  {
    hide Due, NewlyDue;
    DueNext(t, n, k);
  }

  lemma NothingServed(t: seq<Action>)
    ensures ServesDue(t, 0, [])
  {
  }

  /**
   * Over every trace: a request is answered at most once, with the response for its own
   * segment, and exactly if it is sent after that response or is the latest when it arrives.
   */
  lemma {:induction false} ServesExactlyDue(t: seq<Action>, n: nat)
    requires WellFormed(t) && n <= |t|
    ensures ServesDue(t, n, Play(t, n).served)
  {
    hide WellFormed, Records, SlotsRecord, ServesDue, Apply;
    if n == 0 {
      NothingServed(t);
    } else {
      ServesExactlyDue(t, n - 1);
      TablesRecord(t, n - 1);
      SlotsHoldLatest(t, n - 1);
      ServesStep(t, n - 1, Play(t, n - 1));
    }
  }

  ghost predicate SendsUncaught(t: seq<Action>, n: nat, native: seq<nat>)
    requires n <= |t|
  {
    && (forall k :: 0 <= k < n && t[k].Send? ==> (t[k].ctx in native <==> !Caught(t, k)))
    && (forall c :: c in native ==> exists k :: 0 <= k < n && t[k].Send? && t[k].ctx == c)
  }

  lemma SendsStep(t: seq<Action>, n: nat, s: State)
    requires WellFormed(t) && n < |t| && Records(t, n, s) && SendsUncaught(t, n, s.native)
    ensures SendsUncaught(t, n + 1, Apply(s, t[n]).native)
  {
    hide HookedBefore, Before;
    if t[n].Send? {
      assert t[n].ctx !in s.native;
      assert Apply(s, t[n]).native == if Caught(t, n) then s.native else s.native + [t[n].ctx];
    } else {
      assert Apply(s, t[n]).native == s.native;
    }
    hide Apply, Records, Caught;
  }

  lemma NothingSent(t: seq<Action>)
    ensures SendsUncaught(t, 0, [])
  {
  }

  /** Every request sent either goes to the network or is held back, never both. */
  lemma {:induction false} NativeExactlyUncaught(t: seq<Action>, n: nat)
    requires WellFormed(t) && n <= |t|
    ensures SendsUncaught(t, n, Play(t, n).native)
  {
    hide WellFormed, Records, SendsUncaught, Apply;
    if n == 0 {
      NothingSent(t);
    } else {
      NativeExactlyUncaught(t, n - 1);
      TablesRecord(t, n - 1);
      SendsStep(t, n - 1, Play(t, n - 1));
    }
  }

  /** A bypass is not used up: of two retries after it, neither is held back. */
  lemma BypassLasts()
    ensures var t := [Issue(1), Open(1, 1), Bypass(1), Open(2, 1), Send(2, 1), Open(3, 1), Send(3, 1)];
            WellFormed(t) && Play(t, |t|).native == [2, 3] && Play(t, |t|).asked == [1, 1, 1]
  {
    var t := [Issue(1), Open(1, 1), Bypass(1), Open(2, 1), Send(2, 1), Open(3, 1), Send(3, 1)];
    assert t[3] == Open(2, 1) && t[5] == Open(3, 1);
    var s3 := Play(t, 3);
    assert s3 == FRESH.(toIntercept := map[1 := Announced], done := {1}, hooked := {1}, asked := [1], bypass := {1});
    var s5 := Play(t, 5);
    assert s5 == s3.(asked := [1, 1], native := [2]);
    assert Play(t, 7) == s5.(asked := [1, 1, 1], native := [2, 3]);
  }

  // ------------------------------------------------------------------
  // The request callback
  // ------------------------------------------------------------------

  ghost function Asked(asked: seq<nat>, index: nat): nat {
    multiset(asked)[index]
  }

  /** The openings of a segment that are reported: the first, and the retries let through. */
  ghost function Reported(t: seq<Action>, n: nat, index: nat): nat
    requires n <= |t|
  {
    if n == 0 then 0
    else
      Reported(t, n - 1, index)
      + if t[n - 1].Open? && t[n - 1].index == index
           && (!OpenedBefore(t, n - 1, index) || Before(t, n - 1, Bypass(index))) then 1 else 0
  }

  /** A segment is reported for its first request and for each retry after a bypass, and for nothing else. */
  lemma {:induction false} AskedExactly(t: seq<Action>, n: nat, index: nat)
    requires n <= |t|
    ensures Asked(Play(t, n).asked, index) == Reported(t, n, index)
  {
    hide HookedBefore, Before, OpenedBefore, Records, Apply, Asked;
    if n == 0 {
      NothingAsked(index);
    } else {
      AskedExactly(t, n - 1, index);
      TablesRecord(t, n - 1);
      AskedStep(t, n - 1, Play(t, n - 1), index);
    }
  }

  lemma NothingAsked(index: nat)
    ensures Asked(FRESH.asked, index) == 0
  {
  }

  lemma AskedStep(t: seq<Action>, n: nat, s: State, index: nat)
    requires n < |t| && Records(t, n, s)
    ensures Asked(Apply(s, t[n]).asked, index) == Asked(s.asked, index)
              + if t[n].Open? && t[n].index == index
                   && (!OpenedBefore(t, n, index) || Before(t, n, Bypass(index))) then 1 else 0
  {
    hide HookedBefore, Before, OpenedBefore;
  }

  /** Without a bypass a segment is reported exactly once, on its first request. */
  lemma {:induction false} AskedOnce(t: seq<Action>, n: nat, index: nat)
    requires n <= |t| && !Before(t, n, Bypass(index))
    ensures Asked(Play(t, n).asked, index) == if OpenedBefore(t, n, index) then 1 else 0
  {
    if n > 0 {
      BeforeNext(t, n - 1, Bypass(index));
      AskedOnce(t, n - 1, index);
      OpenedNext(t, n - 1, index);
      TablesRecord(t, n - 1);
      hide HookedBefore, Before, OpenedBefore;
    }
  }
}

/** The interceptor object and its tables. */
module InterceptorTables {
  import opened Interceptor

  class Tables {
    var toIntercept: map<nat, Slot>
    var onIntercept: set<nat>
    var done: set<nat>
    var bypass: set<nat>
    var hooked: set<nat>
    var served: seq<Serve>
    var native: seq<nat>
    var asked: seq<nat>

    ghost function Value(): State
      reads this
    {
      State(toIntercept, onIntercept, done, bypass, hooked, served, native, asked)
    }

    constructor ()
      ensures Value() == FRESH
    {
      toIntercept, onIntercept, done, bypass, hooked := map[], {}, {}, {}, {};
      served, native, asked := [], [], [];
    }

    method Intercept(index: nat)
      modifies this
      ensures Value() == Apply(old(Value()), Issue(index))
    {
      toIntercept := toIntercept[index := Announced];
    }

    method SetBypass(index: nat)
      modifies this
      ensures Value() == Apply(old(Value()), Bypass(index))
    {
      bypass := bypass + {index};
    }

    method OnIntercept(index: nat)
      modifies this
      ensures Value() == Apply(old(Value()), Arrive(index))
    {
      onIntercept := onIntercept + {index};
      if index in toIntercept && toIntercept[index] != Announced {
        served := served + [Serve(toIntercept[index].ctx, index)];
      }
    }

    method OpenRequest(ctx: nat, index: nat)
      modifies this
      ensures Value() == Apply(old(Value()), Open(ctx, index))
    {
      var bypassDetected := false;
      if index !in done {
        asked := asked + [index];
        done := done + {index};
      } else if index in bypass {
        bypassDetected := true;
        asked := asked + [index];
        done := done + {index};
      }
      if bypassDetected {
        assert old(done) + {index} == old(done);
        return;
      }
      hooked := hooked + {ctx};
    }

    method SendRequest(ctx: nat, index: nat)
      modifies this
      ensures Value() == Apply(old(Value()), Send(ctx, index))
    {
      if ctx in hooked && index in toIntercept {
        toIntercept := toIntercept[index := Holds(ctx)];
        if index in onIntercept {
          served := served + [Serve(ctx, index)];
        }
      } else {
        native := native + [ctx];
      }
    }
  }
}
