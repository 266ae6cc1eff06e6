/**
 * The pool of long-polling requests, and the run of pool, interceptor and player together.
 */
module RequestPool {
  import opened Interceptor

  datatype Pool = Pool(current: int, index: nat)

  /** Requests the next segments while the pool has room. */
  function Request(p: Pool, size: nat, max: nat): Pool
    decreases max - p.index
  {
    if p.current < size && p.index < max then Request(Pool(p.current + 1, p.index + 1), size, max) else p
  }

  function Requests(p: Pool, size: nat, max: nat): seq<Action>
    decreases max - p.index
  {
    if p.current < size && p.index < max then
      [Issue(p.index + 1)] + Requests(Pool(p.current + 1, p.index + 1), size, max)
    else []
  }

  /** The whole: the pool, the requests in flight, the finished and the lost ones, and all that happened. */
  datatype World = World(pool: Pool, started: bool, inFlight: set<nat>, finished: set<nat>, lost: set<nat>,
                         trace: seq<Action>)

  const BEGINNING := World(Pool(0, 0), false, {}, {}, {}, [])

  /** A resource request succeeds, or is lost by an abort or a failure; the player acts. */
  datatype Event =
    | Start
    | Success(index: nat)
    | Lose(index: nat)
    | Player(action: Action)

  ghost predicate Allowed(w: World, ev: Event) {
    match ev
    case Start => !w.started
    case Success(index) => index in w.inFlight
    case Lose(index) => index in w.inFlight
    case Player(action) =>
      match action
      case Bypass(_) => true
      case Open(ctx, _) => forall k :: 0 <= k < |w.trace| && w.trace[k].Open? ==> w.trace[k].ctx != ctx
      case Send(ctx, index) =>
        && Before(w.trace, |w.trace|, Open(ctx, index))
        && (forall k :: 0 <= k < |w.trace| && w.trace[k].Send? ==> w.trace[k].ctx != ctx)
      case _ => false
  }

  /** One more request. */
  function Issued(w: World): World {
    var i := w.pool.index + 1;
    w.(pool := Pool(w.pool.current + 1, i), inFlight := w.inFlight + {i}, trace := w.trace + [Issue(i)])
  }

  function Refill(w: World, size: nat, max: nat): World
    decreases max - w.pool.index
  {
    if w.pool.current < size && w.pool.index < max then Refill(Issued(w), size, max) else w
  }

  /** The response is handed to the interceptor before its slot in the pool is freed. */
  function Arrived(w: World, index: nat): World {
    w.(inFlight := w.inFlight - {index}, finished := w.finished + {index},
       trace := w.trace + [Arrive(index)], pool := w.pool.(current := w.pool.current - 1))
  }

  function Next(w: World, ev: Event, size: nat, max: nat): World {
    match ev
    case Start => Refill(w.(started := true), size, max)
    case Success(index) => Refill(Arrived(w, index), size, max)
    case Lose(index) => w.(inFlight := w.inFlight - {index}, lost := w.lost + {index})
    case Player(action) => w.(trace := w.trace + [action])
  }

  ghost predicate IsRun(events: seq<Event>, size: nat, max: nat) {
    events == [] ||
    (var n := |events| - 1;
     IsRun(events[..n], size, max) && Allowed(Run(events[..n], size, max), events[n]))
  }

  function Run(events: seq<Event>, size: nat, max: nat): World {
    if events == [] then BEGINNING
    else
      var n := |events| - 1;
      Next(Run(events[..n], size, max), events[n], size, max)
  }

  // ------------------------------------------------------------------
  // The pool's own books
  // ------------------------------------------------------------------

  /** Every segment up to the current one is in flight, finished or lost, and the counter forgets only the finished. */
  ghost predicate Balanced(w: World, size: nat, max: nat) {
    && w.inFlight !! w.finished && w.inFlight !! w.lost && w.finished !! w.lost
    && (forall i :: i in w.inFlight || i in w.finished || i in w.lost <==> 1 <= i <= w.pool.index)
    && w.pool.current == |w.inFlight| + |w.lost|
    && w.pool.index == |w.inFlight| + |w.finished| + |w.lost|
    && w.pool.current <= size && w.pool.index <= max
  }

  /** Between events there is no room left, or nothing left to request. */
  ghost predicate Settled(w: World, size: nat, max: nat) {
    w.started ==> w.pool.current == size || w.pool.index == max
  }

  lemma {:induction false} RefillBalances(w: World, size: nat, max: nat)
    requires Balanced(w, size, max)
    ensures var w' := Refill(w, size, max);
            Balanced(w', size, max) && (w'.pool.current == size || w'.pool.index == max)
            && w'.finished == w.finished && w'.lost == w.lost && w'.started == w.started
    decreases max - w.pool.index
  {
    if w.pool.current < size && w.pool.index < max {
      RefillBalances(Issued(w), size, max);
    }
  }

  lemma StepBalances(w: World, ev: Event, size: nat, max: nat)
    requires Balanced(w, size, max) && Settled(w, size, max) && Allowed(w, ev)
    requires w.started || w.pool.index == 0
    ensures var w' := Next(w, ev, size, max);
            Balanced(w', size, max) && Settled(w', size, max) && (w'.started || w'.pool.index == 0)
  {
    match ev
    case Start => RefillBalances(w.(started := true), size, max);
    case Success(index) => RefillBalances(Arrived(w, index), size, max);
    case Lose(index) =>
    case Player(action) =>
  }

  lemma {:induction false} RunBalances(events: seq<Event>, size: nat, max: nat)
    requires IsRun(events, size, max)
    ensures var w := Run(events, size, max);
            Balanced(w, size, max) && Settled(w, size, max) && (w.started || w.pool.index == 0)
  {
    if events != [] {
      var n := |events| - 1;
      RunBalances(events[..n], size, max);
      StepBalances(Run(events[..n], size, max), events[n], size, max);
    }
  }

  /**
   * With fewer losses than pool slots, once started, some request is in flight until all
   * have been requested; and when nothing is in flight any more, everything not lost is finished.
   */
  lemma NeverStalls(events: seq<Event>, size: nat, max: nat)
    requires IsRun(events, size, max)
    ensures var w := Run(events, size, max);
            w.started && |w.lost| < size ==>
              && (w.pool.index < max ==> w.inFlight != {})
              && (w.inFlight == {} ==> forall i :: 1 <= i <= max ==> i in w.finished || i in w.lost)
  {
    RunBalances(events, size, max);
  }

  // ------------------------------------------------------------------
  // The trace the pool produces
  // ------------------------------------------------------------------

  /** Announced exactly once each and in order; answered at most once, after the announcement. */
  ghost predicate InOrder(t: seq<Action>, index: nat, finished: set<nat>) {
    && (forall k :: 0 <= k < |t| && t[k].Issue? ==> 1 <= t[k].index <= index)
    && (forall j, k :: 0 <= j < k < |t| && t[j].Issue? && t[k].Issue? ==> t[j].index < t[k].index)
    && (forall i :: 1 <= i <= index ==> Before(t, |t|, Issue(i)))
    && (forall k :: 0 <= k < |t| && t[k].Arrive? ==> t[k].index in finished && Before(t, k, Issue(t[k].index)))
    && (forall j, k :: 0 <= j < k < |t| && t[j].Arrive? && t[k].Arrive? ==> t[j].index != t[k].index)
  }

  /** A request is opened once and sent once, after it was opened. */
  ghost predicate PlayerInOrder(t: seq<Action>) {
    && (forall j, k :: 0 <= j < k < |t| && t[j].Send? && t[k].Send? ==> t[k].ctx != t[j].ctx)
    && (forall j, k :: 0 <= j < k < |t| && t[j].Open? && t[k].Open? ==> t[k].ctx != t[j].ctx)
    && (forall k :: 0 <= k < |t| && t[k].Send? ==> Before(t, k, Open(t[k].ctx, t[k].index)))
  }

  ghost predicate Orderly(w: World) {
    InOrder(w.trace, w.pool.index, w.finished) && PlayerInOrder(w.trace)
  }

  lemma BeforeAppend(t: seq<Action>, a: Action, n: nat, b: Action)
    requires n <= |t|
    ensures Before(t + [a], n, b) <==> Before(t, n, b)
    ensures Before(t + [a], |t| + 1, b) <==> Before(t, |t|, b) || a == b
  {
    var t' := t + [a];
    if Before(t, n, b) {
      var j :| 0 <= j < n && t[j] == b;
      assert t'[j] == b;
    }
    if Before(t, |t|, b) {
      var j :| 0 <= j < |t| && t[j] == b;
      assert t'[j] == b;
    }
    if a == b {
      assert t'[|t|] == b;
    }
  }

  lemma AppendInOrder(t: seq<Action>, a: Action, index: nat, index': nat, finished: set<nat>, finished': set<nat>)
    requires InOrder(t, index, finished) && finished <= finished'
    requires index' == if a.Issue? then index + 1 else index
    requires a.Issue? ==> a.index == index'
    requires a.Arrive? ==> a.index in finished' && a.index !in finished && 1 <= a.index <= index
    ensures InOrder(t + [a], index', finished')
  {
    hide Before;
    var t' := t + [a];
    forall i: nat | 1 <= i <= index' ensures Before(t', |t'|, Issue(i)) {
      BeforeAppend(t, a, |t|, Issue(i));
    }
    forall k | 0 <= k < |t'| && t'[k].Arrive?
      ensures t'[k].index in finished' && Before(t', k, Issue(t'[k].index))
    {
      BeforeAppend(t, a, k, Issue(t'[k].index));
    }
  }

  lemma AppendPlayerInOrder(t: seq<Action>, a: Action)
    requires PlayerInOrder(t)
    requires a.Send? ==> Before(t, |t|, Open(a.ctx, a.index))
    requires a.Send? ==> forall k :: 0 <= k < |t| && t[k].Send? ==> t[k].ctx != a.ctx
    requires a.Open? ==> forall k :: 0 <= k < |t| && t[k].Open? ==> t[k].ctx != a.ctx
    ensures PlayerInOrder(t + [a])
  {
    hide Before;
    var t' := t + [a];
    forall k | 0 <= k < |t'| && t'[k].Send? ensures Before(t', k, Open(t'[k].ctx, t'[k].index)) {
      BeforeAppend(t, a, k, Open(t'[k].ctx, t'[k].index));
    }
  }

  lemma {:induction false} RefillOrderly(w: World, size: nat, max: nat)
    requires Orderly(w)
    ensures Orderly(Refill(w, size, max))
    decreases max - w.pool.index
  {
    if w.pool.current < size && w.pool.index < max {
      var i := w.pool.index + 1;
      AppendInOrder(w.trace, Issue(i), w.pool.index, i, w.finished, w.finished);
      AppendPlayerInOrder(w.trace, Issue(i));
      RefillOrderly(Issued(w), size, max);
    }
  }

  lemma StepOrderly(w: World, ev: Event, size: nat, max: nat)
    requires Balanced(w, size, max) && Orderly(w) && Allowed(w, ev)
    ensures Orderly(Next(w, ev, size, max))
  {
    hide InOrder, PlayerInOrder;
    match ev
    case Start => RefillOrderly(w.(started := true), size, max);
    case Success(index) =>
      AppendInOrder(w.trace, Arrive(index), w.pool.index, w.pool.index, w.finished, w.finished + {index});
      AppendPlayerInOrder(w.trace, Arrive(index));
      RefillOrderly(Arrived(w, index), size, max);
    case Lose(index) =>
    case Player(action) =>
      AppendInOrder(w.trace, action, w.pool.index, w.pool.index, w.finished, w.finished);
      AppendPlayerInOrder(w.trace, action);
  }

  lemma {:induction false} RunOrderly(events: seq<Event>, size: nat, max: nat)
    requires IsRun(events, size, max)
    ensures Orderly(Run(events, size, max))
  {
    if events != [] {
      var n := |events| - 1;
      RunOrderly(events[..n], size, max);
      RunBalances(events[..n], size, max);
      StepOrderly(Run(events[..n], size, max), events[n], size, max);
    }
  }

  /**
   * Over every run of pool, interceptor and player: each player request is answered at
   * most once, and exactly if it was held back and was sent after the response for its
   * segment or was the latest one held back when that response arrived.
   */
  lemma RendezvousIsExact(events: seq<Event>, size: nat, max: nat)
    requires IsRun(events, size, max)
    ensures var t := Run(events, size, max).trace;
            WellFormed(t) && ServesDue(t, |t|, Play(t, |t|).served)
  {
    RunOrderly(events, size, max);
    var t := Run(events, size, max).trace;
    assert WellFormed(t);
    ServesExactlyDue(t, |t|);
  }

  // ------------------------------------------------------------------
  // The controller object
  // ------------------------------------------------------------------

  class RequestController {
    var current: int
    var index: nat
    const size: nat
    const max: nat
    /** The requests sent, which the interceptor is told about. */
    var sent: seq<Action>

    constructor (size: nat, max: nat)
      ensures this.size == size && this.max == max && Value() == Pool(0, 0) && sent == []
    {
      this.size, this.max := size, max;
      current, index, sent := 0, 0, [];
    }

    ghost function Value(): Pool
      reads this
    {
      Pool(current, index)
    }

    method Fill()
      modifies this
      ensures Value() == Request(old(Value()), size, max)
      ensures sent == old(sent) + Requests(old(Value()), size, max)
      decreases max - index
    {
      if current < size && index < max {
        current := current + 1;
        index := index + 1;
      } else {
        return;
      }
      sent := sent + [Issue(index)];
      Fill();
    }

    /** The response goes to the interceptor first, then the pool is filled again. */
    method OnResourceSuccess(i: nat)
      modifies this
      ensures Value() == Request(Pool(old(current) - 1, old(index)), size, max)
      ensures sent == old(sent) + [Arrive(i)] + Requests(Pool(old(current) - 1, old(index)), size, max)
    {
      sent := sent + [Arrive(i)];
      current := current - 1;
      Fill();
    }
  }

  /** The controller's own step is the pool part of the whole. */
  lemma {:induction false} RefillIsRequest(w: World, size: nat, max: nat)
    ensures var w' := Refill(w, size, max);
            && w'.pool == Request(w.pool, size, max)
            && w'.trace == w.trace + Requests(w.pool, size, max)
    decreases max - w.pool.index
  {
    if w.pool.current < size && w.pool.index < max {
      var next := Issued(w);
      RefillIsRequest(next, size, max);
      var rest := Requests(next.pool, size, max);
      assert next.trace + rest == w.trace + ([Issue(next.pool.index)] + rest);
    }
  }
}
