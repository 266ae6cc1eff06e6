/** Which answers come late makes no difference to what the client hears or where the stream ends up. */
module ElementsUploadSchedule {
  import opened Seqs
  import opened Bytes
  import opened ElementsUpload
  import opened ElementsUploadRuns
  import opened ElementsUploadLeftovers

  /** The same answers, all of them at once. */
  function AtOnce(w: World): World {
    w.(pends := _ => false)
  }

  /** The callback the stream is waiting for. */
  ghost predicate IsAwaited(s: State, cb: Callback) {
    && cb in s.outstanding && IsLive(s, cb) && Resumable(s, cb)
    && (forall c :: c in s.outstanding && IsLive(s, c) ==> c == cb)
  }

  /** Up to `n` times, the awaited callback is run. */
  ghost function Settle(st: Step, n: nat, w: World): Step
    decreases n
  {
    if n == 0 || !st.s.waiting || !exists cb :: IsAwaited(st.s, cb) then st
    else
      var cb :| IsAwaited(st.s, cb);
      var next := Fire(st.s, cb, w);
      Settle(Step(next.s, st.out + next.out), n - 1, w)
  }

  lemma SettleStep(st: Step, n: nat, w: World, cb: Callback)
    requires st.s.waiting && IsAwaited(st.s, cb) && st.out == []
    ensures Settle(st, n + 1, w) == Settle(Fire(st.s, cb, w), n, w)
  {
    var next := Fire(st.s, cb, w);
    assert [] + next.out == next.out;
  }

  /** No callback in flight is live, and the next call number is new. */
  ghost predicate Quiet(s: State) {
    forall cb :: cb in s.outstanding ==> cb.gen < s.generation && cb.call < s.calls
  }

  // ------------------------------------------------------------------
  // Reads
  // ------------------------------------------------------------------

  /** Whether the client is already waiting does not influence the loop. */
  lemma {:induction false} WaitingIrrelevant(s: State, buf: Buffer, w: World, b: bool)
    requires Shape(s) && |buf.data| <= buf.capacity
    ensures Shape(s.(waiting := b))
    ensures ReadElements(s.(waiting := b), buf, w)
         == var p := ReadElements(s, buf, w); p.(s := p.s.(waiting := b))
    decreases if s.error == OK then 1 else 0, |s.readers| - s.index, buf.capacity - |buf.data|
  {
    hide ReadElements;
    LoopUnfolds(s, buf, w);
    LoopUnfolds(s.(waiting := b), buf, w);
    if Exhausted(s) {
      WaitingIrrelevant(s.(index := s.index + 1), buf, w, b);
    } else if CanServe(s, buf) && !w.pends(s.calls) {
      var r := ProcessReadResult(s.(calls := s.calls + 1), buf, w.read(s.calls));
      WaitingIrrelevant(r.s, r.buf, w, b);
    }
  }

  /** Running the awaited callback resumes the loop where it would have gone on by itself, in the world of then. */
  lemma ResumesLoop(s: State, buf: Buffer, w: World, later: World)
    requires CanServe(s, buf) && Quiet(s) && w.pends(s.calls)
    ensures var st := FinishRead(ReadElements(s, buf, w));
            var cb := ReadDone(s.generation, s.calls, buf);
            var r := ProcessReadResult(s.(calls := s.calls + 1, waiting := true), buf, later.read(s.calls));
            && st.s.waiting && st.out == [] && IsAwaited(st.s, cb)
            && Fire(st.s, cb, later) == FinishRead(ReadElements(r.s, r.buf, later))
  {
    var st := FinishRead(ReadElements(s, buf, w));
    var cb := ReadDone(s.generation, s.calls, buf);
    assert st.s == s.(calls := s.calls + 1, waiting := true, outstanding := s.outstanding + {cb});
    assert s.outstanding + {cb} - {cb} == s.outstanding;
    assert st.s.(outstanding := st.s.outstanding - {cb}) == s.(calls := s.calls + 1, waiting := true);
  }

  /** What the loop that parked once goes on to do ends where the loop that did not park ends. */
  lemma ParkedLoop(s: State, buf: Buffer, w: World, m: nat)
    requires CanServe(s, buf) && Quiet(s) && w.pends(s.calls)
    requires var r := ProcessReadResult(s.(calls := s.calls + 1, waiting := true), buf, w.read(s.calls));
             Settle(FinishRead(ReadElements(r.s, r.buf, w)), m, w) == FinishRead(ReadElements(r.s, r.buf, AtOnce(w)))
    ensures Settle(FinishRead(ReadElements(s, buf, w)), m + 1, w) == FinishRead(ReadElements(s, buf, AtOnce(w)))
  {
    hide ReadElements, Settle, Fire, IsAwaited;
    var r := ProcessReadResult(s.(calls := s.calls + 1, waiting := true), buf, w.read(s.calls));
    var st := FinishRead(ReadElements(s, buf, w));
    ResumesLoop(s, buf, w, w);
    SettleStep(st, m, w, ReadDone(s.generation, s.calls, buf));
    ParkedAtOnce(s, buf, w);
  }

  /** With all answers at once, the loop goes on from a served reader as if it had never waited. */
  lemma ParkedAtOnce(s: State, buf: Buffer, w: World)
    requires CanServe(s, buf)
    ensures var r := ProcessReadResult(s.(calls := s.calls + 1, waiting := true), buf, w.read(s.calls));
            FinishRead(ReadElements(r.s, r.buf, AtOnce(w))) == FinishRead(ReadElements(s, buf, AtOnce(w)))
  {
    hide ReadElements;
    var r := ProcessReadResult(s.(calls := s.calls + 1, waiting := true), buf, w.read(s.calls));
    var r' := ProcessReadResult(s.(calls := s.calls + 1), buf, w.read(s.calls));
    assert r' == r.(s := r.s.(waiting := s.waiting));
    WaitingIrrelevant(r.s, r.buf, AtOnce(w), s.waiting);
    LoopUnfolds(s, buf, AtOnce(w));
    AtOnceIsDone(r.s, r.buf, w);
  }

  lemma {:induction false} AtOnceIsDone(s: State, buf: Buffer, w: World)
    requires Shape(s) && |buf.data| <= buf.capacity
    ensures ReadElements(s, buf, AtOnce(w)).status.Done?
    decreases if s.error == OK then 1 else 0, |s.readers| - s.index, buf.capacity - |buf.data|
  {
    hide ReadElements;
    LoopUnfolds(s, buf, AtOnce(w));
    if Exhausted(s) {
      AtOnceIsDone(s.(index := s.index + 1), buf, w);
    } else if CanServe(s, buf) {
      var r := ProcessReadResult(s.(calls := s.calls + 1), buf, w.read(s.calls));
      AtOnceIsDone(r.s, r.buf, w);
    }
  }

  /** After some number of completions a read has ended like the read whose answers all came at once. */
  lemma {:induction false} ReadSettles(s: State, buf: Buffer, w: World) returns (n: nat)
    requires Shape(s) && |buf.data| <= buf.capacity && Quiet(s)
    ensures Settle(FinishRead(ReadElements(s, buf, w)), n, w) == FinishRead(ReadElements(s, buf, AtOnce(w)))
    decreases if s.error == OK then 1 else 0, |s.readers| - s.index, buf.capacity - |buf.data|
  {
    hide ReadElements;
    LoopUnfolds(s, buf, w);
    LoopUnfolds(s, buf, AtOnce(w));
    n := 0;
    if Exhausted(s) {
      n := ReadSettles(s.(index := s.index + 1), buf, w);
    } else if CanServe(s, buf) && w.pends(s.calls) {
      var r := ProcessReadResult(s.(calls := s.calls + 1, waiting := true), buf, w.read(s.calls));
      var m := ReadSettles(r.s, r.buf, w);
      ParkedLoop(s, buf, w, m);
      n := m + 1;
    } else if CanServe(s, buf) {
      var r := ProcessReadResult(s.(calls := s.calls + 1), buf, w.read(s.calls));
      n := ReadSettles(r.s, r.buf, w);
    }
  }

  // ------------------------------------------------------------------
  // Initialization
  // ------------------------------------------------------------------

  lemma {:induction false} InitWaitingIrrelevant(s: State, i: nat, w: World, b: bool)
    requires i <= |s.readers|
    ensures InitElements(s.(waiting := b), i, w)
         == var p := InitElements(s, i, w); (p.0.(waiting := b), p.1)
    decreases |s.readers| - i
  {
    if i < |s.readers| && !w.pends(s.calls) && w.init(s.calls) >= 0 {
      var s1 := Rewound(s.(calls := s.calls + 1), i);
      InitWaitingIrrelevant(s1, i + 1, w, b);
      assert Rewound(s.(waiting := b, calls := s.calls + 1), i) == s1.(waiting := b);
    }
  }

  lemma {:induction false} InitAtOnceIsDone(s: State, i: nat, w: World)
    requires i <= |s.readers|
    ensures InitElements(s, i, AtOnce(w)).1.Done?
    decreases |s.readers| - i
  {
    if i < |s.readers| && w.init(s.calls) >= 0 {
      InitAtOnceIsDone(Rewound(s.(calls := s.calls + 1), i), i + 1, w);
    }
  }

  lemma ResumesInit(s: State, i: nat, w: World, later: World)
    requires i < |s.readers| && Quiet(s) && w.pends(s.calls)
    ensures var st := FinishInit(InitElements(s, i, w));
            var cb := InitDone(s.generation, s.calls, i);
            && st.s.waiting && st.out == [] && IsAwaited(st.s, cb)
            && Fire(st.s, cb, later)
               == OnInitElementCompleted(s.(calls := s.calls + 1, waiting := true), i, later.init(s.calls), later)
  {
    var st := FinishInit(InitElements(s, i, w));
    var cb := InitDone(s.generation, s.calls, i);
    assert st.s == s.(calls := s.calls + 1, waiting := true, outstanding := s.outstanding + {cb});
    assert s.outstanding + {cb} - {cb} == s.outstanding;
    assert st.s.(outstanding := st.s.outstanding - {cb}) == s.(calls := s.calls + 1, waiting := true);
  }

  lemma ParkedInit(s: State, i: nat, w: World, m: nat)
    requires i < |s.readers| && Quiet(s) && w.pends(s.calls)
    requires w.init(s.calls) >= 0 ==>
               var s2 := Rewound(s.(calls := s.calls + 1, waiting := true), i);
               Settle(FinishInit(InitElements(s2, i + 1, w)), m, w) == FinishInit(InitElements(s2, i + 1, AtOnce(w)))
    ensures Settle(FinishInit(InitElements(s, i, w)), m + 1, w) == FinishInit(InitElements(s, i, AtOnce(w)))
  {
    hide InitElements, Fire, IsAwaited;
    ResumesInit(s, i, w, w);
    SettleStep(FinishInit(InitElements(s, i, w)), m, w, InitDone(s.generation, s.calls, i));
    InitParkedAtOnce(s, i, w);
  }

  lemma InitParkedAtOnce(s: State, i: nat, w: World)
    requires i < |s.readers|
    ensures OnInitElementCompleted(s.(calls := s.calls + 1, waiting := true), i, w.init(s.calls), AtOnce(w))
         == FinishInit(InitElements(s, i, AtOnce(w)))
  {
    hide InitElements;
    InitUnfolds(s, i, AtOnce(w));
    if w.init(s.calls) >= 0 {
      var s1 := Rewound(s.(calls := s.calls + 1), i);
      assert Rewound(s.(calls := s.calls + 1, waiting := true), i) == s1.(waiting := true);
      InitWaitingIrrelevant(s1, i + 1, AtOnce(w), true);
      InitAtOnceIsDone(s1, i + 1, w);
    }
  }

  /** After some number of completions an initialization has ended like the one whose answers all came at once. */
  lemma {:induction false} InitSettles(s: State, i: nat, w: World) returns (n: nat)
    requires i <= |s.readers| && Quiet(s)
    ensures Settle(FinishInit(InitElements(s, i, w)), n, w) == FinishInit(InitElements(s, i, AtOnce(w)))
    decreases |s.readers| - i
  {
    hide InitElements, Fire, IsAwaited;
    n := 0;
    InitUnfolds(s, i, w);
    InitUnfolds(s, i, AtOnce(w));
    if i < |s.readers| {
      if w.pends(s.calls) {
        var m := 0;
        if w.init(s.calls) >= 0 {
          m := InitSettles(Rewound(s.(calls := s.calls + 1, waiting := true), i), i + 1, w);
        }
        ParkedInit(s, i, w, m);
        n := m + 1;
      } else if w.init(s.calls) >= 0 {
        n := InitSettles(Rewound(s.(calls := s.calls + 1), i), i + 1, w);
      }
    }
  }

  // ------------------------------------------------------------------
  // Operations and whole scripts
  // ------------------------------------------------------------------

  lemma {:induction false} SettledStays(st: Step, n: nat, m: nat, w: World)
    requires n <= m && !Settle(st, n, w).s.waiting
    ensures Settle(st, m, w) == Settle(st, n, w)
    decreases n
  {
    hide Fire;
    if n > 0 && st.s.waiting && exists cb :: IsAwaited(st.s, cb) {
      var cb :| IsAwaited(st.s, cb);
      var next := Fire(st.s, cb, w);
      SettledStays(Step(next.s, st.out + next.out), n - 1, m - 1, w);
    }
  }

  predicate IsOperation(ev: Event) {
    !ev.Complete?
  }

  /** A client operation settles into the synchronous outcome, and into nothing else. */
  lemma OperationSettles(s: State, ev: Event, w: World, delivered: seq<byte>) returns (n: nat)
    requires Inv(s, delivered) && !s.waiting && IsOperation(ev)
    ensures forall cb :: cb in s.outstanding && IsLive(s, cb) ==> Resumable(s, cb)
    ensures !Apply(s, ev, AtOnce(w)).s.waiting
    ensures Settle(Apply(s, ev, w), n, w) == Apply(s, ev, AtOnce(w))
    ensures forall m: nat :: !Settle(Apply(s, ev, w), m, w).s.waiting ==>
                               Settle(Apply(s, ev, w), m, w) == Apply(s, ev, AtOnce(w))
  {
    n := 0;
    assert Quiet(s);
    match ev {
      case ClientInit =>
        InitAtOnceIsDone(Reset(s), 0, w);
        n := InitSettles(Reset(s), 0, w);
      case ClientRead(len) =>
        if s.initialized && len > 0 && !s.eof {
          AtOnceIsDone(s, Buffer(len, []), w);
          n := ReadSettles(s, Buffer(len, []), w);
        }
      case ClientReset =>
    }
    var st := Apply(s, ev, w);
    forall m: nat | !Settle(st, m, w).s.waiting ensures Settle(st, m, w) == Settle(st, n, w) {
      if m <= n { SettledStays(st, m, n, w); } else { SettledStays(st, n, m, w); }
    }
  }

  // ------------------------------------------------------------------
  // From any moment on
  // ------------------------------------------------------------------

  /** What is still to come of the operation under way, if the answers came at once from here on. */
  ghost function Finish(s: State, w: World): Step {
    if s.waiting && exists cb :: IsAwaited(s, cb) then
      var cb :| IsAwaited(s, cb);
      Fire(s, cb, AtOnce(w))
    else Step(s, [])
  }

  ghost function Onwards(st: Step, w: World): Step {
    var rest := Finish(st.s, w);
    Step(rest.s, st.out + rest.out)
  }

  lemma FinishAwaited(s: State, cb: Callback, w: World)
    requires s.waiting && IsAwaited(s, cb)
    ensures Finish(s, w) == Fire(s, cb, AtOnce(w))
  {
  }

  lemma {:induction false} ReadOnwards(s: State, buf: Buffer, w: World)
    requires Shape(s) && |buf.data| <= buf.capacity && Quiet(s)
    ensures Onwards(FinishRead(ReadElements(s, buf, w)), w) == FinishRead(ReadElements(s, buf, AtOnce(w)))
    decreases if s.error == OK then 1 else 0, |s.readers| - s.index, buf.capacity - |buf.data|
  {
    hide ReadElements, Fire, IsAwaited;
    LoopUnfolds(s, buf, w);
    LoopUnfolds(s, buf, AtOnce(w));
    var st := FinishRead(ReadElements(s, buf, w));
    if Exhausted(s) {
      ReadOnwards(s.(index := s.index + 1), buf, w);
    } else if CanServe(s, buf) && w.pends(s.calls) {
      ResumesLoop(s, buf, w, AtOnce(w));
      FinishAwaited(st.s, ReadDone(s.generation, s.calls, buf), w);
      ParkedAtOnce(s, buf, w);
      PrependNothing(Finish(st.s, w).out);
    } else if CanServe(s, buf) {
      var r := ProcessReadResult(s.(calls := s.calls + 1), buf, w.read(s.calls));
      ReadOnwards(r.s, r.buf, w);
    } else {
      assert st.out + [] == st.out;
    }
  }

  lemma {:induction false} InitOnwards(s: State, i: nat, w: World)
    requires i <= |s.readers| && Quiet(s)
    ensures Onwards(FinishInit(InitElements(s, i, w)), w) == FinishInit(InitElements(s, i, AtOnce(w)))
    decreases |s.readers| - i
  {
    hide InitElements, Fire, IsAwaited;
    InitUnfolds(s, i, w);
    InitUnfolds(s, i, AtOnce(w));
    var st := FinishInit(InitElements(s, i, w));
    if i < |s.readers| && w.pends(s.calls) {
      ResumesInit(s, i, w, AtOnce(w));
      FinishAwaited(st.s, InitDone(s.generation, s.calls, i), w);
      InitParkedAtOnce(s, i, w);
      PrependNothing(Finish(st.s, w).out);
    } else if i < |s.readers| && w.init(s.calls) >= 0 {
      InitOnwards(Rewound(s.(calls := s.calls + 1), i), i + 1, w);
    } else {
      assert st.out + [] == st.out;
    }
  }

  /** What an operation has done, and what is still to come of it, is what it does at once. */
  lemma OperationOnwards(s: State, ev: Event, w: World, delivered: seq<byte>)
    requires Inv(s, delivered) && !s.waiting && IsOperation(ev)
    ensures forall cb :: cb in s.outstanding && IsLive(s, cb) ==> Resumable(s, cb)
    ensures Onwards(Apply(s, ev, w), w) == Apply(s, ev, AtOnce(w))
  {
    assert Quiet(s);
    hide ReadElements, InitElements, Fire;
    var st := Apply(s, ev, w);
    assert st.out + [] == st.out;
    match ev {
      case ClientInit =>
        InitOnwards(Reset(s), 0, w);
      case ClientRead(len) =>
        if s.initialized && len > 0 && !s.eof {
          ReadOnwards(s, Buffer(len, []), w);
        }
      case ClientReset =>
    }
  }

  lemma AwaitedIsUnique(s: State, cb: Callback, delivered: seq<byte>)
    requires Inv(s, delivered) && cb in s.outstanding && IsLive(s, cb)
    ensures s.waiting && IsAwaited(s, cb) && Quiet(s.(outstanding := s.outstanding - {cb}))
  {
    hide Before, InStep;
  }

  /** What an awaited completion does, and what is still to come, is what was still to come before it. */
  lemma CompletionOnwards(s: State, cb: Callback, w: World, delivered: seq<byte>)
    requires Inv(s, delivered) && cb in s.outstanding && IsLive(s, cb)
    ensures Resumable(s, cb) && Onwards(Fire(s, cb, w), w) == Finish(s, w)
  {
    AwaitedIsUnique(s, cb, delivered);
    FinishAwaited(s, cb, w);
    hide ReadElements, InitElements, ProcessReadResult, Finish, Inv, IsAwaited;
    var s1 := s.(outstanding := s.outstanding - {cb});
    var st := Fire(s, cb, w);
    match cb
    case InitDone(_, call, element) =>
      if w.init(call) >= 0 {
        InitOnwards(Rewound(s1, element), element + 1, w);
      } else {
        NothingToCome(st, w);
      }
    case ReadDone(_, call, buf) =>
      var r := ProcessReadResult(s1, buf, w.read(call));
      ServeKeepsFlight(s1, buf, w.read(call));
      ReadOnwards(r.s, r.buf, w);
  }

  lemma NothingToCome(st: Step, w: World)
    requires !st.s.waiting
    ensures Onwards(st, w) == st
  {
    assert st.out + [] == st.out;
  }

  lemma ServeKeepsFlight(s: State, buf: Buffer, answer: int)
    requires CanServe(s, buf)
    ensures var r := ProcessReadResult(s, buf, answer);
            r.s.outstanding == s.outstanding && r.s.generation == s.generation && r.s.calls == s.calls
  {
  }

  lemma FinishKeeps(s: State, w: World, delivered: seq<byte>)
    requires Inv(s, delivered)
    ensures var rest := Finish(s, w); Inv(rest.s, delivered + BytesOf(rest.out))
  {
    if s.waiting {
      var cb :| cb in s.outstanding && IsLive(s, cb);
      AwaitedIsUnique(s, cb, delivered);
      FinishAwaited(s, cb, w);
      hide Finish, IsAwaited, Inv, Fire;
      StepKeeps(s, Complete(cb), AtOnce(w), delivered);
    } else {
      assert delivered + [] == delivered;
    }
  }

  lemma FinishAlike(s: State, t: State, w: World, delivered: seq<byte>)
    requires Inv(s, delivered) && Inv(t, delivered) && SameCore(s, t)
    ensures Alike(Finish(s, w), Finish(t, w))
  {
    if s.waiting {
      var cb :| cb in s.outstanding && IsLive(s, cb);
      AwaitedIsUnique(s, cb, delivered);
      AwaitedIsUnique(t, cb, delivered);
      FinishAwaited(s, cb, w);
      FinishAwaited(t, cb, w);
      FireAlike(s, t, cb, AtOnce(w));
    }
  }

  // ------------------------------------------------------------------
  // Every schedule of a script
  // ------------------------------------------------------------------

  /**
   * A client that issues its operations one after the other; completions come whenever they
   * come, awaited ones, leftovers and ones nobody owes.
   */
  ghost predicate Patient(s: State, delivered: seq<byte>, evs: seq<Event>, w: World)
    requires Inv(s, delivered)
    decreases |evs|
  {
    evs == [] ||
    (&& (evs[0].Complete? || !s.waiting)
     && (StepKeeps(s, evs[0], w, delivered);
         var st := Apply(s, evs[0], w);
         Patient(st.s, Heard(delivered, evs[0], st.out), evs[1..], w)))
  }

  /** The script: the client's operations without the completions. */
  function Script(evs: seq<Event>): seq<Event> {
    if evs == [] then [] else (if evs[0].Complete? then [] else [evs[0]]) + Script(evs[1..])
  }

  lemma {:induction false} BytesJoin(a: seq<Output>, b: seq<Output>)
    ensures BytesOf(a + b) == BytesOf(a) + BytesOf(b)
  {
    if a == [] {
      PrependNothing(b);
    } else {
      BytesJoin(a[1..], b);
      assert (a + b)[0] == a[0] && (a + b)[1..] == a[1..] + b;
      Append3(if a[0].ReadCompleted? then a[0].bytes else [], BytesOf(a[1..]), BytesOf(b));
    }
  }

  lemma HeardJoin(delivered: seq<byte>, ev: Event, a: seq<Output>, b: seq<Output>)
    ensures Heard(delivered, ev, a + b) == Heard(delivered, ev, a) + BytesOf(b)
  {
    BytesJoin(a, b);
    Append3(delivered, BytesOf(a), BytesOf(b));
  }

  /** What has been told in a run and is still to come of it, against the rest of the script done at once. */
  ghost predicate Agrees(s: State, delivered: seq<byte>, evs: seq<Event>, w: World, start: Step)
    requires Inv(s, delivered) && Inv(start.s, delivered + BytesOf(start.out))
  {
    var heard := delivered + BytesOf(start.out);
    var (s', d) := Run(s, delivered, evs, w);
    var end := Finish(s', w);
    var (t, e) := Run(start.s, heard, Script(evs), AtOnce(w));
    && Outputs(s, delivered, evs, w) + end.out == start.out + Outputs(start.s, heard, Script(evs), AtOnce(w))
    && d + BytesOf(end.out) == e
    && SameCore(end.s, t)
  }

  /** The state and the bytes received after one event. */
  ghost function Next(s: State, delivered: seq<byte>, ev: Event, w: World): (r: (State, seq<byte>))
    requires Inv(s, delivered)
    ensures Inv(r.0, r.1)
  {
    StepKeeps(s, ev, w, delivered);
    var st := Apply(s, ev, w);
    (st.s, Heard(delivered, ev, st.out))
  }

  /** What the client is told by one event. */
  ghost function Told(s: State, delivered: seq<byte>, ev: Event, w: World): seq<Output>
    requires Inv(s, delivered)
  {
    StepKeeps(s, ev, w, delivered);
    Apply(s, ev, w).out
  }

  lemma RunCons(s: State, delivered: seq<byte>, ev: Event, rest: seq<Event>, w: World)
    requires Inv(s, delivered)
    ensures var (s1, d1) := Next(s, delivered, ev, w);
            && Outputs(s, delivered, [ev] + rest, w) == Told(s, delivered, ev, w) + Outputs(s1, d1, rest, w)
            && Run(s, delivered, [ev] + rest, w) == Run(s1, d1, rest, w)
            && Script([ev] + rest) == (if ev.Complete? then [] else [ev]) + Script(rest)
  {
    StepKeeps(s, ev, w, delivered);
    TailOfCons(ev, rest);
    hide Inv, Apply, Heard;
  }

  /** An operation at once, from what it does with late answers. */
  lemma NextOnwards(s: State, delivered: seq<byte>, ev: Event, w: World)
    requires Inv(s, delivered) && IsOperation(ev) && !s.waiting
    ensures var (s1, d1) := Next(s, delivered, ev, w);
            var rest := Finish(s1, w);
            && Inv(rest.s, d1 + BytesOf(rest.out))
            && Next(s, delivered, ev, AtOnce(w)) == (rest.s, d1 + BytesOf(rest.out))
            && Told(s, delivered, ev, AtOnce(w)) == Told(s, delivered, ev, w) + rest.out
  {
    StepKeeps(s, ev, w, delivered);
    StepKeeps(s, ev, AtOnce(w), delivered);
    OperationOnwards(s, ev, w, delivered);
    var st := Apply(s, ev, w);
    FinishKeeps(st.s, w, Heard(delivered, ev, st.out));
    HeardJoin(delivered, ev, st.out, Finish(st.s, w).out);
    hide Apply, Inv, Finish, Heard;
  }

  lemma AgreesAfterOperation(s: State, delivered: seq<byte>, ev: Event, evs: seq<Event>, w: World)
    requires Inv(s, delivered) && IsOperation(ev) && !s.waiting
    ensures Finish(s, w) == Step(s, []) && delivered + BytesOf([]) == delivered
    ensures var (s1, d1) := Next(s, delivered, ev, w);
            var rest := Finish(s1, w);
            && Inv(rest.s, d1 + BytesOf(rest.out))
            && (Agrees(s1, d1, evs, w, rest) ==> Agrees(s, delivered, [ev] + evs, w, Step(s, [])))
  {
    assert delivered + [] == delivered;
    NextOnwards(s, delivered, ev, w);
    RunCons(s, delivered, ev, evs, w);
    RunCons(s, delivered, ev, Script(evs), AtOnce(w));
    assert Finish(s, w) == Step(s, []);
    hide Inv, Next, Told, Finish, Run, Outputs, Script, SameCore;
    var (s1, d1) := Next(s, delivered, ev, w);
    var rest := Finish(s1, w);
    if Agrees(s1, d1, evs, w, rest) {
      var told := Told(s, delivered, ev, w);
      var end := Finish(Run(s1, d1, evs, w).0, w);
      var sync := Outputs(rest.s, d1 + BytesOf(rest.out), Script(evs), AtOnce(w));
      Append3(told, rest.out, sync);
      Append3(told, Outputs(s1, d1, evs, w), end.out);
      PrependNothing(Outputs(s, delivered, [ev] + Script(evs), AtOnce(w)));
    }
  }

  lemma AgreesAfterAwaited(s: State, delivered: seq<byte>, cb: Callback, evs: seq<Event>, w: World)
    requires Inv(s, delivered) && cb in s.outstanding && IsLive(s, cb)
    ensures var whole := Finish(s, w);
            var (s1, d1) := Next(s, delivered, Complete(cb), w);
            var rest := Finish(s1, w);
            && Inv(rest.s, d1 + BytesOf(rest.out)) && Inv(whole.s, delivered + BytesOf(whole.out))
            && (Agrees(s1, d1, evs, w, rest) ==> Agrees(s, delivered, [Complete(cb)] + evs, w, whole))
  {
    var ev := Complete(cb);
    StepKeeps(s, ev, w, delivered);
    CompletionOnwards(s, cb, w, delivered);
    FinishKeeps(s, w, delivered);
    RunCons(s, delivered, ev, evs, w);
    var (s1, d1) := Next(s, delivered, ev, w);
    var told := Told(s, delivered, ev, w);
    var rest := Finish(s1, w);
    assert Finish(s, w) == Step(rest.s, told + rest.out);
    assert d1 == delivered + BytesOf(told);
    hide Inv, Next, Told, Finish, Run, Outputs, Script, SameCore, Fire;
    BytesJoin(told, rest.out);
    Append3(delivered, BytesOf(told), BytesOf(rest.out));
    PrependNothing(Script(evs));
    if Agrees(s1, d1, evs, w, rest) {
      Append3(told, rest.out, Outputs(rest.s, d1 + BytesOf(rest.out), Script(evs), AtOnce(w)));
      Append3(told, Outputs(s1, d1, evs, w), Finish(Run(s1, d1, evs, w).0, w).out);
    }
  }

  /** A leftover, or a completion nobody owes. */
  lemma AgreesAfterOther(s: State, delivered: seq<byte>, cb: Callback, evs: seq<Event>, w: World)
    requires Inv(s, delivered) && !(cb in s.outstanding && IsLive(s, cb))
    ensures var whole := Finish(s, w);
            var (s1, d1) := Next(s, delivered, Complete(cb), w);
            var rest := Finish(s1, w);
            && Inv(rest.s, d1 + BytesOf(rest.out)) && Inv(whole.s, delivered + BytesOf(whole.out))
            && (Agrees(s1, d1, evs, w, rest) ==> Agrees(s, delivered, [Complete(cb)] + evs, w, whole))
  {
    var ev, ops := Complete(cb), Script(evs);
    NextOther(s, delivered, cb, w);
    RunCons(s, delivered, ev, evs, w);
    hide Next, Told;
    var (s1, d1) := Next(s, delivered, ev, w);
    FinishKeeps(s1, w, delivered);
    FinishKeeps(s, w, delivered);
    FinishAlike(s1, s, w, delivered);
    hide Inv, Finish, Run, Outputs, Script, SameCore, Fire;
    var rest, whole := Finish(s1, w), Finish(s, w);
    var heard := delivered + BytesOf(rest.out);
    RunAlike(rest.s, whole.s, heard, ops, AtOnce(w));
    PrependNothing(ops);
    if Agrees(s1, delivered, evs, w, rest) {
      SameCoreChain(Finish(Run(s1, delivered, evs, w).0, w).s, Run(rest.s, heard, ops, AtOnce(w)).0,
                    Run(whole.s, heard, ops, AtOnce(w)).0);
      PrependNothing(Outputs(s1, delivered, evs, w));
    }
  }

  lemma NextOther(s: State, delivered: seq<byte>, cb: Callback, w: World)
    requires Inv(s, delivered) && !(cb in s.outstanding && IsLive(s, cb))
    ensures var (s1, d1) := Next(s, delivered, Complete(cb), w);
            d1 == delivered && SameCore(s1, s) && Told(s, delivered, Complete(cb), w) == []
  {
    assert delivered + [] == delivered;
    if IsLeftover(s, Complete(cb)) {
      LeftoverStep(s, Complete(cb), w, delivered);
    }
  }

  /**
   * At every moment of every schedule, for any readers, any answers and any of them late, and
   * whatever leftovers arrive: what the client has been told, and what is still to come of
   * the operation under way, is what it is told when every answer comes at once.
   */
  lemma {:induction false} ScheduleSoFar(s: State, delivered: seq<byte>, evs: seq<Event>, w: World)
    requires Inv(s, delivered) && Patient(s, delivered, evs, w)
    ensures Inv(Finish(s, w).s, delivered + BytesOf(Finish(s, w).out))
    ensures Agrees(s, delivered, evs, w, Finish(s, w))
    decreases |evs|
  {
    FinishKeeps(s, w, delivered);
    if evs == [] {
      var f := Finish(s, w);
      assert [] + f.out == f.out + [];
    } else {
      var ev, rest := evs[0], evs[1..];
      assert evs == [ev] + rest;
      PatientCons(s, delivered, ev, rest, w);
      var (s1, d1) := Next(s, delivered, ev, w);
      hide Agrees, Inv, Finish, Next, Patient;
      ScheduleSoFar(s1, d1, rest, w);
      if IsOperation(ev) {
        AgreesAfterOperation(s, delivered, ev, rest, w);
      } else if ev.cb in s.outstanding && IsLive(s, ev.cb) {
        AgreesAfterAwaited(s, delivered, ev.cb, rest, w);
      } else {
        AgreesAfterOther(s, delivered, ev.cb, rest, w);
      }
    }
  }

  /**
   * A script of initializations, reads and resets, each awaited, tells the client the same
   * results with the same bytes and ends in the same state up to leftovers as when every
   * answer comes at once and no leftover ever arrives.
   */
  lemma ScheduleIsIrrelevant(s: State, delivered: seq<byte>, evs: seq<Event>, w: World)
    requires Inv(s, delivered) && !s.waiting && Patient(s, delivered, evs, w)
    requires !Run(s, delivered, evs, w).0.waiting
    ensures Outputs(s, delivered, evs, w) == Outputs(s, delivered, Script(evs), AtOnce(w))
    ensures Run(s, delivered, evs, w).1 == Run(s, delivered, Script(evs), AtOnce(w)).1
    ensures Core(Run(s, delivered, evs, w).0) == Core(Run(s, delivered, Script(evs), AtOnce(w)).0)
  {
    ScheduleSoFar(s, delivered, evs, w);
    var (s', d) := Run(s, delivered, evs, w);
    assert Finish(s, w) == Step(s, []) && Finish(s', w) == Step(s', []);
    hide Inv, Finish, Patient, Run, Outputs;
    assert delivered + [] == delivered && d + [] == d;
    PrependNothing(Outputs(s, delivered, Script(evs), AtOnce(w)));
    assert Outputs(s, delivered, evs, w) + [] == Outputs(s, delivered, evs, w);
    CoreIsSame(s', Run(s, delivered, Script(evs), AtOnce(w)).0, []);
  }

  // ------------------------------------------------------------------
  // Every script has such a schedule
  // ------------------------------------------------------------------

  lemma {:induction false} SettledState(st: Step, out: seq<Output>, n: nat, w: World)
    ensures Settle(st, n, w).s == Settle(Step(st.s, out), n, w).s
    decreases n
  {
    hide Fire;
    if n > 0 && st.s.waiting && exists cb :: IsAwaited(st.s, cb) {
      var cb :| IsAwaited(st.s, cb);
      var next := Fire(st.s, cb, w);
      SettledState(Step(next.s, st.out + next.out), out + next.out, n - 1, w);
    }
  }

  lemma PatientCons(s: State, delivered: seq<byte>, ev: Event, rest: seq<Event>, w: World)
    requires Inv(s, delivered)
    ensures var (s1, d1) := Next(s, delivered, ev, w);
            && (Patient(s, delivered, [ev] + rest, w) <==> (ev.Complete? || !s.waiting) && Patient(s1, d1, rest, w))
            && Run(s, delivered, [ev] + rest, w) == Run(s1, d1, rest, w)
            && Script([ev] + rest) == (if ev.Complete? then [] else [ev]) + Script(rest)
  {
    StepKeeps(s, ev, w, delivered);
    TailOfCons(ev, rest);
    hide Inv, Apply, Heard;
  }

  lemma NextAwaited(s: State, delivered: seq<byte>, n: nat, w: World) returns (cb: Callback)
    requires Inv(s, delivered) && s.waiting && !Settle(Step(s, []), n, w).s.waiting
    ensures n > 0 && !Settle(Step(Next(s, delivered, Complete(cb), w).0, []), n - 1, w).s.waiting
  {
    cb :| cb in s.outstanding && IsLive(s, cb);
    AwaitedIsUnique(s, cb, delivered);
    StepKeeps(s, Complete(cb), w, delivered);
    assert n > 0;
    hide Fire, Inv, Settle, IsAwaited, Resumable;
    SettleStep(Step(s, []), n - 1, w, cb);
    SettledState(Fire(s, cb, w), [], n - 1, w);
  }

  /** Completions that bring a waiting stream to rest, if it comes to rest at all. */
  lemma {:induction false} Drains(s: State, delivered: seq<byte>, n: nat, w: World) returns (cs: seq<Event>)
    requires Inv(s, delivered) && !Settle(Step(s, []), n, w).s.waiting
    ensures Script(cs) == [] && Patient(s, delivered, cs, w) && !Run(s, delivered, cs, w).0.waiting
    decreases n
  {
    hide Inv, Next, Settle;
    cs := [];
    if s.waiting {
      var cb := NextAwaited(s, delivered, n, w);
      var (s1, d1) := Next(s, delivered, Complete(cb), w);
      var rest := Drains(s1, d1, n - 1, w);
      cs := [Complete(cb)] + rest;
      hide Patient, Run, Script;
      PatientCons(s, delivered, Complete(cb), rest, w);
    } else {
      SettleDone(s, n, w);
    }
  }

  lemma SettleDone(s: State, n: nat, w: World)
    requires !s.waiting
    ensures Settle(Step(s, []), n, w) == Step(s, [])
  {
  }

  lemma {:induction false} PatientJoin(s: State, delivered: seq<byte>, a: seq<Event>, b: seq<Event>, w: World)
    requires Inv(s, delivered) && Patient(s, delivered, a, w)
    requires var (s', d) := Run(s, delivered, a, w); Patient(s', d, b, w)
    ensures Patient(s, delivered, a + b, w) && Script(a + b) == Script(a) + Script(b)
    ensures var (s', d) := Run(s, delivered, a, w);
            Run(s, delivered, a + b, w) == Run(s', d, b, w)
    decreases |a|
  {
    hide Inv, Next;
    if a == [] {
      PrependNothing(b);
      PrependNothing(Script(b));
    } else {
      hide Patient, Run, Script;
      var ev, rest := a[0], a[1..];
      assert a == [ev] + rest;
      Append3([ev], rest, b);
      PatientCons(s, delivered, ev, rest, w);
      PatientCons(s, delivered, ev, rest + b, w);
      var (s1, d1) := Next(s, delivered, ev, w);
      PatientJoin(s1, d1, rest, b, w);
      Append3(if ev.Complete? then [] else [ev], Script(rest), Script(b));
    }
  }

  /** No operation stays pending for ever: every script can be carried out to its end. */
  lemma {:induction false} EveryScriptSettles(s: State, delivered: seq<byte>, ops: seq<Event>, w: World)
    returns (evs: seq<Event>)
    requires Inv(s, delivered) && !s.waiting && forall i :: 0 <= i < |ops| ==> IsOperation(ops[i])
    ensures Patient(s, delivered, evs, w) && Script(evs) == ops && !Run(s, delivered, evs, w).0.waiting
    decreases |ops|
  {
    evs := [];
    if ops != [] {
      var op := ops[0];
      var n := OperationSettles(s, op, w, delivered);
      StepKeeps(s, op, w, delivered);
      var st := Apply(s, op, w);
      var heard := Heard(delivered, op, st.out);
      SettledState(st, [], n, w);
      hide Apply, Inv, Settle, Heard;
      var cs := Drains(st.s, heard, n, w);
      var (s', d) := Run(st.s, heard, cs, w);
      var later := EveryScriptSettles(s', d, ops[1..], w);
      PatientJoin(st.s, heard, cs, later, w);
      PrependNothing(ops[1..]);
      evs := [op] + (cs + later);
      TailOfCons(op, cs + later);
    }
  }

  // ------------------------------------------------------------------
  // Reading on reaches the end
  // ------------------------------------------------------------------

  lemma {:induction false} NoFailureNoError(s: State, buf: Buffer, w: World)
    requires Shape(s) && |buf.data| <= buf.capacity && s.error == OK
    requires forall call :: w.read(call) >= 0
    ensures ReadElements(s, buf, w).s.error == OK
    decreases |s.readers| - s.index, buf.capacity - |buf.data|
  {
    hide ReadElements;
    LoopUnfolds(s, buf, w);
    if Exhausted(s) {
      NoFailureNoError(s.(index := s.index + 1), buf, w);
    } else if CanServe(s, buf) && !w.pends(s.calls) {
      var r := ProcessReadResult(s.(calls := s.calls + 1), buf, w.read(s.calls));
      assert r.s.error == OK;
      NoFailureNoError(r.s, r.buf, w);
    }
  }

  function Reads(n: nat, len: nat): (r: seq<Event>)
    ensures |r| == n && forall i :: 0 <= i < n ==> r[i] == ClientRead(len)
  {
    seq(n, _ => ClientRead(len))
  }

  /** A read before the end moves on, and one at the end stays there. */
  lemma ReadAdvances(s: State, delivered: seq<byte>, len: nat, w: World)
    requires Inv(s, delivered) && s.initialized && !s.waiting && s.error == OK && len > 0
    requires forall call :: w.read(call) >= 0
    ensures var s1 := Next(s, delivered, ClientRead(len), AtOnce(w)).0;
            && s1.initialized && !s1.waiting && s1.error == OK
            && s1.total == s.total && All(s1.readers) == All(s.readers)
            && (if s.eof then s1.eof else s1.position > s.position)
  {
    var ev := ClientRead(len);
    StepKeeps(s, ev, AtOnce(w), delivered);
    var st := Apply(s, ev, AtOnce(w));
    AllOfSame(s.readers, st.s.readers);
    if !s.eof {
      NoFailureNoError(s, Buffer(len, []), AtOnce(w));
      AtOnceIsDone(s, Buffer(len, []), w);
      assert st.out[0].ReadCompleted? && st.out[0] in st.out;
    }
  }

  lemma {:induction false} ReadsReachEndAtOnce(s: State, delivered: seq<byte>, n: nat, len: nat, w: World)
    requires Inv(s, delivered) && s.initialized && !s.waiting && s.error == OK && len > 0
    requires forall call :: w.read(call) >= 0
    requires n >= s.total - s.position
    ensures var (s', delivered') := Run(s, delivered, Reads(n, len), AtOnce(w));
            s'.eof && delivered' == All(s.readers)
    decreases n
  {
    hide Inv, Next, Outputs, Script;
    AtEndIsAll(s, delivered);
    if n > 0 {
      hide Run;
      var ev := ClientRead(len);
      ReadAdvances(s, delivered, len, w);
      assert Reads(n, len) == [ev] + Reads(n - 1, len);
      RunCons(s, delivered, ev, Reads(n - 1, len), AtOnce(w));
      var (s1, d1) := Next(s, delivered, ev, AtOnce(w));
      AtEndIsAll(s1, d1);
      ReadsReachEndAtOnce(s1, d1, n - 1, len, w);
    }
  }

  lemma AtEndIsAll(s: State, delivered: seq<byte>)
    requires Inv(s, delivered) && s.initialized && !s.waiting
    ensures s.position <= s.total && (s.eof <==> s.position == s.total)
    ensures s.eof ==> delivered == All(s.readers)
  {
    BeforeIsPrefix(s.readers, s.index);
    assert delivered + [] == delivered;
  }

  /** With readers that never fail, enough reads hand over everything, whichever answers come late. */
  lemma ReadsReachEnd(s: State, delivered: seq<byte>, evs: seq<Event>, n: nat, len: nat, w: World)
    requires Inv(s, delivered) && s.initialized && !s.waiting && s.error == OK && len > 0
    requires forall call :: w.read(call) >= 0
    requires n >= s.total - s.position && Script(evs) == Reads(n, len)
    requires Patient(s, delivered, evs, w) && !Run(s, delivered, evs, w).0.waiting
    ensures var (s', delivered') := Run(s, delivered, evs, w);
            s'.eof && delivered' == All(s.readers)
  {
    ReadsReachEndAtOnce(s, delivered, n, len, w);
    ScheduleIsIrrelevant(s, delivered, evs, w);
    hide Inv, Patient, Run, Reads;
    var (s', d) := Run(s, delivered, evs, w);
    var (t, e) := Run(s, delivered, Reads(n, len), AtOnce(w));
    assert s'.eof == Core(s').eof && t.eof == Core(t).eof;
  }
}
