/**
 * What becomes of the readers' answers: an error is recorded, reported once the bytes
 * before it have been handed over, and never passed over.
 */
module ElementsUploadErrors {
  import opened Seqs
  import opened Bytes
  import opened Numbers
  import opened ElementsUpload
  import opened ElementsUploadRuns
  import opened ElementsUploadLeftovers

  // ------------------------------------------------------------------
  // One answer
  // ------------------------------------------------------------------

  /**
   * An error moves nothing and is recorded; a count that the reader and the buffer allow is
   * taken in full.
   */
  lemma AnswerTakesEffect(s: State, buf: Buffer, answer: int)
    requires CanServe(s, buf)
    ensures var r := ProcessReadResult(s, buf, answer);
            && (answer < 0 ==> r == Served(s.(error := answer), buf))
            && (answer > 0 && answer <= s.readers[s.index].Remaining() && answer <= buf.capacity - |buf.data| ==>
                  && r.s.error == OK && |r.buf.data| == |buf.data| + answer
                  && r.s.readers[s.index].pos == s.readers[s.index].pos + answer)
            && (answer >= 0 ==> r.s.error == OK && |r.buf.data| > |buf.data|)
  {
  }

  // ------------------------------------------------------------------
  // One pass of the read loop
  // ------------------------------------------------------------------

  /** The calls made in the pass whose answers it has seen: all of them but one it is parked on. */
  ghost function Seen(p: Progress): int {
    if p.status.Pending? then p.s.calls - 1 else p.s.calls
  }

  /**
   * A pass ends at the first negative answer, which becomes the error; without one the
   * stream has no error, and either the buffer is full or the readers are exhausted or a
   * reader has not answered yet.
   */
  lemma {:induction false} PassEndsAtError(s: State, buf: Buffer, w: World)
    requires Shape(s) && |buf.data| <= buf.capacity && s.error == OK
    ensures var p := ReadElements(s, buf, w);
            && s.calls <= Seen(p)
            && (forall c :: s.calls <= c < Seen(p) - 1 ==> w.read(c) >= 0)
            && (if s.calls < Seen(p) && w.read(Seen(p) - 1) < 0
                then p.s.error == w.read(Seen(p) - 1) && p.status == Done(ResultOf(p.s, p.buf))
                else p.s.error == OK
                     && (p.status.Pending? || |p.buf.data| == buf.capacity || p.s.index == |s.readers|))
    decreases |s.readers| - s.index, buf.capacity - |buf.data|
  {
    hide ReadElements, ProcessReadResult;
    LoopUnfolds(s, buf, w);
    if Exhausted(s) {
      PassEndsAtError(s.(index := s.index + 1), buf, w);
    } else if CanServe(s, buf) && !w.pends(s.calls) {
      var s1 := s.(calls := s.calls + 1);
      AnswerTakesEffect(s1, buf, w.read(s.calls));
      var r := ProcessReadResult(s1, buf, w.read(s.calls));
      ServeKeepsCalls(s1, buf, w.read(s.calls));
      if w.read(s.calls) < 0 {
        LoopUnfolds(r.s, r.buf, w);
      } else {
        PassEndsAtError(r.s, r.buf, w);
      }
    }
  }

  lemma ServeKeepsCalls(s: State, buf: Buffer, answer: int)
    requires CanServe(s, buf)
    ensures var r := ProcessReadResult(s, buf, answer);
            && r.s.calls == s.calls && r.s.outstanding == s.outstanding && r.s.generation == s.generation
            && |r.s.readers| == |s.readers| && r.s.index == s.index && r.buf.capacity == buf.capacity
  {
  }

  /** A stream with an error makes no call. */
  lemma PassWithErrorStops(s: State, buf: Buffer, w: World)
    requires Shape(s) && |buf.data| <= buf.capacity && s.error != OK
    ensures ReadElements(s, buf, w) == Progress(s, buf, Done(ResultOf(s, buf)))
  {
  }

  /** The same answers, of which the one to this call comes late. */
  function ParkingAt(w: World, call: int): World {
    w.(pends := (c: nat) => c == call || w.pends(c))
  }

  /** What the failing answer found is what it left: the readers and the buffer as when the call was made. */
  lemma {:induction false} ErrorMovesNothing(s: State, buf: Buffer, w: World)
    requires Shape(s) && |buf.data| <= buf.capacity && s.error == OK
    requires ReadElements(s, buf, w).s.error != OK
    ensures var p := ReadElements(s, buf, w);
            var failing := p.s.calls - 1;
            var parked := ReadElements(s, buf, ParkingAt(w, failing));
            parked.status.Pending? && parked.buf == p.buf && parked.s.readers == p.s.readers
    decreases |s.readers| - s.index, buf.capacity - |buf.data|
  {
    hide ReadElements, ProcessReadResult;
    PassEndsAtError(s, buf, w);
    var p := ReadElements(s, buf, w);
    var failing := p.s.calls - 1;
    var v := ParkingAt(w, failing);
    LoopUnfolds(s, buf, w);
    LoopUnfolds(s, buf, v);
    if Exhausted(s) {
      ErrorMovesNothing(s.(index := s.index + 1), buf, w);
    } else if CanServe(s, buf) && !w.pends(s.calls) {
      var s1 := s.(calls := s.calls + 1);
      AnswerTakesEffect(s1, buf, w.read(s.calls));
      ServeKeepsCalls(s1, buf, w.read(s.calls));
      var r := ProcessReadResult(s1, buf, w.read(s.calls));
      if w.read(s.calls) < 0 {
        PassWithErrorStops(r.s, r.buf, w);
      } else {
        PassEndsAtError(r.s, r.buf, w);
        ErrorMovesNothing(r.s, r.buf, w);
      }
    }
  }

  // ------------------------------------------------------------------
  // Initialization
  // ------------------------------------------------------------------

  ghost function InitSeen(p: (State, Status)): int {
    if p.1.Pending? then p.0.calls - 1 else p.0.calls
  }

  /** Initialization ends at the first negative answer and reports it; without one every reader is asked, once. */
  lemma {:induction false} InitEndsAtError(s: State, i: nat, w: World)
    requires i <= |s.readers|
    ensures var p := InitElements(s, i, w);
            && s.calls <= InitSeen(p) <= s.calls + (|s.readers| - i)
            && (forall c :: s.calls <= c < InitSeen(p) - 1 ==> w.init(c) >= 0)
            && (if s.calls < InitSeen(p) && w.init(InitSeen(p) - 1) < 0
                then p.1 == Done(w.init(InitSeen(p) - 1))
                else p.1.Pending? || (p.1 == Done(OK) && InitSeen(p) == s.calls + (|s.readers| - i)))
    decreases |s.readers| - i
  {
    hide InitElements;
    InitUnfolds(s, i, w);
    if i < |s.readers| && !w.pends(s.calls) && w.init(s.calls) >= 0 {
      InitEndsAtError(Rewound(s.(calls := s.calls + 1), i), i + 1, w);
    }
  }

  /** The client is told the error, and a stream that failed to initialize cannot be read. */
  lemma InitReports(p: (State, Status))
    requires p.1.Done? && !p.0.initialized
    ensures FinishInit(p).out == [InitCompleted(p.1.result)]
    ensures FinishInit(p).s.initialized <==> p.1.result == OK
  {
  }

  /** A late negative answer ends the initialization with it. */
  lemma LateInitReports(s: State, cb: Callback, w: World, delivered: seq<byte>)
    requires Inv(s, delivered) && cb in s.outstanding && IsLive(s, cb) && cb.InitDone? && w.init(cb.call) < 0
    ensures Resumable(s, cb)
    ensures var st := Fire(s, cb, w);
            st.out == [InitCompleted(w.init(cb.call))] && !st.s.initialized && !st.s.waiting
  {
  }

  // ------------------------------------------------------------------
  // Whole runs
  // ------------------------------------------------------------------

  /** The numbers from `lo` up to `hi`. */
  ghost function Span(lo: nat, hi: int): (r: seq<nat>)
    ensures forall i :: 0 <= i < |r| ==> r[i] == lo + i
    ensures |r| == if lo <= hi then hi - lo else 0
  {
    seq(if lo <= hi then hi - lo else 0, i => lo + i)
  }

  /** A completion of a read that is awaited. */
  ghost predicate ResumesRead(s: State, ev: Event) {
    ev.Complete? && ev.cb in s.outstanding && IsLive(s, ev.cb) && ev.cb.ReadDone?
  }

  /** Calls are answered up to the one that is awaited. */
  ghost function AnsweredUpTo(s: State): int {
    if s.waiting then s.calls - 1 else s.calls
  }

  /** The read calls whose answers the event has the stream see, in order. */
  ghost function Answered(s: State, ev: Event, s': State): seq<nat> {
    if ResumesRead(s, ev) then [ev.cb.call] + Span(s.calls, AnsweredUpTo(s'))
    else if ev.ClientRead? then Span(s.calls, AnsweredUpTo(s'))
    else []
  }

  /** The read calls answered since the last initialization or reset. */
  ghost function AnsweredSince(calls: seq<nat>, s: State, ev: Event, s': State): seq<nat> {
    if ev.ClientInit? || ev.ClientReset? then [] else calls + Answered(s, ev, s')
  }

  /**
   * The error is that of the last answer if that was negative, all before it were not, and
   * no call was made behind it; otherwise there is none, and a read under way is the last call.
   */
  ghost predicate ErrorIsLastAnswer(s: State, calls: seq<nat>, w: World) {
    && (forall i :: 0 <= i < |calls| - 1 ==> w.read(calls[i]) >= 0)
    && (if calls != [] && w.read(calls[|calls| - 1]) < 0
        then s.error == w.read(calls[|calls| - 1]) && s.calls == calls[|calls| - 1] + 1 && !s.waiting
        else s.error == OK)
    && (forall cb :: cb in s.outstanding && IsLive(s, cb) && cb.ReadDone? ==> cb.call + 1 == s.calls)
  }

  /** An event that brings an error reports the bytes put in before it, or else the error. */
  ghost predicate ReportsError(s: State, st: Step) {
    s.error == OK != st.s.error ==>
      && |st.out| == 1 && st.out[0].ReadCompleted?
      && st.out[0].result == if st.out[0].bytes != [] then |st.out[0].bytes| else st.s.error
  }

  /** The book is right after the event too. */
  ghost predicate Recorded(s: State, ev: Event, st: Step, calls: seq<nat>, w: World) {
    var calls' := AnsweredSince(calls, s, ev, st.s);
    ErrorIsLastAnswer(st.s, calls', w) && (st.s.initialized || calls' == []) && ReportsError(s, st)
  }

  lemma {:induction false} InitKeepsError(s: State, i: nat, w: World)
    requires i <= |s.readers|
    ensures var s' := InitElements(s, i, w).0;
            s'.error == s.error && s'.generation == s.generation && s'.initialized == s.initialized
    decreases |s.readers| - i
  {
    hide InitElements;
    InitUnfolds(s, i, w);
    if i < |s.readers| && !w.pends(s.calls) && w.init(s.calls) >= 0 {
      InitKeepsError(Rewound(s.(calls := s.calls + 1), i), i + 1, w);
    }
  }

  /** A stream that has just been initialized, or is being, has no error and no read under way. */
  lemma InitClearsError(s: State, ev: Event, w: World, delivered: seq<byte>, calls: seq<nat>)
    requires Inv(s, delivered) && (s.initialized || calls == [])
    requires ev.ClientInit? || ev.ClientReset? || (ev.Complete? && !s.initialized)
    ensures forall cb :: cb in s.outstanding && IsLive(s, cb) ==> Resumable(s, cb)
    ensures Recorded(s, ev, Apply(s, ev, w), calls, w)
  {
    StepKeeps(s, ev, w, delivered);
    var st := Apply(s, ev, w);
    hide InitElements, ReadElements, ProcessReadResult;
    match ev
    case ClientInit => InitKeepsError(Reset(s), 0, w);
    case ClientReset =>
    case Complete(cb) =>
      if cb in s.outstanding && IsLive(s, cb) && w.init(cb.call) >= 0 {
        InitKeepsError(Rewound(s.(outstanding := s.outstanding - {cb}), cb.element), cb.element + 1, w);
      }
  }

  ghost predicate NoErrors(calls: seq<nat>, w: World) {
    forall i :: 0 <= i < |calls| ==> w.read(calls[i]) >= 0
  }

  lemma NoErrorSoFar(s: State, calls: seq<nat>, w: World)
    requires ErrorIsLastAnswer(s, calls, w) && s.error == OK
    ensures NoErrors(calls, w)
  {
  }

  lemma NoErrorsMore(calls: seq<nat>, c: nat, w: World)
    requires NoErrors(calls, w) && w.read(c) >= 0
    ensures NoErrors(calls + [c], w)
  {
  }

  /** The book after the calls from `lo` up to `hi` have been answered. */
  lemma BookAfter(calls: seq<nat>, lo: nat, hi: int, s: State, w: World)
    requires lo <= hi && NoErrors(calls, w)
    requires forall c :: lo <= c < hi - 1 ==> w.read(c) >= 0
    requires if lo < hi && w.read(hi - 1) < 0 then s.error == w.read(hi - 1) && s.calls == hi && !s.waiting
             else s.error == OK
    requires forall cb :: cb in s.outstanding && IsLive(s, cb) ==> cb.call + 1 == s.calls
    ensures ErrorIsLastAnswer(s, calls + Span(lo, hi), w)
  {
    var all := calls + Span(lo, hi);
    forall i | 0 <= i < |all| - 1 ensures w.read(all[i]) >= 0 {
      if i >= |calls| {
        assert all[i] == lo + (i - |calls|);
      }
    }
    if lo < hi {
      assert all[|all| - 1] == hi - 1;
    } else {
      assert all == calls;
    }
  }

  /** The answers seen before a pass and in it. */
  lemma AfterPass(calls: seq<nat>, s: State, buf: Buffer, w: World, delivered: seq<byte>)
    requires InStep(s, buf, delivered) && s.error == OK && NoErrors(calls, w)
    requires forall cb :: cb in s.outstanding ==> !IsLive(s, cb)
    ensures var st := FinishRead(ReadElements(s, buf, w));
            && ErrorIsLastAnswer(st.s, calls + Span(s.calls, AnsweredUpTo(st.s)), w)
            && st.s.initialized == s.initialized && ReportsError(s, st)
  {
    assert Shape(s) && |buf.data| <= buf.capacity;
    hide ReadElements, InStep, Shape, Span, Outcome, NoErrors, ErrorIsLastAnswer;
    hide FinishRead, ReportsError, AnsweredUpTo;
    PassEndsAtError(s, buf, w);
    ReadElementsKeeps(s, buf, w, delivered);
    var p := ReadElements(s, buf, w);
    PassWaits(s, p);
    PassLeavesOneLive(s, p, delivered);
    BookAfter(calls, s.calls, Seen(p), FinishRead(p).s, w);
  }

  /** A pass that parks has one live callback, that of its last call. */
  lemma PassLeavesOneLive(s: State, p: Progress, delivered: seq<byte>)
    requires Outcome(s, p, delivered)
    requires forall cb :: cb in s.outstanding ==> !IsLive(s, cb)
    ensures var s' := FinishRead(p).s;
            && s'.initialized == s.initialized
            && forall cb :: cb in s'.outstanding && IsLive(s', cb) ==> cb.call + 1 == s'.calls
  {
    hide InStep, CanServe;
  }

  lemma PassWaits(s: State, p: Progress)
    ensures var st := FinishRead(p);
            && AnsweredUpTo(st.s) == Seen(p)
            && (p.status.Pending? <==> st.s.waiting)
            && st.s.calls == p.s.calls && st.s.error == p.s.error
            && (p.s.error == OK || p.status == Done(ResultOf(p.s, p.buf)) ==> ReportsError(s, st))
  {
  }

  lemma ReadRecordsError(s: State, len: nat, w: World, delivered: seq<byte>, calls: seq<nat>)
    requires Inv(s, delivered) && ErrorIsLastAnswer(s, calls, w) && (s.initialized || calls == [])
    ensures forall cb :: cb in s.outstanding && IsLive(s, cb) ==> Resumable(s, cb)
    ensures Recorded(s, ClientRead(len), Apply(s, ClientRead(len), w), calls, w)
  {
    StepKeeps(s, ClientRead(len), w, delivered);
    hide ReadElements, FinishRead, Span;
    SpanEmpty(s.calls);
    assert calls + [] == calls;
    if s.initialized && !s.waiting && len > 0 && !s.eof {
      var buf := Buffer(len, []);
      assert InStep(s, buf, delivered);
      assert forall cb :: cb in s.outstanding ==> !IsLive(s, cb);
      hide Inv, Reading, Initializing, CallbacksValid, InStep, ErrorIsLastAnswer, NoErrors, ReportsError;
      if s.error == OK {
        NoErrorSoFar(s, calls, w);
        AfterPass(calls, s, buf, w, delivered);
      } else {
        StuckPass(s, buf, w);
      }
    } else {
      hide Inv, Reading, Initializing, CallbacksValid, InStep, ErrorIsLastAnswer;
    }
  }

  lemma SpanEmpty(lo: nat)
    ensures Span(lo, lo) == [] && Span(lo, lo - 1) == []
  {
  }

  lemma StuckPass(s: State, buf: Buffer, w: World)
    requires Shape(s) && buf.data == [] && s.error != OK && !s.waiting
    ensures var st := FinishRead(ReadElements(s, buf, w)); st.s == s && ReportsError(s, st)
  {
    PassWithErrorStops(s, buf, w);
    hide ReadElements;
  }

  lemma CompletionRecordsError(s: State, cb: Callback, w: World, delivered: seq<byte>, calls: seq<nat>)
    requires Inv(s, delivered) && ErrorIsLastAnswer(s, calls, w) && s.initialized && ResumesRead(s, Complete(cb))
    ensures Resumable(s, cb) && Recorded(s, Complete(cb), Fire(s, cb, w), calls, w)
  {
    var answer := w.read(cb.call);
    assert cb.call + 1 == s.calls && s.error == OK;
    ResumedRead(s, cb, w, delivered);
    NoErrorSoFar(s, calls, w);
    hide Fire, Inv, InStep, Shape, CanServe, Span, FinishRead, ReadElements, ProcessReadResult, Reading;
    hide ErrorIsLastAnswer, NoErrors, ReportsError, AnsweredUpTo;
    var r := ProcessReadResult(s.(outstanding := s.outstanding - {cb}), cb.buf, answer);
    var st := Fire(s, cb, w);
    Append3(calls, [cb.call], Span(s.calls, AnsweredUpTo(st.s)));
    if answer < 0 {
      FailedCompletion(calls, cb.call, s, r.s, r.buf, w);
    } else {
      NoErrorsMore(calls, cb.call, w);
      AfterPass(calls + [cb.call], r.s, r.buf, w, delivered);
      SameReport(r.s, s, st);
    }
  }

  lemma SameReport(r: State, s: State, st: Step)
    requires ReportsError(r, st) && r.error == s.error
    ensures ReportsError(s, st)
  {
  }

  /** A leftover, or a completion nobody owes. */
  lemma OtherKeepsError(s: State, cb: Callback, w: World, calls: seq<nat>)
    requires ErrorIsLastAnswer(s, calls, w) && (s.initialized || calls == [])
    requires !(cb in s.outstanding && IsLive(s, cb))
    ensures Recorded(s, Complete(cb), if cb in s.outstanding then Fire(s, cb, w) else Step(s, []), calls, w)
  {
    assert calls + [] == calls;
  }

  /** A read that is resumed: the answer is taken in, and the loop goes on. */
  lemma ResumedRead(s: State, cb: Callback, w: World, delivered: seq<byte>)
    requires Inv(s, delivered) && s.initialized && ResumesRead(s, Complete(cb))
    ensures var s1 := s.(outstanding := s.outstanding - {cb});
            && CanServe(s1, cb.buf) && Resumable(s, cb)
            && var r := ProcessReadResult(s1, cb.buf, w.read(cb.call));
            && Fire(s, cb, w) == FinishRead(ReadElements(r.s, r.buf, w))
            && Shape(r.s) && |r.buf.data| <= r.buf.capacity && InStep(r.s, r.buf, delivered)
            && r.s.error == (if w.read(cb.call) < 0 then w.read(cb.call) else OK)
            && r.s.calls == s.calls && r.s.initialized == s.initialized
            && (forall c :: c in r.s.outstanding ==> !IsLive(r.s, c))
  {
    var s1 := s.(outstanding := s.outstanding - {cb});
    AnswerTakesEffect(s1, cb.buf, w.read(cb.call));
    ServeKeepsCalls(s1, cb.buf, w.read(cb.call));
    ServeKeeps(s1, cb.buf, w.read(cb.call), delivered);
    NoOtherLive(s, cb);
    hide ReadElements, ProcessReadResult, Before;
  }

  lemma NoOtherLive(s: State, cb: Callback)
    requires CallbacksValid(s) && cb in s.outstanding && IsLive(s, cb)
    ensures forall c :: c in s.outstanding - {cb} ==> !IsLive(s, c)
  {
  }

  /** A late answer that is an error ends its read at once. */
  lemma FailedCompletion(calls: seq<nat>, call: nat, before: State, s: State, buf: Buffer, w: World)
    requires Shape(s) && |buf.data| <= buf.capacity && s.error == w.read(call) < 0 && s.calls == call + 1
    requires NoErrors(calls, w)
    requires forall cb :: cb in s.outstanding ==> !IsLive(s, cb)
    ensures var st := FinishRead(ReadElements(s, buf, w));
            && ErrorIsLastAnswer(st.s, calls + [call] + Span(s.calls, AnsweredUpTo(st.s)), w)
            && st.s.initialized == s.initialized && ReportsError(before, st)
  {
    PassWithErrorStops(s, buf, w);
    hide ReadElements, Span;
    SpanEmpty(s.calls);
    assert calls + [call] + [] == calls + [call];
  }

  /** What one event does to the error, and to what the client is told of it. */
  lemma StepRecordsError(s: State, ev: Event, w: World, delivered: seq<byte>, calls: seq<nat>)
    requires Inv(s, delivered) && ErrorIsLastAnswer(s, calls, w) && (s.initialized || calls == [])
    ensures forall cb :: cb in s.outstanding && IsLive(s, cb) ==> Resumable(s, cb)
    ensures Recorded(s, ev, Apply(s, ev, w), calls, w)
  {
    StepKeeps(s, ev, w, delivered);
    if ev.Complete? && s.initialized {
      if ev.cb in s.outstanding && IsLive(s, ev.cb) {
        assert ResumesRead(s, ev);
        CompletionRecordsError(s, ev.cb, w, delivered, calls);
      } else {
        OtherKeepsError(s, ev.cb, w, calls);
      }
      hide Recorded, Fire;
    } else if ev.ClientRead? {
      ReadRecordsError(s, ev.len, w, delivered, calls);
      hide Recorded, Read;
    } else {
      InitClearsError(s, ev, w, delivered, calls);
      hide Recorded, Fire, Init;
    }
  }

  /** The read calls answered since the last initialization or reset of a run. */
  ghost function AnsweredIn(s: State, delivered: seq<byte>, calls: seq<nat>, evs: seq<Event>, w: World): seq<nat>
    requires Inv(s, delivered)
    decreases |evs|
  {
    if evs == [] then calls
    else
      StepKeeps(s, evs[0], w, delivered);
      var st := Apply(s, evs[0], w);
      AnsweredIn(st.s, Heard(delivered, evs[0], st.out), AnsweredSince(calls, s, evs[0], st.s), evs[1..], w)
  }

  lemma {:induction false} RunRecordsError(s: State, delivered: seq<byte>, calls: seq<nat>, evs: seq<Event>, w: World)
    requires Inv(s, delivered) && ErrorIsLastAnswer(s, calls, w) && (s.initialized || calls == [])
    ensures ErrorIsLastAnswer(Run(s, delivered, evs, w).0, AnsweredIn(s, delivered, calls, evs, w), w)
    decreases |evs|
  {
    if evs != [] {
      StepKeeps(s, evs[0], w, delivered);
      StepRecordsError(s, evs[0], w, delivered, calls);
      hide Apply, Inv, Heard, ErrorIsLastAnswer, AnsweredSince;
      var st := Apply(s, evs[0], w);
      RunRecordsError(st.s, Heard(delivered, evs[0], st.out), AnsweredSince(calls, s, evs[0], st.s), evs[1..], w);
    }
  }

  /**
   * In every run of a new stream, with any answers and any of them late: since the last
   * initialization the stream has an error exactly if some read was answered by one; then
   * it is that answer, it was the last, and no reader has been called since.
   */
  lemma ErrorExactly(readers: seq<Reader>, evs: seq<Event>, w: World)
    requires forall i :: 0 <= i < |readers| ==> readers[i].Valid()
    ensures Inv(Fresh(readers), [])
    ensures var s := Run(Fresh(readers), [], evs, w).0;
            var calls := AnsweredIn(Fresh(readers), [], [], evs, w);
            && (s.error != OK <==> exists i :: 0 <= i < |calls| && w.read(calls[i]) < 0)
            && (s.error != OK ==>
                  && calls != [] && s.error == w.read(calls[|calls| - 1])
                  && s.calls == calls[|calls| - 1] + 1 && !s.waiting
                  && forall i :: 0 <= i < |calls| - 1 ==> w.read(calls[i]) >= 0)
  {
    RunRecordsError(Fresh(readers), [], [], evs, w);
  }
}
