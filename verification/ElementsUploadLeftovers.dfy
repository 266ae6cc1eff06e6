/**
 * Completions left over from before a reset: they can arrive at any time, any number of
 * them or never, and neither the client nor the stream can tell the difference.
 */
module ElementsUploadLeftovers {
  import opened Seqs
  import opened Bytes
  import opened ElementsUpload
  import opened ElementsUploadRuns

  /** Two states that differ at most in the leftovers in flight. */
  ghost predicate SameCore(s: State, t: State) {
    && t == s.(outstanding := t.outstanding)
    && forall cb :: IsLive(s, cb) ==> (cb in s.outstanding <==> cb in t.outstanding)
  }

  /** The state without its leftovers. */
  ghost function Core(s: State): State {
    s.(outstanding := set cb | cb in s.outstanding && IsLive(s, cb))
  }

  lemma CoreIsSame(s: State, t: State, delivered: seq<byte>)
    ensures SameCore(s, Core(s)) && (SameCore(s, t) <==> Core(s) == Core(t))
    ensures Inv(s, delivered) ==> Inv(Core(s), delivered)
  {
    if SameCore(s, t) {
      assert Core(s).outstanding == Core(t).outstanding;
    } else if Core(s) == Core(t) {
      assert s.(outstanding := {}) == Core(s).(outstanding := {}) == t.(outstanding := {});
      assert t == s.(outstanding := t.outstanding);
      forall cb | IsLive(s, cb) ensures cb in s.outstanding <==> cb in t.outstanding {
        assert cb in Core(s).outstanding <==> cb in Core(t).outstanding;
      }
    }
    if Inv(s, delivered) {
      SameCoreKeepsInv(s, Core(s), delivered);
    }
  }

  lemma SameCoreKeepsInv(s: State, t: State, delivered: seq<byte>)
    requires Inv(s, delivered) && SameCore(s, t)
    requires forall cb :: cb in t.outstanding ==> cb in s.outstanding
    ensures Inv(t, delivered)
  {
    hide Before, All;
    if s.waiting {
      var live :| live in s.outstanding && IsLive(s, live);
      assert live in t.outstanding;
    }
  }

  /** Two steps the client cannot tell apart, into states that differ at most in leftovers. */
  ghost predicate Alike(a: Step, b: Step) {
    a.out == b.out && SameCore(a.s, b.s)
  }

  // ------------------------------------------------------------------
  // The loops do not look at what is in flight
  // ------------------------------------------------------------------

  ghost predicate Exhausted(s: State) {
    Shape(s) && s.error == OK && s.index < |s.readers| && s.readers[s.index].Remaining() == 0
  }

  /** One turn of the read loop. */
  lemma LoopUnfolds(s: State, buf: Buffer, w: World)
    requires Shape(s) && |buf.data| <= buf.capacity
    ensures Exhausted(s) ==> ReadElements(s, buf, w) == ReadElements(s.(index := s.index + 1), buf, w)
    ensures CanServe(s, buf) && !w.pends(s.calls) ==>
              var r := ProcessReadResult(s.(calls := s.calls + 1), buf, w.read(s.calls));
              ReadElements(s, buf, w) == ReadElements(r.s, r.buf, w)
    ensures CanServe(s, buf) && w.pends(s.calls) ==>
              ReadElements(s, buf, w)
              == Progress(
                s.(calls := s.calls + 1, outstanding := s.outstanding + {ReadDone(s.generation, s.calls, buf)}),
                buf, Pending)
    ensures !Exhausted(s) && !CanServe(s, buf) ==> ReadElements(s, buf, w) == Progress(s, buf, Done(ResultOf(s, buf)))
  {
    hide ProcessReadResult;
  }

  /** One turn of the initialization loop. */
  lemma InitUnfolds(s: State, i: nat, w: World)
    requires i <= |s.readers|
    ensures i == |s.readers| ==> InitElements(s, i, w) == (s.(total := TotalLength(s.readers)), Done(OK))
    ensures i < |s.readers| && !w.pends(s.calls) && w.init(s.calls) < 0 ==>
              InitElements(s, i, w) == (s.(calls := s.calls + 1), Done(w.init(s.calls)))
    ensures i < |s.readers| && !w.pends(s.calls) && w.init(s.calls) >= 0 ==>
              InitElements(s, i, w) == InitElements(Rewound(s.(calls := s.calls + 1), i), i + 1, w)
    ensures i < |s.readers| && w.pends(s.calls) ==>
              InitElements(s, i, w)
              == (s.(calls := s.calls + 1, outstanding := s.outstanding + {InitDone(s.generation, s.calls, i)}),
                  Pending)
  {
  }

  lemma {:induction false} ReadFrame(s: State, o: set<Callback>, buf: Buffer, w: World) returns (added: set<Callback>)
    requires Shape(s) && |buf.data| <= buf.capacity
    ensures var p := ReadElements(s, buf, w);
            && p.s.outstanding == s.outstanding + added && p.s.generation == s.generation
            && ReadElements(s.(outstanding := o), buf, w) == p.(s := p.s.(outstanding := o + added))
    decreases if s.error == OK then 1 else 0, |s.readers| - s.index, buf.capacity - |buf.data|
  {
    hide ReadElements;
    LoopUnfolds(s, buf, w);
    LoopUnfolds(s.(outstanding := o), buf, w);
    added := {};
    if Exhausted(s) {
      added := ReadFrame(s.(index := s.index + 1), o, buf, w);
    } else if CanServe(s, buf) && w.pends(s.calls) {
      added := {ReadDone(s.generation, s.calls, buf)};
    } else if CanServe(s, buf) {
      var r := ProcessReadResult(s.(calls := s.calls + 1), buf, w.read(s.calls));
      added := ReadFrame(r.s, o, r.buf, w);
    } else {
      assert o + {} == o && s.outstanding + {} == s.outstanding;
    }
  }

  lemma {:induction false} InitFrame(s: State, o: set<Callback>, i: nat, w: World) returns (added: set<Callback>)
    requires i <= |s.readers|
    ensures var p := InitElements(s, i, w);
            && p.0.outstanding == s.outstanding + added && p.0.generation == s.generation
            && InitElements(s.(outstanding := o), i, w) == (p.0.(outstanding := o + added), p.1)
    decreases |s.readers| - i
  {
    hide InitElements;
    InitUnfolds(s, i, w);
    InitUnfolds(s.(outstanding := o), i, w);
    added := {};
    if i < |s.readers| && w.pends(s.calls) {
      added := {InitDone(s.generation, s.calls, i)};
    } else if i < |s.readers| && w.init(s.calls) >= 0 {
      added := InitFrame(Rewound(s.(calls := s.calls + 1), i), o, i + 1, w);
    } else {
      assert o + {} == o && s.outstanding + {} == s.outstanding;
    }
  }

  /** The same callbacks added on both sides keep two states alike. */
  lemma AddedAlike(s: State, o: set<Callback>, added: set<Callback>, s': State)
    requires SameCore(s, s.(outstanding := o)) && s'.generation == s.generation
    requires s'.outstanding == s.outstanding + added
    ensures SameCore(s', s'.(outstanding := o + added))
  {
  }

  lemma FinishReadAlike(s: State, t: State, buf: Buffer, w: World)
    requires Shape(s) && |buf.data| <= buf.capacity && SameCore(s, t)
    ensures Shape(t) && Alike(FinishRead(ReadElements(s, buf, w)), FinishRead(ReadElements(t, buf, w)))
  {
    hide ReadElements;
    var added := ReadFrame(s, t.outstanding, buf, w);
    AddedAlike(s, t.outstanding, added, ReadElements(s, buf, w).s);
  }

  lemma FinishInitAlike(s: State, t: State, i: nat, w: World)
    requires i <= |s.readers| && SameCore(s, t)
    ensures Alike(FinishInit(InitElements(s, i, w)), FinishInit(InitElements(t, i, w)))
  {
    hide InitElements;
    var added := InitFrame(s, t.outstanding, i, w);
    AddedAlike(s, t.outstanding, added, InitElements(s, i, w).0);
  }

  // ------------------------------------------------------------------
  // No event looks at the leftovers
  // ------------------------------------------------------------------

  /** Firing a leftover tells the client nothing and changes nothing but the leftovers. */
  lemma LeftoverDoesNothing(s: State, cb: Callback, w: World)
    requires !IsLive(s, cb)
    ensures Alike(Fire(s, cb, w), Step(s, []))
  {
  }

  lemma FireAlike(s: State, t: State, cb: Callback, w: World)
    requires SameCore(s, t) && IsLive(s, cb) && cb in s.outstanding && Resumable(s, cb)
    ensures Resumable(t, cb) && Alike(Fire(s, cb, w), Fire(t, cb, w))
  {
    hide ReadElements, InitElements, FinishRead;
    var s1, t1 := s.(outstanding := s.outstanding - {cb}), t.(outstanding := t.outstanding - {cb});
    assert SameCore(s1, t1);
    match cb
    case InitDone(_, call, element) =>
      if w.init(call) >= 0 {
        var s2, t2 := Rewound(s1, element), Rewound(t1, element);
        assert SameCore(s2, t2);
        FinishInitAlike(s2, t2, element + 1, w);
      }
    case ReadDone(_, call, buf) =>
      var r, q := ProcessReadResult(s1, buf, w.read(call)), ProcessReadResult(t1, buf, w.read(call));
      assert r.buf == q.buf && SameCore(r.s, q.s);
      FinishReadAlike(r.s, q.s, r.buf, w);
  }

  lemma ResetAlike(s: State, t: State)
    requires SameCore(s, t) && CallbacksValid(s) && CallbacksValid(t)
    ensures SameCore(Reset(s), Reset(t))
  {
  }

  lemma ReadAlike(s: State, t: State, len: nat, w: World)
    requires Shape(s) && SameCore(s, t)
    ensures Shape(t) && Alike(Read(s, len, w), Read(t, len, w))
  {
    hide ReadElements, FinishRead;
    if !s.eof {
      FinishReadAlike(s, t, Buffer(len, []), w);
    }
  }

  lemma CompleteAlike(s: State, t: State, cb: Callback, w: World)
    requires SameCore(s, t)
    requires cb in s.outstanding && IsLive(s, cb) ==> Resumable(s, cb)
    requires cb in t.outstanding && IsLive(t, cb) ==> Resumable(t, cb)
    ensures Alike(if cb in s.outstanding then Fire(s, cb, w) else Step(s, []),
                  if cb in t.outstanding then Fire(t, cb, w) else Step(t, []))
  {
    hide Fire, Resumable;
    if !IsLive(s, cb) {
      LeftoverDoesNothing(s, cb, w);
      LeftoverDoesNothing(t, cb, w);
    } else if cb in s.outstanding {
      FireAlike(s, t, cb, w);
    }
  }

  /**
   * From two states that differ at most in leftovers every event, leftovers included, tells
   * the client the same and leads to two such states again.
   */
  lemma StepAlike(s: State, t: State, ev: Event, w: World, delivered: seq<byte>)
    requires Inv(s, delivered) && Inv(t, delivered) && SameCore(s, t)
    ensures forall cb :: cb in s.outstanding && IsLive(s, cb) ==> Resumable(s, cb)
    ensures forall cb :: cb in t.outstanding && IsLive(t, cb) ==> Resumable(t, cb)
    ensures Alike(Apply(s, ev, w), Apply(t, ev, w))
  {
    StepKeeps(s, ev, w, delivered);
    StepKeeps(t, ev, w, delivered);
    hide Reading, Initializing, InitElements, FinishInit, Read, Fire, CallbacksValid, Resumable, Shape;
    match ev
    case ClientInit =>
      ResetAlike(s, t);
      FinishInitAlike(Reset(s), Reset(t), 0, w);
    case ClientRead(len) =>
      ReadAlike(s, t, len, w);
    case ClientReset =>
      ResetAlike(s, t);
    case Complete(cb) =>
      CompleteAlike(s, t, cb, w);
  }

  // ------------------------------------------------------------------
  // Whole runs
  // ------------------------------------------------------------------

  /** Everything the client hears in a run. */
  ghost function Outputs(s: State, delivered: seq<byte>, evs: seq<Event>, w: World): seq<Output>
    requires Inv(s, delivered)
    decreases |evs|
  {
    if evs == [] then []
    else
      StepKeeps(s, evs[0], w, delivered);
      var st := Apply(s, evs[0], w);
      st.out + Outputs(st.s, Heard(delivered, evs[0], st.out), evs[1..], w)
  }

  /** The same run from two states that differ at most in leftovers. */
  lemma {:induction false} RunAlike(s: State, t: State, delivered: seq<byte>, evs: seq<Event>, w: World)
    requires Inv(s, delivered) && Inv(t, delivered) && SameCore(s, t)
    ensures Outputs(s, delivered, evs, w) == Outputs(t, delivered, evs, w)
    ensures var (s', d) := Run(s, delivered, evs, w);
            var (t', e) := Run(t, delivered, evs, w);
            SameCore(s', t') && d == e
    decreases |evs|
  {
    if evs != [] {
      StepKeeps(s, evs[0], w, delivered);
      StepKeeps(t, evs[0], w, delivered);
      StepAlike(s, t, evs[0], w, delivered);
      hide Apply, Inv, SameCore;
      var st, tt := Apply(s, evs[0], w), Apply(t, evs[0], w);
      RunAlike(st.s, tt.s, Heard(delivered, evs[0], st.out), evs[1..], w);
    }
  }

  /** A completion left over from before the last reset. */
  predicate IsLeftover(s: State, ev: Event) {
    ev.Complete? && !IsLive(s, ev.cb)
  }

  /** The run without its leftovers. */
  ghost function WithoutLeftovers(s: State, delivered: seq<byte>, evs: seq<Event>, w: World): seq<Event>
    requires Inv(s, delivered)
    decreases |evs|
  {
    if evs == [] then []
    else
      StepKeeps(s, evs[0], w, delivered);
      var st := Apply(s, evs[0], w);
      var rest := WithoutLeftovers(st.s, Heard(delivered, evs[0], st.out), evs[1..], w);
      if IsLeftover(s, evs[0]) then rest else [evs[0]] + rest
  }

  lemma LeftoverStep(s: State, ev: Event, w: World, delivered: seq<byte>)
    requires Inv(s, delivered) && IsLeftover(s, ev)
    ensures forall cb :: cb in s.outstanding && IsLive(s, cb) ==> Resumable(s, cb)
    ensures var st := Apply(s, ev, w);
            st.out == [] && SameCore(st.s, s) && Heard(delivered, ev, st.out) == delivered
  {
    StepKeeps(s, ev, w, delivered);
    LeftoverDoesNothing(s, ev.cb, w);
    assert delivered + [] == delivered;
  }

  /**
   * Completions left over from before a reset are invisible in every run: leaving out all of
   * them, wherever they arrive, changes nothing the client hears or receives and nothing in
   * the stream but which leftovers are still in flight.
   */
  lemma {:induction false} LeftoversAreInvisible(s: State, t: State, delivered: seq<byte>, evs: seq<Event>, w: World)
    requires Inv(s, delivered) && Inv(t, delivered) && SameCore(s, t)
    ensures var kept := WithoutLeftovers(s, delivered, evs, w);
            var (s', d) := Run(s, delivered, evs, w);
            var (t', e) := Run(t, delivered, kept, w);
            Outputs(s, delivered, evs, w) == Outputs(t, delivered, kept, w) && d == e && SameCore(s', t')
    decreases |evs|
  {
    if evs != [] {
      var ev := evs[0];
      StepKeeps(s, ev, w, delivered);
      var st := Apply(s, ev, w);
      var heard := Heard(delivered, ev, st.out);
      if IsLeftover(s, ev) {
        LeftoverStep(s, ev, w, delivered);
        SameCoreChain(st.s, s, t);
        hide Apply, Inv, SameCore, Heard;
        LeftoversAreInvisible(st.s, t, heard, evs[1..], w);
        PrependNothing(Outputs(st.s, heard, evs[1..], w));
      } else {
        StepKeeps(t, ev, w, delivered);
        StepAlike(s, t, ev, w, delivered);
        hide Apply, Inv, SameCore, Heard;
        var tt := Apply(t, ev, w);
        LeftoversAreInvisible(st.s, tt.s, heard, evs[1..], w);
        TailOfCons(ev, WithoutLeftovers(st.s, heard, evs[1..], w));
      }
    }
  }

  lemma SameCoreChain(s: State, t: State, u: State)
    requires SameCore(s, t) && SameCore(t, u)
    ensures SameCore(s, u)
  {
  }

  /** Two runs that differ only in leftovers, inserted or left out anywhere, are alike. */
  lemma RunsDifferInLeftovers(s: State, delivered: seq<byte>, evs: seq<Event>, evs': seq<Event>, w: World)
    requires Inv(s, delivered)
    requires WithoutLeftovers(s, delivered, evs, w) == WithoutLeftovers(s, delivered, evs', w)
    ensures Outputs(s, delivered, evs, w) == Outputs(s, delivered, evs', w)
    ensures Run(s, delivered, evs, w).1 == Run(s, delivered, evs', w).1
    ensures Core(Run(s, delivered, evs, w).0) == Core(Run(s, delivered, evs', w).0)
  {
    hide Inv, WithoutLeftovers, Run, Outputs;
    LeftoversAreInvisible(s, s, delivered, evs, w);
    LeftoversAreInvisible(s, s, delivered, evs', w);
    var kept := WithoutLeftovers(s, delivered, evs, w);
    CoreIsSame(Run(s, delivered, evs, w).0, Run(s, delivered, kept, w).0, []);
    CoreIsSame(Run(s, delivered, evs', w).0, Run(s, delivered, kept, w).0, []);
  }
}
