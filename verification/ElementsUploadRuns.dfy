/** What every run of the element upload stream keeps, whatever pends and whatever fails. */
module ElementsUploadRuns {
  import opened Seqs
  import opened Bytes
  import opened Numbers
  import opened ElementsUpload

  // ------------------------------------------------------------------
  // The cursor over the concatenated content
  // ------------------------------------------------------------------

  /** Everything before the cursor: the elements done with, and the read part of the current one. */
  ghost function Before(rs: seq<Reader>, index: nat): seq<byte>
    requires index <= |rs| && (index < |rs| ==> rs[index].Valid())
  {
    All(rs[..index]) + (if index < |rs| then rs[index].content[..rs[index].pos] else [])
  }

  /** Elements behind the current one have not been touched. */
  ghost predicate Untouched(rs: seq<Reader>, index: nat) {
    forall j :: index < j < |rs| ==> rs[j].pos == 0
  }

  ghost predicate SameContents(rs: seq<Reader>, rs': seq<Reader>) {
    |rs| == |rs'| && forall j :: 0 <= j < |rs| ==> rs[j].content == rs'[j].content
  }

  lemma {:induction false} AllOfSame(rs: seq<Reader>, rs': seq<Reader>)
    requires SameContents(rs, rs')
    ensures All(rs) == All(rs')
  {
    if rs != [] {
      AllOfSame(rs[1..], rs'[1..]);
    }
  }

  lemma {:induction false} AllSplit(rs: seq<Reader>, i: nat)
    requires i <= |rs|
    ensures All(rs) == All(rs[..i]) + All(rs[i..])
  {
    if i == 0 {
      assert rs[..0] == [] && rs[0..] == rs;
    } else {
      AllSplit(rs[1..], i - 1);
      assert rs[1..][..i - 1] == rs[..i][1..] && rs[1..][i - 1..] == rs[i..];
      Append3(rs[0].content, All(rs[..i][1..]), All(rs[i..]));
    }
  }

  lemma AllSnoc(rs: seq<Reader>, i: nat)
    requires i < |rs|
    ensures All(rs[..i + 1]) == All(rs[..i]) + rs[i].content
  {
    AllSplit(rs[..i + 1], i);
    assert rs[..i + 1][..i] == rs[..i] && rs[..i + 1][i..] == [rs[i]];
    assert [rs[i]][1..] == [];
  }

  lemma {:induction false} TotalIsAll(rs: seq<Reader>)
    ensures TotalLength(rs) == |All(rs)|
  {
    if rs != [] {
      TotalIsAll(rs[1..]);
    }
  }

  /** The cursor never leaves the concatenation, and it is at its end just when nothing remains. */
  lemma BeforeIsPrefix(rs: seq<Reader>, index: nat)
    requires index <= |rs| && (index < |rs| ==> rs[index].Valid())
    ensures Before(rs, index) <= All(rs)
    ensures index == |rs| ==> Before(rs, index) == All(rs)
    ensures index < |rs| && rs[index].Remaining() > 0 ==> |Before(rs, index)| < |All(rs)|
  {
    AllSplit(rs, index);
    if index == |rs| {
      assert rs[index..] == [];
    } else {
      var r := rs[index];
      var rest := All(rs[index..][1..]);
      assert All(rs[index..]) == r.content + rest;
      assert r.content == r.content[..r.pos] + r.content[r.pos..];
      Append3(r.content[..r.pos], r.content[r.pos..], rest);
      Append3(All(rs[..index]), r.content[..r.pos], r.content[r.pos..] + rest);
    }
  }

  /** Stepping over an element that is used up leaves the cursor where it was. */
  lemma BeforeNext(rs: seq<Reader>, index: nat)
    requires index < |rs| && (forall j :: 0 <= j < |rs| ==> rs[j].Valid())
    requires rs[index].Remaining() == 0 && Untouched(rs, index)
    ensures Before(rs, index + 1) == Before(rs, index)
  {
    AllSnoc(rs, index);
    assert rs[index].content[..rs[index].pos] == rs[index].content;
  }

  /** Reading `k` bytes of the current element moves the cursor over exactly those bytes. */
  lemma BeforeAdvance(rs: seq<Reader>, index: nat, k: nat)
    requires index < |rs| && rs[index].Valid() && k <= rs[index].Remaining()
    ensures var r := rs[index];
            Before(rs[index := r.(pos := r.pos + k)], index) == Before(rs, index) + r.content[r.pos..r.pos + k]
  {
    var r := rs[index];
    var rs' := rs[index := r.(pos := r.pos + k)];
    assert rs'[..index] == rs[..index];
    assert r.content[..r.pos + k] == r.content[..r.pos] + r.content[r.pos..r.pos + k];
    Append3(All(rs[..index]), r.content[..r.pos], r.content[r.pos..r.pos + k]);
  }

  // ------------------------------------------------------------------
  // What one pass of the read loop keeps
  // ------------------------------------------------------------------

  /** The bytes delivered so far and those in the buffer are what lies before the cursor. */
  ghost predicate InStep(s: State, buf: Buffer, delivered: seq<byte>) {
    && Shape(s)
    && |buf.data| <= buf.capacity
    && Untouched(s.readers, s.index)
    && delivered + buf.data == Before(s.readers, s.index)
    && (s.error != OK ==> s.index < |s.readers| && s.readers[s.index].Remaining() > 0)
  }

  /** The fields the read loop leaves alone. */
  ghost predicate SameFrame(s: State, s': State) {
    && SameContents(s.readers, s'.readers)
    && s.generation == s'.generation && s.total == s'.total && s.position == s'.position
    && s.initialized == s'.initialized && s.eof == s'.eof && s.waiting == s'.waiting
  }

  lemma ServeKeeps(s: State, buf: Buffer, answer: int, delivered: seq<byte>)
    requires CanServe(s, buf) && InStep(s, buf, delivered)
    ensures var r := ProcessReadResult(s, buf, answer);
            && InStep(r.s, r.buf, delivered) && SameFrame(s, r.s)
            && r.s.outstanding == s.outstanding && r.s.calls == s.calls
  {
    if answer >= 0 {
      var r := s.readers[s.index];
      var wanted := if answer == 0 then 1 else answer;
      var k := Min(wanted, Min(buf.capacity - |buf.data|, r.Remaining()));
      BeforeAdvance(s.readers, s.index, k);
      Append3(delivered, buf.data, r.content[r.pos..r.pos + k]);
    }
  }

  /** What a pass of the loop ends in: parked on a reader with a fresh callback, or with a result. */
  ghost predicate Outcome(s: State, p: Progress, delivered: seq<byte>) {
    && InStep(p.s, p.buf, delivered)
    && SameFrame(s, p.s)
    && p.s.calls >= s.calls
    && match p.status
       case Pending =>
         && CanServe(p.s, p.buf)
         && p.s.calls > s.calls
         && p.s.outstanding == s.outstanding + {ReadDone(s.generation, p.s.calls - 1, p.buf)}
       case Done(result) =>
         && p.s.outstanding == s.outstanding
         && result == ResultOf(p.s, p.buf)
         && (result == 0 ==> p.s.index == |p.s.readers| || p.buf.capacity == 0)
  }

  /** What is reached from a later state of the loop is reached from an earlier one. */
  lemma OutcomeFromEarlier(s: State, s1: State, p: Progress, delivered: seq<byte>)
    requires SameFrame(s, s1) && s1.outstanding == s.outstanding && s.calls <= s1.calls
    requires Outcome(s1, p, delivered)
    ensures Outcome(s, p, delivered)
  {
    hide InStep, CanServe;
  }

  lemma {:induction false} ReadElementsKeeps(s: State, buf: Buffer, w: World, delivered: seq<byte>)
    requires InStep(s, buf, delivered)
    ensures Outcome(s, ReadElements(s, buf, w), delivered)
    decreases if s.error == OK then 1 else 0, |s.readers| - s.index, buf.capacity - |buf.data|
  {
    hide Before, Outcome;
    if s.error == OK && s.index < |s.readers| && s.readers[s.index].Remaining() == 0 {
      var s1 := s.(index := s.index + 1);
      BeforeNext(s.readers, s.index);
      ReadElementsKeeps(s1, buf, w, delivered);
      OutcomeFromEarlier(s, s1, ReadElements(s1, buf, w), delivered);
    } else if s.error == OK && s.index < |s.readers| && |buf.data| < buf.capacity && !w.pends(s.calls) {
      var s1 := s.(calls := s.calls + 1);
      ServeKeeps(s1, buf, w.read(s.calls), delivered);
      var r := ProcessReadResult(s1, buf, w.read(s.calls));
      ReadElementsKeeps(r.s, r.buf, w, delivered);
      OutcomeFromEarlier(s, r.s, ReadElements(r.s, r.buf, w), delivered);
    } else {
      LoopStops(s, buf, w, delivered);
    }
  }

  lemma LoopStops(s: State, buf: Buffer, w: World, delivered: seq<byte>)
    requires InStep(s, buf, delivered)
    requires s.error == OK && s.index < |s.readers| ==>
               s.readers[s.index].Remaining() > 0 && (|buf.data| == buf.capacity || w.pends(s.calls))
    ensures Outcome(s, ReadElements(s, buf, w), delivered)
  {
  }

  // ------------------------------------------------------------------
  // The invariant of every run
  // ------------------------------------------------------------------

  const NO_BUFFER := Buffer(0, [])

  ghost predicate RewoundUpTo(rs: seq<Reader>, i: nat) {
    forall j :: 0 <= j < i && j < |rs| ==> rs[j].pos == 0
  }

  /** At most one callback is live, the one the stream is waiting for. */
  ghost predicate CallbacksValid(s: State) {
    && (forall cb :: cb in s.outstanding ==> cb.gen <= s.generation && cb.call < s.calls)
    && (forall a, b :: a in s.outstanding && b in s.outstanding && IsLive(s, a) && IsLive(s, b) ==> a == b)
    && (s.waiting <==> exists cb :: cb in s.outstanding && IsLive(s, cb))
  }

  ghost predicate Initializing(s: State) {
    && s.index == 0 && s.error == OK && s.position == 0 && s.total == 0 && !s.eof
    && forall cb :: cb in s.outstanding && IsLive(s, cb) ==>
                      cb.InitDone? && cb.element < |s.readers| && RewoundUpTo(s.readers, cb.element)
  }

  ghost predicate Reading(s: State, delivered: seq<byte>) {
    && s.total == |All(s.readers)|
    && s.position == |delivered|
    && (s.eof <==> s.position == s.total)
    && (!s.waiting ==> InStep(s, NO_BUFFER, delivered))
    && forall cb :: cb in s.outstanding && IsLive(s, cb) ==>
                      cb.ReadDone? && CanServe(s, cb.buf) && InStep(s, cb.buf, delivered)
  }

  /** `delivered` is what the client has received since the last initialization. */
  ghost predicate Inv(s: State, delivered: seq<byte>) {
    && Shape(s)
    && CallbacksValid(s)
    && (if s.initialized then Reading(s, delivered) else Initializing(s) && delivered == [])
  }

  // ------------------------------------------------------------------
  // Steps of the client and of the readers
  // ------------------------------------------------------------------

  datatype Event = ClientInit | ClientRead(len: nat) | ClientReset | Complete(cb: Callback)

  /** Calls the interface forbids, and completions nobody owes, do not happen. */
  function Apply(s: State, ev: Event, w: World): Step
    requires Shape(s)
    requires forall cb :: cb in s.outstanding && IsLive(s, cb) ==> Resumable(s, cb)
  {
    match ev
    case ClientInit => Init(s, w)
    case ClientRead(len) => if s.initialized && !s.waiting && len > 0 then Read(s, len, w) else Step(s, [])
    case ClientReset => Step(Reset(s), [])
    case Complete(cb) => if cb in s.outstanding then Fire(s, cb, w) else Step(s, [])
  }

  function BytesOf(out: seq<Output>): seq<byte> {
    if out == [] then [] else (if out[0].ReadCompleted? then out[0].bytes else []) + BytesOf(out[1..])
  }

  function Heard(delivered: seq<byte>, ev: Event, out: seq<Output>): seq<byte> {
    if ev.ClientInit? || ev.ClientReset? then BytesOf(out) else delivered + BytesOf(out)
  }

  // ------------------------------------------------------------------
  // Initialization keeps the invariant
  // ------------------------------------------------------------------

  /** Not initialized and not waiting; the readers before `i` are rewound. */
  ghost predicate InitReady(s: State, i: nat) {
    && Shape(s) && i <= |s.readers| && RewoundUpTo(s.readers, i)
    && !s.initialized && s.index == 0 && s.error == OK && s.position == 0 && s.total == 0 && !s.eof
    && (forall cb :: cb in s.outstanding ==> cb.gen < s.generation && cb.call < s.calls)
  }

  ghost predicate InitOutcome(s: State, s': State, status: Status) {
    && Shape(s') && SameContents(s.readers, s'.readers)
    && !s'.initialized && s'.index == 0 && s'.error == OK && s'.position == 0 && !s'.eof
    && s'.generation == s.generation && s'.calls >= s.calls
    && match status
       case Pending =>
         && s'.total == 0
         && exists call: nat, element: nat ::
              && s'.outstanding == s.outstanding + {InitDone(s.generation, call, element)}
              && call < s'.calls && element < |s'.readers| && RewoundUpTo(s'.readers, element)
       case Done(result) =>
         && s'.outstanding == s.outstanding
         && (if result == OK then s'.total == TotalLength(s'.readers) && RewoundUpTo(s'.readers, |s'.readers|)
             else s'.total == 0 && result < 0)
  }

  lemma {:induction false} InitElementsKeeps(s: State, i: nat, w: World)
    requires InitReady(s, i)
    ensures var p := InitElements(s, i, w); InitOutcome(s, p.0, p.1)
    decreases |s.readers| - i
  {
    if i < |s.readers| {
      var s1 := s.(calls := s.calls + 1);
      if w.pends(s.calls) {
        var cb := InitDone(s.generation, s.calls, i);
        assert InitElements(s, i, w).0.outstanding == s.outstanding + {cb};
      } else if w.init(s.calls) >= 0 {
        InitElementsKeeps(Rewound(s1, i), i + 1, w);
      }
    }
  }

  lemma FinishInitKeeps(s: State, p: (State, Status))
    requires InitReady(s, 0) && InitOutcome(s, p.0, p.1)
    ensures var st := FinishInit(p);
            Inv(st.s, []) && BytesOf(st.out) == []
  {
    if p.1 == Done(OK) {
      var s' := FinishInit(p).s;
      TotalIsAll(s'.readers);
      assert s'.readers[..0] == [];
      assert Before(s'.readers, 0) == [];
      assert InStep(s', NO_BUFFER, []);
    }
  }

  lemma InitKeeps(s: State, w: World)
    requires Shape(s) && CallbacksValid(s)
    ensures var st := Init(s, w);
            Inv(st.s, []) && BytesOf(st.out) == [] && SameContents(s.readers, st.s.readers)
  {
    var s0 := Reset(s);
    InitElementsKeeps(s0, 0, w);
    FinishInitKeeps(s0, InitElements(s0, 0, w));
  }

  // ------------------------------------------------------------------
  // Reading keeps the invariant
  // ------------------------------------------------------------------

  /** In the middle of a client read, with no callback live. */
  ghost predicate ReadReady(s: State, buf: Buffer, delivered: seq<byte>) {
    && InStep(s, buf, delivered) && buf.capacity > 0
    && s.initialized && !s.eof
    && s.total == |All(s.readers)| && s.position == |delivered| && s.position != s.total
    && (forall cb :: cb in s.outstanding ==> cb.gen < s.generation && cb.call < s.calls)
  }

  /** Handing over the buffer moves the bytes in it from the buffer to the client. */
  lemma HandOver(s: State, buf: Buffer, delivered: seq<byte>)
    requires InStep(s, buf, delivered)
    ensures InStep(s, NO_BUFFER, delivered + buf.data)
  {
    assert delivered + buf.data + [] == delivered + buf.data;
  }

  /** Before the end there is a reader left. */
  lemma ReaderLeft(s: State, delivered: seq<byte>)
    requires InStep(s, NO_BUFFER, delivered) && |delivered| != |All(s.readers)|
    ensures s.index < |s.readers|
  {
    BeforeIsPrefix(s.readers, s.index);
    assert delivered + [] == delivered;
  }

  lemma ParkedReadKeeps(s: State, buf: Buffer, p: Progress, delivered: seq<byte>)
    requires ReadReady(s, buf, delivered) && Outcome(s, p, delivered) && p.status.Pending?
    ensures Inv(FinishRead(p).s, delivered)
  {
    hide Before;
    AllOfSame(s.readers, p.s.readers);
    var cb := ReadDone(s.generation, p.s.calls - 1, p.buf);
    assert cb in p.s.outstanding;
  }

  lemma FinishedReadKeeps(s: State, buf: Buffer, p: Progress, delivered: seq<byte>)
    requires ReadReady(s, buf, delivered) && Outcome(s, p, delivered) && p.buf.capacity > 0 && p.status.Done?
    ensures var st := FinishRead(p);
            && BytesOf(st.out) == p.buf.data
            && Inv(st.s, delivered + p.buf.data)
            && HonestRead(st, delivered)
  {
    hide Before;
    AllOfSame(s.readers, p.s.readers);
    BeforeIsPrefix(p.s.readers, p.s.index);
    var st := FinishRead(p);
    assert BytesOf(st.out) == p.buf.data by {
      assert st.out[1..] == [];
      assert p.buf.data + [] == p.buf.data;
    }
    HandOver(p.s, p.buf, delivered);
    if p.buf.data == [] {
      assert delivered + [] == delivered;
      ReaderLeft(p.s, delivered);
    }
  }

  lemma FinishReadKeeps(s: State, buf: Buffer, p: Progress, delivered: seq<byte>)
    requires ReadReady(s, buf, delivered) && Outcome(s, p, delivered) && p.buf.capacity > 0
    ensures var st := FinishRead(p);
            && Inv(st.s, delivered + BytesOf(st.out))
            && SameContents(s.readers, st.s.readers)
            && HonestRead(st, delivered)
  {
    match p.status
    case Pending =>
      ParkedReadKeeps(s, buf, p, delivered);
      assert delivered + [] == delivered;
    case Done(result) =>
      FinishedReadKeeps(s, buf, p, delivered);
      hide Inv, HonestRead;
  }

  /**
   * What the client may conclude from a completed read: a positive result is the number of
   * bytes received, which continue the concatenation; zero means the end; a negative
   * result is the error the stream is stuck with, and no bytes came with it.
   */
  ghost predicate HonestRead(st: Step, delivered: seq<byte>) {
    forall o :: o in st.out ==>
      && o.ReadCompleted?
      && delivered + o.bytes <= All(st.s.readers)
      && |o.bytes| == (if o.result > 0 then o.result else 0)
      && (o.result == 0 ==> st.s.eof)
      && (o.result < 0 ==> st.s.error == o.result)
      && (st.s.eof <==> delivered + o.bytes == All(st.s.readers))
  }

  lemma ReadKeeps(s: State, len: nat, w: World, delivered: seq<byte>)
    requires Inv(s, delivered) && s.initialized && !s.waiting && len > 0
    ensures var st := Read(s, len, w);
            && Inv(st.s, delivered + BytesOf(st.out))
            && SameContents(s.readers, st.s.readers)
            && HonestRead(st, delivered)
  {
    assert delivered + [] == delivered;
    BeforeIsPrefix(s.readers, s.index);
    if !s.eof {
      var buf := Buffer(len, []);
      assert InStep(s, buf, delivered);
      ReadElementsKeeps(s, buf, w, delivered);
      CapacityKept(s, buf, w);
      FinishReadKeeps(s, buf, ReadElements(s, buf, w), delivered);
    }
  }

  lemma {:induction false} CapacityKept(s: State, buf: Buffer, w: World)
    requires Shape(s) && |buf.data| <= buf.capacity
    ensures ReadElements(s, buf, w).buf.capacity == buf.capacity
    decreases if s.error == OK then 1 else 0, |s.readers| - s.index, buf.capacity - |buf.data|
  {
    if s.error == OK && s.index < |s.readers| {
      if s.readers[s.index].Remaining() == 0 {
        CapacityKept(s.(index := s.index + 1), buf, w);
      } else if |buf.data| < buf.capacity && !w.pends(s.calls) {
        var r := ProcessReadResult(s.(calls := s.calls + 1), buf, w.read(s.calls));
        CapacityKept(r.s, r.buf, w);
      }
    }
  }

  // ------------------------------------------------------------------
  // Completions keep the invariant
  // ------------------------------------------------------------------

  lemma DeadCompletionKeeps(s: State, cb: Callback, delivered: seq<byte>)
    requires Inv(s, delivered) && cb in s.outstanding && !IsLive(s, cb)
    ensures Inv(s.(outstanding := s.outstanding - {cb}), delivered)
  {
    hide Before, All;
    var s' := s.(outstanding := s.outstanding - {cb});
    assert forall c :: c in s'.outstanding ==> c in s.outstanding && IsLive(s', c) == IsLive(s, c);
    if s.waiting {
      var live :| live in s.outstanding && IsLive(s, live);
      assert live in s'.outstanding;
    }
  }

  lemma LiveReadKeeps(s: State, cb: Callback, w: World, delivered: seq<byte>)
    requires Inv(s, delivered) && cb in s.outstanding && IsLive(s, cb) && s.initialized
    ensures Resumable(s, cb)
    ensures var st := Fire(s, cb, w);
            && Inv(st.s, delivered + BytesOf(st.out))
            && SameContents(s.readers, st.s.readers)
            && HonestRead(st, delivered)
  {
    hide Before, ProcessReadResult;
    var s1 := s.(outstanding := s.outstanding - {cb});
    ServeKeeps(s1, cb.buf, w.read(cb.call), delivered);
    var r := ProcessReadResult(s1, cb.buf, w.read(cb.call));
    AllOfSame(s.readers, r.s.readers);
    BeforeIsPrefix(s.readers, s.index);
    ReadElementsKeeps(r.s, r.buf, w, delivered);
    CapacityKept(r.s, r.buf, w);
    FinishReadKeeps(r.s, r.buf, ReadElements(r.s, r.buf, w), delivered);
  }

  lemma LiveInitKeeps(s: State, cb: Callback, w: World)
    requires Inv(s, []) && cb in s.outstanding && IsLive(s, cb) && !s.initialized
    ensures Resumable(s, cb)
    ensures var st := Fire(s, cb, w);
            Inv(st.s, []) && BytesOf(st.out) == [] && SameContents(s.readers, st.s.readers)
  {
    var s1 := s.(outstanding := s.outstanding - {cb});
    assert InitReady(s1, cb.element);
    if w.init(cb.call) >= 0 {
      var s2 := Rewound(s1, cb.element);
      InitElementsKeeps(s2, cb.element + 1, w);
      FinishInitKeeps(s2, InitElements(s2, cb.element + 1, w));
    } else {
      FinishInitKeeps(s1, (s1, Done(w.init(cb.call))));
    }
  }

  /**
   * Every step of the client or of a reader keeps the invariant, leaves the elements'
   * content alone, and tells the client nothing but the truth.
   */
  lemma StepKeeps(s: State, ev: Event, w: World, delivered: seq<byte>)
    requires Inv(s, delivered)
    ensures forall cb :: cb in s.outstanding && IsLive(s, cb) ==> Resumable(s, cb)
    ensures var st := Apply(s, ev, w);
            && Inv(st.s, Heard(delivered, ev, st.out))
            && SameContents(s.readers, st.s.readers)
            && (s.initialized && !ev.ClientInit? ==> HonestRead(st, delivered))
  {
    assert delivered + [] == delivered;
    match ev
    case ClientInit =>
      InitKeeps(s, w);
    case ClientRead(len) =>
      if s.initialized && !s.waiting && len > 0 {
        ReadKeeps(s, len, w, delivered);
      }
    case ClientReset =>
    case Complete(cb) =>
      if cb in s.outstanding {
        if !IsLive(s, cb) {
          DeadCompletionKeeps(s, cb, delivered);
        } else if s.initialized {
          LiveReadKeeps(s, cb, w, delivered);
        } else {
          LiveInitKeeps(s, cb, w);
        }
      }
  }

  // ------------------------------------------------------------------
  // Whole runs
  // ------------------------------------------------------------------

  function Fresh(readers: seq<Reader>): State {
    State(readers, 0, OK, 0, 0, 0, false, false, false, 0, {})
  }

  /** The state after a run and what the client received since the last initialization in it. */
  ghost function Run(s: State, delivered: seq<byte>, evs: seq<Event>, w: World): (r: (State, seq<byte>))
    requires Inv(s, delivered)
    ensures Inv(r.0, r.1) && SameContents(s.readers, r.0.readers)
    decreases |evs|
  {
    if evs == [] then (s, delivered)
    else
      StepKeeps(s, evs[0], w, delivered);
      var st := Apply(s, evs[0], w);
      Run(st.s, Heard(delivered, evs[0], st.out), evs[1..], w)
  }

  /**
   * Over every run, with any answers and any of them late, what the client has received is
   * a prefix of the concatenated elements, the stream reports the end exactly when it is
   * all of it, and the position it reports is the number of bytes received.
   */
  lemma DeliversConcatenation(readers: seq<Reader>, evs: seq<Event>, w: World)
    requires forall i :: 0 <= i < |readers| ==> readers[i].Valid()
    ensures Inv(Fresh(readers), [])
    ensures var (s, delivered) := Run(Fresh(readers), [], evs, w);
            && delivered <= All(readers)
            && (s.initialized ==> s.position == |delivered| && s.total == |All(readers)|)
            && (s.initialized ==> (s.eof <==> delivered == All(readers)))
  {
    var (s, delivered) := Run(Fresh(readers), [], evs, w);
    AllOfSame(readers, s.readers);
    if s.initialized {
      BeforeIsPrefix(s.readers, s.index);
    }
  }

  /** A stream stuck with an error answers every read with it. */
  lemma StuckRead(s: State, len: nat, w: World, delivered: seq<byte>)
    requires Inv(s, delivered) && s.initialized && !s.waiting && s.error != OK && len > 0
    ensures Read(s, len, w) == Step(s, [ReadCompleted(s.error, [])])
  {
    BeforeIsPrefix(s.readers, s.index);
    assert delivered + [] == delivered;
  }

  /** Until a reset or a new initialization nothing changes: no byte arrives and no reader is touched. */
  lemma {:induction false} ErrorSticks(s: State, delivered: seq<byte>, evs: seq<Event>, w: World)
    requires Inv(s, delivered) && s.initialized && !s.waiting && s.error != OK
    requires forall i :: 0 <= i < |evs| ==> !evs[i].ClientInit? && !evs[i].ClientReset?
    ensures var (s', delivered') := Run(s, delivered, evs, w);
            && delivered' == delivered && s'.readers == s.readers && s'.index == s.index
            && s'.error == s.error && s'.initialized && !s'.waiting
    decreases |evs|
  {
    if evs != [] {
      StepKeeps(s, evs[0], w, delivered);
      var st := Apply(s, evs[0], w);
      assert delivered + [] == delivered;
      if evs[0].ClientRead? && evs[0].len > 0 {
        StuckRead(s, evs[0].len, w, delivered);
        assert BytesOf(st.out) == [] by { assert st.out[1..] == []; }
      }
      assert Heard(delivered, evs[0], st.out) == delivered;
      ErrorSticks(st.s, delivered, evs[1..], w);
    }
  }
}
