/**
 * The push-based upload stream: chunks are appended at one end and read at the other, and
 * a read that finds nothing waits for the next append.
 */
module ChunkedUpload {
  import opened Seqs
  import opened Bytes
  import opened Numbers
  import opened Options

  // ------------------------------------------------------------------
  // The stream as one string with one cursor
  // ------------------------------------------------------------------

  /**
   * Everything appended, how far it has been read, whether appending is finished, the
   * length of the read that waits, and the base stream's fields.
   */
  datatype Flat = Flat(data: seq<byte>, cursor: nat, done: bool, pending: Option<nat>,
                       initialized: bool, eof: bool, position: nat)

  /** A completed read: its result and the bytes in the client's buffer. */
  datatype Completed = Completed(result: nat, bytes: seq<byte>)

  datatype Step = Step(s: Flat, out: Option<Completed>)

  ghost predicate Inv(s: Flat) {
    && s.cursor <= |s.data|
    && s.position == s.cursor
    && (s.pending.Some? ==>
          s.pending.value > 0 && s.cursor == |s.data| && !s.done && s.initialized && !s.eof)
    && (s.eof ==> s.done && s.cursor == |s.data| && s.initialized)
  }

  /** As much as fits and is there; a read that gets nothing waits unless appending is finished. */
  function ReadChunk(s: Flat, len: nat): Step
    requires s.cursor <= |s.data|
  {
    var n := Min(len, |s.data| - s.cursor);
    if n == 0 && !s.done then Step(s.(pending := Some(len)), None)
    else
      var bytes := s.data[s.cursor..s.cursor + n];
      Step(s.(cursor := s.cursor + n, position := s.position + n, pending := None,
              eof := s.eof || (s.cursor + n == |s.data| && s.done)),
           Some(Completed(n, bytes)))
  }

  function Read(s: Flat, len: nat): Step
    requires s.cursor <= |s.data|
  {
    if s.eof then Step(s, Some(Completed(0, []))) else ReadChunk(s, len)
  }

  function Append(s: Flat, data: seq<byte>, isDone: bool): Step
    requires s.cursor <= |s.data|
  {
    var s1 := s.(data := s.data + data, done := isDone);
    if s.pending.None? then Step(s1, None) else ReadChunk(s1.(pending := None), s.pending.value)
  }

  function Reset(s: Flat): Flat {
    s.(cursor := 0, position := 0, pending := None, initialized := false, eof := false)
  }

  function Init(s: Flat): Flat {
    Reset(s).(initialized := true)
  }

  // ------------------------------------------------------------------
  // Every run of appends, reads and resets
  // ------------------------------------------------------------------

  datatype Event = DoAppend(data: seq<byte>, isDone: bool) | DoRead(len: nat) | DoReset | DoInit

  /** The interface forbids appending after the end, empty appends before it, and reading twice at once. */
  predicate Allowed(s: Flat, ev: Event) {
    match ev
    case DoAppend(data, isDone) => !s.done && (|data| > 0 || isDone)
    case DoRead(len) => s.initialized && s.pending.None? && len > 0
    case DoReset => true
    case DoInit => true
  }

  function Apply(s: Flat, ev: Event): Step
    requires s.cursor <= |s.data|
  {
    if !Allowed(s, ev) then Step(s, None)
    else
      match ev
      case DoAppend(data, isDone) => Append(s, data, isDone)
      case DoRead(len) => Read(s, len)
      case DoReset => Step(Reset(s), None)
      case DoInit => Step(Init(s), None)
  }

  /** What the client has been given since the last reset. */
  function Heard(delivered: seq<byte>, ev: Event, out: Option<Completed>): seq<byte> {
    if ev.DoReset? || ev.DoInit? then []
    else if out.Some? then delivered + out.value.bytes
    else delivered
  }

  ghost predicate Consistent(s: Flat, delivered: seq<byte>) {
    Inv(s) && delivered == s.data[..s.cursor]
  }

  lemma SlicesJoin(data: seq<byte>, a: nat, b: nat)
    requires a <= b <= |data|
    ensures data[..a] + data[a..b] == data[..b]
  {
  }

  /** A read takes the bytes at the cursor and nothing else. */
  lemma ReadChunkKeeps(s: Flat, len: nat, delivered: seq<byte>)
    requires Consistent(s, delivered) && s.pending.None? && s.initialized && !s.eof && len > 0
    ensures var st := ReadChunk(s, len);
            && Consistent(st.s, Heard(delivered, DoRead(len), st.out)) && st.s.data == s.data
            && (st.out.Some? ==> |st.out.value.bytes| == st.out.value.result)
            && (st.out.Some? && st.out.value.result == 0 ==> st.s.eof)
  {
    SlicesJoin(s.data, s.cursor, s.cursor + Min(len, |s.data| - s.cursor));
  }

  /** What every step keeps, and what a completed read may be taken to mean. */
  lemma StepKeeps(s: Flat, ev: Event, delivered: seq<byte>)
    requires Consistent(s, delivered)
    ensures var st := Apply(s, ev);
            && Consistent(st.s, Heard(delivered, ev, st.out))
            && st.s.data == (if ev.DoAppend? && Allowed(s, ev) then s.data + ev.data else s.data)
            && (st.out.Some? ==> |st.out.value.bytes| == st.out.value.result)
            && (st.out.Some? && st.out.value.result == 0 ==> st.s.eof)
  {
    if Allowed(s, ev) {
      match ev
      case DoAppend(data, isDone) =>
        var s1 := s.(data := s.data + data, done := isDone);
        assert s1.data[..s.cursor] == s.data[..s.cursor];
        if s.pending.Some? {
          ReadChunkKeeps(s1.(pending := None), s.pending.value, delivered);
        }
      case DoRead(len) =>
        if s.eof {
          assert delivered + [] == delivered;
        } else {
          ReadChunkKeeps(s, len, delivered);
        }
      case DoReset =>
      case DoInit =>
    }
  }

  /** A read that completes fills its buffer or takes everything there is; nothing is left behind needlessly. */
  lemma ReadTakesAllThatFits(s: Flat, len: nat)
    requires Inv(s) && s.pending.None? && s.initialized && len > 0
    ensures var st := Read(s, len);
            && (st.out.Some? ==> st.out.value.result == len || st.s.cursor == |s.data|)
            && (st.out.None? <==> s.cursor == |s.data| && !s.done)
            && (st.out.Some? ==> st.out.value.bytes == s.data[s.cursor..st.s.cursor])
  {
  }

  /**
   * A read waits only at the end of unfinished data, and the next append completes it:
   * with the first of the new bytes, or with none when that append ends the stream.
   */
  lemma AppendCompletesWaitingRead(s: Flat, data: seq<byte>, isDone: bool)
    requires Inv(s) && s.pending.Some? && Allowed(s, DoAppend(data, isDone))
    ensures s.cursor == |s.data| && !s.done
    ensures var st := Apply(s, DoAppend(data, isDone));
            var n := Min(s.pending.value, |data|);
            && st.out == Some(Completed(n, data[..n])) && st.s.pending.None?
            && (n == 0 <==> data == [])
            && (st.s.eof <==> isDone && n == |data|)
  {
    var n := Min(s.pending.value, |data|);
    assert (s.data + data)[s.cursor..s.cursor + n] == data[..n];
  }

  ghost function Run(s: Flat, delivered: seq<byte>, evs: seq<Event>): (r: (Flat, seq<byte>))
    requires Consistent(s, delivered)
    ensures Consistent(r.0, r.1)
    decreases |evs|
  {
    if evs == [] then (s, delivered)
    else
      StepKeeps(s, evs[0], delivered);
      var st := Apply(s, evs[0]);
      Run(st.s, Heard(delivered, evs[0], st.out), evs[1..])
  }

  /** The concatenation of all chunks a run appends. */
  ghost function Appended(s: Flat, evs: seq<Event>): seq<byte>
    requires Inv(s)
    decreases |evs|
  {
    if evs == [] then []
    else
      StepKeeps(s, evs[0], s.data[..s.cursor]);
      (if evs[0].DoAppend? && Allowed(s, evs[0]) then evs[0].data else []) + Appended(Apply(s, evs[0]).s, evs[1..])
  }

  lemma {:induction false} RunCollects(s: Flat, delivered: seq<byte>, evs: seq<Event>)
    requires Consistent(s, delivered)
    ensures Run(s, delivered, evs).0.data == s.data + Appended(s, evs)
    decreases |evs|
  {
    if evs == [] {
      assert s.data + [] == s.data;
    } else {
      StepKeeps(s, evs[0], delivered);
      var st := Apply(s, evs[0]);
      RunCollects(st.s, Heard(delivered, evs[0], st.out), evs[1..]);
      var chunk := if evs[0].DoAppend? && Allowed(s, evs[0]) then evs[0].data else [];
      assert st.s.data == s.data + chunk;
      Append3(s.data, chunk, Appended(st.s, evs[1..]));
    }
  }

  /** Some chunk of the run was the last. */
  ghost predicate Finishes(s: Flat, evs: seq<Event>)
    requires Inv(s)
    decreases |evs|
  {
    evs != [] &&
    (StepKeeps(s, evs[0], s.data[..s.cursor]);
     (evs[0].DoAppend? && Allowed(s, evs[0]) && evs[0].isDone) || Finishes(Apply(s, evs[0]).s, evs[1..]))
  }

  /** Appending is finished exactly once the last chunk has been appended, and no reset takes that back. */
  lemma {:induction false} DoneExactly(s: Flat, delivered: seq<byte>, evs: seq<Event>)
    requires Consistent(s, delivered)
    ensures Run(s, delivered, evs).0.done <==> s.done || Finishes(s, evs)
    decreases |evs|
  {
    if evs != [] {
      StepKeeps(s, evs[0], delivered);
      var st := Apply(s, evs[0]);
      DoneExactly(st.s, Heard(delivered, evs[0], st.out), evs[1..]);
    }
  }

  const EMPTY := Flat([], 0, false, None, false, false, 0)

  /**
   * Over every run, what the client was given since the last reset is a prefix of all that
   * was appended; the final-chunk signal means that appending is finished and everything
   * was given; and a read waits only when there is nothing left to give and more may come.
   */
  lemma DeliversAppended(evs: seq<Event>)
    ensures var (s, delivered) := Run(EMPTY, [], evs);
            var appended := Appended(EMPTY, evs);
            && delivered <= appended
            && (s.eof ==> s.done && delivered == appended)
            && (s.pending.Some? ==> !s.done && !s.eof && delivered == appended)
            && s.position == |delivered|
  {
    var (s, delivered) := Run(EMPTY, [], evs);
    RunCollects(EMPTY, [], evs);
    assert s.data == [] + Appended(EMPTY, evs) == Appended(EMPTY, evs);
  }

  /** Once appending is finished, one read more than there are bytes left reaches the final chunk. */
  lemma {:induction false} ReadsReachEnd(s: Flat, delivered: seq<byte>, n: nat, len: nat)
    requires Consistent(s, delivered) && s.done && s.initialized && len > 0
    requires n > |s.data| - s.cursor
    ensures var (s', delivered') := Run(s, delivered, seq(n, _ => DoRead(len)));
            s'.eof && delivered' == s.data
    decreases n
  {
    var evs := seq(n, _ => DoRead(len));
    assert evs[0] == DoRead(len) && evs[1..] == seq(n - 1, _ => DoRead(len));
    StepKeeps(s, DoRead(len), delivered);
    var st := Apply(s, DoRead(len));
    var heard := Heard(delivered, DoRead(len), st.out);
    if n > 1 {
      if st.s.cursor == |s.data| && st.s.eof {
        EndStays(st.s, heard, n - 1, len);
      } else {
        ReadsReachEnd(st.s, heard, n - 1, len);
      }
    } else {
      assert evs[1..] == [];
    }
  }

  lemma {:induction false} EndStays(s: Flat, delivered: seq<byte>, n: nat, len: nat)
    requires Consistent(s, delivered) && s.eof && len > 0
    ensures var (s', delivered') := Run(s, delivered, seq(n, _ => DoRead(len)));
            s' == s && delivered' == delivered
    decreases n
  {
    if n > 0 {
      var evs := seq(n, _ => DoRead(len));
      assert evs[0] == DoRead(len) && evs[1..] == seq(n - 1, _ => DoRead(len));
      assert delivered + [] == delivered;
      EndStays(s, delivered, n - 1, len);
    }
  }
}
