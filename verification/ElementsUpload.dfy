/**
 * The upload stream over a list of element readers, as a state machine: every call into a
 * reader may answer at once or later through a callback, and a reset cuts loose whatever
 * is still in flight.
 */
module ElementsUpload {
  import opened Seqs
  import opened Bytes
  import opened Numbers

  // ------------------------------------------------------------------
  // Readers and the world that answers them
  // ------------------------------------------------------------------

  /** An element: its content and how much of it has been read. */
  datatype Reader = Reader(content: seq<byte>, pos: nat) {
    predicate Valid() {
      pos <= |content|
    }

    function Remaining(): nat
      requires Valid()
    {
      |content| - pos
    }
  }

  const OK: int := 0

  /**
   * How the calls into readers go, by call number: what an Init answers (negative is an
   * error), what a Read answers (negative is an error, otherwise a byte count, of which a
   * reader keeps to at least one and at most what fits), and which answers come later.
   */
  datatype World = World(init: nat -> int, read: nat -> int, pends: nat -> bool)

  /** The buffer of one client read: its capacity and what has been put in so far. */
  datatype Buffer = Buffer(capacity: nat, data: seq<byte>)

  /** A completion callback handed to a reader, bound to the generation of weak pointers it was made in. */
  datatype Callback =
    | InitDone(gen: nat, call: nat, element: nat)
    | ReadDone(gen: nat, call: nat, buf: Buffer)

  datatype State = State(
    readers: seq<Reader>, index: nat, error: int, generation: nat,
    total: nat, position: nat, initialized: bool, eof: bool, waiting: bool,
    calls: nat, outstanding: set<Callback>)

  /** The result of an operation, or that it is still pending. */
  datatype Status = Pending | Done(result: int)

  /** What the client is told, at once or through its callback. */
  datatype Output = InitCompleted(result: int) | ReadCompleted(result: int, bytes: seq<byte>)

  datatype Step = Step(s: State, out: seq<Output>)

  /** The content of all elements, one after the other. */
  function All(rs: seq<Reader>): seq<byte> {
    if rs == [] then [] else rs[0].content + All(rs[1..])
  }

  function TotalLength(rs: seq<Reader>): nat {
    if rs == [] then 0 else |rs[0].content| + TotalLength(rs[1..])
  }

  // ------------------------------------------------------------------
  // Initialization
  // ------------------------------------------------------------------

  function Rewound(s: State, i: nat): State
    requires i < |s.readers|
  {
    s.(readers := s.readers[i := s.readers[i].(pos := 0)])
  }

  function InitElements(s: State, i: nat, w: World): (State, Status)
    requires i <= |s.readers|
    decreases |s.readers| - i
  {
    if i == |s.readers| then (s.(total := TotalLength(s.readers)), Done(OK))
    else
      var s1 := s.(calls := s.calls + 1);
      if w.pends(s.calls) then
        (s1.(outstanding := s.outstanding + {InitDone(s.generation, s.calls, i)}), Pending)
      else if w.init(s.calls) < 0 then (s1, Done(w.init(s.calls)))
      else InitElements(Rewound(s1, i), i + 1, w)
  }

  function OnInitCompleted(s: State, result: int): Step {
    var s1 := if result == OK then s.(initialized := true, eof := s.eof || s.total == 0) else s;
    Step(s1.(waiting := false), [InitCompleted(result)])
  }

  function FinishInit(p: (State, Status)): Step {
    match p.1
    case Pending => Step(p.0.(waiting := true), [])
    case Done(result) => OnInitCompleted(p.0, result)
  }

  function Reset(s: State): State {
    s.(position := 0, initialized := false, eof := false, total := 0, waiting := false,
       generation := s.generation + 1, error := OK, index := 0)
  }

  function Init(s: State, w: World): Step {
    FinishInit(InitElements(Reset(s), 0, w))
  }

  // ------------------------------------------------------------------
  // Reading
  // ------------------------------------------------------------------

  ghost predicate Shape(s: State) {
    && s.index <= |s.readers|
    && (forall i :: 0 <= i < |s.readers| ==> s.readers[i].Valid())
    && s.error <= OK
  }

  /** The current reader has something to give and the buffer has room for it. */
  ghost predicate CanServe(s: State, buf: Buffer) {
    && Shape(s)
    && s.error == OK && s.index < |s.readers|
    && s.readers[s.index].Remaining() > 0
    && |buf.data| < buf.capacity
  }

  datatype Served = Served(s: State, buf: Buffer)

  /** The answer to a read of the current element takes effect. */
  function ProcessReadResult(s: State, buf: Buffer, answer: int): (r: Served)
    requires CanServe(s, buf)
    ensures Shape(r.s) && |r.buf.data| <= r.buf.capacity == buf.capacity
    ensures |r.s.readers| == |s.readers| && r.s.index == s.index
    ensures r.s.error != OK || |r.buf.data| > |buf.data|
  {
    if answer < 0 then Served(s.(error := answer), buf)
    else
      var reader := s.readers[s.index];
      var wanted := if answer == 0 then 1 else answer;
      var k := Min(wanted, Min(buf.capacity - |buf.data|, reader.Remaining()));
      Served(
        s.(readers := s.readers[s.index := reader.(pos := reader.pos + k)]),
        buf.(data := buf.data + reader.content[reader.pos..reader.pos + k]))
  }

  function ResultOf(s: State, buf: Buffer): int {
    if |buf.data| > 0 then |buf.data| else s.error
  }

  datatype Progress = Progress(s: State, buf: Buffer, status: Status)

  function ReadElements(s: State, buf: Buffer, w: World): Progress
    requires Shape(s) && |buf.data| <= buf.capacity
    decreases if s.error == OK then 1 else 0, |s.readers| - s.index, buf.capacity - |buf.data|
  {
    if s.error == OK && s.index < |s.readers| then
      if s.readers[s.index].Remaining() == 0 then ReadElements(s.(index := s.index + 1), buf, w)
      else if |buf.data| == buf.capacity then Progress(s, buf, Done(ResultOf(s, buf)))
      else
        var s1 := s.(calls := s.calls + 1);
        if w.pends(s.calls) then
          Progress(s1.(outstanding := s.outstanding + {ReadDone(s.generation, s.calls, buf)}), buf, Pending)
        else
          var r := ProcessReadResult(s1, buf, w.read(s.calls));
          ReadElements(r.s, r.buf, w)
    else Progress(s, buf, Done(ResultOf(s, buf)))
  }

  function OnReadCompleted(s: State, result: int, bytes: seq<byte>): Step {
    var position := s.position + result;
    var s1 := if result > 0 then s.(position := position, eof := s.eof || position == s.total) else s;
    Step(s1.(waiting := false), [ReadCompleted(result, bytes)])
  }

  function FinishRead(p: Progress): Step {
    match p.status
    case Pending => Step(p.s.(waiting := true), [])
    case Done(result) => OnReadCompleted(p.s, result, p.buf.data)
  }

  function Read(s: State, len: nat, w: World): Step
    requires Shape(s)
  {
    if s.eof then OnReadCompleted(s, 0, [])
    else FinishRead(ReadElements(s, Buffer(len, []), w))
  }

  // ------------------------------------------------------------------
  // Completions
  // ------------------------------------------------------------------

  /** A callback made before the last reset finds its weak pointer dead. */
  predicate IsLive(s: State, cb: Callback) {
    cb.gen == s.generation
  }

  ghost predicate Resumable(s: State, cb: Callback) {
    match cb
    case InitDone(_, _, element) => element < |s.readers|
    case ReadDone(_, _, buf) => CanServe(s, buf)
  }

  function OnInitElementCompleted(s: State, element: nat, result: int, w: World): Step
    requires element < |s.readers|
  {
    if result < 0 then FinishInit((s, Done(result)))
    else FinishInit(InitElements(Rewound(s, element), element + 1, w))
  }

  function OnReadElementCompleted(s: State, buf: Buffer, result: int, w: World): Step
    requires CanServe(s, buf)
  {
    var r := ProcessReadResult(s, buf, result);
    FinishRead(ReadElements(r.s, r.buf, w))
  }

  function Fire(s: State, cb: Callback, w: World): Step
    requires IsLive(s, cb) ==> Resumable(s, cb)
  {
    var s1 := s.(outstanding := s.outstanding - {cb});
    if !IsLive(s, cb) then Step(s1, [])
    else
      match cb
      case InitDone(_, call, element) => OnInitElementCompleted(s1, element, w.init(call), w)
      case ReadDone(_, call, buf) => OnReadElementCompleted(s1, buf, w.read(call), w)
  }
}
