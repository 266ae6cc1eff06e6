/** The element upload stream as the object it is: methods that update its fields in place. */
module ElementsUploadStream {
  import opened Bytes
  import opened Numbers
  import opened ElementsUpload

  class ElementsUploadDataStream {
    // Fields of the base stream.
    var totalSize: nat
    var currentPosition: nat
    var initializedSuccessfully: bool
    var isEof: bool
    var waiting: bool
    // Fields of the element stream.
    var readers: seq<Reader>
    var elementIndex: nat
    var readError: int
    var generation: nat
    // What the readers hold of the stream.
    var calls: nat
    var outstanding: set<Callback>

    ghost function View(): State
      reads this
    {
      State(readers, elementIndex, readError, generation, totalSize, currentPosition,
            initializedSuccessfully, isEof, waiting, calls, outstanding)
    }

    constructor (elements: seq<Reader>)
      ensures View() == State(elements, 0, OK, 0, 0, 0, false, false, false, 0, {})
    {
      totalSize, currentPosition, initializedSuccessfully, isEof, waiting := 0, 0, false, false, false;
      readers, elementIndex, readError, generation := elements, 0, OK, 0;
      calls, outstanding := 0, {};
    }

    method SumLengths() returns (total: nat)
      ensures total == TotalLength(readers)
    {
      total := 0;
      var i := 0;
      assert readers[0..] == readers;
      while i < |readers|
        invariant i <= |readers| && total + TotalLength(readers[i..]) == TotalLength(readers)
      {
        assert readers[i..][1..] == readers[i + 1..];
        total := total + |readers[i].content|;
        i := i + 1;
      }
    }

    method InitElements(startIndex: nat, w: World) returns (status: Status)
      requires startIndex <= |readers|
      modifies this
      ensures (View(), status) == ElementsUpload.InitElements(old(View()), startIndex, w)
    {
      var i: nat := startIndex;
      while i < |readers|
        invariant i <= |readers|
        invariant ElementsUpload.InitElements(View(), i, w) == ElementsUpload.InitElements(old(View()), startIndex, w)
      {
        ghost var before := View();
        var call := calls;
        calls := calls + 1;
        if w.pends(call) {
          outstanding := outstanding + {InitDone(generation, call, i)};
          return Pending;
        }
        if w.init(call) < 0 { return Done(w.init(call)); }
        readers := readers[i := readers[i].(pos := 0)];
        assert View() == Rewound(before.(calls := call + 1), i);
        i := i + 1;
      }
      totalSize := SumLengths();
      return Done(OK);
    }

    method OnInitCompleted(result: int) returns (out: seq<Output>)
      modifies this
      ensures Step(View(), out) == ElementsUpload.OnInitCompleted(old(View()), result)
    {
      if result == OK {
        initializedSuccessfully := true;
        if totalSize == 0 { isEof := true; }
      }
      waiting := false;
      out := [InitCompleted(result)];
    }

    method ResetInternal()
      modifies this`generation, this`readError, this`elementIndex
      ensures generation == old(generation) + 1 && readError == OK && elementIndex == 0
    {
      generation := generation + 1;
      readError := OK;
      elementIndex := 0;
    }

    method Reset()
      modifies this
      ensures View() == ElementsUpload.Reset(old(View()))
    {
      currentPosition, initializedSuccessfully, isEof, totalSize := 0, false, false, 0;
      waiting := false;
      ResetInternal();
    }

    method Init(w: World) returns (out: seq<Output>)
      modifies this
      ensures Step(View(), out) == ElementsUpload.Init(old(View()), w)
    {
      Reset();
      var status := InitElements(0, w);
      match status
      case Pending =>
        waiting := true;
        out := [];
      case Done(result) =>
        out := OnInitCompleted(result);
    }

    method OnInitElementCompleted(element: nat, result: int, w: World) returns (out: seq<Output>)
      requires element < |readers|
      modifies this
      ensures Step(View(), out) == ElementsUpload.OnInitElementCompleted(old(View()), element, result, w)
    {
      var status := Done(result);
      if result >= 0 {
        readers := readers[element := readers[element].(pos := 0)];
        status := InitElements(element + 1, w);
      }
      match status
      case Pending =>
        waiting := true;
        out := [];
      case Done(r) =>
        out := OnInitCompleted(r);
    }

    method ProcessReadResult(buf: Buffer, answer: int) returns (buf': Buffer)
      requires CanServe(View(), buf)
      modifies this
      ensures Served(View(), buf') == ElementsUpload.ProcessReadResult(old(View()), buf, answer)
    {
      buf' := buf;
      if answer >= 0 {
        var reader := readers[elementIndex];
        var wanted := if answer == 0 then 1 else answer;
        var k := Min(wanted, Min(buf.capacity - |buf.data|, reader.Remaining()));
        readers := readers[elementIndex := reader.(pos := reader.pos + k)];
        buf' := buf.(data := buf.data + reader.content[reader.pos..reader.pos + k]);
      } else {
        readError := answer;
      }
    }

    method ReadElements(buf: Buffer, w: World) returns (buf': Buffer, status: Status)
      requires Shape(View()) && |buf.data| <= buf.capacity
      modifies this
      ensures Progress(View(), buf', status) == ElementsUpload.ReadElements(old(View()), buf, w)
    {
      buf' := buf;
      while readError == OK && elementIndex < |readers|
        invariant Shape(View()) && |buf'.data| <= buf'.capacity
        invariant ElementsUpload.ReadElements(View(), buf', w) == ElementsUpload.ReadElements(old(View()), buf, w)
        decreases if readError == OK then 1 else 0, |readers| - elementIndex, buf'.capacity - |buf'.data|
      {
        if readers[elementIndex].Remaining() == 0 {
          elementIndex := elementIndex + 1;
        } else if |buf'.data| == buf'.capacity {
          break;
        } else {
          var call := calls;
          calls := calls + 1;
          if w.pends(call) {
            outstanding := outstanding + {ReadDone(generation, call, buf')};
            return buf', Pending;
          }
          buf' := ProcessReadResult(buf', w.read(call));
        }
      }
      return buf', Done(if |buf'.data| > 0 then |buf'.data| else readError);
    }

    method OnReadCompleted(result: int, bytes: seq<byte>) returns (out: seq<Output>)
      modifies this
      ensures Step(View(), out) == ElementsUpload.OnReadCompleted(old(View()), result, bytes)
    {
      if result > 0 {
        currentPosition := currentPosition + result;
        if currentPosition == totalSize { isEof := true; }
      }
      waiting := false;
      out := [ReadCompleted(result, bytes)];
    }

    method Read(len: nat, w: World) returns (out: seq<Output>)
      requires Shape(View())
      modifies this
      ensures Step(View(), out) == ElementsUpload.Read(old(View()), len, w)
    {
      if isEof {
        out := OnReadCompleted(0, []);
      } else {
        var buf, status := ReadElements(Buffer(len, []), w);
        match status
        case Pending =>
          waiting := true;
          out := [];
        case Done(result) =>
          out := OnReadCompleted(result, buf.data);
      }
    }

    method OnReadElementCompleted(buf: Buffer, result: int, w: World) returns (out: seq<Output>)
      requires CanServe(View(), buf)
      modifies this
      ensures Step(View(), out) == ElementsUpload.OnReadElementCompleted(old(View()), buf, result, w)
    {
      var buf' := ProcessReadResult(buf, result);
      var status;
      buf', status := ReadElements(buf', w);
      match status
      case Pending =>
        waiting := true;
        out := [];
      case Done(r) =>
        out := OnReadCompleted(r, buf'.data);
    }

    /** A reader runs a callback it was handed: it does nothing once the stream has been reset. */
    method RunCallback(cb: Callback, w: World) returns (out: seq<Output>)
      requires IsLive(View(), cb) ==> Resumable(View(), cb)
      modifies this
      ensures Step(View(), out) == Fire(old(View()), cb, w)
    {
      outstanding := outstanding - {cb};
      out := [];
      if cb.gen == generation {
        match cb
        case InitDone(_, call, element) =>
          out := OnInitElementCompleted(element, w.init(call), w);
        case ReadDone(_, call, buf) =>
          out := OnReadElementCompleted(buf, w.read(call), w);
      }
    }
  }
}
