/** The push-based upload stream as it is kept: a list of chunks, a two-part cursor, a waiting buffer. */
module ChunkedUploadStream {
  import opened Seqs
  import opened Bytes
  import opened Numbers
  import opened Options
  import opened ChunkedUpload

  // ------------------------------------------------------------------
  // The stream as a list of chunks
  // ------------------------------------------------------------------

  function Cat(chunks: seq<seq<byte>>): seq<byte> {
    if chunks == [] then [] else chunks[0] + Cat(chunks[1..])
  }

  lemma {:induction false} CatAppend(a: seq<seq<byte>>, b: seq<seq<byte>>)
    ensures Cat(a + b) == Cat(a) + Cat(b)
  {
    if a == [] {
      assert a + b == b;
    } else {
      CatAppend(a[1..], b);
      assert (a + b)[1..] == a[1..] + b;
      Append3(a[0], Cat(a[1..]), Cat(b));
    }
  }

  lemma CatOne(c: seq<byte>)
    ensures Cat([c]) == c
  {
    assert [c][1..] == [];
  }

  /** Where chunk `i` lies in the concatenation. */
  lemma CatAt(chunks: seq<seq<byte>>, i: nat)
    requires i < |chunks|
    ensures Cat(chunks[..i + 1]) == Cat(chunks[..i]) + chunks[i]
    ensures |Cat(chunks[..i])| + |chunks[i]| <= |Cat(chunks)|
    ensures Cat(chunks)[|Cat(chunks[..i])|..|Cat(chunks[..i])| + |chunks[i]|] == chunks[i]
  {
    assert chunks[..i + 1] == chunks[..i] + [chunks[i]];
    CatAppend(chunks[..i], [chunks[i]]);
    CatOne(chunks[i]);
    assert chunks == chunks[..i + 1] + chunks[i + 1..];
    CatAppend(chunks[..i + 1], chunks[i + 1..]);
  }

  class ChunkedUploadDataStream {
    var readIndex: nat
    var readOffset: nat
    var allDataAppended: bool
    var uploadData: seq<seq<byte>>
    var readBuffer: array?<byte>
    var readBufferLen: nat
    var initializedSuccessfully: bool
    var isEof: bool
    var currentPosition: nat

    /** Chunks are never empty, and the cursor stands inside a chunk or at the very end. */
    ghost predicate Valid()
      reads this
    {
      && (forall i :: 0 <= i < |uploadData| ==> |uploadData[i]| > 0)
      && readIndex <= |uploadData|
      && (if readIndex < |uploadData| then readOffset < |uploadData[readIndex]| else readOffset == 0)
      && (readBuffer != null ==> readBufferLen <= readBuffer.Length)
      && (readBuffer == null ==> readBufferLen == 0)
      && (readBuffer != null ==> readBufferLen > 0)
    }

    ghost function Cursor(): nat
      reads this
      requires readIndex <= |uploadData|
    {
      |Cat(uploadData[..readIndex])| + readOffset
    }

    ghost function View(): Flat
      reads this
      requires Valid()
    {
      Flat(Cat(uploadData), Cursor(), allDataAppended,
           if readBuffer == null then None else Some(readBufferLen),
           initializedSuccessfully, isEof, currentPosition)
    }

    constructor ()
      ensures Valid() && View() == Flat([], 0, false, None, false, false, 0)
    {
      readIndex, readOffset, allDataAppended, uploadData := 0, 0, false, [];
      readBuffer, readBufferLen := null, 0;
      initializedSuccessfully, isEof, currentPosition := false, false, 0;
    }

    /** Copies from the chunk under the cursor to the buffer and moves the cursor. */
    method CopyFromChunk(buf: array<byte>, bytesRead: nat, bufLen: nat) returns (bytesToRead: nat)
      requires Valid() && readIndex < |uploadData| && bytesRead < bufLen <= buf.Length
      modifies this`readIndex, this`readOffset, buf
      ensures Valid() && Cursor() == old(Cursor()) + bytesToRead
      ensures 0 < bytesToRead <= bufLen - bytesRead
      ensures Cursor() <= |Cat(uploadData)|
      ensures buf[..bytesRead + bytesToRead] == old(buf[..bytesRead]) + Cat(uploadData)[old(Cursor())..Cursor()]
    {
      CatAt(uploadData, readIndex);
      var data := uploadData[readIndex];
      bytesToRead := Min(bufLen - bytesRead, |data| - readOffset);
      SliceOfCat(uploadData, readIndex, readOffset, bytesToRead);
      Memcpy(buf, bytesRead, data, readOffset, bytesToRead);
      readOffset := readOffset + bytesToRead;
      if readOffset == |data| {
        readIndex := readIndex + 1;
        readOffset := 0;
      }
    }

    /** Copies as much as possible from the chunks to the buffer. */
    method CopyChunks(buf: array<byte>, bufLen: nat) returns (bytesRead: nat)
      requires Valid() && Cursor() <= |Cat(uploadData)| && bufLen <= buf.Length
      modifies this`readIndex, this`readOffset, buf
      ensures Valid() && bytesRead == Min(bufLen, |Cat(uploadData)| - old(Cursor()))
      ensures Cursor() == old(Cursor()) + bytesRead
      ensures buf[..bytesRead] == Cat(uploadData)[old(Cursor())..old(Cursor()) + bytesRead]
      ensures Cursor() == |Cat(uploadData)| <==> readIndex == |uploadData|
    {
      bytesRead := 0;
      ghost var all := Cat(uploadData);
      while readIndex < |uploadData| && bytesRead < bufLen
        invariant Valid() && bytesRead <= bufLen
        invariant Cursor() == old(Cursor()) + bytesRead <= |all|
        invariant buf[..bytesRead] == all[old(Cursor())..old(Cursor()) + bytesRead]
        decreases bufLen - bytesRead
      {
        ghost var c := Cursor();
        var n := CopyFromChunk(buf, bytesRead, bufLen);
        SliceJoin(all, old(Cursor()), c, c + n);
        bytesRead := bytesRead + n;
      }
      AtEnd(uploadData, readIndex, readOffset);
    }

    method ReadChunk(buf: array<byte>, bufLen: nat) returns (pends: bool, result: nat)
      requires Valid() && View().pending.None? && View().cursor <= |View().data| && bufLen <= buf.Length
      modifies this`readIndex, this`readOffset, this`isEof, buf
      ensures Valid()
      ensures var st := ChunkedUpload.ReadChunk(old(View()), bufLen);
              && (pends <==> st.out.None?)
              && (pends ==> View() == old(View()))
              && (!pends ==>
                    && View() == st.s.(position := old(currentPosition))
                    && result <= buf.Length && st.out == Some(Completed(result, buf[..result])))
    {
      result := CopyChunks(buf, bufLen);
      if result == 0 && !allDataAppended {
        return true, 0;
      }
      if readIndex == |uploadData| && allDataAppended {
        isEof := true;
      }
      pends := false;
    }

    method ReadInternal(buf: array<byte>, bufLen: nat) returns (pends: bool, result: nat)
      requires Valid() && View().pending.None? && View().cursor <= |View().data| && 0 < bufLen <= buf.Length
      modifies this, buf
      ensures Valid()
      ensures var st := ChunkedUpload.ReadChunk(old(View()), bufLen);
              && (pends <==> st.out.None?)
              && View() == st.s.(position := old(currentPosition))
              && (pends ==> readBuffer == buf)
              && (!pends ==> result <= buf.Length && st.out == Some(Completed(result, buf[..result])))
    {
      pends, result := ReadChunk(buf, bufLen);
      if pends {
        readBuffer := buf;
        readBufferLen := bufLen;
      }
    }

    /** The client's read: a result with the bytes in the buffer, or a promise of one. */
    method Read(buf: array<byte>, bufLen: nat) returns (pends: bool, result: nat)
      requires Valid() && Inv(View()) && View().pending.None? && 0 < bufLen <= buf.Length
      modifies this, buf
      ensures Valid()
      ensures var st := ChunkedUpload.Read(old(View()), bufLen);
              && View() == st.s
              && (pends <==> st.out.None?)
              && (pends ==> readBuffer == buf)
              && (!pends ==> result <= buf.Length && st.out == Some(Completed(result, buf[..result])))
    {
      pends, result := false, 0;
      if !isEof {
        pends, result := ReadInternal(buf, bufLen);
      }
      if !pends {
        currentPosition := currentPosition + result;
      }
    }

    /** Appends a chunk; a waiting read is completed with what is there now, in its own buffer. */
    method AppendData(data: seq<byte>, isDone: bool) returns (completed: bool, result: nat)
      requires Valid() && Inv(View())
      requires !allDataAppended && (|data| > 0 || isDone)
      modifies this, readBuffer
      ensures Valid() && readBuffer == null
      ensures var st := Append(old(View()), data, isDone);
              && View() == st.s
              && (completed <==> st.out.Some?)
              && (completed ==> old(readBuffer) != null && result <= old(readBuffer).Length
                                && st.out == Some(Completed(result, old(readBuffer)[..result])))
    {
      completed, result := false, 0;
      AppendMovesNothing(uploadData, data, readIndex);
      if |data| > 0 {
        uploadData := uploadData + [data];
      } else {
        assert Cat(uploadData) + data == Cat(uploadData);
      }
      allDataAppended := isDone;
      if readBuffer == null { return; }
      hide Cat;
      var buf, len := readBuffer, readBufferLen;
      readBuffer, readBufferLen := null, 0;
      assert View() == old(View()).(data := old(View()).data + data, done := isDone, pending := None);
      var pends;
      pends, result := ReadChunk(buf, len);
      assert !pends;
      completed := true;
      currentPosition := currentPosition + result;
    }

    method Reset()
      requires Valid()
      modifies this
      ensures Valid() && View() == ChunkedUpload.Reset(old(View()))
    {
      currentPosition, initializedSuccessfully, isEof := 0, false, false;
      readBuffer, readBufferLen := null, 0;
      readIndex, readOffset := 0, 0;
    }

    method Init()
      requires Valid()
      modifies this
      ensures Valid() && View() == ChunkedUpload.Init(old(View()))
    {
      Reset();
      initializedSuccessfully := true;
    }
  }

  method Memcpy(buf: array<byte>, at: nat, data: seq<byte>, from: nat, n: nat)
    requires at + n <= buf.Length && from + n <= |data|
    modifies buf
    ensures buf[..at + n] == old(buf[..at]) + data[from..from + n]
  {
    for k := 0 to n
      invariant buf[..at + k] == old(buf[..at]) + data[from..from + k]
    {
      buf[at + k] := data[from + k];
      assert data[from..from + k + 1] == data[from..from + k] + [data[from + k]];
    }
  }

  lemma SliceOfCat(chunks: seq<seq<byte>>, i: nat, from: nat, n: nat)
    requires i < |chunks| && from + n <= |chunks[i]|
    ensures var start := |Cat(chunks[..i])| + from;
            start + n <= |Cat(chunks)| && Cat(chunks)[start..start + n] == chunks[i][from..from + n]
  {
    CatAt(chunks, i);
    var start := |Cat(chunks[..i])|;
    var all := Cat(chunks);
    SliceOfSlice(all, start, start + |chunks[i]|, from, from + n);
  }

  lemma SliceOfSlice(s: seq<byte>, a: nat, b: nat, c: nat, d: nat)
    requires a <= b <= |s| && c <= d <= b - a
    ensures s[a..b][c..d] == s[a + c..a + d]
  {
    forall k | 0 <= k < d - c ensures s[a..b][c..d][k] == s[a + c..a + d][k] {
      assert s[a..b][c + k] == s[a + (c + k)];
    }
  }

  lemma SliceJoin(s: seq<byte>, a: nat, b: nat, c: nat)
    requires a <= b <= c <= |s|
    ensures s[a..b] + s[b..c] == s[a..c]
  {
  }

  /** The cursor is at the end of the data just when it is past the last chunk. */
  lemma AtEnd(chunks: seq<seq<byte>>, i: nat, offset: nat)
    requires forall j :: 0 <= j < |chunks| ==> |chunks[j]| > 0
    requires i <= |chunks| && (if i < |chunks| then offset < |chunks[i]| else offset == 0)
    ensures |Cat(chunks[..i])| + offset == |Cat(chunks)| <==> i == |chunks|
    ensures |Cat(chunks[..i])| + offset <= |Cat(chunks)|
  {
    if i < |chunks| {
      CatAt(chunks, i);
    } else {
      assert chunks[..i] == chunks;
    }
  }

  lemma AppendMovesNothing(chunks: seq<seq<byte>>, data: seq<byte>, i: nat)
    requires i <= |chunks|
    ensures Cat(chunks + [data]) == Cat(chunks) + data
    ensures (chunks + [data])[..i] == chunks[..i]
  {
    CatAppend(chunks, [data]);
    CatOne(data);
  }
}
