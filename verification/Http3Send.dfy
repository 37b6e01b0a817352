/**
 The send side of an HTTP/3 response stream: chunks handed to the protocol library by reference and freed
 once acknowledged, against the plain byte stream they stand for; file bodies are read a piece at a time.
 */
module Http3Send {
  import opened Bytes

  const FILE_CHUNK := 65536

  ghost predicate NonEmpty(chunks: seq<seq<byte>>) {
    forall i :: 0 <= i < |chunks| ==> chunks[i] != []
  }

  /** Drops chunks off the front while `acked` covers them; only the first `handed` may go. */
  function FreeAcked(chunks: seq<seq<byte>>, handed: nat, acked: nat): (r: (seq<seq<byte>>, nat, nat))
    requires handed <= |chunks|
    ensures r.1 <= |r.0|
    decreases handed
  {
    if handed > 0 && acked >= |chunks[0]| then FreeAcked(chunks[1..], handed - 1, acked - |chunks[0]|)
    else (chunks, handed, acked)
  }

  /** What is freed is acknowledged, what is kept in front is not, and the rest of the stream is untouched. */
  lemma {:induction false} FreeAckedBytes(chunks: seq<seq<byte>>, handed: nat, acked: nat) returns (freed: seq<byte>)
    requires handed <= |chunks| && NonEmpty(chunks) && acked <= |Concat(chunks[..handed])|
    ensures var (chunks', handed', acked') := FreeAcked(chunks, handed, acked);
            && NonEmpty(chunks')
            && Concat(chunks) == freed + Concat(chunks')
            && Concat(chunks[..handed]) == freed + Concat(chunks'[..handed'])
            && acked == |freed| + acked'
            && (if handed' > 0 then acked' < |chunks'[0]| else acked' == 0)
            && |chunks| - |chunks'| == handed - handed'
    decreases handed
  {
    if handed > 0 && acked >= |chunks[0]| {
      var first, rest := chunks[0], chunks[1..];
      assert chunks[..handed][1..] == rest[..handed - 1];
      TailNonEmpty(chunks);
      freed := FreeAckedBytes(rest, handed - 1, acked - |first|);
      var (chunks', handed', acked') := FreeAcked(rest, handed - 1, acked - |first|);
      AppendAssoc(first, freed, Concat(chunks'));
      AppendAssoc(first, freed, Concat(chunks'[..handed']));
      freed := first + freed;
    } else {
      freed := [];
      assert chunks[..0] == [];
    }
  }

  lemma TailNonEmpty(chunks: seq<seq<byte>>)
    requires chunks != [] && NonEmpty(chunks)
    ensures NonEmpty(chunks[1..])
  {
  }

  lemma {:induction false} ConcatPrefix(chunks: seq<seq<byte>>, n: nat)
    requires n <= |chunks|
    ensures Concat(chunks) == Concat(chunks[..n]) + Concat(chunks[n..])
  {
    ConcatAppend(chunks[..n], chunks[n..]);
    assert chunks[..n] + chunks[n..] == chunks;
  }

  class SentChunks {
    var chunks: seq<seq<byte>>
    var handedOut: nat     // chunks at the front given to the protocol library
    var frontAcked: nat    // acknowledged bytes of the first chunk

    ghost var pushed: seq<byte>   // all bytes ever pushed
    ghost var freed: seq<byte>    // those no longer held
    ghost var acked: nat          // bytes acknowledged

    /** Bytes handed out so far. */
    ghost function Sent(): seq<byte>
      reads this
      requires handedOut <= |chunks|
    {
      freed + Concat(chunks[..handedOut])
    }

    /** The chunks held are the stream from the first byte not freed; the first of them is not fully acknowledged. */
    ghost predicate Valid()
      reads this
    {
      && NonEmpty(chunks) && handedOut <= |chunks|
      && pushed == freed + Concat(chunks)
      && acked == |freed| + frontAcked
      && (if handedOut > 0 then frontAcked < |chunks[0]| else frontAcked == 0)
    }

    /** The library has seen a prefix of the stream; nothing it may still need has been freed. */
    lemma SentIsPrefix()
      requires Valid()
      ensures Sent() <= pushed && |freed| <= acked <= |Sent()| && freed <= Sent()
    {
      ConcatPrefix(chunks, handedOut);
      assert pushed == freed + (Concat(chunks[..handedOut]) + Concat(chunks[handedOut..]));
      assert pushed == Sent() + Concat(chunks[handedOut..]);
      if handedOut > 0 {
        assert chunks[..handedOut][0] == chunks[0];
      }
    }

    constructor ()
      ensures Valid() && pushed == [] && Sent() == [] && acked == 0
    {
      chunks, handedOut, frontAcked := [], 0, 0;
      pushed, freed, acked := [], [], 0;
    }

    method Push(chunk: seq<byte>)
      requires Valid()
      modifies this
      ensures Valid() && pushed == old(pushed) + chunk
      ensures chunks == old(chunks) + (if chunk == [] then [] else [chunk]) && handedOut == old(handedOut)
      ensures Sent() == old(Sent()) && acked == old(acked) && freed == old(freed)
    {
      if chunk != [] {
        ConcatAppend(chunks, [chunk]);
        assert Concat([chunk]) == chunk;
        assert (chunks + [chunk])[..handedOut] == chunks[..handedOut];
        chunks := chunks + [chunk];
      }
      pushed := pushed + chunk;
    }

    predicate HasUnsent()
      reads this
    {
      handedOut < |chunks|
    }

    /** Points at up to n chunks not handed out yet. */
    method HandOut(n: nat) returns (vecs: seq<seq<byte>>)
      requires Valid()
      modifies this`handedOut
      ensures Valid() && Sent() == old(Sent()) + Concat(vecs)
      ensures |vecs| == (if n <= |chunks| - old(handedOut) then n else |chunks| - old(handedOut))
      ensures HasUnsent() <==> n < |chunks| - old(handedOut)
    {
      vecs := [];
      while |vecs| < n && handedOut < |chunks|
        invariant old(handedOut) <= handedOut <= |chunks| && |vecs| == handedOut - old(handedOut) <= n
        invariant vecs == chunks[old(handedOut)..handedOut]
        decreases n - |vecs|
      {
        vecs := vecs + [chunks[handedOut]];
        handedOut := handedOut + 1;
      }
      ConcatAppend(chunks[..old(handedOut)], vecs);
      assert chunks[..handedOut] == chunks[..old(handedOut)] + vecs;
      assert Sent() == freed + (Concat(chunks[..old(handedOut)]) + Concat(vecs));
    }

    /** The peer acknowledged more bytes of what was handed out: frees every chunk that is fully acknowledged. */
    method Ack(bytes: nat)
      requires Valid() && acked + bytes <= |Sent()|
      modifies this
      ensures Valid() && acked == old(acked) + bytes
      ensures pushed == old(pushed) && Sent() == old(Sent())
      ensures old(freed) <= freed && |freed| <= acked
    {
      hide Concat;
      acked := acked + bytes;
      frontAcked := frontAcked + bytes;
      ghost var c0, h0, a0 := chunks, handedOut, frontAcked;
      ghost var gone := FreeAckedBytes(c0, h0, a0);
      while handedOut > 0 && frontAcked >= |chunks[0]|
        invariant handedOut <= |chunks|
        invariant pushed == old(pushed) && freed == old(freed) && acked == old(acked) + bytes
        invariant FreeAcked(chunks, handedOut, frontAcked) == FreeAcked(c0, h0, a0)
        decreases handedOut
      {
        frontAcked := frontAcked - |chunks[0]|;
        chunks := chunks[1..];
        handedOut := handedOut - 1;
      }
      freed := freed + gone;
      AppendAssoc(old(freed), gone, Concat(chunks));
      AppendAssoc(old(freed), gone, Concat(chunks[..handedOut]));
    }
  }

  datatype ReadResult = WouldBlock | Failure | Data(vecs: seq<seq<byte>>, eof: bool)

  /** A response stream: a body, a file range after it, or chunks the application streams. */
  class Stream {
    const chunks: SentChunks
    const file: seq<byte>      // the file's contents
    var hasFile: bool
    var fileOffset: nat
    var fileEnd: nat
    var streaming: bool
    var ended: bool

    ghost const fileStart: nat
    ghost var body: seq<byte>  // everything the application has given this stream to send besides the file

    /** The body, then the file bytes read so far; only with both a file and streaming may they mix. */
    ghost predicate Valid()
      reads this, chunks
    {
      && chunks.Valid()
      && (hasFile ==> fileStart <= fileOffset <= fileEnd <= |file|)
      && (!(streaming && hasFile) ==> chunks.pushed == body + (if hasFile then file[fileStart..fileOffset] else []))
    }

    /** Nothing is left to hand out: no chunk, no file byte, and no more from the application. */
    ghost predicate Finished()
      reads this, chunks
      requires chunks.Valid()
    {
      chunks.Sent() == chunks.pushed && !(hasFile && fileOffset < fileEnd) && (streaming ==> ended)
    }

    /** What the whole response consists of, as far as it is known. */
    ghost function Whole(): seq<byte>
      reads this
      requires hasFile ==> fileStart <= fileEnd <= |file|
    {
      body + (if hasFile then file[fileStart..fileEnd] else [])
    }

    /** A response with a body, or a file range, or a body that the application will stream. */
    constructor (content: seq<byte>, withFile: bool, file: seq<byte>, offset: nat, end: nat, streaming: bool)
      requires withFile ==> offset <= end <= |file|
      ensures Valid() && fresh(chunks) && chunks.Sent() == [] && !ended && this.streaming == streaming
      ensures body == content && Whole() == content + (if withFile then file[offset..end] else [])
    {
      var c := new SentChunks();
      c.Push(content);
      chunks, this.file, hasFile, fileOffset, fileEnd := c, file, withFile, offset, end;
      fileStart, body := offset, content;
      this.streaming, ended := streaming, false;
    }

    method SubmitData(chunk: seq<byte>)
      requires Valid()
      modifies this`body, chunks
      ensures Valid() && body == old(body) + (if streaming && !ended then chunk else [])
      ensures chunks.Sent() == old(chunks.Sent())
    {
      if !streaming || ended || chunk == [] {
        return;
      }
      chunks.Push(chunk);
      body := body + chunk;
    }

    method EndStream()
      requires Valid()
      modifies this`ended
      ensures Valid() && (ended <==> streaming || old(ended))
    {
      if !streaming || ended {
        return;
      }
      ended := true;
    }

    /** Reads the next piece of the file once nothing else is left to send; false if the file system fails. */
    method FillFromFile(got: int) returns (ok: bool)
      requires Valid()
      requires hasFile && fileOffset < fileEnd ==> got <= fileEnd - fileOffset && got <= FILE_CHUNK
      modifies this`fileOffset, chunks
      ensures Valid() && chunks.Sent() == old(chunks.Sent())
      ensures ok ==> (hasFile && fileOffset < fileEnd ==> chunks.HasUnsent())
      ensures !ok ==> got <= 0 && hasFile && fileOffset < fileEnd
    {
      if hasFile && !chunks.HasUnsent() && fileOffset < fileEnd {
        if got <= 0 {
          return false;
        }
        var piece := file[fileOffset..fileOffset + got];
        assert file[fileStart..fileOffset] + piece == file[fileStart..fileOffset + got];
        assert body + (file[fileStart..fileOffset] + piece) == body + file[fileStart..fileOffset] + piece;
        chunks.Push(piece);
        fileOffset := fileOffset + got;
      }
      return true;
    }

    /**
     The library asks for up to `count` pieces. `got` is what the file system delivers if it is asked: any
     number of the bytes wanted, or none.
     */
    method ReadData(count: nat, got: int) returns (result: ReadResult)
      requires Valid()
      requires hasFile && fileOffset < fileEnd ==> got <= fileEnd - fileOffset && got <= FILE_CHUNK
      modifies this`fileOffset, chunks
      ensures Valid()
      ensures result.Data? ==> chunks.Sent() == old(chunks.Sent()) + Concat(result.vecs)
      ensures !result.Data? ==> chunks.Sent() == old(chunks.Sent())
      ensures result.Data? ==> (result.eof <==> Finished())
      ensures result.Data? ==> |result.vecs| == count || (|result.vecs| < count && !chunks.HasUnsent())
      ensures result.Data? && result.eof && !(streaming && hasFile) ==> chunks.Sent() == Whole()
      ensures result.WouldBlock? ==> count == 0 || (streaming && !ended && chunks.Sent() == chunks.pushed)
      ensures result.Failure? ==> got <= 0 && hasFile && fileOffset < fileEnd
    {
      var ok := FillFromFile(got);
      if !ok {
        return Failure;
      }
      var vecs := chunks.HandOut(count);
      AllSent();
      var more := chunks.HasUnsent() || (hasFile && fileOffset < fileEnd) || (streaming && !ended);
      if !more {
        return Data(vecs, true);
      } else if vecs == [] {
        return WouldBlock;
      }
      return Data(vecs, false);
    }

    /** Everything pushed has been handed out exactly when no chunk is left. */
    lemma AllSent()
      requires Valid()
      ensures chunks.Sent() == chunks.pushed <==> !chunks.HasUnsent()
    {
      var c := chunks;
      ConcatPrefix(c.chunks, c.handedOut);
      assert c.pushed == c.freed + (Concat(c.chunks[..c.handedOut]) + Concat(c.chunks[c.handedOut..]));
      assert |c.pushed| == |c.Sent()| + |Concat(c.chunks[c.handedOut..])|;
      if c.HasUnsent() {
        assert c.chunks[c.handedOut..][0] != [];
        assert |Concat(c.chunks[c.handedOut..])| > 0;
      } else {
        assert c.chunks[c.handedOut..] == [];
        assert c.Sent() == c.pushed;
      }
    }
  }
}
