/** chunked.c: the one-shot encoder and the streaming ChunkedWriter, over a descriptor that may take
    fewer bytes than offered, be interrupted, or fail. */
module Chunked {
  import opened Bytes
  import opened Numerals
  import opened Sockets
  import opened ChunkedCoding

  /** `write_all`. */
  method WriteAll(fd: Sink, buf: seq<byte>) returns (ok: bool)
    modifies fd
    ensures var r := WriteLoop(old(fd.script), |buf|, true);
            ok == r.ok && fd.script == r.script && fd.wire == old(fd.wire) + buf[..r.taken]
    ensures Ends(old(fd.script), |buf|, true, Sent(ok, |fd.wire| - |old(fd.wire)|, fd.script))
  {
    hide Ends;
    WriteLoopIs(fd.script, |buf|, true);
    var sent := 0;
    while sent < |buf|
      invariant sent <= |buf| && fd.wire == old(fd.wire) + buf[..sent]
      invariant var all, rest := WriteLoop(old(fd.script), |buf|, true), WriteLoop(fd.script, |buf| - sent, true);
                all == rest.(taken := sent + rest.taken)
      decreases |fd.script|, |buf| - sent
    {
      var before := fd.script;
      var n := fd.Write(buf[sent..]);
      match n {
        case Eintr =>
        case Failed => return false;
        case Count(k) =>
          if k == 0 {
            return false;
          }
          assert buf[..sent] + buf[sent..][..k] == buf[..sent + k];
          sent := sent + k;
      }
    }
    return true;
  }

  // ----- The byte sequences each call writes -----

  function SendParts(data: seq<byte>): seq<seq<byte>> {
    if data == [] then [] else [SizeLine(|data|), data, CRLF]
  }

  function FinishParts(): seq<seq<byte>> {
    [LAST_CHUNK]
  }

  /** Three writes for a chunk, one for the end. */
  lemma PartsAre(data: seq<byte>)
    ensures data != [] ==> SendParts(data) == [Numeral(|data|, 16) + "\r\n", data, "\r\n"]
    ensures data == [] ==> SendParts(data) == []
    ensures FinishParts() == ["0\r\n\r\n"]
  {
    hide Numeral;
  }

  function StreamParts(pieces: seq<seq<byte>>): seq<seq<byte>> {
    if pieces == [] then FinishParts() else SendParts(pieces[0]) + StreamParts(pieces[1..])
  }

  lemma SendPartsAreAChunk(data: seq<byte>)
    ensures Concat(SendParts(data)) == if data == [] then [] else Chunk(data)
  {
    hide SizeLine;
    if data != [] {
      ConcatSingle(SizeLine(|data|));
      ConcatSnoc([SizeLine(|data|)], data);
      ConcatSnoc([SizeLine(|data|), data], CRLF);
    }
  }

  lemma FinishPartsAreTheLastChunk()
    ensures Concat(FinishParts()) == LAST_CHUNK
  {
    ConcatSingle(LAST_CHUNK);
  }

  lemma {:induction false} StreamPartsAreTheEncoding(pieces: seq<seq<byte>>)
    ensures Concat(StreamParts(pieces)) == Encode(pieces)
  {
    hide Chunk, SendParts, FinishParts;
    if pieces == [] {
      FinishPartsAreTheLastChunk();
    } else {
      SendPartsAreAChunk(pieces[0]);
      ConcatAppend(SendParts(pieces[0]), StreamParts(pieces[1..]));
      StreamPartsAreTheEncoding(pieces[1..]);
    }
  }

  // ----- Whole streams -----

  /** A whole stream, sent piece by piece and finished, against any pattern of writes: if every write
      in the end succeeds, the decoder reads the pieces back and consumes exactly the wire; if one
      fails, what went out never decodes as a finished body. */
  lemma StreamOutcome(script: seq<WriteEvent>, pieces: seq<seq<byte>>)
    ensures var parts := StreamParts(pieces);
            var r := WriteParts(script, parts);
            var wire := Concat(parts)[..r.taken];
            Decode(wire) == if r.ok then Complete(Concat(pieces), |wire|) else NeedMore
  {
    hide Encode, Decode, StreamParts;
    StreamPartsAreTheEncoding(pieces);
    var r := WriteParts(script, StreamParts(pieces));
    if r.ok {
      ChunkedRoundTrip(pieces, []);
      assert Encode(pieces) + [] == Encode(pieces) == Encode(pieces)[..r.taken];
    } else {
      UnfinishedIsNeedMore(pieces, r.taken);
    }
  }

  function OneShotParts(data: seq<byte>): seq<seq<byte>> {
    if data == [] then [LAST_CHUNK] else [SizeLine(|data|), data, CRLF, LAST_CHUNK]
  }

  /** The one-shot call writes what a writer with a single piece would, byte for byte and answer for
      answer, against any pattern of writes. */
  lemma OneShotIsStreaming(script: seq<WriteEvent>, data: seq<byte>)
    ensures var send := WriteParts(script, SendParts(data));
            WriteParts(script, OneShotParts(data)) ==
              if !send.ok then send
              else var finish := WriteParts(send.script, FinishParts()); finish.(taken := send.taken + finish.taken)
    ensures Concat(OneShotParts(data)) == Encode([data]) && OneShotParts(data) == SendParts(data) + FinishParts()
  {
    hide SizeLine, Chunk;
    assert OneShotParts(data) == SendParts(data) + FinishParts();
    WritePartsAppend(script, SendParts(data), FinishParts());
    ConcatAppend(SendParts(data), FinishParts());
    SendPartsAreAChunk(data);
    FinishPartsAreTheLastChunk();
    assert EncodeChunks([data]) == if data == [] then [] else Chunk(data);
  }

  /** `snprintf(size_line, 24, "%zx\r\n", len)` never runs out of room. */
  lemma SizeLineFits(n: nat)
    requires n < TWO_TO_64
    ensures |SizeLine(n)| < 24
  {
    HexFitsSizeT(n);
  }

  // ----- The calls -----

  /** What a sequence of `write_all` calls has done when it stops: everything, or all up to the failure. */
  twostate predicate Wrote(fd: Sink, parts: seq<seq<byte>>, ok: bool)
    reads fd
  {
    var w := WriteParts(old(fd.script), parts);
    ok == w.ok && fd.script == w.script && fd.wire == old(fd.wire) + Concat(parts)[..w.taken]
  }

  /** The first `done` of the `parts` are out, counted from a descriptor that answered by `start`. */
  ghost predicate Between(fd: Sink, start: seq<WriteEvent>, wire: seq<byte>, parts: seq<seq<byte>>, done: nat)
    reads fd
  {
    Underway(start, parts, done, fd.script) && fd.wire == wire + Concat(parts[..done])
  }

  lemma NotStarted(fd: Sink, parts: seq<seq<byte>>)
    ensures Between(fd, fd.script, fd.wire, parts, 0)
  {
    NothingWritten(fd.script, parts);
    assert fd.wire + [] == fd.wire;
  }

  /** `write_all` for the next of the `parts`. */
  method WritePart(fd: Sink, part: seq<byte>, ghost start: seq<WriteEvent>, ghost wire: seq<byte>,
                   ghost parts: seq<seq<byte>>, ghost done: nat) returns (ok: bool)
    requires done < |parts| && part == parts[done] && Between(fd, start, wire, parts, done)
    modifies fd
    ensures ok && done + 1 < |parts| ==> Between(fd, start, wire, parts, done + 1)
    ensures !ok || done + 1 == |parts| ==>
              var w := WriteParts(start, parts);
              ok == w.ok && fd.script == w.script && fd.wire == wire + Concat(parts)[..w.taken]
  {
    hide WriteParts, WriteLoop, Concat;
    PartWritten(start, parts, done, fd.script);
    ok := WriteAll(fd, part);
    if ok && done + 1 == |parts| {
      AllWritten(start, parts, fd.script);
    }
  }

  /** The cast of a `size_t` to `ssize_t`. */
  function AsSsize(n: nat): int {
    if n < TWO_TO_64 / 2 then n else n - TWO_TO_64
  }

  /** `chunked_send_body`: the number of data bytes, or -1 if they did not all go out. */
  method ChunkedSendBody(fd: Sink, data: seq<byte>) returns (r: int)
    requires |data| < TWO_TO_64
    modifies fd
    ensures var ok := WriteParts(old(fd.script), OneShotParts(data)).ok;
            Wrote(fd, OneShotParts(data), ok) && r == if ok then AsSsize(|data|) else -1
    ensures |data| < 0x8000_0000_0000_0000 ==>
              r == if WriteParts(old(fd.script), OneShotParts(data)).ok then |data| else -1
  {
    hide WriteParts, SizeLine, Concat, Between;
    ghost var start, wire, parts := fd.script, fd.wire, OneShotParts(data);
    NotStarted(fd, parts);
    if |data| == 0 {
      var sent := WritePart(fd, LAST_CHUNK, start, wire, parts, 0);
      return if sent then 0 else -1;
    }

    SizeLineFits(|data|);
    var ok := WritePart(fd, SizeLine(|data|), start, wire, parts, 0);
    if !ok {
      return -1;
    }
    ok := WritePart(fd, data, start, wire, parts, 1);
    if !ok {
      return -1;
    }
    ok := WritePart(fd, CRLF, start, wire, parts, 2);
    if !ok {
      return -1;
    }
    ok := WritePart(fd, LAST_CHUNK, start, wire, parts, 3);
    return if ok then AsSsize(|data|) else -1;
  }

  lemma NoParts(script: seq<WriteEvent>)
    ensures WriteParts(script, []) == Sent(true, 0, script) && Concat([]) == []
  {
  }

  lemma SizesAdd(a: nat, b: nat)
    ensures (a % TWO_TO_64 + b) % TWO_TO_64 == (a + b) % TWO_TO_64
  {
  }

  lemma OutputGrows(wire: seq<byte>, more: seq<byte>, taken: nat, start: nat)
    requires start <= |wire| && taken <= |more|
    ensures (wire + more[..taken])[start..] == wire[start..] + more[..taken]
    ensures taken == |more| ==> more[..taken] == more
  {
  }

  /** Sending one more piece extends the encoding by its chunk. */
  lemma AddPiece(pieces: seq<seq<byte>>, data: seq<byte>)
    ensures EncodeChunks(pieces + [data]) == EncodeChunks(pieces) + if data == [] then [] else Chunk(data)
    ensures Concat(pieces + [data]) == Concat(pieces) + data
    ensures Encode(pieces + [data]) == EncodeChunks(pieces + [data]) + LAST_CHUNK
    ensures Encode(pieces) == EncodeChunks(pieces) + LAST_CHUNK
  {
    hide Chunk;
    ConcatSnoc(pieces, data);
    if pieces != [] {
      AddPiece(pieces[1..], data);
      assert (pieces + [data])[1..] == pieces[1..] + [data];
    } else {
      assert [] + [data] == [data];
    }
  }

  /** The ChunkedWriter struct. The ghost fields record where its output begins, the pieces sent in
      full, the piece a failed write cut off, and whether the last chunk went out. */
  class ChunkedWriter {
    const fd: Sink
    var bytesSent: nat
    var error: bool
    ghost const start: nat
    ghost var pieces: seq<seq<byte>>
    ghost var cutOff: seq<byte>
    ghost var finished: bool

    /** Without an error the output is exactly the encoding so far, and `bytesSent` counts its data;
        after one it is forever a strict prefix of a finished encoding. */
    ghost predicate Valid()
      reads this, fd
    {
      && start <= |fd.wire| && bytesSent < TWO_TO_64 && (finished ==> !error)
      && var output := fd.wire[start..];
      if error then
        var whole := Encode(pieces + [cutOff]);
        |output| < |whole| && output == whole[..|output|]
      else
        && output == (if finished then Encode(pieces) else EncodeChunks(pieces))
        && bytesSent == |Concat(pieces)| % TWO_TO_64
    }

    /** `chunked_writer_init`. */
    constructor (fd: Sink)
      ensures Valid() && this.fd == fd && start == |fd.wire| && pieces == [] && !error && !finished && bytesSent == 0
    {
      this.fd, bytesSent, error := fd, 0, false;
      start, pieces, cutOff, finished := |fd.wire|, [], [], false;
    }

    /** `chunked_writer_send`. */
    method Send(data: seq<byte>) returns (r: int)
      requires Valid() && |data| < TWO_TO_64 && !finished
      modifies this, fd
      ensures Valid() && !finished && r == if error then -1 else 0
      ensures old(error) ==> error && fd.wire == old(fd.wire) && fd.script == old(fd.script) && pieces == old(pieces)
      ensures !old(error) ==> Wrote(fd, SendParts(data), !error)
      ensures !error ==> pieces == old(pieces) + [data]
      ensures error && !old(error) ==> pieces == old(pieces) && cutOff == data
    {
      hide WriteParts, WriteLoop, Concat, SizeLine, Chunk, Encode, EncodeChunks, Between;
      if error {
        return -1;
      }
      SendPartsAreAChunk(data);
      AddPiece(pieces, data);
      if |data| == 0 {
        NoParts(fd.script);
        pieces := pieces + [data];
        return 0;
      }
      ghost var script, wire, parts := fd.script, fd.wire, SendParts(data);
      NotStarted(fd, parts);
      OutputGrows(wire, Concat(parts), WriteParts(script, parts).taken, start);
      SizeLineFits(|data|);
      var ok := WritePart(fd, SizeLine(|data|), script, wire, parts, 0);
      if ok {
        ok := WritePart(fd, data, script, wire, parts, 1);
      }
      if ok {
        ok := WritePart(fd, CRLF, script, wire, parts, 2);
      }
      if !ok {
        error := true;
        cutOff := data;
        return -1;
      }
      SizesAdd(|Concat(pieces)|, |data|);
      bytesSent := (bytesSent + |data|) % TWO_TO_64;
      pieces := pieces + [data];
      return 0;
    }

    /** `chunked_writer_finish`. */
    method Finish() returns (r: int)
      requires Valid() && !finished
      modifies this, fd
      ensures Valid() && pieces == old(pieces) && r == (if error then -1 else 0) && finished == !error
      ensures old(error) ==> error && fd.wire == old(fd.wire) && fd.script == old(fd.script)
      ensures !old(error) ==> Wrote(fd, FinishParts(), !error)
    {
      hide WriteParts, WriteLoop, Concat, EncodeChunks, Between;
      if error {
        return -1;
      }
      FinishPartsAreTheLastChunk();
      AddPiece(pieces, []);
      ghost var script, wire, parts := fd.script, fd.wire, FinishParts();
      NotStarted(fd, parts);
      var ok := WritePart(fd, LAST_CHUNK, script, wire, parts, 0);
      if !ok {
        error := true;
        cutOff := [];
        return -1;
      }
      finished := true;
      return 0;
    }

    /** A writer's output decodes as complete exactly if it was finished without an error, and then to
        the pieces sent, its own length consumed and `bytesSent` data bytes counted. */
    lemma OutputDecodes()
      requires Valid()
      ensures var output := fd.wire[start..];
              if finished then Decode(output) == Complete(Concat(pieces), |output|) && bytesSent == |Concat(pieces)| % TWO_TO_64
              else Decode(output) == NeedMore
    {
      hide Encode, EncodeChunks, Decode, Concat;
      var output := fd.wire[start..];
      if error {
        UnfinishedIsNeedMore(pieces + [cutOff], |output|);
      } else if finished {
        ChunkedRoundTrip(pieces, []);
        assert output + [] == output;
      } else {
        AddPiece(pieces, []);
        UnfinishedIsNeedMore(pieces, |output|);
        assert Encode(pieces)[..|output|] == output;
      }
    }
  }
}
