/** The chunked transfer coding of RFC 7230 section 4.1, and a decoder written from section 4.1.3. */
module ChunkedCoding {
  import opened Bytes
  import opened Numerals

  const LAST_CHUNK: seq<byte> := "0\r\n\r\n"

  // ----- Encoding -----

  function SizeLine(n: nat): seq<byte> {
    Numeral(n, 16) + CRLF
  }

  function Chunk(data: seq<byte>): seq<byte> {
    SizeLine(|data|) + data + CRLF
  }

  /** The chunks of a stream of pieces; empty pieces leave no trace. */
  function EncodeChunks(pieces: seq<seq<byte>>): seq<byte> {
    if pieces == [] then []
    else (if pieces[0] == [] then [] else Chunk(pieces[0])) + EncodeChunks(pieces[1..])
  }

  function Encode(pieces: seq<seq<byte>>): seq<byte> {
    EncodeChunks(pieces) + LAST_CHUNK
  }

  // ----- Decoding -----

  predicate AtCrLf(s: seq<byte>, i: nat) {
    i + 2 <= |s| && s[i] == '\r' && s[i + 1] == '\n'
  }

  /** The first CR LF at or after `from`. */
  function CrLfFrom(s: seq<byte>, from: nat): (r: Option<nat>)
    ensures r.Some? ==> from <= r.value && AtCrLf(s, r.value) && forall j :: from <= j < r.value ==> !AtCrLf(s, j)
    ensures r.None? ==> forall j :: from <= j ==> !AtCrLf(s, j)
    decreases |s| - from
  {
    if from + 2 > |s| then None
    else if AtCrLf(s, from) then Some(from)
    else CrLfFrom(s, from + 1)
  }

  function LineEnd(s: seq<byte>): Option<nat> {
    CrLfFrom(s, 0)
  }

  /** chunk-size [ chunk-ext ]: at least one hexadecimal digit, then nothing or an extension. */
  function DecodeSize(line: seq<byte>): (r: Option<nat>) {
    var (n, rest) := Leading(line, 16, 0);
    if line == [] || DigitValue(line[0], 16).None? || (rest != [] && rest[0] != ';') then None else Some(n)
  }

  /** Trailer fields up to and including the empty line behind them. */
  function TrailerEnd(s: seq<byte>): (r: Option<nat>)
    ensures r.Some? ==> 2 <= r.value <= |s|
    decreases |s|
  {
    match LineEnd(s)
    case None => None
    case Some(e) =>
      if e == 0 then Some(2)
      else match TrailerEnd(s[e + 2..])
        case None => None
        case Some(k) => Some(e + 2 + k)
  }

  /** A whole body and the number of bytes it took, a body still arriving, or no chunked body at all. */
  datatype Decoded = Complete(body: seq<byte>, used: nat) | NeedMore | Malformed

  function Decode(s: seq<byte>): (r: Decoded)
    ensures r.Complete? ==> r.used <= |s|
    decreases |s|
  {
    match LineEnd(s)
    case None => NeedMore
    case Some(e) =>
      match DecodeSize(s[..e])
      case None => Malformed
      case Some(n) =>
        if n == 0 then
          match TrailerEnd(s[e + 2..])
          case None => NeedMore
          case Some(k) => Complete([], e + 2 + k)
        else
          var next := e + 2 + n + 2;
          if next > |s| then NeedMore
          else if !AtCrLf(s, next - 2) then Malformed
          else match Decode(s[next..])
            case Complete(body, used) => Complete(s[e + 2..next - 2] + body, next + used)
            case other => other
  }

  // ----- Cutting the input short -----

  lemma LineEndOfPrefix(s: seq<byte>, k: nat)
    requires k <= |s|
    ensures LineEnd(s).Some? ==> LineEnd(s[..k]) == if LineEnd(s).value + 2 <= k then LineEnd(s) else None
  {
    assert forall j: nat :: AtCrLf(s[..k], j) <==> j + 2 <= k && AtCrLf(s, j);
  }

  lemma LineEndFits(s: seq<byte>)
    ensures LineEnd(s).Some? ==> LineEnd(s).value + 2 <= |s|
  {
  }

  /** One line of a trailer. */
  lemma TrailerLine(s: seq<byte>, e: nat)
    requires LineEnd(s) == Some(e)
    ensures e + 2 <= |s|
    ensures TrailerEnd(s) == if e == 0 then Some(2)
                             else match TrailerEnd(s[e + 2..])
                                  case None => None
                                  case Some(k) => Some(e + 2 + k)
  {
    hide LineEnd;
    LineEndFits(s);
  }

  lemma NoTrailerLine(s: seq<byte>)
    ensures LineEnd(s).None? ==> TrailerEnd(s).None?
  {
    hide LineEnd;
  }

  lemma {:induction false} TrailerEndOfPrefix(s: seq<byte>, k: nat)
    requires k <= |s| && TrailerEnd(s).Some?
    ensures TrailerEnd(s[..k]) == if TrailerEnd(s).value <= k then TrailerEnd(s) else None
    decreases |s|
  {
    hide TrailerEnd, LineEnd;
    NoTrailerLine(s);
    NoTrailerLine(s[..k]);
    LineEndOfPrefix(s, k);
    var e := LineEnd(s).value;
    TrailerLine(s, e);
    if e + 2 <= k {
      TrailerLine(s[..k], e);
      assert s[e + 2..][..k - (e + 2)] == s[..k][e + 2..];
      if e == 0 {
      } else {
        TrailerEndOfPrefix(s[e + 2..], k - (e + 2));
      }
    }
  }

  /** One turn of the decoder's loop: chunk-data and its CRLF are there. */
  lemma DecodeData(s: seq<byte>, e: nat, n: nat)
    requires 0 < n && e + n + 4 <= |s|
    requires LineEnd(s) == Some(e) && DecodeSize(s[..e]) == Some(n) && AtCrLf(s, e + 2 + n)
    ensures Decode(s) == match Decode(s[e + n + 4..])
                         case Complete(body, used) => Complete(s[e + 2..e + 2 + n] + body, e + n + 4 + used)
                         case other => other
  {
    hide LineEnd, DecodeSize, TrailerEnd;
  }

  /** The loop's other ways out: more bytes are needed for this chunk, or for the trailer behind the last one. */
  lemma DecodeEnd(s: seq<byte>, e: nat, n: nat)
    requires e + 2 <= |s| && LineEnd(s) == Some(e) && DecodeSize(s[..e]) == Some(n)
    ensures n > 0 && e + n + 4 > |s| ==> Decode(s) == NeedMore
    ensures n == 0 ==> Decode(s) == match TrailerEnd(s[e + 2..])
                                    case None => NeedMore
                                    case Some(k) => Complete([], e + 2 + k)
  {
    hide LineEnd, DecodeSize, TrailerEnd;
  }

  /** What a complete body starts with. */
  lemma DecodeComplete(s: seq<byte>) returns (e: nat, n: nat)
    requires Decode(s).Complete?
    ensures e + 2 <= |s| && LineEnd(s) == Some(e) && DecodeSize(s[..e]) == Some(n)
    ensures n == 0 ==> TrailerEnd(s[e + 2..]).Some?
    ensures n > 0 ==> e + n + 4 <= |s| && AtCrLf(s, e + 2 + n) && Decode(s[e + n + 4..]).Complete?
  {
    hide DecodeSize, TrailerEnd;
    e := LineEnd(s).value;
    n := DecodeSize(s[..e]).value;
  }

  lemma CutInSizeLine(s: seq<byte>, e: nat, n: nat, k: nat)
    requires k <= |s| && k < e + 2 && LineEnd(s) == Some(e) && LineEnd(s[..k]).None?
    requires Decode(s).Complete?
    ensures Decode(s[..k]) == NeedMore && Decode(s).used > k
  {
    hide DecodeSize, LineEnd;
  }

  /** A complete body is complete from its last byte on and undecided before: nothing shorter looks finished. */
  lemma {:induction false} DecodeOfPrefix(s: seq<byte>, k: nat)
    requires k <= |s| && Decode(s).Complete?
    ensures Decode(s[..k]) == if Decode(s).used <= k then Decode(s) else NeedMore
    decreases |s|
  {
    hide Decode, DecodeSize, TrailerEnd, LineEnd;
    var e, n := DecodeComplete(s);
    LineEndOfPrefix(s, k);
    var t := s[..k];
    if e + 2 > k {
      CutInSizeLine(s, e, n, k);
      return;
    }
    assert t[..e] == s[..e];
    DecodeEnd(s, e, n);
    DecodeEnd(t, e, n);
    if n == 0 {
      TrailerEndOfPrefix(s[e + 2..], k - (e + 2));
      assert s[e + 2..][..k - (e + 2)] == t[e + 2..];
    } else {
      var next := e + n + 4;
      DecodeData(s, e, n);
      if next <= k {
        DecodeData(t, e, n);
        DecodeOfPrefix(s[next..], k - next);
        assert s[next..][..k - next] == t[next..];
        assert t[e + 2..e + 2 + n] == s[e + 2..e + 2 + n];
      }
    }
  }

  // ----- Round trip -----

  lemma LineEndIs(l: seq<byte>, rest: seq<byte>)
    requires forall i :: 0 <= i < |l| ==> l[i] != '\r'
    ensures LineEnd(l + CRLF + rest) == Some(|l|)
  {
    var s := l + CRLF + rest;
    assert AtCrLf(s, |l|);
    assert forall j: nat :: j < |l| ==> s[j] == l[j];
  }

  lemma SizeRoundTrip(n: nat)
    ensures DecodeSize(Numeral(n, 16)) == Some(n)
    ensures forall i :: 0 <= i < |Numeral(n, 16)| ==> Numeral(n, 16)[i] != '\r'
  {
    LeadingNumeral(n, 16, []);
    assert Numeral(n, 16) + [] == Numeral(n, 16);
  }

  /** One chunk in front of a stream puts its data in front of the body. */
  lemma DecodeChunk(data: seq<byte>, rest: seq<byte>)
    requires data != []
    ensures Decode(Chunk(data) + rest) ==
            match Decode(rest)
            case Complete(body, used) => Complete(data + body, |Chunk(data)| + used)
            case other => other
  {
    hide Decode, DecodeSize, Numeral, LineEnd;
    var size := Numeral(|data|, 16);
    SizeRoundTrip(|data|);
    var s := Chunk(data) + rest;
    assert s == size + CRLF + (data + CRLF + rest);
    LineEndIs(size, data + CRLF + rest);
    assert s[..|size|] == size;
    assert s[|size| + 2..|size| + 2 + |data|] == data && s[|size| + |data| + 4..] == rest;
    DecodeData(s, |size|, |data|);
  }

  lemma DecodeLast(rest: seq<byte>)
    ensures Decode(LAST_CHUNK + rest) == Complete([], |LAST_CHUNK|)
  {
    var s := LAST_CHUNK + rest;
    var zero: seq<byte> := Numeral(0, 16);
    SizeRoundTrip(0);
    assert s == zero + CRLF + (CRLF + rest);
    LineEndIs(zero, CRLF + rest);
    assert s[..1] == zero && s[3..] == [] + CRLF + rest;
    LineEndIs([], rest);
  }

  lemma NothingEncoded()
    ensures Encode([]) == LAST_CHUNK
  {
  }

  /** The first piece in front of the encoding of the others. */
  lemma EncodeFirst(pieces: seq<seq<byte>>, rest: seq<byte>)
    requires pieces != []
    ensures var first := if pieces[0] == [] then [] else Chunk(pieces[0]);
            && Encode(pieces) + rest == first + (Encode(pieces[1..]) + rest)
            && |Encode(pieces)| == |first| + |Encode(pieces[1..])|
  {
    hide Chunk;
    var first: seq<byte> := if pieces[0] == [] then [] else Chunk(pieces[0]);
    assert EncodeChunks(pieces) == first + EncodeChunks(pieces[1..]);
  }

  /** Encode, then decode: the pieces run together, and exactly the encoding consumed, whatever follows. */
  lemma {:induction false} ChunkedRoundTrip(pieces: seq<seq<byte>>, rest: seq<byte>)
    ensures Decode(Encode(pieces) + rest) == Complete(Concat(pieces), |Encode(pieces)|)
  {
    hide Decode, Chunk, Encode;
    if pieces == [] {
      NothingEncoded();
      DecodeLast(rest);
    } else {
      EncodeFirst(pieces, rest);
      ChunkedRoundTrip(pieces[1..], rest);
      var behind := Encode(pieces[1..]) + rest;
      if pieces[0] == [] {
        assert [] + behind == behind;
      } else {
        DecodeChunk(pieces[0], behind);
      }
    }
  }

  /** No strict prefix of an encoding decodes as complete. */
  lemma UnfinishedIsNeedMore(pieces: seq<seq<byte>>, k: nat)
    requires k < |Encode(pieces)|
    ensures Decode(Encode(pieces)[..k]) == NeedMore
  {
    hide Decode, Encode;
    ChunkedRoundTrip(pieces, []);
    assert Encode(pieces) + [] == Encode(pieces);
    DecodeOfPrefix(Encode(pieces), k);
  }

  // ----- What exactly is written -----

  /** A strict reader: the data of each chunk of a body whose chunk sizes are lower-case hexadecimal without
      leading zeros or extensions, and whose last chunk has no trailer. It refuses everything else. */
  function StrictChunks(s: seq<byte>): (r: Option<seq<seq<byte>>>)
    decreases |s|
  {
    match LineEnd(s)
    case None => None
    case Some(e) =>
      var size := s[..e];
      if !AllHex(size) || !NoLeadingZero(size) then None
      else if size == "0" then if s[e..] == "\r\n\r\n" then Some([]) else None
      else
        var n := Hexadecimal(size);
        var next := e + n + 4;
        if next > |s| || s[next - 2..next] != "\r\n" then None
        else match StrictChunks(s[next..])
          case None => None
          case Some(chunks) => Some([s[e + 2..next - 2]] + chunks)
  }

  function NonEmpty(pieces: seq<seq<byte>>): seq<seq<byte>> {
    if pieces == [] then [] else (if pieces[0] == [] then [] else [pieces[0]]) + NonEmpty(pieces[1..])
  }

  lemma ZeroNumeral()
    ensures Numeral(0, 16) == "0"
  {
  }

  lemma SizeIsHexadecimal(n: nat)
    ensures var s := Numeral(n, 16);
            && AllHex(s) && NoLeadingZero(s) && Hexadecimal(s) == n && (s == "0" <==> n == 0)
            && forall i :: 0 <= i < |s| ==> s[i] != '\r'
  {
    hide Numeral, Hexadecimal;
    NumeralIsHexadecimal(n);
    assert n == 0 ==> Numeral(n, 16)[0] == '0' by {
      ZeroNumeral();
    }
  }

  lemma StrictChunk(data: seq<byte>, rest: seq<byte>)
    requires data != []
    ensures StrictChunks(Chunk(data) + rest) ==
            match StrictChunks(rest)
            case None => None
            case Some(chunks) => Some([data] + chunks)
  {
    hide Numeral, Hexadecimal, LineEnd, AllHex, NoLeadingZero;
    var size := Numeral(|data|, 16);
    SizeIsHexadecimal(|data|);
    var s := Chunk(data) + rest;
    assert s == size + CRLF + (data + CRLF + rest);
    LineEndIs(size, data + CRLF + rest);
    var next := |size| + |data| + 4;
    assert s[..|size|] == size && s[next..] == rest;
    assert s[|size| + 2..next - 2] == data && s[next - 2..next] == CRLF;
  }

  lemma StrictLast()
    ensures StrictChunks(LAST_CHUNK) == Some([])
  {
    var zero: seq<byte> := "0";
    assert LAST_CHUNK == zero + CRLF + CRLF;
    LineEndIs(zero, CRLF);
    assert LAST_CHUNK[..1] == zero && LAST_CHUNK[1..] == "\r\n\r\n";
  }

  /** One chunk for each piece that is not empty, and nothing in the encoding that the strict reader would
      not take: no extension, no trailer, no leading zero. */
  lemma {:induction false} StrictRoundTrip(pieces: seq<seq<byte>>)
    ensures StrictChunks(Encode(pieces)) == Some(NonEmpty(pieces))
  {
    hide StrictChunks, Chunk, Encode;
    if pieces == [] {
      NothingEncoded();
      StrictLast();
    } else {
      var behind := Encode(pieces[1..]);
      EncodeFirst(pieces, []);
      assert Encode(pieces) + [] == Encode(pieces) && behind + [] == behind;
      StrictRoundTrip(pieces[1..]);
      if pieces[0] == [] {
        assert [] + behind == behind && NonEmpty(pieces) == NonEmpty(pieces[1..]);
      } else {
        StrictChunk(pieces[0], behind);
      }
    }
  }
}
