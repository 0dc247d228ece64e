/** A byte stream cut into requests: the simple recursive reading of what a connection should serve. */
module Pipeline {
  import opened Bytes
  import opened Numerals
  import opened HttpParser
  import opened ParserLaws
  import opened HeaderBlock
  import opened ParserRoundTrip

  const KA_RECV_BUFFER_SIZE := 65536
  const KEEPALIVE_MAX_REQUESTS := 1000
  /** The longest request the receive buffer can hold in front of its NUL. */
  const WINDOW := KA_RECV_BUFFER_SIZE - 1

  datatype Verdict = NeedMore | BadRequest | TooLarge | ClientClose | MaxRequests

  /** The frames served in order, the bytes behind the last one, and why the cutting stopped there. */
  datatype Split = Split(frames: seq<seq<byte>>, rest: seq<byte>, verdict: Verdict)

  predicate AllFrames(frames: seq<seq<byte>>) {
    forall i :: 0 <= i < |frames| ==> IsFrame(frames[i])
  }

  /** The part of the stream the buffer can show the parser. */
  function Visible(s: seq<byte>): seq<byte> {
    s[..Min(|s|, WINDOW)]
  }

  /** What the parser accepts at the front of the window is a frame at the front of the stream. */
  lemma FrontFrame(s: seq<byte>)
    requires ParseRequest(Visible(s)).Ok?
    ensures var k := ParseRequest(Visible(s)).frame;
            4 <= k <= |s| && k <= WINDOW && IsFrame(s[..k]) && MessageOf(s[..k]) == ParseRequest(Visible(s)).message
  {
    hide ParseRequest;
    var v := Visible(s);
    VerdictOfPrefix(v, |v|);
    FrontIsFrame(v);
    var k := ParseRequest(v).frame;
    assert v[..k] == s[..k];
  }

  /** Cut `s` into requests, `n` having been served before. */
  function Reference(s: seq<byte>, n: nat): (r: Split)
    ensures AllFrames(r.frames)
    decreases |s|
  {
    match ParseRequest(Visible(s))
    case Error => Split([], s, BadRequest)
    case Incomplete => Split([], s, if |s| >= WINDOW then TooLarge else NeedMore)
    case Ok(m, k) =>
      FrontFrame(s);
      var f, rest := s[..k], s[k..];
      if !m.head.keepAlive then Split([f], rest, ClientClose)
      else if n + 1 >= KEEPALIVE_MAX_REQUESTS then Split([f], rest, MaxRequests)
      else
        var r := Reference(rest, n + 1);
        Split([f] + r.frames, r.rest, r.verdict)
  }

  /** Cutting loses, repeats and reorders nothing. */
  lemma {:induction false} ReferenceConserves(s: seq<byte>, n: nat)
    ensures var r := Reference(s, n); Concat(r.frames) + r.rest == s
    decreases |s|
  {
    hide ParseRequest, IsFrame;
    match ParseRequest(Visible(s))
    case Error =>
    case Incomplete =>
    case Ok(m, k) =>
      FrontFrame(s);
      var f, rest := s[..k], s[k..];
      ConcatSnoc([], f);
      if m.head.keepAlive && n + 1 < KEEPALIVE_MAX_REQUESTS {
        var r := Reference(rest, n + 1);
        ReferenceConserves(rest, n + 1);
        assert ([f] + r.frames)[1..] == r.frames;
        assert f + Concat(r.frames) + r.rest == f + (Concat(r.frames) + r.rest);
      }
  }

  /** Why a split stopped where it did. With `ReferenceConserves` and `SplitIsUnique` this pins the split
      down without its definition: the request in front of `rest` is undecided, refused or too large,
      or the last frame served closes the connection or uses up the allowance. */
  lemma {:induction false} VerdictMeaning(s: seq<byte>, n: nat)
    requires n < 1000
    ensures var r := Reference(s, n);
            && n + |r.frames| <= 1000
            && (forall i :: 0 <= i < |r.frames| - 1 ==> MessageOf(r.frames[i]).head.keepAlive)
            && match r.verdict
               case NeedMore => |r.rest| < 65535 && ParseRequest(r.rest).Incomplete?
               case BadRequest => ParseRequest(Visible(r.rest)).Error?
               case TooLarge => |r.rest| >= 65535 && ParseRequest(r.rest[..65535]).Incomplete?
               case ClientClose => r.frames != [] && !MessageOf(r.frames[|r.frames| - 1]).head.keepAlive
               case MaxRequests => n + |r.frames| == 1000
    decreases |s|
  {
    hide ParseRequest, IsFrame, MessageOf;
    match ParseRequest(Visible(s))
    case Error =>
    case Incomplete => assert |s| < WINDOW ==> Visible(s) == s;
    case Ok(m, k) =>
      FrontFrame(s);
      if m.head.keepAlive && n + 1 < KEEPALIVE_MAX_REQUESTS {
        VerdictMeaning(s[k..], n + 1);
      }
  }

  /** What the window shows of a stream whose first head ends at `he` and parses. */
  lemma WindowShows(s: seq<byte>, he: nat)
    requires HeaderEnd(s) == Some(he) && ParseHead(s[..he + 4]).Some?
    ensures var frame := he + 4 + ParseHead(s[..he + 4]).value.contentLength;
            ParseRequest(Visible(s)).Ok? <==> frame <= |s| && frame <= WINDOW
    ensures !ParseRequest(Visible(s)).Error?
  {
    hide ParseHead, TerminatorFrom;
    var v := Visible(s);
    HeaderEndOfPrefix(s, |v|);
    if he + 4 <= |v| {
      assert v[..he + 4] == s[..he + 4];
    }
  }

  /** A head that parses is enough to know whether its request can ever be served: exactly if what it
      declares fits the window, whatever follows. If not, the connection waits until the window is full
      and ends in 413. */
  lemma ServedIff(s: seq<byte>, he: nat, n: nat)
    requires HeaderEnd(s) == Some(he) && ParseHead(s[..he + 4]).Some?
    ensures var frame := he + 4 + ParseHead(s[..he + 4]).value.contentLength;
            && ((exists t :: Reference(s + t, n).frames != []) <==> frame <= WINDOW)
            && (frame > WINDOW ==>
                  forall t :: Reference(s + t, n) == Split([], s + t, if |s + t| >= WINDOW then TooLarge else NeedMore))
  {
    hide ParseHead, TerminatorFrom, ParseRequest, Visible, IsFrame;
    var length := ParseHead(s[..he + 4]).value.contentLength;
    forall t ensures HeaderEnd(s + t) == Some(he) && (s + t)[..he + 4] == s[..he + 4] {
      HeaderEndOfPrefix(s + t, |s|);
      assert (s + t)[..|s|] == s;
    }
    forall t
      ensures Reference(s + t, n).frames != [] <==> he + 4 + length <= |s + t| && he + 4 + length <= WINDOW
      ensures he + 4 + length > WINDOW ==>
                Reference(s + t, n) == Split([], s + t, if |s + t| >= WINDOW then TooLarge else NeedMore)
    {
      WindowShows(s + t, he);
    }
    var zeros: seq<byte> := seq(length, _ => '\0');
    assert Reference(s + zeros, n).frames != [] <==> he + 4 + length <= WINDOW;
  }

  lemma MinusIsText(k: nat)
    ensures var s := ['-'] + Numeral(k, 10); CString(s) == s
  {
    hide Numeral;
    CStringIsText(['-'] + Numeral(k, 10));
  }

  /** A first Content-Length of "-k" declares 2^64 - k bytes: it is served, with the body it asks for,
      exactly if those fit the window. "-18446744073709551615" asks for one byte. */
  lemma NegativeLengthServedIff(s: seq<byte>, he: nat, headers: seq<Header>, k: nat, n: nat)
    requires HeaderEnd(s) == Some(he) && ParseHead(s[..he + 4]).Some?
    requires headers == ParseHead(s[..he + 4]).value.headers
    requires GetHeader(headers, CONTENT_LENGTH) == Some(['-'] + Numeral(k, 10)) && 0 < k < TWO_TO_64
    ensures (exists t :: Reference(s + t, n).frames != []) <==> he + 4 + (TWO_TO_64 - k) <= WINDOW
  {
    hide Reference, ParseRequest, GetHeader, Strtoul, Numeral, CString, TerminatorFrom, HeaderLines, ParseRequestLine;
    ServedIff(s, he, n);
    StrtoulWrapsNegatives(k);
    MinusIsText(k);
  }

  function Messages(frames: seq<seq<byte>>): (r: seq<Message>)
    requires AllFrames(frames)
    ensures |r| == |frames|
  {
    seq(|frames|, i requires 0 <= i < |frames| => MessageOf(frames[i]))
  }

  // ----- More bytes -----

  /** A window that decides, decides the same once more bytes are behind it. */
  lemma VisibleStable(s: seq<byte>, t: seq<byte>)
    ensures !ParseRequest(Visible(s)).Incomplete? || |s| >= WINDOW ==>
              ParseRequest(Visible(s + t)) == ParseRequest(Visible(s))
  {
    hide ParseRequest;
    var v, w := Visible(s), Visible(s + t);
    if |s| >= WINDOW {
      assert v == w;
    } else {
      assert v == s && w[..|s|] == s;
      PrefixStability(v, w[|s|..]);
      assert v + w[|s|..] == w;
    }
  }

  /** More bytes never change what has been served or why serving stopped: they only extend a split
      that was waiting for them. */
  lemma {:induction false} ReferenceGrows(s: seq<byte>, t: seq<byte>, n: nat)
    ensures Reference(s, n).frames <= Reference(s + t, n).frames
    ensures Reference(s, n).verdict != NeedMore ==>
              Reference(s + t, n) == Reference(s, n).(rest := Reference(s, n).rest + t)
    decreases |s|
  {
    hide ParseRequest, IsFrame;
    VisibleStable(s, t);
    match ParseRequest(Visible(s))
    case Error =>
    case Incomplete =>
    case Ok(m, k) =>
      FrontFrame(s);
      assert (s + t)[..k] == s[..k] && (s + t)[k..] == s[k..] + t;
      if m.head.keepAlive && n + 1 < KEEPALIVE_MAX_REQUESTS {
        ReferenceGrows(s[k..], t, n + 1);
      }
  }

  predicate Persistent(frames: seq<seq<byte>>)
    requires AllFrames(frames)
  {
    forall i :: 0 <= i < |frames| ==> |frames[i]| <= WINDOW && MessageOf(frames[i]).head.keepAlive
  }

  /** A frame that fits the window is the first thing the parser finds in any stream it starts. */
  lemma FrameInFront(f: seq<byte>, behind: seq<byte>)
    requires IsFrame(f) && |f| <= WINDOW
    ensures ParseRequest(Visible(f + behind)) == Ok(MessageOf(f), |f|)
    ensures |f| > 0
  {
    hide ParseRequest;
    var v := Visible(f + behind);
    assert f + v[|f|..] == v;
    PrefixStability(f, v[|f|..]);
    VerdictOfPrefix(f, |f|);
  }

  /** One turn of the recursion, on a stream that starts with a frame. */
  lemma ReferenceBehindFrame(f: seq<byte>, behind: seq<byte>, n: nat)
    requires IsFrame(f) && |f| <= WINDOW && MessageOf(f).head.keepAlive && n + 1 < KEEPALIVE_MAX_REQUESTS
    ensures Reference(f + behind, n)
            == var r := Reference(behind, n + 1); Split([f] + r.frames, r.rest, r.verdict)
  {
    hide ParseRequest, IsFrame, MessageOf, Visible;
    FrameInFront(f, behind);
    assert (f + behind)[..|f|] == f && (f + behind)[|f|..] == behind;
  }

  /** Frames that left the connection open are the beginning of the reference split of any stream that
      starts with them. */
  lemma {:induction false} ReferenceBehindFrames(frames: seq<seq<byte>>, rest: seq<byte>, n: nat)
    requires AllFrames(frames) && Persistent(frames) && n + |frames| < KEEPALIVE_MAX_REQUESTS
    ensures Reference(Concat(frames) + rest, n)
            == var r := Reference(rest, n + |frames|); Split(frames + r.frames, r.rest, r.verdict)
  {
    hide Reference, IsFrame, MessageOf;
    if frames == [] {
      assert Concat(frames) + rest == rest;
    } else {
      var f, behind := frames[0], Concat(frames[1..]) + rest;
      assert Concat(frames) + rest == f + behind;
      ReferenceBehindFrames(frames[1..], rest, n + 1);
      ReferenceBehindFrame(f, behind, n);
      var r := Reference(rest, n + |frames|);
      assert [f] + (frames[1..] + r.frames) == frames + r.frames;
    }
  }

  /** The split is the only one: any list of persistent frames the stream starts with is a beginning of it. */
  lemma SplitIsUnique(frames: seq<seq<byte>>, s: seq<byte>)
    requires AllFrames(frames) && Persistent(frames) && |frames| < KEEPALIVE_MAX_REQUESTS
    requires Concat(frames) <= s
    ensures frames <= Reference(s, 0).frames
  {
    hide ParseRequest, IsFrame;
    var rest := s[|Concat(frames)|..];
    ReferenceBehindFrames(frames, rest, 0);
    assert s == Concat(frames) + rest;
  }

  // ----- Pacing -----

  /** How many requests are served by the time these chunks have been received: each successful recv
      is followed by one parse, so it serves at most one request, and serves one if any is complete. */
  function Paced(chunks: seq<seq<byte>>): (d: nat)
    ensures d <= |chunks|
  {
    if chunks == [] then 0
    else
      var before := Paced(chunks[..|chunks| - 1]);
      if before < |Reference(Concat(chunks), 0).frames| then before + 1 else before
  }

  lemma {:induction false} PacedWithin(chunks: seq<seq<byte>>)
    ensures Paced(chunks) <= |Reference(Concat(chunks), 0).frames|
  {
    hide Reference, IsFrame;
    if chunks == [] {
    } else {
      var front, c := chunks[..|chunks| - 1], chunks[|chunks| - 1];
      PacedWithin(front);
      ConcatSnoc(front, c);
      assert front + [c] == chunks;
      ReferenceGrows(Concat(front), c, 0);
    }
  }

  lemma PacedStep(chunks: seq<seq<byte>>, c: seq<byte>)
    ensures Paced(chunks + [c]) ==
            if Paced(chunks) < |Reference(Concat(chunks) + c, 0).frames| then Paced(chunks) + 1 else Paced(chunks)
  {
    hide Reference, IsFrame;
    ConcatSnoc(chunks, c);
    assert (chunks + [c])[..|chunks|] == chunks;
  }

  /** What a connection serves after receiving these chunks. */
  function Served(chunks: seq<seq<byte>>): (r: seq<Message>)
    ensures |r| == Paced(chunks)
  {
    PacedWithin(chunks);
    Messages(Reference(Concat(chunks), 0).frames[..Paced(chunks)])
  }

  /** Segmentation independence, one side: however the first bytes of `stream` were cut into chunks,
      what has been served is a beginning of the reference split of the whole stream. */
  lemma ServedIsPrefixOfReference(chunks: seq<seq<byte>>, stream: seq<byte>)
    requires Concat(chunks) <= stream
    ensures Served(chunks) <= Messages(Reference(stream, 0).frames)
  {
    hide Reference, IsFrame, MessageOf;
    var s := Concat(chunks);
    PacedWithin(chunks);
    ReferenceGrows(s, stream[|s|..], 0);
    assert s + stream[|s|..] == stream;
  }

  /** Segmentation independence: of two ways to cut the same stream, one serves a prefix of the other. */
  lemma SegmentationsAgree(a: seq<seq<byte>>, b: seq<seq<byte>>, stream: seq<byte>)
    requires Concat(a) <= stream && Concat(b) <= stream
    ensures Served(a) <= Served(b) || Served(b) <= Served(a)
  {
    hide Reference, Served;
    ServedIsPrefixOfReference(a, stream);
    ServedIsPrefixOfReference(b, stream);
  }

  /** Once a split ended for a reason of its own, every segmentation that got that far ends for the same
      reason, in front of the same bytes, after serving the same requests. */
  lemma VerdictsAgree(a: seq<seq<byte>>, b: seq<seq<byte>>, stream: seq<byte>)
    requires Concat(a) <= stream && Concat(b) <= stream
    requires Reference(Concat(a), 0).verdict != NeedMore && Reference(Concat(b), 0).verdict != NeedMore
    ensures Reference(Concat(a), 0).verdict == Reference(Concat(b), 0).verdict
    ensures Reference(Concat(a), 0).frames == Reference(Concat(b), 0).frames
  {
    hide Reference, ParseRequest, IsFrame;
    ReferenceGrows(Concat(a), stream[|Concat(a)|..], 0);
    ReferenceGrows(Concat(b), stream[|Concat(b)|..], 0);
    assert Concat(a) + stream[|Concat(a)|..] == stream;
    assert Concat(b) + stream[|Concat(b)|..] == stream;
  }

  // ----- When pacing costs something -----

  /** How many requests the first `i` chunks complete. */
  function Ready(chunks: seq<seq<byte>>, i: nat): nat
    requires i <= |chunks|
  {
    |Reference(Concat(chunks[..i]), 0).frames|
  }

  lemma NothingBehind(n: nat)
    ensures Reference([], n).frames == []
  {
    hide ParseHead;
    assert HeaderEnd([]).None?;
  }

  /** Pacing in closed form: the least, over all `i`, of what the first `i` chunks completed plus one
      request for each later chunk. */
  lemma {:induction false} PacedIsLeast(chunks: seq<seq<byte>>) returns (best: nat)
    ensures forall i :: 0 <= i <= |chunks| ==> Paced(chunks) <= Ready(chunks, i) + |chunks| - i
    ensures best <= |chunks| && Paced(chunks) == Ready(chunks, best) + |chunks| - best
  {
    hide Reference, IsFrame;
    if chunks == [] {
      assert Ready(chunks, 0) >= 0;
      NothingBehind(0);
      return 0;
    }
    var last := |chunks| - 1;
    var front := chunks[..last];
    PacedWithin(chunks);
    var b := PacedIsLeast(front);
    forall i | 0 <= i <= last ensures Ready(front, i) == Ready(chunks, i) {
      assert front[..i] == chunks[..i];
    }
    assert chunks[..|chunks|] == chunks;
    best := if Paced(front) < Ready(chunks, |chunks|) then b else |chunks|;
  }

  /** Every complete request has been served exactly when no run of latest chunks completed more
      requests than it has chunks. */
  lemma ServesAllIff(chunks: seq<seq<byte>>)
    ensures Served(chunks) == Messages(Reference(Concat(chunks), 0).frames)
            <==> forall i :: 0 <= i <= |chunks| ==> Ready(chunks, |chunks|) - Ready(chunks, i) <= |chunks| - i
  {
    hide Reference, IsFrame, MessageOf;
    var best := PacedIsLeast(chunks);
    assert chunks[..|chunks|] == chunks;
    var frames := Reference(Concat(chunks), 0).frames;
    assert Paced(chunks) == |frames| ==> frames[..Paced(chunks)] == frames;
  }

  /** Two requests in one segment: the second one sits in the buffer, complete and unanswered. */
  lemma PipelinedPairWaits(f: seq<byte>, g: seq<byte>)
    requires IsFrame(f) && IsFrame(g) && |f| + |g| <= WINDOW
    requires MessageOf(f).head.keepAlive && MessageOf(g).head.keepAlive
    ensures Reference(Concat([f + g]), 0).frames == [f, g]
    ensures Served([f + g]) == [MessageOf(f)]
  {
    hide ParseRequest, IsFrame, MessageOf, Visible;
    var frames := [f, g];
    ConcatSingle(f + g);
    ConcatSingle(f);
    ConcatSnoc([f], g);
    assert frames == [f] + [g];
    ReferenceBehindFrames(frames, [], 0);
    NothingBehind(2);
    assert Concat(frames) + [] == f + g;
    assert frames + Reference([], 2).frames == frames;
    assert [] + [f + g] == [f + g] && Concat([]) + (f + g) == f + g;
    PacedStep([], f + g);
    assert frames[..1] == [f];
  }

  lemma HostIsShort(host: Header)
    requires host == Header("Host", "a")
    ensures |PrintFields([host])| == 9
  {
    hide PrintFields;
    FirstField([host]);
    NoFields();
    assert [host][1..] == [];
  }

  lemma PlainHeaders(host: Header)
    requires host == Header("Host", "a")
    ensures GetHeader([host], CONTENT_LENGTH).None? && GetHeader([host], CONNECTION).None?
    ensures SameText(HTTP_1_1, HTTP_1_1, 0)
  {
    CStringIsText(host.name);
    CStringIsText(CONTENT_LENGTH);
    CStringIsText(CONNECTION);
    SameTextIff(HTTP_1_1, HTTP_1_1, 0);
    assert !Names(host, CONTENT_LENGTH) && !Names(host, CONNECTION);
  }

  /** "GET / HTTP/1.1" with a one-letter Host is a frame that keeps the connection open. */
  lemma SmallFrame() returns (f: seq<byte>)
    ensures IsFrame(f) && |f| < 100 && MessageOf(f).head.keepAlive
  {
    hide ParseRequest, GetHeader, PrintFields, FieldLine;
    var line := RequestLine("GET", "/", [], HTTP_1_1);
    var host := Header("Host", "a");
    PlainHeaders(host);
    HostIsShort(host);
    f := PrintHead(line, [host]) + [];
    RequestRoundTrip(line, [host], [], []);
    assert f + [] == f;
  }

  /** So a segment exists that completes two requests and gets one answer. */
  lemma PipelinedPairExists() returns (segment: seq<byte>)
    ensures |Reference(Concat([segment]), 0).frames| == 2 && |Served([segment])| == 1
  {
    hide Reference, IsFrame, MessageOf, Served;
    var f := SmallFrame();
    segment := f + f;
    PipelinedPairWaits(f, f);
  }
}
