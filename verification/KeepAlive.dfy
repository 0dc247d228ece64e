/** keep_alive.c: one connection, one receive buffer, requests slid to its front as they are served. */
module KeepAlive {
  import opened Bytes
  import opened Numerals
  import opened HttpParser
  import opened ParserLaws
  import opened RequestParser
  import opened Pipeline
  import opened Connection

  /** The client end of a connection: what will arrive, and a record of what was done to it. */
  class Client {
    var script: seq<RecvEvent>
    var received: seq<seq<byte>>
    var served: seq<Message>
    var errors: seq<int>
    var closes: nat

    constructor (script: seq<RecvEvent>)
      ensures this.script == script && received == [] && served == [] && errors == [] && closes == 0
    {
      this.script, received, served, errors, closes := script, [], [], [], 0;
    }

    /** `recv(fd, buf + at, room, 0)`. */
    method Recv(buf: array<byte>, at: nat, room: nat) returns (r: RecvResult)
      requires at + room <= buf.Length
      modifies this`script, this`received, buf
      ensures var a := Arrive(old(script), room);
              && r == a.result && script == a.rest
              && received == (if a.bytes == [] then old(received) else old(received) + [a.bytes])
              && buf[..at] == old(buf[..at]) && buf[..at + |a.bytes|] == old(buf[..at]) + a.bytes
              && forall i :: 0 <= i < buf.Length && !(at <= i < at + |a.bytes|) ==> buf[i] == old(buf[i])
    {
      if script == [] {
        return Count(0);
      }
      match script[0]
      case Idle => script := script[1..]; return TimedOut;
      case Interrupted => script := script[1..]; return Eintr;
      case Broken => script := script[1..]; return Failed;
      case Data(bytes) =>
        var n := Min(|bytes|, room);
        forall i | 0 <= i < n {
          buf[at + i] := bytes[i];
        }
        assert buf[..at + n] == old(buf[..at]) + bytes[..n] && (n == |bytes| ==> bytes[..n] == bytes);
        script := if n < |bytes| then [Data(bytes[n..])] + script[1..] else script[1..];
        received := if n > 0 then received + [bytes[..n]] else received;
        return Count(n);
    }

    /** `dispatch_request`: the response is not modelled, the request it answers is recorded. */
    method Dispatch(req: HttpRequest, raw: seq<byte>, ghost m: Message) returns (keepAlive: bool)
      requires req.Holds(m, raw)
      modifies this`served
      ensures served == old(served) + [m]
      ensures keepAlive == m.head.keepAlive
    {
      var head := Request(RequestLine(req.verb, req.path, req.query, req.version), req.headers, req.contentLength, req.keepAlive);
      var body := match req.body case None => [] case Some(at) => raw[at..at + req.bodyLength];
      served := served + [Message(head, body)];
      return req.keepAlive;
    }
  }

  /** `http_request_consumed_bytes`: a second scan for the blank line, and a `size_t` sum. */
  method ConsumedBytes(buf: seq<byte>, req: HttpRequest) returns (consumed: nat)
    ensures consumed == match HeaderEnd(buf)
                        case Some(he) => (he + 4 + req.contentLength) % TWO_TO_64
                        case None => |buf|
  {
    hide TerminatorFrom;
    var headerEnd := FindBlankLine(buf);
    match headerEnd
    case Some(i) => consumed := (i + 4 + req.contentLength) % TWO_TO_64;
    case None => consumed := |buf|;
  }

  /** After PARSE_OK the second scan finds the same blank line, the sum does not wrap, and it never
      passes the end of the buffer, whatever the Content-Length text was. */
  lemma ConsumedIsFrame(buf: seq<byte>)
    requires |buf| < TWO_TO_64
    ensures ParseRequest(buf).Ok? ==>
              && HeaderEnd(buf).Some?
              && var sum := HeaderEnd(buf).value + 4 + ParseRequest(buf).message.head.contentLength;
              sum < TWO_TO_64 && 4 <= sum == ParseRequest(buf).frame <= |buf|
  {
    hide ParseHead;
  }

  /** `memmove(buf, buf + from, n)` towards the front. */
  method MoveToFront(buf: array<byte>, from: nat, n: nat)
    requires from + n <= buf.Length
    modifies buf
    ensures buf[..n] == old(buf[from..from + n])
    ensures forall i :: n <= i < buf.Length ==> buf[i] == old(buf[i])
  {
    var i := 0;
    while i < n
      invariant i <= n
      invariant forall j :: 0 <= j < i ==> buf[j] == old(buf[from + j])
      invariant forall j :: i <= j < buf.Length ==> buf[j] == old(buf[j])
    {
      buf[i] := buf[from + i];
      i := i + 1;
    }
  }

  /** Step 3d: drop the request just served, and slide what is left behind it to the front. */
  method SlideOut(buf: array<byte>, total: nat, req: HttpRequest, ghost raw: seq<byte>) returns (left: nat)
    requires total <= buf.Length && total < TWO_TO_64 && raw == buf[..total]
    requires ParseRequest(raw).Ok? && req.Head() == ParseRequest(raw).message.head
    modifies buf
    ensures var k := ParseRequest(raw).frame;
            4 <= k <= total && left == total - k && buf[..left] == raw[k..]
  {
    hide ParseRequest, HeaderEnd;
    ConsumedIsFrame(raw);
    var consumed := ConsumedBytes(buf[..total], req);
    assert consumed == ParseRequest(raw).frame;
    if consumed >= total {
      left := 0;
    } else {
      left := total - consumed;
      assert raw[consumed..] == buf[consumed..consumed + left];
      MoveToFront(buf, consumed, left);
    }
  }

  /** The stream/buffer invariant. Every byte received so far is either in a frame already served or
      still in the buffer, in the order it arrived; and the frames served are those the reference
      split puts first, as many as pacing allows. */
  ghost predicate Serving(chunks: seq<seq<byte>>, frames: seq<seq<byte>>, pending: seq<byte>) {
    && Concat(chunks) == Concat(frames) + pending
    && AllFrames(frames) && Persistent(frames)
    && |frames| == Paced(chunks) < KEEPALIVE_MAX_REQUESTS
    && frames <= Reference(Concat(chunks), 0).frames
  }

  lemma ServingFromStart()
    ensures Serving([], [], []) && AllFrames([]) && Messages([]) == [] && !EndedBy([])
  {
    hide Reference, IsFrame;
  }

  predicate Verdicts(after: seq<seq<byte>>, ended: bool, verdict: Verdict) {
    (EndedBy(after) <==> ended) && (ended ==> Reference(Concat(after), 0).verdict == verdict)
  }

  /** The chunks completed the frame `f`, and it was served behind `frames`. It ends the connection if
      it asked to, or used up the allowance. */
  predicate Accepted(after: seq<seq<byte>>, frames: seq<seq<byte>>, f: seq<byte>) {
    && IsFrame(f) && 4 <= |f| <= WINDOW
    && Paced(after) == |frames| + 1
    && frames + [f] <= Reference(Concat(after), 0).frames
    && var open := MessageOf(f).head.keepAlive;
    Verdicts(after, !open || |frames| + 1 == KEEPALIVE_MAX_REQUESTS, if open then MaxRequests else ClientClose)
  }

  lemma BytesArrive(chunks: seq<seq<byte>>, frames: seq<seq<byte>>, before: seq<byte>, c: seq<byte>)
    requires Concat(chunks) == Concat(frames) + before
    ensures Concat(chunks + [c]) == Concat(frames) + (before + c)
  {
    hide Concat;
    ConcatSnoc(chunks, c);
    assert Concat(frames) + before + c == Concat(frames) + (before + c);
  }

  /** What the reference makes of the stream once `c` has arrived: the frames served so far, then what it
      makes of the buffer; and one more request is served if there is one. */
  lemma ReferenceAfter(chunks: seq<seq<byte>>, frames: seq<seq<byte>>, before: seq<byte>, c: seq<byte>)
    requires Serving(chunks, frames, before)
    ensures var after, r := chunks + [c], Reference(before + c, |frames|);
            && Concat(after) == Concat(frames) + (before + c)
            && Reference(Concat(after), 0) == Split(frames + r.frames, r.rest, r.verdict)
            && Paced(after) == if r.frames == [] then |frames| else |frames| + 1
  {
    hide Reference, IsFrame, Persistent, Concat, Paced;
    BytesArrive(chunks, frames, before, c);
    ConcatSnoc(chunks, c);
    PacedStep(chunks, c);
    ReferenceBehindFrames(frames, before + c, 0);
  }

  /** The buffer holds a complete request in front, behind `frames` that were served before. */
  ghost predicate OneMore(chunks: seq<seq<byte>>, frames: seq<seq<byte>>, pending: seq<byte>) {
    var parsed := ParseRequest(pending);
    && Concat(chunks) == Concat(frames) + pending
    && AllFrames(frames) && Persistent(frames) && |frames| < KEEPALIVE_MAX_REQUESTS
    && parsed.Ok? && parsed.frame <= |pending|
    && Accepted(chunks, frames, pending[..parsed.frame])
    && MessageOf(pending[..parsed.frame]) == parsed.message
  }

  /** A split that served nothing was not ended by a served request. */
  lemma TailVerdict(s: seq<byte>, n: nat)
    ensures var r := Reference(s, n); r.frames == [] ==> r.verdict != ClientClose && r.verdict != MaxRequests
  {
    hide ParseRequest, IsFrame;
  }

  /** One successful recv and the parse behind it. */
  lemma OneRecv(chunks: seq<seq<byte>>, frames: seq<seq<byte>>, before: seq<byte>, c: seq<byte>)
    requires Serving(chunks, frames, before) && |before + c| <= WINDOW
    ensures var after, pending := chunks + [c], before + c;
            var parsed := ParseRequest(pending);
            && (parsed.Incomplete? ==> Serving(after, frames, pending) && Verdicts(after, |pending| == WINDOW, TooLarge))
            && (parsed.Error? ==> Serving(after, frames, pending) && Verdicts(after, true, BadRequest))
            && (parsed.Ok? ==> OneMore(after, frames, pending))
  {
    hide ParseRequest, IsFrame, MessageOf, Persistent, Concat, Paced;
    var after, pending := chunks + [c], before + c;
    ReferenceAfter(chunks, frames, before, c);
    assert after[..|after| - 1] == chunks;
    assert Visible(pending) == pending;
    if ParseRequest(pending).Ok? {
      FrontFrame(pending);
      TailVerdict(pending[ParseRequest(pending).frame..], |frames| + 1);
    }
  }

  lemma ServedSoFar(chunks: seq<seq<byte>>, frames: seq<seq<byte>>)
    requires AllFrames(frames) && |frames| == Paced(chunks) && frames <= Reference(Concat(chunks), 0).frames
    ensures Served(chunks) == Messages(frames)
  {
    hide IsFrame, MessageOf, Reference;
  }

  lemma PeerLeft(chunks: seq<seq<byte>>, frames: seq<seq<byte>>, pending: seq<byte>)
    requires Serving(chunks, frames, pending)
    ensures AllFrames(frames) && Served(chunks) == Messages(frames)
  {
    hide IsFrame, Reference, Concat, Messages, Served;
    ServedSoFar(chunks, frames);
  }

  lemma MessagesSnoc(frames: seq<seq<byte>>, f: seq<byte>)
    requires AllFrames(frames) && IsFrame(f)
    ensures AllFrames(frames + [f]) && Messages(frames + [f]) == Messages(frames) + [MessageOf(f)]
  {
    hide IsFrame, MessageOf;
  }

  /** Serving that request, and, if the connection stays open, sliding its frame out of the buffer. */
  lemma ServeOne(chunks: seq<seq<byte>>, frames: seq<seq<byte>>, pending: seq<byte>)
    requires OneMore(chunks, frames, pending)
    ensures var Ok(m, k) := ParseRequest(pending);
            var served := frames + [pending[..k]];
            var open := m.head.keepAlive;
            && AllFrames(frames) && AllFrames(served) && Messages(served) == Messages(frames) + [m]
            && Served(chunks) == Messages(served)
            && Verdicts(chunks, !open || |served| == KEEPALIVE_MAX_REQUESTS, if open then MaxRequests else ClientClose)
            && (!EndedBy(chunks) ==> Serving(chunks, served, pending[k..]))
  {
    hide ParseRequest, IsFrame, MessageOf, Reference, Concat, Messages, Served;
    var f := pending[..ParseRequest(pending).frame];
    MessagesSnoc(frames, f);
    ServedSoFar(chunks, frames + [f]);
    ConcatSnoc(frames, f);
    assert Concat(frames) + pending == Concat(frames) + f + pending[|f|..];
  }

  /** Two connections that carry the same stream in different segments, and both come to an end of their
      own: they served the same requests and ended for the same reason. */
  lemma EndingsAgree(a: seq<seq<byte>>, b: seq<seq<byte>>, stream: seq<byte>)
    requires Concat(a) <= stream && Concat(b) <= stream && EndedBy(a) && EndedBy(b)
    ensures Served(a) == Served(b)
    ensures Reference(Concat(a), 0).verdict == Reference(Concat(b), 0).verdict
  {
    hide Reference, ParseRequest, IsFrame, MessageOf, Served;
    VerdictsAgree(a, b, stream);
    ServedSoFar(a, Reference(Concat(a), 0).frames);
    ServedSoFar(b, Reference(Concat(b), 0).frames);
  }

  // ----- The connection's course -----

  /** While the connection goes on, the buffer has room for at least one more byte: as much as the
      course of the connection supposes. */
  lemma RoomLeft(chunks: seq<seq<byte>>, frames: seq<seq<byte>>, pending: seq<byte>)
    requires Serving(chunks, frames, pending) && |pending| <= WINDOW
    ensures Room(chunks) == WINDOW - |pending|
  {
    hide Reference, IsFrame, Persistent, Paced, Concat;
    var all := Reference(Concat(chunks), 0).frames;
    assert all[..|frames|] == frames;
  }

  /** A connection that goes on after one more chunk again has room for a byte. */
  lemma GoesOn(chunks: seq<seq<byte>>, frames: seq<seq<byte>>, pending: seq<byte>, c: seq<byte>)
    returns (frames': seq<seq<byte>>, pending': seq<byte>)
    requires Serving(chunks, frames, pending) && |pending + c| <= WINDOW
    ensures !EndedBy(chunks + [c]) ==> Serving(chunks + [c], frames', pending') && |pending'| < WINDOW
  {
    hide ParseRequest, IsFrame, MessageOf, Persistent, Paced, Reference, Serving, EndedBy, Concat;
    var parsed := ParseRequest(pending + c);
    OneRecv(chunks, frames, pending, c);
    frames', pending' := frames, pending + c;
    if parsed.Ok? {
      ServeOne(chunks + [c], frames, pending + c);
      frames', pending' := frames + [(pending + c)[..parsed.frame]], (pending + c)[parsed.frame..];
    }
  }

  /** What the course of a connection means. It takes a beginning of what the client sends. It ends for a
      reason of its own exactly if the last parse ended it, and for the reason the reference gives; or else
      when everything sent has been received, in the client's way. */
  lemma {:induction false} CourseMeans(chunks: seq<seq<byte>>, frames: seq<seq<byte>>, pending: seq<byte>, script: seq<RecvEvent>)
    requires EndedBy(chunks) || (Serving(chunks, frames, pending) && |pending| < WINDOW)
    ensures var (received, why) := Course(chunks, script);
            var sent := Concat(chunks) + Stream(script);
            && Concat(received) <= sent && (why.Ended? <==> EndedBy(received))
            && if why.Ended? then why.verdict == Reference(Concat(received), 0).verdict
               else Concat(received) == sent && why == Ending(script)
    decreases Weight(script)
  {
    hide Reference, Serving, EndedBy, Concat, Arrive, Stream, Ending, Room;
    if EndedBy(chunks) {
      return;
    }
    RoomLeft(chunks, frames, pending);
    var a := Arrive(script, Room(chunks));
    ArrivalOfStream(script, Room(chunks));
    if a.result.Eintr? {
      CourseMeans(chunks, frames, pending, a.rest);
    } else if a.bytes == [] {
      assert Concat(chunks) + [] == Concat(chunks);
    } else {
      var frames', pending' := GoesOn(chunks, frames, pending, a.bytes);
      CourseMeans(chunks + [a.bytes], frames', pending', a.rest);
      ConcatSnoc(chunks, a.bytes);
      assert Concat(chunks) + a.bytes + Stream(a.rest) == Concat(chunks) + (a.bytes + Stream(a.rest));
    }
  }

  /** From the start: what is received and served, and why it ends, in terms of what the client sends. */
  lemma WholeCourse(script: seq<RecvEvent>)
    ensures var (received, why) := Course([], script);
            && Concat(received) <= Stream(script) && Served(received) <= Messages(Reference(Stream(script), 0).frames)
            && (why.Ended? <==> EndedBy(received))
            && if why.Ended? then why.verdict == Reference(Concat(received), 0).verdict
               else Concat(received) == Stream(script) && why == Ending(script)
  {
    hide Reference, IsFrame, MessageOf, Served, EndedBy, Course, Stream, Ending;
    ServingFromStart();
    CourseMeans([], [], [], script);
    assert Concat([]) + Stream(script) == Stream(script);
    ServedIsPrefixOfReference(Course([], script).0, Stream(script));
  }

  /** Segmentation independence of whole connections. Of two clients that send the same bytes, in whatever
      pieces and with whatever interruptions, one is served a prefix of what the other is; and if both
      connections end for a reason of the server's own, it is the same one, and both are served the same. */
  lemma CoursesAgree(a: seq<RecvEvent>, b: seq<RecvEvent>)
    requires Stream(a) == Stream(b)
    ensures var (ra, whyA), (rb, whyB) := Course([], a), Course([], b);
            && (Served(ra) <= Served(rb) || Served(rb) <= Served(ra))
            && (whyA.Ended? && whyB.Ended? ==> whyA == whyB && Served(ra) == Served(rb))
  {
    hide Reference, IsFrame, MessageOf, Served, EndedBy, Course, Stream, Ending;
    WholeCourse(a);
    WholeCourse(b);
    var ra, rb := Course([], a).0, Course([], b).0;
    SegmentationsAgree(ra, rb, Stream(a));
    if EndedBy(ra) && EndedBy(rb) {
      EndingsAgree(ra, rb, Stream(a));
    }
  }

  /** Each `recv` brings all there is, up to the room in the buffer: a segment that leaves room ends where
      one of the client's does. */
  lemma {:induction false} FullReads(chunks: seq<seq<byte>>, script: seq<RecvEvent>)
    ensures var received := Course(chunks, script).0;
            && chunks <= received
            && forall i :: |chunks| <= i < |received| ==>
                 |received[i]| == Room(received[..i])
                 || EndsPiece(script, |Concat(received[..i + 1])| - |Concat(chunks)|)
    decreases Weight(script)
  {
    hide Reference, EndedBy, Concat, Room, Arrive, EndsPiece;
    var a := Arrive(script, Room(chunks));
    if EndedBy(chunks) || (!a.result.Eintr? && a.bytes == []) {
      return;
    }
    var received := Course(chunks, script).0;
    if a.result.Eintr? {
      FullReads(chunks, a.rest);
      forall n: int | EndsPiece(a.rest, n) ensures EndsPiece(script, n) {
        PieceAhead(script, Room(chunks), n);
      }
    } else {
      var next := chunks + [a.bytes];
      FullReads(next, a.rest);
      ConcatSnoc(chunks, a.bytes);
      assert received[..|chunks|] == chunks && received[..|chunks| + 1] == next;
      FirstPiece(script, Room(chunks));
      forall n: int | EndsPiece(a.rest, n) ensures EndsPiece(script, n + |a.bytes|) {
        PieceAhead(script, Room(chunks), n);
      }
    }
  }

  // ----- The loop -----

  /** The NUL behind the bytes received, and the parse of all of them. */
  method ParseBuffer(buf: array<byte>, total: nat, req: HttpRequest) returns (r: ParseResult)
    requires total < buf.Length
    modifies buf, req
    ensures buf[..total] == old(buf[..total])
    ensures match ParseRequest(buf[..total])
            case Ok(m, _) => r == PARSE_OK && req.Holds(m, buf[..total])
            case Incomplete => r == PARSE_INCOMPLETE
            case Error => r == PARSE_ERROR
  {
    hide ParseRequest;
    buf[total] := '\0';
    r := ParseHttpRequest(buf[..total], req);
  }

  /** One turn of the accumulate loop: a `recv`, and the parse of all there is, unless it was interrupted. */
  method RecvAndParse(client: Client, buf: array<byte>, filled: nat, req: HttpRequest, ghost frames: seq<seq<byte>>)
    returns (total: nat, result: ParseResult, why: Option<CloseReason>)
    requires buf.Length == KA_RECV_BUFFER_SIZE && filled < WINDOW
    requires Serving(client.received, frames, buf[..filled]) && !EndedBy(client.received) && client.errors == []
    modifies client`script, client`received, client`errors, buf, req
    ensures total <= WINDOW && |client.received| - |old(client.received)| <= total - filled
    ensures client.errors == if why == Some(Ended(BadRequest)) then [400] else []
    ensures why.Some? ==>
              && why != Some(Ended(TooLarge)) && Serving(client.received, frames, buf[..total])
              && Course(old(client.received), old(client.script)) == (client.received, why.value)
    ensures why.None? ==>
              && Course(old(client.received), old(client.script)) == Course(client.received, client.script)
              && Weight(client.script) < Weight(old(client.script))
              && if result == PARSE_INCOMPLETE then
                   Serving(client.received, frames, buf[..total]) && Verdicts(client.received, total == WINDOW, TooLarge)
                 else
                   && result == PARSE_OK && OneMore(client.received, frames, buf[..total])
                   && req.Holds(ParseRequest(buf[..total]).message, buf[..total])
  {
    hide ParseRequest, IsFrame, MessageOf, Reference, Paced, EndedBy, Concat, AllFrames, Persistent, Serving, Room,
         Arrive, HeaderEnd, Weight;
    total, result := filled, PARSE_INCOMPLETE;
    ghost var chunks, before := client.received, buf[..total];
    RoomLeft(chunks, frames, before);
    ghost var arrival := Arrive(client.script, Room(chunks));
    var n := client.Recv(buf, total, buf.Length - 1 - total);
    match n
    case TimedOut => return total, result, Some(IdleTimeout);
    case Eintr => return total, result, None;
    case Failed => return total, result, Some(RecvFailed);
    case Count(k) =>
      if k == 0 {
        return total, result, Some(PeerClosed);
      }
      OneRecv(chunks, frames, before, arrival.bytes);
      total := total + k;
      result := ParseBuffer(buf, total, req);
      if result == PARSE_ERROR {
        client.errors := [400];
        return total, result, Some(Ended(BadRequest));
      }
      return total, result, None;
  }

  /** Step 3a of `handle_connection`: accumulate bytes until the buffer holds a full request in front,
      or there is a reason to close. It follows the course of the connection. */
  method ReadNextRequest(client: Client, buf: array<byte>, filled: nat, req: HttpRequest, ghost frames: seq<seq<byte>>)
    returns (total: nat, why: Option<CloseReason>)
    requires buf.Length == KA_RECV_BUFFER_SIZE && filled < WINDOW
    requires Serving(client.received, frames, buf[..filled]) && !EndedBy(client.received) && client.errors == []
    modifies client`script, client`received, client`errors, buf, req
    ensures total <= WINDOW
    ensures |client.received| - |old(client.received)| <= total - filled
    ensures client.errors == if why == Some(Ended(TooLarge)) then [413] else if why == Some(Ended(BadRequest)) then [400] else []
    ensures why.Some? ==>
              && Serving(client.received, frames, buf[..total])
              && Course(old(client.received), old(client.script)) == (client.received, why.value)
    ensures why.None? ==>
              && Course(old(client.received), old(client.script)) == Course(client.received, client.script)
              && OneMore(client.received, frames, buf[..total])
              && ParseRequest(buf[..total]).Ok? && ParseRequest(buf[..total]).frame <= total
              && req.Holds(ParseRequest(buf[..total]).message, buf[..total])
  {
    hide ParseRequest, IsFrame, MessageOf, Reference, Paced, EndedBy, Concat, AllFrames, Persistent, Serving, Room,
         Arrive, HeaderEnd, Weight, Course;
    total := filled;
    var result := PARSE_INCOMPLETE;
    while result == PARSE_INCOMPLETE
      invariant total <= WINDOW && client.errors == []
      invariant |client.received| - |old(client.received)| <= total - filled
      invariant Course(old(client.received), old(client.script)) == Course(client.received, client.script)
      invariant result == PARSE_INCOMPLETE ==>
                  Serving(client.received, frames, buf[..total]) && Verdicts(client.received, total == WINDOW, TooLarge)
      invariant result != PARSE_INCOMPLETE ==>
                  && result == PARSE_OK && OneMore(client.received, frames, buf[..total])
                  && req.Holds(ParseRequest(buf[..total]).message, buf[..total])
      decreases Weight(client.script)
    {
      if total >= buf.Length - 1 {
        CourseEnds(client.received, client.script);
        client.errors := [413];
        return total, Some(Ended(TooLarge));
      }
      var reason;
      total, result, reason := RecvAndParse(client, buf, total, req, frames);
      if reason.Some? {
        return total, reason;
      }
    }
    return total, None;
  }

  /** Steps 3b and 3c: answer the request in front of `pending`, and decide whether to close. */
  method AnswerRequest(client: Client, req: HttpRequest, reqCount: nat, pending: seq<byte>, ghost frames: seq<seq<byte>>)
    returns (why: Option<CloseReason>)
    requires OneMore(client.received, frames, pending) && req.Holds(ParseRequest(pending).message, pending)
    requires client.served == Messages(frames) && reqCount == |frames| + 1
    modifies client`served
    ensures var served := frames + [pending[..ParseRequest(pending).frame]];
            && AllFrames(served) && client.served == Messages(served) == Served(client.received)
            && Verdicts(client.received, why.Some?, if why == Some(Ended(MaxRequests)) then MaxRequests else ClientClose)
            && (why.None? ==> Serving(client.received, served, pending[ParseRequest(pending).frame..]))
    ensures match why
            case Some(reason) => reason == Ended(ClientClose) || reason == Ended(MaxRequests)
            case None => reqCount < KEEPALIVE_MAX_REQUESTS
  {
    hide ParseRequest, IsFrame, MessageOf, Reference, Paced, EndedBy, Concat, Messages, Served, Persistent, HeaderEnd,
         Serving, Accepted;
    ServeOne(client.received, frames, pending);
    var keepAlive := client.Dispatch(req, pending, ParseRequest(pending).message);
    if !keepAlive {
      return Some(Ended(ClientClose));
    }
    if KEEPALIVE_MAX_REQUESTS > 0 && reqCount >= KEEPALIVE_MAX_REQUESTS {
      return Some(Ended(MaxRequests));
    }
    return None;
  }

  /** Step 3 of `handle_connection`, one request after the other until there is a reason to close. */
  method ServeRequests(client: Client) returns (why: CloseReason)
    requires client.received == [] && client.served == [] && client.errors == []
    modifies client`script, client`received, client`served, client`errors
    ensures (client.received, why) == Course([], old(client.script))
    ensures client.served == Served(client.received)
    ensures client.errors == if why == Ended(TooLarge) then [413] else if why == Ended(BadRequest) then [400] else []
    ensures |client.received| <= KEEPALIVE_MAX_REQUESTS * WINDOW
  {
    hide ParseRequest, IsFrame, Reference, Paced, EndedBy, Concat, Messages, Served, AllFrames, Persistent, HeaderEnd,
         Serving, MessageOf, OneMore, Arrive, Room, Weight, Course;
    var buf := new byte[KA_RECV_BUFFER_SIZE](_ => '\0');
    var total: nat, reqCount: nat := 0, 0;
    ghost var frames: seq<seq<byte>> := [];
    ServingFromStart();
    assert buf[..0] == [];
    while true
      invariant buf.Length == KA_RECV_BUFFER_SIZE && fresh(buf) && total < WINDOW
      invariant AllFrames(frames) && reqCount == |frames| < KEEPALIVE_MAX_REQUESTS
      invariant Serving(client.received, frames, buf[..total]) && !EndedBy(client.received)
      invariant Course(client.received, client.script) == Course([], old(client.script))
      invariant client.served == Messages(frames) && client.errors == []
      invariant |client.received| <= WINDOW * reqCount + total
      decreases KEEPALIVE_MAX_REQUESTS - reqCount
    {
      var req := new HttpRequest();
      var reason;
      total, reason := ReadNextRequest(client, buf, total, req, frames);
      if reason.Some? {
        PeerLeft(client.received, frames, buf[..total]);
        return reason.value;
      }

      reqCount := reqCount + 1;
      ghost var pending := buf[..total];
      reason := AnswerRequest(client, req, reqCount, buf[..total], frames);
      frames := frames + [pending[..ParseRequest(pending).frame]];
      if reason.Some? {
        CourseEnds(client.received, client.script);
        return reason.value;
      }

      total := SlideOut(buf, total, req, pending);
    }
  }

  /** `handle_connection`. For every script: it receives and ends exactly as the course of the connection
      says, serves exactly the paced prefix of the reference split of what it received, sends 413 and 400
      exactly for their verdicts, closes the descriptor once, and receives data at most 65535 times per
      allowed request. */
  method HandleConnection(client: Client) returns (why: CloseReason)
    requires client.received == [] && client.served == [] && client.errors == [] && client.closes == 0
    modifies client
    ensures (client.received, why) == Course([], old(client.script))
    ensures client.served == Served(client.received)
    ensures client.served <= Messages(Reference(Stream(old(client.script)), 0).frames)
    ensures Concat(client.received) <= Stream(old(client.script))
    ensures !why.Ended? ==> Concat(client.received) == Stream(old(client.script)) && why == Ending(old(client.script))
    ensures why.Ended? <==> EndedBy(client.received)
    ensures why.Ended? ==> why.verdict == Reference(Concat(client.received), 0).verdict
    ensures client.errors == if why == Ended(TooLarge) then [413] else if why == Ended(BadRequest) then [400] else []
    ensures client.closes == 1
    ensures |client.received| <= 1000 * 65535
  {
    hide Reference, EndedBy, Concat, Messages, Served, Stream, Ending, Course, IsFrame;
    WholeCourse(client.script);
    why := ServeRequests(client);
    client.closes := client.closes + 1;
  }
}
