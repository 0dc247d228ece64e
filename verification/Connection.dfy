/** A whole connection as a function of what the client does: which bytes each `recv` brings, and why it ends. */
module Connection {
  import opened Bytes
  import opened HttpParser
  import opened ParserLaws
  import opened Pipeline

  /** What one `recv` call meets: bytes in the socket (none at all means the peer closed), the idle
      timeout, a signal, or another error. Behind the last event the peer has closed. */
  datatype RecvEvent = Data(bytes: seq<byte>) | Idle | Interrupted | Broken

  datatype RecvResult = Count(n: nat) | TimedOut | Eintr | Failed

  /** Why `handle_connection` went to `close_conn`: a verdict of its own, or the peer. */
  datatype CloseReason = Ended(verdict: Verdict) | PeerClosed | IdleTimeout | RecvFailed

  // ----- What the client does -----

  /** Everything the client sends before its end of the connection is over. */
  function Stream(script: seq<RecvEvent>): seq<byte> {
    if script == [] then []
    else match script[0]
      case Data(bytes) => if bytes == [] then [] else bytes + Stream(script[1..])
      case Interrupted => Stream(script[1..])
      case _ => []
  }

  /** How it is over. */
  function Ending(script: seq<RecvEvent>): CloseReason {
    if script == [] then PeerClosed
    else match script[0]
      case Data(bytes) => if bytes == [] then PeerClosed else Ending(script[1..])
      case Interrupted => Ending(script[1..])
      case Idle => IdleTimeout
      case Broken => RecvFailed
  }

  /** The first `n` bytes sent are whole pieces of what the client sends at a time. */
  predicate EndsPiece(script: seq<RecvEvent>, n: int) {
    script != [] && match script[0]
                    case Data(bytes) => bytes != [] && (n == |bytes| || EndsPiece(script[1..], n - |bytes|))
                    case Interrupted => EndsPiece(script[1..], n)
                    case _ => false
  }

  // ----- One recv -----

  /** The bytes and events still to come. */
  function Weight(script: seq<RecvEvent>): nat {
    if script == [] then 0
    else 1 + (match script[0] case Data(bytes) => |bytes| case _ => 0) + Weight(script[1..])
  }

  /** The result of a call, the bytes it stores, and what comes after. */
  datatype Arrival = Arrival(result: RecvResult, bytes: seq<byte>, rest: seq<RecvEvent>)

  /** `recv` with room for `room` bytes: as many as there are and as fit, the others stay in the socket. */
  function Arrive(script: seq<RecvEvent>, room: nat): (r: Arrival)
    ensures |r.bytes| <= room && (r.result.Count? ==> |r.bytes| == r.result.n) && (!r.result.Count? ==> r.bytes == [])
    ensures r.result.Eintr? || r.bytes != [] ==> Weight(r.rest) < Weight(script)
  {
    if script == [] then Arrival(Count(0), [], [])
    else match script[0]
      case Idle => Arrival(TimedOut, [], script[1..])
      case Interrupted => Arrival(Eintr, [], script[1..])
      case Broken => Arrival(Failed, [], script[1..])
      case Data(bytes) =>
        var n := Min(|bytes|, room);
        if n == |bytes| then Arrival(Count(n), bytes, script[1..])
        else
          var rest := [Data(bytes[n..])] + script[1..];
          assert rest[1..] == script[1..];
          Arrival(Count(n), bytes[..n], rest)
  }

  // ----- All of them -----

  /** The parse behind the last chunk ended the connection: it served a request that closes it, or it
      met a request that can never be served. */
  predicate EndedBy(chunks: seq<seq<byte>>) {
    chunks != []
    && var r := Reference(Concat(chunks), 0);
    && Paced(chunks) == |r.frames|
    && if Paced(chunks) > Paced(chunks[..|chunks| - 1]) then r.verdict == ClientClose || r.verdict == MaxRequests
       else r.verdict == BadRequest || r.verdict == TooLarge
  }

  /** The room the buffer has left once the requests served after these chunks have been slid out of it. */
  function Room(chunks: seq<seq<byte>>): nat {
    var stream := Concat(chunks);
    PacedWithin(chunks);
    var used := |Concat(Reference(stream, 0).frames[..Paced(chunks)])|;
    if |stream| - used <= WINDOW then WINDOW - (|stream| - used) else 0
  }

  /** The connection from here on: the chunks received in the end, and why it was closed. */
  function Course(chunks: seq<seq<byte>>, script: seq<RecvEvent>): (seq<seq<byte>>, CloseReason)
    decreases Weight(script)
  {
    if EndedBy(chunks) then (chunks, Ended(Reference(Concat(chunks), 0).verdict))
    else
      var a := Arrive(script, Room(chunks));
      match a.result
      case TimedOut => (chunks, IdleTimeout)
      case Failed => (chunks, RecvFailed)
      case Eintr => Course(chunks, a.rest)
      case Count(n) => if n == 0 then (chunks, PeerClosed) else Course(chunks + [a.bytes], a.rest)
  }

  lemma CourseEnds(chunks: seq<seq<byte>>, script: seq<RecvEvent>)
    requires EndedBy(chunks)
    ensures Course(chunks, script) == (chunks, Ended(Reference(Concat(chunks), 0).verdict))
  {
  }

  /** One `recv`, seen from the client's side. */
  lemma ArrivalOfStream(script: seq<RecvEvent>, room: nat)
    requires room > 0
    ensures var a := Arrive(script, room);
            match a.result
            case TimedOut => Stream(script) == [] && Ending(script) == IdleTimeout
            case Failed => Stream(script) == [] && Ending(script) == RecvFailed
            case Eintr => Stream(script) == Stream(a.rest) && Ending(script) == Ending(a.rest)
            case Count(n) =>
              if n == 0 then Stream(script) == [] && Ending(script) == PeerClosed
              else Stream(script) == a.bytes + Stream(a.rest) && Ending(script) == Ending(a.rest)
  {
    if script != [] && script[0].Data? && script[0].bytes != [] {
      var bytes, a := script[0].bytes, Arrive(script, room);
      if |a.bytes| < |bytes| {
        assert a.rest[1..] == script[1..];
        assert bytes + Stream(script[1..]) == a.bytes + (bytes[|a.bytes|..] + Stream(script[1..]));
      }
    }
  }

  lemma FirstPiece(script: seq<RecvEvent>, room: nat)
    ensures var a := Arrive(script, room);
            a.bytes != [] ==> |a.bytes| == room || EndsPiece(script, |a.bytes|)
  {
  }

  lemma PieceAhead(script: seq<RecvEvent>, room: nat, n: int)
    requires var a := Arrive(script, room); (a.result.Eintr? || a.bytes != []) && EndsPiece(a.rest, n)
    ensures EndsPiece(script, n + |Arrive(script, room).bytes|)
  {
  }

  /** The script without its signals. */
  function Uninterrupted(script: seq<RecvEvent>): seq<RecvEvent> {
    if script == [] then []
    else (if script[0].Interrupted? then [] else [script[0]]) + Uninterrupted(script[1..])
  }

  lemma UninterruptedFirst(e: RecvEvent, rest: seq<RecvEvent>)
    ensures Uninterrupted([e] + rest) == if e.Interrupted? then Uninterrupted(rest) else [e] + Uninterrupted(rest)
  {
    assert ([e] + rest)[1..] == rest;
  }

  /** A signal changes nothing of what a `recv` brings, except that it comes first. */
  lemma ArrivalUninterrupted(script: seq<RecvEvent>, room: nat)
    ensures var a, b := Arrive(script, room), Arrive(Uninterrupted(script), room);
            if a.result.Eintr? then Uninterrupted(a.rest) == Uninterrupted(script)
            else b == a.(rest := Uninterrupted(a.rest))
  {
    if script != [] {
      assert script == [script[0]] + script[1..];
      UninterruptedFirst(script[0], script[1..]);
      var behind := Uninterrupted(script[1..]);
      assert !script[0].Interrupted? ==> Uninterrupted(script)[1..] == behind;
      if script[0].Data? {
        UninterruptedFirst(Data(script[0].bytes[Min(|script[0].bytes|, room)..]), script[1..]);
      }
    }
  }

  /** Signals never matter: a connection runs as it would without them. */
  lemma {:induction false} SignalsDoNotMatter(chunks: seq<seq<byte>>, script: seq<RecvEvent>)
    ensures Course(chunks, Uninterrupted(script)) == Course(chunks, script)
    decreases Weight(script)
  {
    hide EndedBy, Reference, Room, Arrive, Uninterrupted;
    var a := Arrive(script, Room(chunks));
    ArrivalUninterrupted(script, Room(chunks));
    if EndedBy(chunks) || (!a.result.Eintr? && a.bytes == []) {
      return;
    }
    SignalsDoNotMatter(if a.result.Eintr? then chunks else chunks + [a.bytes], a.rest);
  }
}
