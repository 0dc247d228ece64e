/** The writing end of a socket, and what a loop of `write` calls makes of it. */
module Sockets {
  import opened Bytes

  /** What one `write` call meets: room for some bytes (none: it returns 0), a signal, or an error. */
  datatype WriteEvent = Accept(room: nat) | Interrupted | Broken

  datatype WriteResult = Count(n: nat) | Eintr | Failed

  function Answer(script: seq<WriteEvent>): WriteEvent {
    if script == [] then Broken else script[0]
  }

  /** A descriptor: how it will answer, and everything it has taken so far. After the script, writes fail. */
  class Sink {
    var script: seq<WriteEvent>
    var wire: seq<byte>

    constructor (script: seq<WriteEvent>)
      ensures this.script == script && wire == []
    {
      this.script, wire := script, [];
    }

    method Write(data: seq<byte>) returns (r: WriteResult)
      modifies this
      ensures script == if old(script) == [] then [] else old(script)[1..]
      ensures match Answer(old(script))
              case Accept(room) => r == Count(Min(room, |data|)) && wire == old(wire) + data[..Min(room, |data|)]
              case Interrupted => r == Eintr && wire == old(wire)
              case Broken => r == Failed && wire == old(wire)
    {
      var answer := Answer(script);
      script := if script == [] then [] else script[1..];
      match answer
      case Accept(room) =>
        wire := wire + data[..Min(room, |data|)];
        return Count(Min(room, |data|));
      case Interrupted => return Eintr;
      case Broken => return Failed;
    }
  }

  /** Whether all the bytes went out, how many did, and how the descriptor will answer from then on. */
  datatype Sent = Sent(ok: bool, taken: nat, script: seq<WriteEvent>)

  /** A loop that writes `len` bytes, retrying short and interrupted writes. A write of 0 bytes ends it
      if `zeroFails`, and is retried otherwise. */
  function WriteLoop(script: seq<WriteEvent>, len: nat, zeroFails: bool): (r: Sent)
    ensures r.taken <= len && (r.ok <==> r.taken == len)
    decreases |script|
  {
    if len == 0 then Sent(true, 0, script)
    else if script == [] then Sent(false, 0, [])
    else match script[0]
      case Interrupted => WriteLoop(script[1..], len, zeroFails)
      case Broken => Sent(false, 0, script[1..])
      case Accept(room) =>
        if room == 0 && zeroFails then Sent(false, 0, script[1..])
        else
          var n := Min(room, len);
          var r := WriteLoop(script[1..], len - n, zeroFails);
          r.(taken := n + r.taken)
  }

  // ----- What such a loop does, in terms of the descriptor alone -----

  /** What the first `k` answers make room for. */
  function Rooms(script: seq<WriteEvent>, k: nat): nat
    requires k <= |script|
  {
    if k == 0 then 0
    else (match script[0] case Accept(room) => room case _ => 0) + Rooms(script[1..], k - 1)
  }

  predicate Fatal(e: WriteEvent, zeroFails: bool) {
    e.Broken? || (zeroFails && e == Accept(0))
  }

  predicate NoneFatal(script: seq<WriteEvent>, k: nat, zeroFails: bool)
    requires k <= |script|
  {
    forall i :: 0 <= i < k ==> !Fatal(script[i], zeroFails)
  }

  lemma {:induction false} RoomsGrow(script: seq<WriteEvent>, j: nat, k: nat)
    requires j <= k <= |script|
    ensures Rooms(script, j) <= Rooms(script, k)
  {
    if j == 0 {
    } else {
      RoomsGrow(script[1..], j - 1, k - 1);
    }
  }

  /** A loop ends behind `k` answers, none of them fatal: well, if they are the first to make room for all
      the bytes; or it fails, at a fatal answer or the end of the script, and what went out is what there was
      room for until then. Interrupted and short writes stop it in neither case. */
  predicate EndsAt(script: seq<WriteEvent>, len: nat, zeroFails: bool, k: nat, r: Sent) {
    && k <= |script| && NoneFatal(script, k, zeroFails)
    && if r.ok then r == Sent(true, len, script[k..]) && len <= Rooms(script, k) && forall j :: 0 <= j < k ==> Rooms(script, j) < len
       else
         && Rooms(script, k) < len && r.taken == Rooms(script, k)
         && if k == |script| then r.script == [] else Fatal(script[k], zeroFails) && r.script == script[k + 1..]
  }

  lemma RoomsBehind(script: seq<WriteEvent>)
    requires script != []
    ensures forall j :: 0 < j <= |script| ==> Rooms(script, j) == Rooms(script, 1) + Rooms(script[1..], j - 1)
    ensures Rooms(script, 0) == 0 && Rooms(script, 1) == match script[0] case Accept(room) => room case _ => 0
  {
  }

  /** One more answer in front. */
  lemma EndsLater(script: seq<WriteEvent>, len: nat, zeroFails: bool, i: nat, r: Sent)
    requires script != [] && len > 0 && !Fatal(script[0], zeroFails)
    requires EndsAt(script[1..], len - Min(len, Rooms(script, 1)), zeroFails, i, r)
    ensures EndsAt(script, len, zeroFails, i + 1, r.(taken := Min(len, Rooms(script, 1)) + r.taken))
  {
    hide Rooms, Fatal;
    RoomsBehind(script);
    var rest := script[1..];
    assert rest[i..] == script[i + 1..];
    if i < |rest| {
      assert rest[i + 1..] == script[i + 2..];
    }
  }

  lemma {:induction false} WriteLoopEnds(script: seq<WriteEvent>, len: nat, zeroFails: bool) returns (k: nat)
    ensures EndsAt(script, len, zeroFails, k, WriteLoop(script, len, zeroFails))
    decreases |script|
  {
    if len == 0 || script == [] || Fatal(script[0], zeroFails) {
      return 0;
    }
    var i := WriteLoopEnds(script[1..], len - Min(len, Rooms(script, 1)), zeroFails);
    hide NoneFatal, EndsAt;
    RoomsBehind(script);
    EndsLater(script, len, zeroFails, i, WriteLoop(script[1..], len - Min(len, Rooms(script, 1)), zeroFails));
    return i + 1;
  }

  ghost predicate Ends(script: seq<WriteEvent>, len: nat, zeroFails: bool, r: Sent) {
    exists k :: EndsAt(script, len, zeroFails, k, r)
  }

  lemma WriteLoopIs(script: seq<WriteEvent>, len: nat, zeroFails: bool)
    ensures Ends(script, len, zeroFails, WriteLoop(script, len, zeroFails))
  {
    hide WriteLoop, EndsAt;
    var k := WriteLoopEnds(script, len, zeroFails);
  }

  /** So it succeeds exactly if there is room for all the bytes before anything fatal. */
  lemma WriteLoopSucceedsIff(script: seq<WriteEvent>, len: nat, zeroFails: bool)
    ensures WriteLoop(script, len, zeroFails).ok <==>
            exists k :: 0 <= k <= |script| && NoneFatal(script, k, zeroFails) && len <= Rooms(script, k)
  {
    hide WriteLoop, Rooms;
    var end := WriteLoopEnds(script, len, zeroFails);
    if !WriteLoop(script, len, zeroFails).ok {
      forall k | 0 <= k <= |script| && NoneFatal(script, k, zeroFails) ensures Rooms(script, k) < len {
        RoomsGrow(script, k, end);
      }
    }
  }

  /** `write_all` on one part after the other, up to the first that fails. */
  function WriteParts(script: seq<WriteEvent>, parts: seq<seq<byte>>): (r: Sent)
    ensures r.taken <= |Concat(parts)| && (r.ok <==> r.taken == |Concat(parts)|)
    decreases |parts|
  {
    if parts == [] then Sent(true, 0, script)
    else
      var first := WriteLoop(script, |parts[0]|, true);
      if !first.ok then first
      else
        var r := WriteParts(first.script, parts[1..]);
        r.(taken := first.taken + r.taken)
  }

  lemma WritePartsSingle(script: seq<WriteEvent>, part: seq<byte>)
    ensures WriteParts(script, [part]) == WriteLoop(script, |part|, true)
    ensures WriteParts(script, []) == Sent(true, 0, script)
  {
    hide WriteLoop;
    assert [part][1..] == [];
    ConcatSingle(part);
  }

  /** Two lists of parts in a row: the second goes out only if all of the first did. */
  lemma {:induction false} WritePartsAppend(script: seq<WriteEvent>, a: seq<seq<byte>>, b: seq<seq<byte>>)
    ensures var first := WriteParts(script, a);
            WriteParts(script, a + b) ==
              if !first.ok then first
              else var second := WriteParts(first.script, b); second.(taken := first.taken + second.taken)
    decreases |a|
  {
    if a == [] {
      assert a + b == b;
    } else {
      assert (a + b)[1..] == a[1..] + b;
      var first := WriteLoop(script, |a[0]|, true);
      if first.ok {
        WritePartsAppend(first.script, a[1..], b);
      }
    }
  }

  /** The first `done` parts are out, and the descriptor now answers by `script`. */
  predicate Underway(start: seq<WriteEvent>, parts: seq<seq<byte>>, done: nat, script: seq<WriteEvent>) {
    && done <= |parts|
    && var rest := WriteParts(script, parts[done..]);
    WriteParts(start, parts) == rest.(taken := |Concat(parts[..done])| + rest.taken)
  }

  lemma NothingWritten(start: seq<WriteEvent>, parts: seq<seq<byte>>)
    ensures Underway(start, parts, 0, start)
  {
    assert parts[0..] == parts && parts[..0] == [];
  }

  /** One more `write_all` of the sequence. */
  lemma PartWritten(start: seq<WriteEvent>, parts: seq<seq<byte>>, done: nat, script: seq<WriteEvent>)
    requires done < |parts| && Underway(start, parts, done, script)
    ensures var r := WriteLoop(script, |parts[done]|, true);
            && Concat(parts[..done + 1]) == Concat(parts[..done]) + parts[done]
            && Concat(parts)[..|Concat(parts[..done])| + r.taken] == Concat(parts[..done]) + parts[done][..r.taken]
            && if r.ok then Underway(start, parts, done + 1, r.script)
               else WriteParts(start, parts) == Sent(false, |Concat(parts[..done])| + r.taken, r.script)
  {
    hide WriteLoop;
    var front, p, behind := parts[..done], parts[done], parts[done + 1..];
    assert parts[done..][1..] == behind;
    assert parts[..done + 1] == front + [p] && parts == front + [p] + behind;
    ConcatSnoc(front, p);
    ConcatAppend(front + [p], behind);
  }

  lemma AllWritten(start: seq<WriteEvent>, parts: seq<seq<byte>>, script: seq<WriteEvent>)
    requires Underway(start, parts, |parts|, script)
    ensures WriteParts(start, parts) == Sent(true, |Concat(parts)|, script)
    ensures Concat(parts)[..|Concat(parts)|] == Concat(parts[..|parts|])
  {
    assert parts[|parts|..] == [] && parts[..|parts|] == parts;
  }
}
