/** How the parser's verdict behaves as bytes keep arriving. */
module ParserLaws {
  import opened Bytes
  import opened HttpParser

  /** The first terminator of a prefix that contains it is the first terminator of the whole. */
  lemma HeaderEndOfPrefix(s: seq<byte>, k: nat)
    requires k <= |s|
    ensures match HeaderEnd(s)
            case Some(he) => HeaderEnd(s[..k]) == if he + 4 <= k then Some(he) else None
            case None => HeaderEnd(s[..k]).None?
  {
    TerminatorFromIsFirst(s, 0);
    TerminatorFromIsFirst(s[..k], 0);
    assert forall j: nat :: AtTerminator(s[..k], j) <==> j + 4 <= k && AtTerminator(s, j);
  }

  /** Cutting the buffer at `k` either hides the decision or leaves it untouched. */
  lemma VerdictOfPrefix(s: seq<byte>, k: nat)
    requires k <= |s|
    ensures match ParseRequest(s)
            case Incomplete => ParseRequest(s[..k]).Incomplete?
            case Error => HeaderEnd(s).Some? && ParseRequest(s[..k]) == if HeaderEnd(s).value + 4 <= k then Error else Incomplete
            case Ok(m, frame) => 4 <= frame <= |s| && ParseRequest(s[..k]) == if frame <= k then Ok(m, frame) else Incomplete
  {
    hide ParseHead;
    HeaderEndOfPrefix(s, k);
    if HeaderEnd(s).Some? && HeaderEnd(s).value + 4 <= k {
      var he := HeaderEnd(s).value;
      assert s[..k][..he + 4] == s[..he + 4];
      if ParseHead(s[..he + 4]).Some? {
        var frame := he + 4 + ParseHead(s[..he + 4]).value.contentLength;
        if frame <= k {
          assert s[..k][he + 4..frame] == s[he + 4..frame];
        }
      }
    }
  }

  /** A decision is final: more bytes change neither the verdict nor any field. */
  lemma PrefixStability(s: seq<byte>, t: seq<byte>)
    ensures !ParseRequest(s).Incomplete? ==> ParseRequest(s + t) == ParseRequest(s)
  {
    VerdictOfPrefix(s + t, |s|);
    assert (s + t)[..|s|] == s;
  }

  /** Every stream is decided at one exact length, if at all: undecided before it, decided the same
      way from it on. */
  lemma DecisionPoint(s: seq<byte>) returns (d: nat)
    requires !ParseRequest(s).Incomplete?
    ensures 4 <= d <= |s|
    ensures ParseRequest(s).Ok? ==> d == ParseRequest(s).frame
    ensures forall k :: 0 <= k < d ==> ParseRequest(s[..k]).Incomplete?
    ensures forall k :: d <= k <= |s| ==> ParseRequest(s[..k]) == ParseRequest(s)
  {
    VerdictOfPrefix(s, 0);
    d := if ParseRequest(s).Ok? then ParseRequest(s).frame else HeaderEnd(s).value + 4;
    forall k | 0 <= k <= |s|
      ensures ParseRequest(s[..k]) == if d <= k then ParseRequest(s) else Incomplete
    {
      VerdictOfPrefix(s, k);
    }
  }

  /** A frame is a byte string the parser accepts as one whole request, nothing left over. */
  predicate IsFrame(f: seq<byte>) {
    ParseRequest(f).Ok? && ParseRequest(f).frame == |f|
  }

  function MessageOf(f: seq<byte>): Message
    requires IsFrame(f)
  {
    ParseRequest(f).message
  }

  /** The accepted part of a buffer is itself a frame. */
  lemma FrontIsFrame(s: seq<byte>)
    requires ParseRequest(s).Ok?
    ensures var f := s[..Min(ParseRequest(s).frame, |s|)];
            IsFrame(f) && |f| == ParseRequest(s).frame && MessageOf(f) == ParseRequest(s).message
  {
    VerdictOfPrefix(s, ParseRequest(s).frame);
  }

  /** Frame boundaries are unique: no frame is a proper prefix of another. */
  lemma FramesArePrefixFree(a: seq<byte>, b: seq<byte>)
    requires IsFrame(a) && IsFrame(b) && a <= b
    ensures a == b
  {
    PrefixStability(a, b[|a|..]);
    assert a + b[|a|..] == b;
  }
}
