/** C character buffers: octets, and the libc scans the server relies on. */
module Bytes {

  /** One C `char`, read as an unsigned octet. */
  type byte = c: char | c as int < 0x100 witness '\0'

  datatype Option<+T> = None | Some(value: T)

  const CRLF: seq<byte> := "\r\n"

  function Min(a: int, b: int): int {
    if a <= b then a else b
  }

  /** The first position of `c` in `s` at or after `from`. */
  function IndexFrom(s: seq<byte>, c: byte, from: nat): (r: Option<nat>)
    requires from <= |s|
    ensures r.Some? ==> from <= r.value < |s| && s[r.value] == c
    decreases |s| - from
  {
    if from == |s| then None
    else if s[from] == c then Some(from)
    else IndexFrom(s, c, from + 1)
  }

  /** `memchr`: the first position of `c` in `s`. */
  function IndexOf(s: seq<byte>, c: byte): Option<nat> {
    IndexFrom(s, c, 0)
  }

  /** The string a C reader sees: everything before the first NUL. */
  function CString(s: seq<byte>): (r: seq<byte>)
    ensures r <= s && (|r| < |s| ==> s[|r|] == '\0')
  {
    match IndexOf(s, '\0')
    case None => s
    case Some(k) => s[..k]
  }

  /** The octet a C reader finds at `s + i`, the terminator included. */
  function CharAt(s: seq<byte>, i: nat): byte
    requires i <= |s|
  {
    if i < |s| then s[i] else '\0'
  }

  /** `strcmp(a + from, b + from) == 0`. */
  predicate SameText(a: seq<byte>, b: seq<byte>, from: nat)
    requires from <= |a| && from <= |b|
    decreases |a| - from
  {
    CharAt(a, from) == CharAt(b, from) && (CharAt(a, from) == '\0' || SameText(a, b, from + 1))
  }

  lemma {:induction false} IndexFromIsFirst(s: seq<byte>, c: byte, from: nat)
    requires from <= |s|
    ensures match IndexFrom(s, c, from)
            case Some(k) => forall i :: from <= i < k ==> s[i] != c
            case None => forall i :: from <= i < |s| ==> s[i] != c
    decreases |s| - from
  {
    if from == |s| || s[from] == c {
    } else {
      IndexFromIsFirst(s, c, from + 1);
    }
  }

  lemma CStringIsText(s: seq<byte>)
    ensures forall i :: 0 <= i < |CString(s)| ==> CString(s)[i] != '\0'
    ensures (forall i :: 0 <= i < |s| ==> s[i] != '\0') ==> CString(s) == s
  {
    IndexFromIsFirst(s, '\0', 0);
  }

  /** It compares C strings. */
  lemma {:induction false} SameTextIff(a: seq<byte>, b: seq<byte>, from: nat)
    requires from <= |CString(a)| && from <= |CString(b)| && CString(a)[..from] == CString(b)[..from]
    ensures SameText(a, b, from) <==> CString(a) == CString(b)
    decreases |a| - from
  {
    CStringIsText(a);
    CStringIsText(b);
    var s, t := CString(a), CString(b);
    if from == |s| || from == |t| {
      assert s[..|s|] == s && t[..|t|] == t;
    } else if s[from] == t[from] {
      assert s[..from + 1] == s[..from] + [s[from]] && t[..from + 1] == t[..from] + [t[from]];
      SameTextIff(a, b, from + 1);
    }
  }

  function Concat(parts: seq<seq<byte>>): seq<byte> {
    if parts == [] then [] else parts[0] + Concat(parts[1..])
  }

  lemma IndexOfIs(s: seq<byte>, c: byte, k: nat)
    requires k < |s| && s[k] == c && forall i :: 0 <= i < k ==> s[i] != c
    ensures IndexOf(s, c) == Some(k)
  {
    IndexFromIsFirst(s, c, 0);
  }

  lemma NotFound(s: seq<byte>, c: byte)
    requires forall i :: 0 <= i < |s| ==> s[i] != c
    ensures IndexOf(s, c).None?
  {
  }

  lemma {:induction false} ConcatAppend(a: seq<seq<byte>>, b: seq<seq<byte>>)
    ensures Concat(a + b) == Concat(a) + Concat(b)
  {
    if a == [] {
      assert a + b == b;
    } else {
      assert (a + b)[1..] == a[1..] + b;
      ConcatAppend(a[1..], b);
    }
  }

  lemma ConcatSnoc(a: seq<seq<byte>>, x: seq<byte>)
    ensures Concat(a + [x]) == Concat(a) + x
  {
    ConcatAppend(a, [x]);
    assert [x][1..] == [];
    assert Concat([x]) == x + Concat([]);
  }

  lemma ConcatSingle(x: seq<byte>)
    ensures Concat([x]) == x
  {
    ConcatSnoc([], x);
    assert [] + [x] == [x];
  }
}
