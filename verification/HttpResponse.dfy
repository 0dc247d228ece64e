/** http_response.c: building a response in fixed-size fields and serialising it into one buffer. */
module HttpResponse {
  import opened Bytes
  import opened Numerals
  import opened HttpParser
  import opened HeaderBlock
  import opened Sockets

  const MAX_RESP_HEADERS := 24
  const RESP_REASON_MAX := 64
  const RESP_HEADER_NAME_MAX := 64
  const RESP_HEADER_VAL_MAX := 256
  const HEADER_BUFFER_SIZE := 8192

  const VERSION_AND_SPACE: seq<byte> := "HTTP/1.1 "
  const DATE: seq<byte> := "Date"
  const SERVER: seq<byte> := "Server"
  const SERVER_NAME: seq<byte> := "httpd/0.4"

  // ----- The block on the wire -----

  /** The status line up to its LF. */
  function StatusLine(status: int, reason: seq<byte>): seq<byte> {
    VERSION_AND_SPACE + Signed(status) + [' '] + reason + ['\r']
  }

  function Serialise(status: int, reason: seq<byte>, headers: seq<Header>): seq<byte> {
    StatusLine(status, reason) + ['\n'] + PrintFields(headers) + CRLF
  }

  /** A string some array of `size` bytes can hold, terminator included. */
  predicate Stored(s: seq<byte>, size: nat) {
    |s| < size && Lacks(s, '\0')
  }

  /** `strncpy` of a C string into a zeroed array of `size` bytes. */
  function Fitted(s: seq<byte>, size: nat): (r: seq<byte>)
    requires size > 0
    ensures Stored(r, size) && r <= CString(s)
  {
    CStringIsText(s);
    CString(s)[..Min(|CString(s)|, size - 1)]
  }

  predicate Fits(h: Header) {
    Stored(h.name, RESP_HEADER_NAME_MAX) && Stored(h.value, RESP_HEADER_VAL_MAX)
  }

  predicate AllFit(headers: seq<Header>) {
    forall i :: 0 <= i < |headers| ==> Fits(headers[i])
  }

  lemma {:induction false} FieldsBound(headers: seq<Header>)
    requires AllFit(headers)
    ensures |PrintFields(headers)| <= 322 * |headers|
  {
    if headers == [] {
    } else {
      FieldsBound(headers[1..]);
      FirstField(headers);
    }
  }

  /** The block never fills the buffer, so no `snprintf` into it is ever cut short. */
  lemma BlockBound(status: int, reason: seq<byte>, headers: seq<Header>)
    requires -0x8000_0000 <= status < 0x8000_0000 && |reason| < RESP_REASON_MAX
    requires |headers| <= MAX_RESP_HEADERS && AllFit(headers)
    ensures |Serialise(status, reason, headers)| <= 7816 < HEADER_BUFFER_SIZE
  {
    SignedFitsInt32(status);
    FieldsBound(headers);
  }

  // ----- Reading a block back -----

  function DigitPrefix(s: seq<byte>): (r: seq<byte>)
    ensures AllDigits(r) && r <= s
  {
    if s == [] || !IsDigit(s[0]) then [] else [s[0]] + DigitPrefix(s[1..])
  }

  /** A decimal number as it should be written: no leading zero, no "-0"; and what follows it. */
  function ReadSigned(s: seq<byte>): Option<(int, seq<byte>)> {
    var minus := s != [] && s[0] == '-';
    var t := if minus then s[1..] else s;
    var digits := DigitPrefix(t);
    if !NoLeadingZero(digits) || (minus && digits == "0") then None
    else
      var n: int := Decimal(digits);
      Some((if minus then -n else n, t[|digits|..]))
  }

  /** A status line up to its LF, by section 3.1.2 of RFC 7230, single spaces and a final CR included. */
  function ReadStatusLine(line: seq<byte>): Option<(int, seq<byte>)> {
    if |line| < 9 || line[..9] != "HTTP/1.1 " || line[|line| - 1] != '\r' then None
    else match ReadSigned(line[9..])
      case None => None
      case Some((status, rest)) =>
        if |rest| < 2 || rest[0] != ' ' then None else Some((status, rest[1..|rest| - 1]))
  }

  /** A header line up to its LF: exactly one space behind the colon, and a final CR. */
  function ReadField(line: seq<byte>): Option<Header> {
    match IndexOf(line, ':')
    case None => None
    case Some(k) =>
      if k == 0 || |line| < k + 3 || line[k + 1] != ' ' || line[|line| - 1] != '\r' then None
      else Some(Header(line[..k], line[k + 2..|line| - 1]))
  }

  function ReadFields(lines: seq<seq<byte>>): Option<seq<Header>> {
    if lines == [] then Some([])
    else match (ReadField(lines[0]), ReadFields(lines[1..]))
      case (Some(h), Some(hs)) => Some([h] + hs)
      case _ => None
  }

  /** All the lines of a text, which must end with an LF. */
  function SplitLines(s: seq<byte>): Option<seq<seq<byte>>>
    decreases |s|
  {
    if s == [] then Some([])
    else match IndexOf(s, '\n')
      case None => None
      case Some(k) =>
        match SplitLines(s[k + 1..])
        case None => None
        case Some(lines) => Some([s[..k]] + lines)
  }

  datatype Block = Block(status: int, reason: seq<byte>, headers: seq<Header>, length: nat)

  /** A client reading the header block strictly: nothing but a status line and header lines, as they
      should be written, up to the blank line. */
  function ReadBlock(s: seq<byte>): Option<Block> {
    match HeaderEnd(s)
    case None => None
    case Some(he) =>
      match SplitLines(s[..he + 2])
      case None => None
      case Some(lines) =>
        if lines == [] then None
        else match (ReadStatusLine(lines[0]), ReadFields(lines[1..]))
          case (Some(line), Some(headers)) => Some(Block(line.0, line.1, headers, he + 4))
          case _ => None
  }

  lemma {:induction false} DigitsInFront(digits: seq<byte>, t: seq<byte>)
    requires AllDigits(digits) && (t == [] || !IsDigit(t[0]))
    ensures DigitPrefix(digits + t) == digits
  {
    if digits == [] {
      assert digits + t == t;
    } else {
      assert (digits + t)[1..] == digits[1..] + t;
      DigitsInFront(digits[1..], t);
    }
  }

  lemma DecimalZero()
    ensures AllDigits("0") && Decimal("0") == 0
  {
  }

  lemma SignedRoundTrip(n: int, rest: seq<byte>)
    ensures ReadSigned(Signed(n) + [' '] + rest) == Some((n, [' '] + rest))
  {
    hide Decimal, DigitPrefix, Signed;
    SignedIsDecimal(n);
    DecimalZero();
    var t := [' '] + rest;
    var digits := if n < 0 then Signed(n)[1..] else Signed(n);
    DigitsInFront(digits, t);
    assert Signed(n) + [' '] + rest == Signed(n) + t;
    if n < 0 {
      assert (Signed(n) + t)[1..] == digits + t;
    }
    assert (digits + t)[|digits|..] == t;
  }

  lemma SignedIsOneLine(n: int)
    ensures Lacks(Signed(n), '\n')
  {
  }

  lemma StatusLineRoundTrip(status: int, reason: seq<byte>)
    requires Lacks(reason, '\n')
    ensures ReadStatusLine(StatusLine(status, reason)) == Some((status, reason))
    ensures var l := StatusLine(status, reason); l != [] && Lacks(l, '\n') && l[|l| - 1] == '\r'
    ensures 100 <= status <= 999 ==> StatusLine(status, reason)[12] == ' '
  {
    hide ReadSigned, Signed;
    var l := StatusLine(status, reason);
    var tail := reason + ['\r'];
    assert l[..9] == VERSION_AND_SPACE;
    assert l[9..] == Signed(status) + [' '] + tail;
    SignedRoundTrip(status, tail);
    assert ([' '] + tail)[1..|tail|] == reason;
    SignedIsOneLine(status);
    assert Lacks(VERSION_AND_SPACE, '\n');
    if 100 <= status <= 999 {
      ThreeDigits(status);
    }
  }

  lemma FieldLineReads(h: Header)
    requires OneLine(h)
    ensures ReadField(FieldLine(h)) == Some(h)
  {
    var l := FieldLine(h);
    var behind := [' '] + h.value + ['\r'];
    assert l == h.name + [':'] + behind;
    CutIs(h.name, ':', behind);
    assert l[|h.name| + 2..|l| - 1] == h.value;
  }

  lemma {:induction false} FieldLinesRead(headers: seq<Header>)
    requires AllOneLine(headers)
    ensures ReadFields(FieldLines(headers)) == Some(headers)
  {
    hide FieldLine, ReadField, OneLine;
    if headers == [] {
    } else {
      FieldLineReads(headers[0]);
      FieldLinesRead(headers[1..]);
      assert FieldLines(headers)[1..] == FieldLines(headers[1..]);
      assert headers == [headers[0]] + headers[1..];
    }
  }

  lemma {:induction false} TextSplits(lines: seq<seq<byte>>)
    requires AllLines(lines)
    ensures SplitLines(TextOf(lines)) == Some(lines)
  {
    hide IndexOf, Lacks;
    if lines == [] {
    } else {
      CutIs(lines[0], '\n', TextOf(lines[1..]));
      TextSplits(lines[1..]);
      assert lines == [lines[0]] + lines[1..];
    }
  }

  /** Where a printed block ends, and its text in front of the blank line. */
  lemma BlockIsText(status: int, reason: seq<byte>, headers: seq<Header>, body: seq<byte>)
    requires Lacks(reason, '\n') && AllOneLine(headers)
    ensures var s := Serialise(status, reason, headers);
            var lines := [StatusLine(status, reason)] + FieldLines(headers);
            && |s| >= 4 && HeaderEnd(s + body) == Some(|s| - 4)
            && AllLines(lines) && (s + body)[..|s| - 2] == TextOf(lines)
  {
    hide StatusLine, FieldLines, TerminatorFrom, OneLine;
    var first, fields := StatusLine(status, reason), PrintFields(headers);
    StatusLineRoundTrip(status, reason);
    FieldLinesAreLong(headers);
    var tail := fields + CRLF + body;
    if headers == [] {
      NoFields();
      assert tail == CRLF + body;
    } else {
      TerminatorOfPrint(headers, body);
      assert tail[0] == fields[0] && tail[1] == fields[1];
    }
    TerminatorAfterLine(first, tail);
    var s := Serialise(status, reason, headers);
    assert s + body == first + ['\n'] + tail;
    var lines := [first] + FieldLines(headers);
    assert lines[1..] == FieldLines(headers);
    assert (s + body)[..|s| - 2] == first + ['\n'] + fields;
  }

  /** Serialise, then read: the same status, the same reason, the same headers in order, and the end of
      the block exactly where it is, whatever body follows. */
  lemma BlockRoundTrip(status: int, reason: seq<byte>, headers: seq<Header>, body: seq<byte>)
    requires Lacks(reason, '\n') && AllOneLine(headers)
    ensures var s := Serialise(status, reason, headers);
            ReadBlock(s + body) == Some(Block(status, reason, headers, |s|))
  {
    hide StatusLine, ReadStatusLine, ReadFields, SplitLines, FieldLines, TextOf, Serialise, TerminatorFrom, OneLine;
    var lines := [StatusLine(status, reason)] + FieldLines(headers);
    BlockIsText(status, reason, headers, body);
    TextSplits(lines);
    assert lines[1..] == FieldLines(headers);
    StatusLineRoundTrip(status, reason);
    FieldLinesRead(headers);
  }

  // ----- The struct and its calls -----

  /** `stored` is the beginning of the C string `s`, all of it if it has at most `most` characters, and
      else as many. */
  predicate CutTo(stored: seq<byte>, s: seq<byte>, most: nat) {
    && stored <= CString(s)
    && |stored| == if |CString(s)| <= most then |CString(s)| else most
  }

  /** Only what does not fit is cut. */
  lemma FittedIs(s: seq<byte>, size: nat)
    requires size > 0
    ensures CutTo(Fitted(s, size), s, size - 1)
    ensures |CString(s)| < size ==> Fitted(s, size) == CString(s)
    ensures |CString(s)| >= size ==> |Fitted(s, size)| == size - 1
  {
    hide CString;
  }

  lemma FixedStrings()
    ensures Fitted(DATE, RESP_HEADER_NAME_MAX) == DATE && Fitted(SERVER, RESP_HEADER_NAME_MAX) == SERVER
    ensures Fitted(SERVER_NAME, RESP_HEADER_VAL_MAX) == SERVER_NAME
    ensures Fitted(CONTENT_LENGTH, RESP_HEADER_NAME_MAX) == CONTENT_LENGTH
  {
    assert DATE[..|DATE|] == DATE && SERVER[..|SERVER|] == SERVER && SERVER_NAME[..|SERVER_NAME|] == SERVER_NAME;
    assert CONTENT_LENGTH[..|CONTENT_LENGTH|] == CONTENT_LENGTH;
  }

  /** No 64-bit length is cut, by the 32-byte buffer it is printed to or by the header field. */
  lemma LengthText(length: int)
    requires -0x8000_0000_0000_0000 <= length < 0x8000_0000_0000_0000
    ensures |Signed(length)| < 32 && Fitted(Signed(length), RESP_HEADER_VAL_MAX) == Signed(length)
  {
    hide Numeral;
    var s := Signed(length);
    var n := if length < 0 then -length else length;
    assert Pow(10, 10) == 10_000_000_000;
    assert Pow(10, 19) == 10_000_000_000_000_000_000;
    NumeralLength(n, 10, 19);
    assert forall i :: 0 <= i < |s| ==> s[i] != '\0';
    assert s[..|s|] == s;
  }

  /** `snprintf(buf + at, room, ...)`: at most `room - 1` bytes and a NUL are stored; the length of the
      whole text is returned. */
  method Snprintf(buf: array<byte>, at: nat, room: nat, text: seq<byte>) returns (n: nat)
    requires at + room <= buf.Length
    modifies buf
    ensures n == |text|
    ensures room > 0 ==> var k := Min(n, room - 1); buf[at..at + k] == text[..k] && buf[at + k] == '\0'
    ensures forall i :: 0 <= i < buf.Length && !(at <= i < at + room) ==> buf[i] == old(buf[i])
  {
    n := |text|;
    if room > 0 {
      var k := Min(n, room - 1);
      forall i | 0 <= i < k {
        buf[at + i] := text[i];
      }
      buf[at + k] := '\0';
    }
  }

  /** `len += snprintf(buf + len, sizeof(buf) - len, ...)`, with room to spare. */
  method PrintInto(buf: array<byte>, len: nat, text: seq<byte>, ghost before: seq<byte>) returns (next: nat)
    requires len + |text| < buf.Length && buf[..len] == before
    modifies buf
    ensures next == len + |text| && buf[..next] == before + text
  {
    var n := Snprintf(buf, len, buf.Length - len, text);
    next := len + n;
    assert buf[len..next] == text;
    assert buf[..next] == buf[..len] + buf[len..next];
  }

  lemma NothingPrinted(headers: seq<Header>, first: seq<byte>)
    ensures first + PrintFields(headers[..0]) == first
  {
    NoFields();
  }

  lemma {:induction false} FieldsAppend(a: seq<Header>, b: seq<Header>)
    ensures PrintFields(a + b) == PrintFields(a) + PrintFields(b)
  {
    hide FieldLine, PrintFields;
    if a == [] {
      NoFields();
      assert a + b == b;
    } else {
      assert (a + b)[1..] == a[1..] + b;
      FieldsAppend(a[1..], b);
      FirstField(a);
      FirstField(a + b);
    }
  }

  /** Printing one more field, and room for it in a block that holds them all. */
  lemma NextField(headers: seq<Header>, i: nat, first: seq<byte>)
    requires i < |headers|
    ensures first + PrintFields(headers[..i]) + (FieldLine(headers[i]) + ['\n']) == first + PrintFields(headers[..i + 1])
    ensures |PrintFields(headers[..i + 1])| <= |PrintFields(headers)|
  {
    hide FieldLine, PrintFields;
    FieldsAppend(headers[..i], [headers[i]]);
    assert headers[..i + 1] == headers[..i] + [headers[i]];
    FirstField([headers[i]]);
    NoFields();
    assert [headers[i]][1..] == [];
    FieldsAppend(headers[..i + 1], headers[i + 1..]);
    assert headers == headers[..i + 1] + headers[i + 1..];
  }

  /** The HttpResponse struct; each `char[N]` is the string stored in it. */
  class Response {
    var status: int
    var reason: seq<byte>
    var headers: seq<Header>

    /** Everything stored fits the array the struct declares for it. */
    ghost predicate Valid()
      reads this
    {
      && -0x8000_0000 <= status < 0x8000_0000 && Stored(reason, RESP_REASON_MAX)
      && |headers| <= MAX_RESP_HEADERS && AllFit(headers)
    }

    /** `http_response_init`, with the clock's date handed in. */
    constructor (status: int, reason: seq<byte>, date: seq<byte>)
      requires -0x8000_0000 <= status < 0x8000_0000
      ensures Valid() && this.status == status && this.reason == Fitted(reason, RESP_REASON_MAX)
      ensures headers == [Header(DATE, Fitted(date, RESP_HEADER_VAL_MAX)), Header(SERVER, SERVER_NAME)]
      ensures CutTo(this.reason, reason, 63)
      ensures headers[0].name == "Date" && CutTo(headers[0].value, date, 255)
      ensures headers[1].name == "Server" && headers[1].value == "httpd/0.4"
    {
      this.status, this.reason, headers := status, Fitted(reason, RESP_REASON_MAX), [];
      new;
      FixedStrings();
      FittedIs(reason, RESP_REASON_MAX);
      AddHeader(DATE, date);
      AddHeader(SERVER, SERVER_NAME);
    }

    /** `http_response_add_header`: over-long text is cut, a 25th header is dropped. */
    method AddHeader(name: seq<byte>, value: seq<byte>)
      requires Valid()
      modifies this`headers
      ensures Valid()
      ensures headers == if |old(headers)| >= MAX_RESP_HEADERS then old(headers)
                         else old(headers) + [Header(Fitted(name, RESP_HEADER_NAME_MAX), Fitted(value, RESP_HEADER_VAL_MAX))]
      ensures |old(headers)| < 24 ==>
                && |headers| == |old(headers)| + 1 && headers[..|old(headers)|] == old(headers)
                && var h := headers[|old(headers)|];
                CutTo(h.name, name, 63) && CutTo(h.value, value, 255)
      ensures |old(headers)| >= 24 ==> headers == old(headers)
    {
      hide Fitted, CutTo;
      FittedIs(name, RESP_HEADER_NAME_MAX);
      FittedIs(value, RESP_HEADER_VAL_MAX);
      if |headers| >= MAX_RESP_HEADERS {
        return;
      }
      headers := headers + [Header(Fitted(name, RESP_HEADER_NAME_MAX), Fitted(value, RESP_HEADER_VAL_MAX))];
    }

    /** `http_response_set_content_length`: the length's decimal text is stored whole. */
    method SetContentLength(length: int)
      requires Valid() && -0x8000_0000_0000_0000 <= length < 0x8000_0000_0000_0000
      modifies this`headers
      ensures Valid()
      ensures headers == if |old(headers)| >= MAX_RESP_HEADERS then old(headers)
                         else old(headers) + [Header(CONTENT_LENGTH, Signed(length))]
      ensures headers != [] && |old(headers)| < 24 ==> headers[|headers| - 1].name == "Content-Length"
    {
      hide Fitted, Signed;
      LengthText(length);
      FixedStrings();
      AddHeader(CONTENT_LENGTH, Signed(length));
    }

    /** `http_response_send_headers`: one buffer, one `write`. It reports success exactly if that single
        write takes the whole block; what a short write leaves behind is not sent again. */
    method SendHeaders(fd: Sink) returns (r: int)
      requires Valid()
      modifies fd
      ensures fd.script == if old(fd.script) == [] then [] else old(fd.script)[1..]
      ensures var block := Serialise(status, reason, headers);
              match Answer(old(fd.script))
              case Accept(room) => r == (if room >= |block| then 0 else -1) && fd.wire == old(fd.wire) + block[..Min(room, |block|)]
              case _ => r == -1 && fd.wire == old(fd.wire)
    {
      hide PrintFields, StatusLine, FieldLine;
      BlockBound(status, reason, headers);
      ghost var first := StatusLine(status, reason) + ['\n'];
      var buf := new byte[HEADER_BUFFER_SIZE](_ => '\0');
      var len: nat := PrintInto(buf, 0, StatusLine(status, reason) + ['\n'], []);
      NothingPrinted(headers, first);
      for i := 0 to |headers|
        invariant fresh(buf) && buf.Length == HEADER_BUFFER_SIZE && unchanged(fd)
        invariant len <= |Serialise(status, reason, headers)| - 2
        invariant buf[..len] == first + PrintFields(headers[..i])
      {
        NextField(headers, i, first);
        len := PrintInto(buf, len, FieldLine(headers[i]) + ['\n'], first + PrintFields(headers[..i]));
      }
      assert headers[..|headers|] == headers;
      len := PrintInto(buf, len, CRLF, first + PrintFields(headers));
      assert buf[..len] == Serialise(status, reason, headers);
      var sent := fd.Write(buf[..len]);
      return if sent == Count(len) then 0 else -1;
    }
  }

  /** `http_response_send_body`: like `write_all`, but a write of 0 bytes is tried again. */
  method SendBody(fd: Sink, body: seq<byte>) returns (r: int)
    modifies fd
    ensures var w := WriteLoop(old(fd.script), |body|, false);
            r == (if w.ok then 0 else -1) && fd.script == w.script && fd.wire == old(fd.wire) + body[..w.taken]
    ensures Ends(old(fd.script), |body|, false, Sent(r == 0, |fd.wire| - |old(fd.wire)|, fd.script))
  {
    hide Ends;
    WriteLoopIs(fd.script, |body|, false);
    var remaining := |body|;
    while remaining > 0
      invariant 0 <= remaining <= |body| && fd.wire == old(fd.wire) + body[..|body| - remaining]
      invariant var all, rest := WriteLoop(old(fd.script), |body|, false), WriteLoop(fd.script, remaining, false);
                all == rest.(taken := |body| - remaining + rest.taken)
      decreases |fd.script|, remaining
    {
      var at := |body| - remaining;
      var n := fd.Write(body[at..]);
      match n {
        case Eintr =>
        case Failed => return -1;
        case Count(k) =>
          assert body[..at] + body[at..][..k] == body[..at + k];
          remaining := remaining - k;
      }
    }
    return 0;
  }
}
