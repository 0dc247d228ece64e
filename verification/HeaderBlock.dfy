/** Printing header fields as "Name: Value" lines, and reading them back with the server's own parser. */
module HeaderBlock {
  import opened Bytes
  import opened HttpParser

  predicate Lacks(s: seq<byte>, c: byte) {
    forall i :: 0 <= i < |s| ==> s[i] != c
  }

  /** Fields the format can carry: no line breaks, and a name without a colon. */
  predicate OneLine(h: Header) {
    0 < |h.name| && Lacks(h.name, ':') && Lacks(h.name, '\n') && Lacks(h.value, '\n')
  }

  /** Fields the server's parser gives back: within its limits, and no blanks in front of the value. */
  predicate Printable(h: Header) {
    && OneLine(h) && |h.name| < MAX_HEADER_NAME && |h.value| < MAX_HEADER_VALUE
    && (h.value != [] ==> h.value[0] != ' ' && h.value[0] != '\t')
  }

  /** The line of one field, up to its LF. */
  function FieldLine(h: Header): (r: seq<byte>) {
    h.name + [':', ' '] + h.value + ['\r']
  }

  predicate AllLines(lines: seq<seq<byte>>) {
    forall i :: 0 <= i < |lines| ==> Lacks(lines[i], '\n')
  }

  /** A text of lines, each ended by its LF. */
  function TextOf(lines: seq<seq<byte>>): (r: seq<byte>) {
    if lines == [] then [] else lines[0] + ['\n'] + TextOf(lines[1..])
  }

  function LongLines(lines: seq<seq<byte>>): (r: seq<seq<byte>>) {
    if lines == [] then [] else (if |lines[0]| <= 1 then [] else [lines[0]]) + LongLines(lines[1..])
  }

  function FieldLines(hs: seq<Header>): (r: seq<seq<byte>>)
    ensures |r| == |hs|
  {
    if hs == [] then [] else [FieldLine(hs[0])] + FieldLines(hs[1..])
  }

  lemma {:induction false} FieldLineAt(hs: seq<Header>, i: nat)
    requires i < |hs|
    ensures FieldLines(hs)[i] == FieldLine(hs[i])
  {
    hide FieldLine;
    if i == 0 {
    } else {
      FieldLineAt(hs[1..], i - 1);
    }
  }

  function PrintFields(hs: seq<Header>): seq<byte> {
    TextOf(FieldLines(hs))
  }

  lemma NoFields()
    ensures PrintFields([]) == []
  {
  }

  lemma FirstField(hs: seq<Header>)
    requires hs != []
    ensures PrintFields(hs) == FieldLine(hs[0]) + ['\n'] + PrintFields(hs[1..])
  {
    hide FieldLine;
    assert FieldLines(hs)[1..] == FieldLines(hs[1..]);
  }

  lemma FieldLineShape(h: Header)
    requires OneLine(h)
    ensures var l := FieldLine(h);
            |l| == |h.name| + |h.value| + 3 && Lacks(l, '\n') && l[|l| - 1] == '\r'
  {
  }

  predicate Blanks(s: seq<byte>) {
    forall i :: 0 <= i < |s| ==> s[i] == ' ' || s[i] == '\t'
  }

  predicate StartsSolid(s: seq<byte>) {
    s != [] ==> s[0] != ' ' && s[0] != '\t'
  }

  lemma {:induction false} SkipsBlanks(blanks: seq<byte>, s: seq<byte>)
    requires Blanks(blanks) && StartsSolid(s)
    ensures SkipOws(blanks + s) == s
  {
    if blanks == [] {
      assert blanks + s == s;
    } else {
      assert (blanks + s)[1..] == blanks[1..] + s;
      SkipsBlanks(blanks[1..], s);
    }
  }

  lemma {:induction false} SkippedAreBlanks(s: seq<byte>) returns (blanks: seq<byte>)
    ensures Blanks(blanks) && StartsSolid(SkipOws(s)) && s == blanks + SkipOws(s)
  {
    if s != [] && (s[0] == ' ' || s[0] == '\t') {
      var rest := SkippedAreBlanks(s[1..]);
      blanks := [s[0]] + rest;
      assert s == [s[0]] + s[1..];
    } else {
      blanks := [];
    }
  }

  /** A text is what is in front of its first `c`, that `c`, and the rest. */
  lemma CutAt(s: seq<byte>, c: byte) returns (front: seq<byte>, behind: seq<byte>)
    requires IndexOf(s, c).Some?
    ensures s == front + [c] + behind && Lacks(front, c)
    ensures var k := IndexOf(s, c).value; |front| == k && front == s[..k] && behind == s[k + 1..]
  {
    IndexFromIsFirst(s, c, 0);
    var k := IndexOf(s, c).value;
    front, behind := s[..k], s[k + 1..];
  }

  /** And the other way: an octet absent from `front` is found right behind it. */
  lemma CutIs(front: seq<byte>, c: byte, behind: seq<byte>)
    requires Lacks(front, c)
    ensures var s := front + [c] + behind;
            IndexOf(s, c) == Some(|front|) && s[..|front|] == front && s[|front| + 1..] == behind
  {
    IndexOfIs(front + [c] + behind, c, |front|);
  }

  lemma StrippedCr(s: seq<byte>) returns (cr: seq<byte>)
    ensures var r := StripCr(s);
            s == r + cr && (cr == ['\r'] || (cr == [] && (r == [] || r[|r| - 1] != '\r')))
  {
    cr := s[|StripCr(s)|..];
  }

  /** A header line: a name within its limit, the first colon, blanks, a value within its limit that does
      not start with one, and at most one CR behind it. */
  predicate FieldShape(line: seq<byte>, h: Header, blanks: seq<byte>, cr: seq<byte>) {
    && line == h.name + [':'] + (blanks + (h.value + cr))
    && Blanks(blanks) && (cr == ['\r'] || (cr == [] && (h.value == [] || h.value[|h.value| - 1] != '\r')))
    && 0 < |h.name| < 128 && Lacks(h.name, ':') && |h.value| < 4096 && StartsSolid(h.value)
  }

  lemma FieldIsRead(line: seq<byte>, h: Header, blanks: seq<byte>, cr: seq<byte>)
    requires FieldShape(line, h, blanks, cr)
    ensures ParseHeaderLine(line) == Some(h)
  {
    CutIs(h.name, ':', blanks + (h.value + cr));
    assert SkipOws(blanks + (h.value + cr)) == h.value + cr by {
      SkipsBlanks(blanks, h.value + cr);
    }
    assert StripCr(h.value + cr) == h.value;
    hide SkipOws, StripCr, IndexOf, Blanks, Lacks;
  }

  lemma FieldReadShape(line: seq<byte>) returns (blanks: seq<byte>, cr: seq<byte>)
    requires ParseHeaderLine(line).Some?
    ensures FieldShape(line, ParseHeaderLine(line).value, blanks, cr)
  {
    hide SkipOws, StripCr, IndexOf;
    var name, behind := CutAt(line, ':');
    blanks := SkippedAreBlanks(behind);
    cr := StrippedCr(SkipOws(behind));
  }

  ghost predicate IsField(line: seq<byte>, h: Header) {
    exists blanks, cr :: FieldShape(line, h, blanks, cr)
  }

  /** Exactly these lines are accepted, and read as what they are made of. */
  lemma FieldIff(line: seq<byte>, h: Header)
    ensures ParseHeaderLine(line) == Some(h) <==> IsField(line, h)
  {
    hide ParseHeaderLine, FieldShape;
    if ParseHeaderLine(line) == Some(h) {
      var blanks, cr := FieldReadShape(line);
    }
    if IsField(line, h) {
      var blanks, cr :| FieldShape(line, h, blanks, cr);
      FieldIsRead(line, h, blanks, cr);
    }
  }

  /** And a list of lines exactly if there are at most 32 and each is accepted. */
  lemma HeadersIff(lines: seq<seq<byte>>, hs: seq<Header>)
    ensures ParseHeaders(lines) == Some(hs) <==>
            |lines| <= 32 && |hs| == |lines| && forall i :: 0 <= i < |lines| ==> IsField(lines[i], hs[i])
  {
    hide ParseHeaderLine, IsField;
    forall i | 0 <= i < |lines| && i < |hs| ensures ParseHeaderLine(lines[i]) == Some(hs[i]) <==> IsField(lines[i], hs[i]) {
      FieldIff(lines[i], hs[i]);
    }
    if |lines| <= 32 && |hs| == |lines| && forall i :: 0 <= i < |lines| ==> IsField(lines[i], hs[i]) {
      assert AllParse(lines) && HeadersOf(lines) == hs;
    }
  }

  lemma FieldLineRoundTrip(h: Header)
    requires Printable(h)
    ensures ParseHeaderLine(FieldLine(h)) == Some(h)
  {
    hide ParseHeaderLine, SkipOws, Lacks;
    assert h.name + [':'] + ([' '] + (h.value + ['\r'])) == FieldLine(h);
    FieldIsRead(FieldLine(h), h, [' '], ['\r']);
  }

  lemma NoLine(rest: seq<byte>)
    requires Lacks(rest, '\n')
    ensures HeaderLines(rest) == []
  {
    NotFound(rest, '\n');
  }

  /** Of a text, exactly the lines longer than one octet are header lines, in order; what follows the
      last LF is none. */
  lemma {:induction false} HeaderLinesOfText(lines: seq<seq<byte>>, rest: seq<byte>)
    requires AllLines(lines) && Lacks(rest, '\n')
    ensures HeaderLines(TextOf(lines) + rest) == LongLines(lines)
  {
    hide IndexOf, Lacks;
    if lines == [] {
      assert TextOf(lines) + rest == rest;
      NoLine(rest);
    } else {
      var behind := TextOf(lines[1..]) + rest;
      assert TextOf(lines) + rest == lines[0] + ['\n'] + behind;
      CutIs(lines[0], '\n', behind);
      HeaderLinesOfText(lines[1..], rest);
    }
  }

  /** Every byte string is such a text, up to what follows its last LF. */
  lemma {:induction false} TextIsLines(s: seq<byte>) returns (lines: seq<seq<byte>>, rest: seq<byte>)
    ensures s == TextOf(lines) + rest && AllLines(lines) && Lacks(rest, '\n')
    ensures s != [] && s[|s| - 1] == '\n' ==> rest == []
    decreases |s|
  {
    hide IndexFrom;
    if IndexOf(s, '\n').None? {
      IndexFromIsFirst(s, '\n', 0);
      return [], s;
    }
    var first, behind := CutAt(s, '\n');
    var others;
    others, rest := TextIsLines(behind);
    lines := [first] + others;
    assert lines[1..] == others;
  }

  predicate AllOneLine(hs: seq<Header>) {
    forall i :: 0 <= i < |hs| ==> OneLine(hs[i])
  }

  predicate AllPrintable(hs: seq<Header>) {
    forall i :: 0 <= i < |hs| ==> Printable(hs[i])
  }

  lemma PrintableIsOneLine(hs: seq<Header>)
    requires AllPrintable(hs)
    ensures AllOneLine(hs)
  {
  }

  /** The lines of printable fields are lines, all long, and parse as the fields if there are at most 32. */
  lemma {:induction false} FieldLinesAreLong(hs: seq<Header>)
    requires AllOneLine(hs)
    ensures AllLines(FieldLines(hs)) && LongLines(FieldLines(hs)) == FieldLines(hs)
  {
    hide FieldLine, OneLine, Lacks;
    if hs == [] {
    } else {
      FieldLineShape(hs[0]);
      FieldLinesAreLong(hs[1..]);
      assert FieldLines(hs)[1..] == FieldLines(hs[1..]);
    }
  }

  lemma FieldLinesParse(hs: seq<Header>)
    requires AllPrintable(hs)
    ensures ParseHeaders(FieldLines(hs)) == if |hs| <= MAX_HEADERS then Some(hs) else None
  {
    hide FieldLine, ParseHeaderLine, Printable, FieldLines;
    var lines := FieldLines(hs);
    forall i | 0 <= i < |hs| ensures lines[i] == FieldLine(hs[i]) && ParseHeaderLine(lines[i]) == Some(hs[i]) {
      FieldLineAt(hs, i);
      FieldLineRoundTrip(hs[i]);
    }
    if |hs| <= MAX_HEADERS {
      assert HeadersOf(lines) == hs;
    }
  }

  /** Up to 32 printable fields come back as they were, in order. */
  lemma FieldsRoundTrip(hs: seq<Header>)
    requires AllPrintable(hs)
    ensures ParseHeaders(HeaderLines(PrintFields(hs))) == if |hs| <= MAX_HEADERS then Some(hs) else None
  {
    hide HeaderLines, FieldLines, TextOf, ParseHeaders, Printable, OneLine;
    PrintableIsOneLine(hs);
    FieldLinesAreLong(hs);
    HeaderLinesOfText(FieldLines(hs), []);
    assert PrintFields(hs) + [] == PrintFields(hs);
    FieldLinesParse(hs);
  }

  predicate StartsBlank(s: seq<byte>) {
    |s| >= 2 && s[0] == '\r' && s[1] == '\n'
  }

  /** A terminator is never found inside a line: the search moves on to what follows the line. */
  lemma TerminatorAfterLine(l: seq<byte>, rest: seq<byte>)
    requires Lacks(l, '\n') && |l| > 0 && l[|l| - 1] == '\r'
    ensures StartsBlank(rest) ==> HeaderEnd(l + ['\n'] + rest) == Some(|l| - 1)
    ensures !StartsBlank(rest) && HeaderEnd(rest).Some? ==>
              HeaderEnd(l + ['\n'] + rest) == Some(|l| + 1 + HeaderEnd(rest).value)
  {
    var s := l + ['\n'] + rest;
    TerminatorFromIsFirst(s, 0);
    TerminatorFromIsFirst(rest, 0);
    assert forall j: nat :: j < |l| - 1 ==> !AtTerminator(s, j) by {
      forall j: nat | j < |l| - 1 ensures !AtTerminator(s, j) {
        assert s[j + 1] == l[j + 1];
      }
    }
    assert AtTerminator(s, |l| - 1) <==> StartsBlank(rest);
    assert forall j: nat :: AtTerminator(rest, j) ==> AtTerminator(s, |l| + 1 + j);
    assert forall j: nat :: |l| < j && AtTerminator(s, j) ==> AtTerminator(rest, j - |l| - 1);
    assert !AtTerminator(s, |l|);
  }

  /** The blank line behind the fields is where a printed block ends, whatever follows it. */
  lemma {:induction false} TerminatorOfPrint(hs: seq<Header>, rest: seq<byte>)
    requires hs != [] && AllOneLine(hs)
    ensures |PrintFields(hs)| >= 2 && !StartsBlank(PrintFields(hs))
    ensures HeaderEnd(PrintFields(hs) + CRLF + rest) == Some(|PrintFields(hs)| - 2)
  {
    hide TerminatorFrom, PrintFields;
    var l := FieldLine(hs[0]);
    FieldLineShape(hs[0]);
    FirstField(hs);
    var tail := PrintFields(hs[1..]) + CRLF + rest;
    assert PrintFields(hs) + CRLF + rest == l + ['\n'] + tail;
    if hs[1..] != [] {
      TerminatorOfPrint(hs[1..], rest);
      assert tail[0] == PrintFields(hs[1..])[0] && tail[1] == PrintFields(hs[1..])[1];
    } else {
      NoFields();
      assert tail == CRLF + rest;
    }
    TerminatorAfterLine(l, tail);
  }
}
