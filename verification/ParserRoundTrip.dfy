/** Printing a request and parsing it again. */
module ParserRoundTrip {
  import opened Bytes
  import opened Numerals
  import opened HttpParser
  import opened ParserLaws
  import opened HeaderBlock
  import opened HeaderLookup

  function PrintTarget(line: RequestLine): seq<byte> {
    line.path + if line.query == [] then [] else ['?'] + line.query
  }

  /** The request line up to its LF. */
  function PrintLine(line: RequestLine): seq<byte> {
    line.verb + [' '] + PrintTarget(line) + [' '] + line.version + ['\r']
  }

  function PrintHead(line: RequestLine, headers: seq<Header>): seq<byte> {
    PrintLine(line) + ['\n'] + PrintFields(headers) + CRLF
  }

  predicate PrintableLine(line: RequestLine) {
    && 0 < |line.verb| < MAX_METHOD_LEN && Lacks(line.verb, ' ') && Lacks(line.verb, '\n')
    && |line.path| < MAX_PATH_LEN && Lacks(line.path, ' ') && Lacks(line.path, '\n') && Lacks(line.path, '?')
    && |line.query| < MAX_PATH_LEN && Lacks(line.query, ' ') && Lacks(line.query, '\n')
    && (line.version == HTTP_1_0 || line.version == HTTP_1_1)
  }

  lemma SplitShape(target: seq<byte>) returns (mark: seq<byte>)
    requires SplitTarget(target).Some?
    ensures var (path, query) := SplitTarget(target).value;
            && target == path + mark + query && Lacks(path, '?') && (mark == ['?'] || (mark == [] && query == []))
            && |path| < 2048 && |query| < 2048
  {
    if IndexOf(target, '?').Some? {
      var path, query := CutAt(target, '?');
      mark := ['?'];
    } else {
      IndexFromIsFirst(target, '?', 0);
      mark := [];
    }
  }

  lemma TargetSplits(path: seq<byte>, mark: seq<byte>, query: seq<byte>)
    requires Lacks(path, '?') && (mark == ['?'] || (mark == [] && query == [])) && |path| < 2048 && |query| < 2048
    ensures SplitTarget(path + mark + query) == Some((path, query))
  {
    if mark == [] {
      assert path + mark + query == path;
      NotFound(path, '?');
    } else {
      CutIs(path, '?', query);
    }
  }

  /** A request line: a method, a target and a version between single spaces, each within its limit, the
      target cut at its first '?', and at most one CR behind the version, which is HTTP/1.0 or HTTP/1.1. */
  predicate LineShape(line: seq<byte>, r: RequestLine, mark: seq<byte>, cr: seq<byte>) {
    && line == r.verb + [' '] + ((r.path + mark + r.query) + [' '] + (r.version + cr))
    && (mark == ['?'] || (mark == [] && r.query == []))
    && (cr == ['\r'] || (cr == [] && (r.version == [] || r.version[|r.version| - 1] != '\r')))
    && 0 < |r.verb| < 16 && Lacks(r.verb, ' ')
    && |r.path| < 2048 && Lacks(r.path, '?') && |r.query| < 2048 && Lacks(r.path + mark + r.query, ' ')
    && |r.version| < 16 && (CString(r.version) == "HTTP/1.0" || CString(r.version) == "HTTP/1.1")
  }

  lemma VersionShape(s: seq<byte>) returns (cr: seq<byte>)
    requires ParseVersion(s).Some?
    ensures var version := ParseVersion(s).value;
            && s == version + cr
            && (cr == ['\r'] || (cr == [] && (version == [] || version[|version| - 1] != '\r')))
            && |version| < 16 && (CString(version) == "HTTP/1.0" || CString(version) == "HTTP/1.1")
  {
    hide SupportedVersion, StripCr, CString;
    cr := StrippedCr(s);
    SupportedIff(StripCr(s));
  }

  lemma LineReadShape(line: seq<byte>) returns (mark: seq<byte>, cr: seq<byte>)
    requires ParseRequestLine(line).Some?
    ensures LineShape(line, ParseRequestLine(line).value, mark, cr)
  {
    hide ParseVersion, IndexOf, SplitTarget, Lacks, CString;
    var verb, behind := CutAt(line, ' ');
    var target, last := CutAt(behind, ' ');
    assert line[|verb| + 1..|verb| + 1 + |target|] == target;
    assert line[|verb| + 1 + |target| + 1..] == last;
    mark := SplitShape(target);
    cr := VersionShape(last);
  }

  lemma EmptyString()
    ensures CString([]) == []
  {
  }

  lemma VersionIsRead(version: seq<byte>, cr: seq<byte>)
    requires cr == ['\r'] || (cr == [] && (version == [] || version[|version| - 1] != '\r'))
    requires |version| < 16 && (CString(version) == "HTTP/1.0" || CString(version) == "HTTP/1.1")
    ensures ParseVersion(version + cr) == Some(version)
  {
    hide SupportedVersion, CString;
    EmptyString();
    SupportedIff(version);
    assert StripCr(version + cr) == version;
  }

  lemma ShapedLineParses(line: seq<byte>, r: RequestLine, mark: seq<byte>, cr: seq<byte>)
    requires LineShape(line, r, mark, cr)
    ensures ParseRequestLine(line) == Some(r)
  {
    hide ParseVersion, SupportedVersion, IndexOf, SplitTarget, CString, Lacks;
    var target, last := r.path + mark + r.query, r.version + cr;
    VersionIsRead(r.version, cr);
    TargetSplits(r.path, mark, r.query);
    CutIs(r.verb, ' ', target + [' '] + last);
    CutIs(target, ' ', last);
    var sp2 := |r.verb| + 1 + |target|;
    assert line[|r.verb| + 1..] == target + [' '] + last;
    assert line[|r.verb| + 1..sp2] == target && line[sp2 + 1..] == last;
  }

  /** Exactly these lines are accepted, and read as what they are made of. */
  lemma LineIff(line: seq<byte>, r: RequestLine)
    ensures ParseRequestLine(line) == Some(r) <==> exists mark, cr :: LineShape(line, r, mark, cr)
  {
    hide ParseRequestLine, LineShape;
    if ParseRequestLine(line) == Some(r) {
      var mark, cr := LineReadShape(line);
    }
    forall mark, cr | LineShape(line, r, mark, cr) ensures ParseRequestLine(line) == Some(r) {
      ShapedLineParses(line, r, mark, cr);
    }
  }

  lemma LineRoundTrip(line: RequestLine)
    requires PrintableLine(line)
    ensures ParseRequestLine(PrintLine(line)) == Some(line)
    ensures var s := PrintLine(line); s != [] && Lacks(s, '\n') && s[|s| - 1] == '\r'
  {
    hide ParseRequestLine, CString;
    IsItsOwnString(line.version);
    var mark: seq<byte> := if line.query == [] then [] else ['?'];
    var target := line.path + mark + line.query;
    assert PrintTarget(line) == target;
    assert PrintLine(line) == line.verb + [' '] + (target + [' '] + (line.version + ['\r']));
    ShapedLineParses(PrintLine(line), line, mark, ['\r']);
  }

  /** A line, a text of lines, and the blank line. */
  function HeadText(line: seq<byte>, lines: seq<seq<byte>>): seq<byte> {
    line + ['\n'] + TextOf(lines) + CRLF
  }

  /** A head, seen as text: its first line, the lines after it, and its first blank line at the very end. */
  predicate IsHead(line: seq<byte>, lines: seq<seq<byte>>) {
    Lacks(line, '\n') && AllLines(lines) && HeaderEnd(HeadText(line, lines)) == Some(|HeadText(line, lines)| - 4)
  }

  /** Any buffer with a blank line in it is a head and what is behind it. */
  lemma BuffersAreText(raw: seq<byte>) returns (line: seq<byte>, lines: seq<seq<byte>>, behind: seq<byte>)
    requires HeaderEnd(raw).Some?
    ensures IsHead(line, lines) && raw == HeadText(line, lines) + behind
  {
    hide TerminatorFrom, TextOf, IndexFrom, AllLines;
    TerminatorFromIsFirst(raw, 0);
    var he := HeaderEnd(raw).value;
    HeaderEndOfPrefix(raw, he + 4);
    behind := raw[he + 4..];
    var text := raw[..he + 2];
    assert text[he + 1] == '\n';
    IndexFromIsFirst(text, '\n', 0);
    var section, rest;
    line, section := CutAt(text, '\n');
    lines, rest := TextIsLines(section);
    assert section != [] ==> section[|section| - 1] == text[he + 1];
    assert raw[..he + 4] == text + CRLF;
    assert HeadText(line, lines) == line + ['\n'] + section + CRLF;
  }

  /** With a line behind it, the first LF is in front of the blank line. */
  lemma SectionIsLong(line: seq<byte>, lines: seq<seq<byte>>)
    requires lines != [] && AtTerminator(HeadText(line, lines), |line| + |TextOf(lines)| - 1)
    ensures |TextOf(lines)| >= 2
  {
    var head := HeadText(line, lines);
    assert |head| == |line| + |TextOf(lines)| + 3;
  }

  lemma HeadIsParsed(line: seq<byte>, lines: seq<seq<byte>>)
    requires IsHead(line, lines)
    ensures var head := HeadText(line, lines);
            && |head| >= 4 && HeaderEnd(head) == Some(|head| - 4)
            && ParseHead(head) == match (ParseRequestLine(line), ParseHeaders(LongLines(lines)))
                                  case (Some(first), Some(headers)) => if lines == [] then None else Some(MakeRequest(first, headers))
                                  case _ => None
  {
    hide ParseRequestLine, ParseHeaders, HeaderLines, LongLines, MakeRequest, TerminatorFrom, AllLines, IndexFrom;
    var head, section := HeadText(line, lines), TextOf(lines);
    TerminatorFromIsFirst(head, 0);
    var he := |head| - 4;
    assert head[..|line|] == line;
    if lines == [] {
      assert head[..he] == line[..|line| - 1];
      NotFound(head[..he], '\n');
    } else {
      SectionIsLong(line, lines);
      IndexOfIs(head[..he], '\n', |line|);
      assert head[|line| + 1..|head| - 2] == section + [];
      HeaderLinesOfText(lines, []);
    }
  }

  /** And what the parser makes of it, in terms of that text: a request line that parses, lines of which
      those longer than one octet parse as at most 32 headers, and the declared number of octets behind. */
  lemma TextIsParsed(line: seq<byte>, lines: seq<seq<byte>>, behind: seq<byte>)
    requires IsHead(line, lines)
    ensures ParseRequest(HeadText(line, lines) + behind) ==
            match (ParseRequestLine(line), ParseHeaders(LongLines(lines)))
            case (Some(first), Some(headers)) =>
              if lines == [] then Error
              else
                var r := MakeRequest(first, headers);
                var n := r.contentLength;
                if |behind| < n then Incomplete else Ok(Message(r, behind[..n]), |HeadText(line, lines)| + n)
            case _ => Error
  {
    hide ParseHead, ParseRequestLine, ParseHeaders, LongLines, MakeRequest, TerminatorFrom, IsHead, HeadText;
    var head := HeadText(line, lines);
    var s := head + behind;
    HeadIsParsed(line, lines);
    HeaderEndOfPrefix(s, |head|);
    assert s[..|head|] == head;
    assert forall n :: 0 <= n <= |behind| ==> s[|head|..|head| + n] == behind[..n];
  }

  // ----- Printed requests -----

  /** What is printed is a head. */
  lemma PrintIsHead(line: RequestLine, headers: seq<Header>)
    requires PrintableLine(line) && AllPrintable(headers)
    ensures PrintHead(line, headers) == HeadText(PrintLine(line), FieldLines(headers))
    ensures IsHead(PrintLine(line), FieldLines(headers))
  {
    hide PrintLine, ParseRequestLine, PrintableLine, FieldLines, TerminatorFrom;
    var first, fields := PrintLine(line), PrintFields(headers);
    LineRoundTrip(line);
    PrintableIsOneLine(headers);
    FieldLinesAreLong(headers);
    var tail := fields + CRLF;
    if headers == [] {
      NoFields();
      assert tail == CRLF;
    } else {
      TerminatorOfPrint(headers, []);
      assert fields + CRLF + [] == tail;
      assert tail[0] == fields[0] && tail[1] == fields[1];
    }
    TerminatorAfterLine(first, tail);
    assert PrintHead(line, headers) == first + ['\n'] + tail;
  }

  /** Without any header the search for the end of the request line stops short of its LF. */
  lemma BareHead(line: RequestLine, rest: seq<byte>)
    requires PrintableLine(line)
    ensures var head := PrintHead(line, []);
            |head| >= 4 && HeaderEnd(head + rest) == Some(|head| - 4) && ParseHead(head).None?
  {
    hide PrintHead, HeadText, PrintableLine, IsHead, ParseHead, ParseHeaders, TerminatorFrom;
    var head := PrintHead(line, []);
    PrintIsHead(line, []);
    HeadIsParsed(PrintLine(line), FieldLines([]));
    HeaderEndOfPrefix(head + rest, |head|);
    assert (head + rest)[..|head|] == head;
  }

  /** Print, then parse. With 1 to 32 headers: the same line, the same headers in the same order, the
      same body, and a frame that ends exactly where the printed request does, whatever bytes follow
      it. With more headers, or with none at all, the request is refused. */
  lemma RequestRoundTrip(line: RequestLine, headers: seq<Header>, body: seq<byte>, rest: seq<byte>)
    requires PrintableLine(line) && AllPrintable(headers) && ContentLength(headers) == |body|
    ensures var printed := PrintHead(line, headers) + body;
            ParseRequest(printed + rest) ==
              if 1 <= |headers| <= MAX_HEADERS then Ok(Message(MakeRequest(line, headers), body), |printed|) else Error
  {
    hide ParseRequest, ParseRequestLine, ParseHeaders, ParseHead, PrintHead, HeadText, PrintLine, ContentLength, IsHead,
         PrintableLine, AllPrintable;
    PrintIsHead(line, headers);
    LineRoundTrip(line);
    PrintableIsOneLine(headers);
    FieldLinesAreLong(headers);
    FieldLinesParse(headers);
    TextIsParsed(PrintLine(line), FieldLines(headers), body + rest);
    assert PrintHead(line, headers) + body + rest == PrintHead(line, headers) + (body + rest);
    assert (body + rest)[..|body|] == body;
  }

  /** A request without a Content-Length has no body: its frame ends at the blank line. */
  lemma BodilessRoundTrip(line: RequestLine, headers: seq<Header>, rest: seq<byte>)
    requires PrintableLine(line) && AllPrintable(headers) && 1 <= |headers| <= 32
    requires NoneCalled(headers, "CONTENT-LENGTH")
    ensures var printed, parsed := PrintHead(line, headers), ParseRequest(PrintHead(line, headers) + rest);
            && parsed.Ok? && parsed.frame == |printed| && parsed.message.body == []
            && parsed.message.head.line == line && parsed.message.head.headers == headers
            && parsed.message.head.contentLength == 0
  {
    hide ParseRequest, PrintHead, ContentLength, PrintableLine, AllPrintable, NoneCalled;
    NoLength(headers);
    MadeOf(line, headers);
    RequestRoundTrip(line, headers, [], rest);
    assert PrintHead(line, headers) + [] == PrintHead(line, headers);
  }

  /** A request whose first Content-Length is the length of its body, in decimal, comes back with it. */
  lemma BodyRoundTrip(line: RequestLine, headers: seq<Header>, i: nat, body: seq<byte>, rest: seq<byte>)
    requires PrintableLine(line) && AllPrintable(headers) && |headers| <= 32
    requires FirstCalled(headers, i, "CONTENT-LENGTH") && headers[i].value == Numeral(|body|, 10) && |body| < TWO_TO_64
    ensures var printed := PrintHead(line, headers) + body;
            var parsed := ParseRequest(printed + rest);
            && parsed.Ok? && parsed.frame == |printed| && parsed.message.body == body
            && parsed.message.head.line == line && parsed.message.head.headers == headers
            && parsed.message.head.contentLength == |body|
  {
    hide ParseRequest, PrintHead, ContentLength, PrintableLine, AllPrintable, Called, Numeral;
    DeclaredLength(headers, i, |body|);
    MadeOf(line, headers);
    RequestRoundTrip(line, headers, body, rest);
  }
}
