/** http_parser.c itself: moving cursors over a read-only slice, filling in an HttpRequest. */
module RequestParser {
  import opened Bytes
  import opened Numerals
  import opened HttpParser

  datatype ParseResult = PARSE_OK | PARSE_INCOMPLETE | PARSE_ERROR

  /** The HttpRequest struct. Each `char[N]` is the sequence stored in front of its terminating NUL;
      `body` is an offset into the raw buffer, None for NULL. */
  class HttpRequest {
    var verb: seq<byte>
    var path: seq<byte>
    var query: seq<byte>
    var version: seq<byte>
    var headers: seq<Header>
    var body: Option<nat>
    var bodyLength: nat
    var keepAlive: bool
    var contentLength: nat

    /** Every field and its terminator stay inside the array the struct declares for them. */
    ghost predicate InBounds()
      reads this
    {
      && |verb| < MAX_METHOD_LEN && |path| < MAX_PATH_LEN && |query| < MAX_PATH_LEN && |version| < MAX_VERSION_LEN
      && |headers| <= MAX_HEADERS
      && (forall i :: 0 <= i < |headers| ==> |headers[i].name| < MAX_HEADER_NAME && |headers[i].value| < MAX_HEADER_VALUE)
    }

    ghost function Line(): RequestLine
      reads this
    {
      RequestLine(verb, path, query, version)
    }

    ghost function Head(): Request
      reads this
    {
      Request(Line(), headers, contentLength, keepAlive)
    }

    /** The request has the body `m.body`, seen through the pointer, and its other fields are `m.head`. */
    ghost predicate Holds(m: Message, raw: seq<byte>)
      reads this
    {
      && Head() == m.head
      && (body.None? <==> contentLength == 0)
      && bodyLength == contentLength
      && (body.Some? ==> body.value + bodyLength <= |raw| && raw[body.value..body.value + bodyLength] == m.body)
      && (body.None? ==> m.body == [])
    }

    constructor ()
      ensures InBounds() && Head() == Request(RequestLine([], [], [], []), [], 0, false) && body.None? && bodyLength == 0
    {
      verb, path, query, version, headers := [], [], [], [], [];
      body, bodyLength, keepAlive, contentLength := None, 0, false, 0;
    }

    /** `http_request_init`. */
    method Init()
      modifies this
      ensures InBounds() && Head() == Request(RequestLine([], [], [], []), [], 0, false) && body.None? && bodyLength == 0
    {
      verb, path, query, version, headers := [], [], [], [], [];
      body, bodyLength, keepAlive, contentLength := None, 0, false, 0;
    }
  }

  /** `str_lower_cmp`: zero exactly for C strings that are equal up to case. */
  method StrLowerCmp(a: seq<byte>, b: seq<byte>) returns (r: int)
    ensures r == 0 || r == 1
    ensures r == 0 <==> SameIgnoringCase(CString(a), CString(b))
  {
    CStringIsText(a);
    CStringIsText(b);
    var i := 0;
    while CharAt(a, i) != '\0' && CharAt(b, i) != '\0'
      invariant i <= |CString(a)| && i <= |CString(b)|
      invariant forall j :: 0 <= j < i ==> ToLower(CString(a)[j]) == ToLower(CString(b)[j])
      decreases |a| - i
    {
      if ToLower(CharAt(a, i)) != ToLower(CharAt(b, i)) {
        return 1;
      }
      i := i + 1;
    }
    return if CharAt(a, i) != CharAt(b, i) then 1 else 0;
  }

  /** `http_get_header`. */
  method LookUpHeader(req: HttpRequest, name: seq<byte>) returns (r: Option<seq<byte>>)
    ensures r == GetHeader(req.headers, name)
  {
    var i := 0;
    while i < |req.headers|
      invariant 0 <= i <= |req.headers|
      invariant FindHeader(req.headers, name, 0) == FindHeader(req.headers, name, i)
    {
      var c := StrLowerCmp(req.headers[i].name, name);
      if c == 0 {
        return Some(req.headers[i].value);
      }
      i := i + 1;
    }
    return None;
  }

  /** The request target, split at its first '?' into the path and query fields. */
  method ParseTargetInto(target: seq<byte>, req: HttpRequest) returns (r: ParseResult)
    requires req.InBounds() && req.query == []
    modifies req`path, req`query
    ensures req.InBounds()
    ensures match SplitTarget(target)
            case Some(parts) => r == PARSE_OK && req.path == parts.0 && req.query == parts.1
            case None => r == PARSE_ERROR
  {
    var qmark := IndexOf(target, '?');
    if qmark.Some? {
      var pathLen, queryLen := qmark.value, |target| - qmark.value - 1;
      if pathLen >= MAX_PATH_LEN || queryLen >= MAX_PATH_LEN {
        return PARSE_ERROR;
      }
      req.path := target[..pathLen];
      req.query := target[qmark.value + 1..];
    } else {
      if |target| >= MAX_PATH_LEN {
        return PARSE_ERROR;
      }
      req.path := target;
    }
    return PARSE_OK;
  }

  /** The last part of the request line: the version, one trailing CR dropped. */
  method ParseVersionInto(s: seq<byte>, req: HttpRequest) returns (r: ParseResult)
    requires req.InBounds()
    modifies req`version
    ensures req.InBounds()
    ensures match ParseVersion(s)
            case Some(version) => r == PARSE_OK && req.version == version
            case None => r == PARSE_ERROR
  {
    hide SupportedVersion;
    var versionLen := |s|;
    if versionLen > 0 && s[versionLen - 1] == '\r' {
      versionLen := versionLen - 1;
    }
    assert s[..versionLen] == StripCr(s);
    if versionLen == 0 || versionLen >= MAX_VERSION_LEN {
      return PARSE_ERROR;
    }
    req.version := s[..versionLen];
    if !SupportedVersion(req.version) {
      return PARSE_ERROR;
    }
    return PARSE_OK;
  }

  /** `parse_request_line`, on a request fresh from `Init`. */
  method ParseRequestLineInto(line: seq<byte>, req: HttpRequest) returns (r: ParseResult)
    requires req.InBounds() && req.query == []
    modifies req`verb, req`path, req`query, req`version
    ensures req.InBounds()
    ensures match ParseRequestLine(line)
            case Some(parsed) => r == PARSE_OK && req.Line() == parsed
            case None => r == PARSE_ERROR
  {
    hide SplitTarget, ParseVersion;
    var sp1 := IndexOf(line, ' ');
    if sp1.None? {
      return PARSE_ERROR;
    }
    var methodLen := sp1.value;
    if methodLen == 0 || methodLen >= MAX_METHOD_LEN {
      return PARSE_ERROR;
    }
    req.verb := line[..methodLen];
    var p := methodLen + 1;
    var sp2 := IndexOf(line[p..], ' ');
    if sp2.None? {
      return PARSE_ERROR;
    }
    r := ParseTargetInto(line[p..p + sp2.value], req);
    if r != PARSE_OK {
      return r;
    }
    r := ParseVersionInto(line[p + sp2.value + 1..], req);
  }

  /** Past the optional whitespace in front of a field value. */
  method SkipBlanks(line: seq<byte>, from: nat) returns (value: nat)
    requires from <= |line|
    ensures from <= value <= |line| && line[value..] == SkipOws(line[from..])
  {
    value := from;
    while value < |line| && (line[value] == ' ' || line[value] == '\t')
      invariant from <= value <= |line|
      invariant SkipOws(line[from..]) == SkipOws(line[value..])
    {
      assert line[value..][1..] == line[value + 1..];
      value := value + 1;
    }
  }

  /** `parse_header_line`. */
  method ParseHeaderLineInto(line: seq<byte>, req: HttpRequest) returns (r: ParseResult)
    requires req.InBounds()
    modifies req`headers
    ensures req.InBounds()
    ensures if |old(req.headers)| < MAX_HEADERS && ParseHeaderLine(line).Some?
            then r == PARSE_OK && req.headers == old(req.headers) + [ParseHeaderLine(line).value]
            else r == PARSE_ERROR && req.headers == old(req.headers)
  {
    hide SkipOws;
    if |req.headers| >= MAX_HEADERS {
      return PARSE_ERROR;
    }
    var colon := IndexOf(line, ':');
    if colon.None? {
      return PARSE_ERROR;
    }
    var nameLen := colon.value;
    if nameLen == 0 || nameLen >= MAX_HEADER_NAME {
      return PARSE_ERROR;
    }
    var value := SkipBlanks(line, nameLen + 1);
    var valueLen := |line| - value;
    if valueLen > 0 && line[value + valueLen - 1] == '\r' {
      valueLen := valueLen - 1;
    }
    assert line[value..value + valueLen] == StripCr(line[value..]);
    if valueLen >= MAX_HEADER_VALUE {
      return PARSE_ERROR;
    }
    req.headers := req.headers + [Header(line[..nameLen], line[value..value + valueLen])];
    return PARSE_OK;
  }

  /** Step 1 of the parser, and the whole of the frame scan in keep_alive.c: the first blank line. */
  method FindBlankLine(raw: seq<byte>) returns (headerEnd: Option<nat>)
    ensures headerEnd == HeaderEnd(raw) && (headerEnd.Some? ==> AtTerminator(raw, headerEnd.value))
  {
    var i := 0;
    while i + 3 < |raw|
      invariant HeaderEnd(raw) == TerminatorFrom(raw, i)
    {
      if raw[i] == '\r' && raw[i + 1] == '\n' && raw[i + 2] == '\r' && raw[i + 3] == '\n' {
        return Some(i);
      }
      i := i + 1;
    }
    return None;
  }

  /** Parsing one more line of a list of lines. */
  lemma ParseNext(done: seq<seq<byte>>, line: seq<byte>, rest: seq<seq<byte>>)
    requires |done| <= MAX_HEADERS && AllParse(done)
    ensures |done| < MAX_HEADERS && ParseHeaderLine(line).Some? ==>
              AllParse(done + [line]) && HeadersOf(done + [line]) == HeadersOf(done) + [ParseHeaderLine(line).value]
    ensures !(|done| < MAX_HEADERS && ParseHeaderLine(line).Some?) ==> ParseHeaders(done + ([line] + rest)).None?
  {
    hide ParseHeaderLine;
    var all := done + ([line] + rest);
    assert all[|done|] == line;
  }

  /** One turn of the cursor loop, as a fact about the bytes: in front of `headerEnd` there always is
      a next LF, the cursor lands on `headerEnd` or before it or just behind the blank line's LF, and
      the lines from here are this one, if it is longer than one byte, and those from there. */
  lemma NextLine(raw: seq<byte>, cursor: nat, headerEnd: nat)
    requires AtTerminator(raw, headerEnd) && cursor < headerEnd
    ensures var window := raw[cursor..headerEnd + 2];
            var lf := IndexOf(window, '\n');
            && lf.Some? && lf.value < headerEnd + 2 - cursor
            && var next := cursor + lf.value + 1;
            && (next <= headerEnd || next == headerEnd + 2)
            && HeaderLines(window)
               == (if lf.value <= 1 then [] else [raw[cursor..cursor + lf.value]]) + HeaderLines(raw[next..headerEnd + 2])
  {
    var window := raw[cursor..headerEnd + 2];
    assert window[|window| - 1] == '\n';
    IndexFromIsFirst(window, '\n', 0);
    var k := IndexOf(window, '\n').value;
    assert raw[cursor + k] == '\n' && raw[headerEnd] == '\r';
    assert window[..k] == raw[cursor..cursor + k];
    assert window[k + 1..] == raw[cursor + k + 1..headerEnd + 2];
  }

  lemma NoLines()
    ensures AllParse([]) && HeadersOf([]) == []
  {
  }

  lemma LastLine(s: seq<byte>)
    requires s == [] || s == CRLF
    ensures HeaderLines(s) == []
  {
    if s == CRLF {
      IndexOfIs(s, '\n', 1);
      assert s[2..] == [];
    }
  }

  /** Step 3: the cursor loop over the header section. Its search for the next LF never fails, and it
      stores exactly the LF-separated lines longer than one byte. */
  method ParseHeaderSection(raw: seq<byte>, start: nat, headerEnd: nat, req: HttpRequest) returns (r: ParseResult)
    requires AtTerminator(raw, headerEnd) && start <= headerEnd
    requires req.InBounds() && req.headers == []
    modifies req`headers
    ensures req.InBounds()
    ensures match ParseHeaders(HeaderLines(raw[start..headerEnd + 2]))
            case Some(headers) => r == PARSE_OK && req.headers == headers
            case None => r == PARSE_ERROR
  {
    hide ParseHeaderLine, HeadersOf, AllParse, HeaderLines, IndexFrom;
    var cursor := start;
    ghost var lines := HeaderLines(raw[start..headerEnd + 2]);
    ghost var done: seq<seq<byte>> := [];
    NoLines();
    while cursor < headerEnd
      invariant start <= cursor <= headerEnd || cursor == headerEnd + 2
      invariant lines == done + HeaderLines(raw[cursor..headerEnd + 2])
      invariant AllParse(done) && req.headers == HeadersOf(done) && req.InBounds()
      decreases headerEnd + 2 - cursor
    {
      NextLine(raw, cursor, headerEnd);
      var lf := IndexOf(raw[cursor..headerEnd + 2], '\n');
      if lf.None? {
        assert false;
        break;
      }
      var lineLen := lf.value;
      if lineLen > 1 {
        var line := raw[cursor..cursor + lineLen];
        ParseNext(done, line, HeaderLines(raw[cursor + lineLen + 1..headerEnd + 2]));
        r := ParseHeaderLineInto(line, req);
        if r != PARSE_OK {
          return PARSE_ERROR;
        }
        done := done + [line];
      }
      cursor := cursor + lineLen + 1;
    }
    LastLine(raw[cursor..headerEnd + 2]);
    assert lines == done;
    return PARSE_OK;
  }

  /** The head, read off the raw buffer instead of a copy of its front. */
  lemma HeadInPlace(raw: seq<byte>, he: nat)
    requires he + 4 <= |raw|
    ensures ParseHead(raw[..he + 4]) ==
            match IndexOf(raw[..he], '\n')
            case None => None
            case Some(lf) =>
              match (ParseRequestLine(raw[..lf]), ParseHeaders(HeaderLines(raw[lf + 1..he + 2])))
              case (Some(line), Some(headers)) => Some(MakeRequest(line, headers))
              case _ => None
  {
    hide ParseRequestLine, ParseHeaders, HeaderLines, MakeRequest, IndexFrom;
    var head := raw[..he + 4];
    assert head[..|head| - 4] == raw[..he];
    match IndexOf(raw[..he], '\n')
    case None =>
    case Some(lf) =>
      assert head[..lf] == raw[..lf] && head[lf + 1..|head| - 2] == raw[lf + 1..he + 2];
  }

  lemma KeepAliveIsItsOwnString()
    ensures CString(KEEP_ALIVE) == KEEP_ALIVE
  {
  }

  /** Steps 4 and 5: the derived fields, then the body pointer once enough bytes have arrived. */
  method DeriveFields(raw: seq<byte>, he: nat, req: HttpRequest) returns (r: ParseResult)
    requires he + 4 <= |raw|
    requires req.InBounds() && req.contentLength == 0 && req.body.None? && req.bodyLength == 0
    modifies req`contentLength, req`keepAlive, req`body, req`bodyLength
    ensures req.Head() == MakeRequest(req.Line(), req.headers)
    ensures r == if he + 4 + req.contentLength <= |raw| then PARSE_OK else PARSE_INCOMPLETE
    ensures r == PARSE_OK ==> req.bodyLength == req.contentLength
                              && req.body == if req.contentLength > 0 then Some(he + 4) else None
  {
    hide Strtoul, GetHeader, CString, SameIgnoringCase;
    var length := LookUpHeader(req, CONTENT_LENGTH);
    if length.Some? {
      req.contentLength := Strtoul(CString(length.value));
    }
    var connection := LookUpHeader(req, CONNECTION);
    if connection.Some? {
      var c := StrLowerCmp(connection.value, KEEP_ALIVE);
      KeepAliveIsItsOwnString();
      req.keepAlive := c == 0;
    } else {
      req.keepAlive := SameText(req.version, HTTP_1_1, 0);
    }
    var arrived := |raw| - (he + 4);
    if req.contentLength > 0 {
      if arrived < req.contentLength {
        return PARSE_INCOMPLETE;
      }
      req.body := Some(he + 4);
      req.bodyLength := req.contentLength;
    }
    return PARSE_OK;
  }

  /** `parse_http_request`: the whole buffer received so far, parsed from scratch. */
  method ParseHttpRequest(raw: seq<byte>, req: HttpRequest) returns (r: ParseResult)
    modifies req
    ensures req.InBounds()
    ensures match ParseRequest(raw)
            case Ok(m, frame) => r == PARSE_OK && req.Holds(m, raw) && (req.body.Some? ==> req.body.value == frame - req.contentLength)
            case Incomplete => r == PARSE_INCOMPLETE
            case Error => r == PARSE_ERROR
  {
    hide ParseRequestLine, ParseHeaders, HeaderLines, ParseHead, MakeRequest, IndexFrom, TerminatorFrom;
    req.Init();
    var headerEnd := FindBlankLine(raw);
    if headerEnd.None? {
      return PARSE_INCOMPLETE;
    }
    var he := headerEnd.value;
    HeadInPlace(raw, he);
    var firstLf := IndexOf(raw[..he], '\n');
    if firstLf.None? {
      return PARSE_ERROR;
    }
    var lf := firstLf.value;
    r := ParseRequestLineInto(raw[..lf], req);
    if r != PARSE_OK {
      return r;
    }
    r := ParseHeaderSection(raw, lf + 1, he, req);
    if r != PARSE_OK {
      return r;
    }
    r := DeriveFields(raw, he, req);
  }
}
