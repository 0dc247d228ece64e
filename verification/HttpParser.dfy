/** What http_parser.c computes, as functions of the bytes received so far. */
module HttpParser {
  import opened Bytes
  import opened Numerals

  const MAX_METHOD_LEN := 16
  const MAX_PATH_LEN := 2048
  const MAX_VERSION_LEN := 16
  const MAX_HEADER_NAME := 128
  const MAX_HEADER_VALUE := 4096
  const MAX_HEADERS := 32

  const HTTP_1_0: seq<byte> := "HTTP/1.0"
  const HTTP_1_1: seq<byte> := "HTTP/1.1"
  const CONTENT_LENGTH: seq<byte> := "Content-Length"
  const CONNECTION: seq<byte> := "Connection"
  const KEEP_ALIVE: seq<byte> := "keep-alive"

  datatype Header = Header(name: seq<byte>, value: seq<byte>)

  datatype RequestLine = RequestLine(verb: seq<byte>, path: seq<byte>, query: seq<byte>, version: seq<byte>)

  /** A parsed request. Character fields hold the bytes stored in front of their terminator. */
  datatype Request = Request(line: RequestLine, headers: seq<Header>, contentLength: nat, keepAlive: bool)

  datatype Message = Message(head: Request, body: seq<byte>)

  /** PARSE_OK with the message and the length of its frame, PARSE_INCOMPLETE or PARSE_ERROR. */
  datatype Outcome = Ok(message: Message, frame: nat) | Incomplete | Error

  // ----- Fields as C strings -----

  function ToLower(c: byte): byte {
    if 'A' <= c <= 'Z' then (c as int + 32) as char else c
  }

  /** Equality up to ASCII case, position by position. */
  predicate SameIgnoringCase(a: seq<byte>, b: seq<byte>) {
    |a| == |b| && forall i :: 0 <= i < |a| ==> ToLower(a[i]) == ToLower(b[i])
  }

  predicate Names(h: Header, name: seq<byte>) {
    SameIgnoringCase(CString(h.name), CString(name))
  }

  /** The first header with this name, from position `from` on. */
  function FindHeader(headers: seq<Header>, name: seq<byte>, from: nat): (r: Option<nat>)
    requires from <= |headers|
    ensures r.Some? ==> from <= r.value < |headers|
    decreases |headers| - from
  {
    if from == |headers| then None
    else if Names(headers[from], name) then Some(from)
    else FindHeader(headers, name, from + 1)
  }

  lemma {:induction false} FindHeaderIsFirst(headers: seq<Header>, name: seq<byte>, from: nat)
    requires from <= |headers|
    ensures match FindHeader(headers, name, from)
            case Some(i) => Names(headers[i], name) && forall j :: from <= j < i ==> !Names(headers[j], name)
            case None => forall j :: from <= j < |headers| ==> !Names(headers[j], name)
    decreases |headers| - from
  {
    hide Names;
    if from == |headers| || Names(headers[from], name) {
    } else {
      FindHeaderIsFirst(headers, name, from + 1);
    }
  }

  /** `http_get_header`: the value of the first header with this name. */
  function GetHeader(headers: seq<Header>, name: seq<byte>): Option<seq<byte>> {
    match FindHeader(headers, name, 0)
    case None => None
    case Some(i) => Some(headers[i].value)
  }

  // ----- Lines -----

  /** `len` bytes with one trailing CR removed. */
  function StripCr(s: seq<byte>): (r: seq<byte>)
    ensures r <= s
  {
    if s != [] && s[|s| - 1] == '\r' then s[..|s| - 1] else s
  }

  function SkipOws(s: seq<byte>): (r: seq<byte>)
    ensures |r| <= |s|
  {
    if s != [] && (s[0] == ' ' || s[0] == '\t') then SkipOws(s[1..]) else s
  }

  predicate SupportedVersion(version: seq<byte>) {
    SameText(version, HTTP_1_0, 0) || SameText(version, HTTP_1_1, 0)
  }

  /** The request target, cut at its first '?'. */
  function SplitTarget(target: seq<byte>): (r: Option<(seq<byte>, seq<byte>)>) {
    match IndexOf(target, '?')
    case None => if |target| >= MAX_PATH_LEN then None else Some((target, []))
    case Some(q) =>
      if q >= MAX_PATH_LEN || |target| - q - 1 >= MAX_PATH_LEN then None
      else Some((target[..q], target[q + 1..]))
  }

  function ParseVersion(s: seq<byte>): (r: Option<seq<byte>>) {
    var version := StripCr(s);
    if version == [] || |version| >= MAX_VERSION_LEN || !SupportedVersion(version) then None
    else Some(version)
  }

  /** The request line without its LF. */
  function ParseRequestLine(line: seq<byte>): (r: Option<RequestLine>) {
    match IndexOf(line, ' ')
    case None => None
    case Some(sp1) =>
      if sp1 == 0 || sp1 >= MAX_METHOD_LEN then None
      else
        match IndexOf(line[sp1 + 1..], ' ')
        case None => None
        case Some(n) =>
          var sp2 := sp1 + 1 + n;
          match (SplitTarget(line[sp1 + 1..sp2]), ParseVersion(line[sp2 + 1..]))
          case (Some(target), Some(version)) =>
            Some(RequestLine(line[..sp1], target.0, target.1, version))
          case _ => None
  }

  /** One header line without its LF. */
  function ParseHeaderLine(line: seq<byte>): (r: Option<Header>) {
    match IndexOf(line, ':')
    case None => None
    case Some(colon) =>
      var value := StripCr(SkipOws(line[colon + 1..]));
      if colon == 0 || colon >= MAX_HEADER_NAME || |value| >= MAX_HEADER_VALUE then None
      else Some(Header(line[..colon], value))
  }

  /** The LF-terminated lines of `s`, LF excluded, that are longer than one byte. */
  function HeaderLines(s: seq<byte>): (r: seq<seq<byte>>)
    decreases |s|
  {
    match IndexOf(s, '\n')
    case None => []
    case Some(k) => (if k <= 1 then [] else [s[..k]]) + HeaderLines(s[k + 1..])
  }

  predicate AllParse(lines: seq<seq<byte>>) {
    forall i :: 0 <= i < |lines| ==> ParseHeaderLine(lines[i]).Some?
  }

  function HeadersOf(lines: seq<seq<byte>>): (r: seq<Header>)
    requires AllParse(lines)
    ensures |r| == |lines|
  {
    seq(|lines|, i requires 0 <= i < |lines| => ParseHeaderLine(lines[i]).value)
  }

  function ParseHeaders(lines: seq<seq<byte>>): (r: Option<seq<Header>>) {
    if |lines| <= MAX_HEADERS && AllParse(lines) then Some(HeadersOf(lines)) else None
  }

  // ----- The whole request -----

  predicate AtTerminator(s: seq<byte>, i: nat) {
    i + 4 <= |s| && s[i] == '\r' && s[i + 1] == '\n' && s[i + 2] == '\r' && s[i + 3] == '\n'
  }

  /** The first CR LF CR LF at or after `from`. */
  function TerminatorFrom(s: seq<byte>, from: nat): (r: Option<nat>)
    ensures r.Some? ==> from <= r.value && r.value + 4 <= |s|
    decreases |s| - from
  {
    if from + 4 > |s| then None
    else if AtTerminator(s, from) then Some(from)
    else TerminatorFrom(s, from + 1)
  }

  lemma {:induction false} TerminatorFromIsFirst(s: seq<byte>, from: nat)
    ensures match TerminatorFrom(s, from)
            case Some(i) => AtTerminator(s, i) && forall j :: from <= j < i ==> !AtTerminator(s, j)
            case None => forall j :: from <= j ==> !AtTerminator(s, j)
    decreases |s| - from
  {
    if from + 4 > |s| || AtTerminator(s, from) {
    } else {
      TerminatorFromIsFirst(s, from + 1);
    }
  }

  function HeaderEnd(s: seq<byte>): Option<nat> {
    TerminatorFrom(s, 0)
  }

  function ContentLength(headers: seq<Header>): (r: nat) {
    match GetHeader(headers, CONTENT_LENGTH)
    case None => 0
    case Some(v) => Strtoul(CString(v))
  }

  function KeepAlive(version: seq<byte>, headers: seq<Header>): bool {
    match GetHeader(headers, CONNECTION)
    case None => SameText(version, HTTP_1_1, 0)
    case Some(v) => SameIgnoringCase(CString(v), KEEP_ALIVE)
  }

  function MakeRequest(line: RequestLine, headers: seq<Header>): Request {
    Request(line, headers, ContentLength(headers), KeepAlive(line.version, headers))
  }

  /** Everything up to the blank line; `head` ends with the terminator. */
  function ParseHead(head: seq<byte>): (r: Option<Request>)
    requires |head| >= 4
  {
    match IndexOf(head[..|head| - 4], '\n')
    case None => None
    case Some(lf) =>
      match (ParseRequestLine(head[..lf]), ParseHeaders(HeaderLines(head[lf + 1..|head| - 2])))
      case (Some(line), Some(headers)) => Some(MakeRequest(line, headers))
      case _ => None
  }

  function ParseRequest(raw: seq<byte>): (r: Outcome) {
    match HeaderEnd(raw)
    case None => Incomplete
    case Some(he) =>
      match ParseHead(raw[..he + 4])
      case None => Error
      case Some(head) =>
        var frame := he + 4 + head.contentLength;
        if frame > |raw| then Incomplete
        else Ok(Message(head, raw[he + 4..frame]), frame)
  }
}
