/** Whether a connection stays open: what the server decides, and what section 6.3 of RFC 7230 says. */
module ConnectionOptions {
  import opened Bytes
  import opened HttpParser
  import opened HeaderBlock
  import opened HeaderLookup

  const KEEP_ALIVE_OPTION: seq<byte> := "KEEP-ALIVE"
  const CLOSE_OPTION: seq<byte> := "CLOSE"
  const CLOSE: seq<byte> := "close"
  const TE: seq<byte> := "TE"

  // ----- The standard -----

  function TrimEnd(s: seq<byte>): (r: seq<byte>)
    ensures r <= s
  {
    if s != [] && (s[|s| - 1] == ' ' || s[|s| - 1] == '\t') then TrimEnd(s[..|s| - 1]) else s
  }

  /** The comma-separated options of a Connection field, blanks around each dropped: section 6.1. */
  function Options(value: seq<byte>): (r: seq<seq<byte>>)
    ensures r != []
    decreases |value|
  {
    match IndexOf(value, ',')
    case None => [TrimEnd(SkipOws(value))]
    case Some(k) => [TrimEnd(SkipOws(value[..k]))] + Options(value[k + 1..])
  }

  /** `option` is written in capitals. */
  predicate Lists(value: seq<byte>, option: seq<byte>) {
    exists k :: 0 <= k < |Options(value)| && UpperCase(Options(value)[k]) == option
  }

  /** All Connection fields together are one list. */
  predicate HasOption(headers: seq<Header>, option: seq<byte>) {
    exists i :: 0 <= i < |headers| && Names(headers[i], CONNECTION) && Lists(CString(headers[i].value), option)
  }

  /** Section 6.3: close wins; then HTTP/1.1 stays open, and HTTP/1.0 does if keep-alive is present. */
  predicate StaysOpen(version: seq<byte>, headers: seq<Header>) {
    && !HasOption(headers, CLOSE_OPTION)
    && (CString(version) == HTTP_1_1 || (CString(version) == HTTP_1_0 && HasOption(headers, KEEP_ALIVE_OPTION)))
  }

  predicate Agrees(line: RequestLine, headers: seq<Header>) {
    MakeRequest(line, headers).keepAlive <==> StaysOpen(line.version, headers)
  }

  /** A value without commas and without blanks around it is one option. */
  lemma OneOption(value: seq<byte>)
    requires Lacks(value, ',') && StartsSolid(value) && (value != [] ==> value[|value| - 1] != ' ' && value[|value| - 1] != '\t')
    ensures Options(value) == [value]
  {
    NotFound(value, ',');
  }

  lemma KeepAliveAlone(value: seq<byte>)
    requires UpperCase(value) == KEEP_ALIVE_OPTION
    ensures Options(value) == [value] && Lists(value, KEEP_ALIVE_OPTION)
  {
    assert |value| == |UpperCase(value)| == 10;
    forall i | 0 <= i < |value| ensures value[i] != ',' && value[i] != ' ' && value[i] != '\t' {
      assert UpperCase(value)[i] == KEEP_ALIVE_OPTION[i];
    }
    OneOption(value);
    assert Options(value)[0] == value;
  }

  lemma NoFieldNoOption(headers: seq<Header>, option: seq<byte>)
    requires GetHeader(headers, CONNECTION).None?
    ensures !HasOption(headers, option)
  {
    hide Names, Lists, CString;
    FindHeaderIsFirst(headers, CONNECTION, 0);
  }

  lemma FirstFieldCounts(headers: seq<Header>, option: seq<byte>)
    requires GetHeader(headers, CONNECTION).Some?
    requires Lists(CString(GetHeader(headers, CONNECTION).value), option)
    ensures HasOption(headers, option)
  {
    hide Names, Lists, CString;
    FindHeaderIsFirst(headers, CONNECTION, 0);
  }

  /** Where the server follows the standard: without a Connection field always; behind a first field that
      is just "keep-alive", if and only if no field says close; and behind any other first field, if and
      only if some field says close, or the version is HTTP/1.0 and none says keep-alive. */
  lemma AgreesIff(line: RequestLine, headers: seq<Header>)
    requires SupportedVersion(line.version)
    ensures Agrees(line, headers) <==>
            match GetHeader(headers, CONNECTION)
            case None => true
            case Some(v) =>
              if UpperCase(CString(v)) == KEEP_ALIVE_OPTION then !HasOption(headers, CLOSE_OPTION)
              else HasOption(headers, CLOSE_OPTION)
                   || (CString(line.version) == HTTP_1_0 && !HasOption(headers, KEEP_ALIVE_OPTION))
  {
    hide GetHeader, MakeRequest, CString, UpperCase, HasOption, Lists, SupportedVersion;
    SupportedIff(line.version);
    Persistence(line, headers);
    match GetHeader(headers, CONNECTION)
    case None =>
      NoFieldNoOption(headers, CLOSE_OPTION);
      NoFieldNoOption(headers, KEEP_ALIVE_OPTION);
    case Some(v) =>
      if UpperCase(CString(v)) == KEEP_ALIVE_OPTION {
        KeepAliveAlone(CString(v));
        FirstFieldCounts(headers, KEEP_ALIVE_OPTION);
      }
  }

  lemma OnlyField(headers: seq<Header>, i: nat, option: seq<byte>)
    requires i < |headers| && Names(headers[i], CONNECTION)
    requires forall j :: 0 <= j < |headers| && j != i ==> !Names(headers[j], CONNECTION)
    requires Options(CString(headers[i].value)) == [CString(headers[i].value)]
    ensures HasOption(headers, option) <==> UpperCase(CString(headers[i].value)) == option
  {
    hide Names, CString, UpperCase, Options;
    var v := CString(headers[i].value);
    assert Options(v)[0] == v;
    assert Lists(v, option) <==> UpperCase(v) == option;
  }

  /** The plain case, one Connection field with one option: the server follows the standard except that
      on HTTP/1.1 it closes for an option other than close, where the standard stays open. */
  lemma AgreesOnOneOption(line: RequestLine, headers: seq<Header>, i: nat)
    requires SupportedVersion(line.version) && i < |headers| && Names(headers[i], CONNECTION)
    requires forall j :: 0 <= j < |headers| && j != i ==> !Names(headers[j], CONNECTION)
    requires Options(CString(headers[i].value)) == [CString(headers[i].value)]
    ensures var option := UpperCase(CString(headers[i].value));
            Agrees(line, headers) <==>
            option == KEEP_ALIVE_OPTION || option == CLOSE_OPTION || CString(line.version) == HTTP_1_0
  {
    hide Names, MakeRequest, CString, UpperCase, Options, SupportedVersion, Agrees;
    var v := CString(headers[i].value);
    SupportedIff(line.version);
    FindHeaderIsFirst(headers, CONNECTION, 0);
    assert GetHeader(headers, CONNECTION) == Some(headers[i].value);
    AgreesIff(line, headers);
    forall option ensures HasOption(headers, option) <==> UpperCase(v) == option {
      OnlyField(headers, i, option);
    }
  }

  lemma FixedOptions()
    ensures CString(TE) == TE && UpperCase(TE) == TE && Options(TE) == [TE]
    ensures CString(CLOSE) == CLOSE && UpperCase(CLOSE) == CLOSE_OPTION && Options(CLOSE) == [CLOSE]
  {
    hide Options, IndexFrom;
    IsItsOwnString(TE);
    IsItsOwnString(CLOSE);
    OneOption(TE);
    OneOption(CLOSE);
  }

  lemma FixedTexts()
    ensures CString(KEEP_ALIVE) == KEEP_ALIVE && UpperCase(KEEP_ALIVE) == KEEP_ALIVE_OPTION
    ensures CString(CONNECTION) == CONNECTION && SameIgnoringCase(CONNECTION, CONNECTION)
    ensures CString(HTTP_1_1) == HTTP_1_1
  {
    IsItsOwnString(KEEP_ALIVE);
    IsItsOwnString(CONNECTION);
    IsItsOwnString(HTTP_1_1);
    KeepAliveInCapitals();
  }

  /** Two inputs on which it does not: on HTTP/1.1, "keep-alive" followed by a second field "close" is
      kept open, and a single field "TE" is closed. */
  lemma DisagreementsExist(line: RequestLine)
    requires line.version == HTTP_1_1
    ensures var headers := [Header(CONNECTION, KEEP_ALIVE), Header(CONNECTION, CLOSE)];
            MakeRequest(line, headers).keepAlive && !StaysOpen(line.version, headers)
    ensures var headers := [Header(CONNECTION, TE)];
            !MakeRequest(line, headers).keepAlive && StaysOpen(line.version, headers)
  {
    hide MakeRequest, CString, UpperCase, Options, SupportedVersion, SameIgnoringCase;
    FixedOptions();
    FixedTexts();
    SameTextIff(line.version, HTTP_1_1, 0);
    var both := [Header(CONNECTION, KEEP_ALIVE), Header(CONNECTION, CLOSE)];
    assert Names(both[0], CONNECTION) && Names(both[1], CONNECTION);
    assert Options(CLOSE)[0] == CLOSE && Lists(CLOSE, CLOSE_OPTION);
    assert GetHeader(both, CONNECTION) == Some(KEEP_ALIVE);
    Persistence(line, both);
    var other := [Header(CONNECTION, TE)];
    assert Names(other[0], CONNECTION);
    assert GetHeader(other, CONNECTION) == Some(TE);
    Persistence(line, other);
    OnlyField(other, 0, CLOSE_OPTION);
  }
}
