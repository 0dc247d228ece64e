/** Looking headers up by name, and the fields of a request that are derived from them. */
module HeaderLookup {
  import opened Bytes
  import opened Numerals
  import opened HttpParser
  import opened HeaderBlock

  function Upper(c: byte): byte {
    if 'a' <= c <= 'z' then (c as int - 32) as char else c
  }

  function UpperCase(s: seq<byte>): seq<byte> {
    seq(|s|, i requires 0 <= i < |s| => Upper(s[i]))
  }

  /** Comparing without regard to case is comparing in capitals. */
  lemma SameInCapitals(a: seq<byte>, b: seq<byte>)
    ensures SameIgnoringCase(a, b) <==> UpperCase(a) == UpperCase(b)
  {
    if SameIgnoringCase(a, b) {
      forall i | 0 <= i < |a| ensures UpperCase(a)[i] == UpperCase(b)[i] {
        assert ToLower(a[i]) == ToLower(b[i]);
      }
    }
    if UpperCase(a) == UpperCase(b) {
      assert |a| == |UpperCase(a)| == |b|;
      forall i | 0 <= i < |a| ensures ToLower(a[i]) == ToLower(b[i]) {
        assert UpperCase(a)[i] == UpperCase(b)[i];
      }
    }
  }

  lemma IsItsOwnString(s: seq<byte>)
    requires Lacks(s, '\0')
    ensures CString(s) == s
  {
    CStringIsText(s);
  }

  lemma SupportedIff(version: seq<byte>)
    ensures SupportedVersion(version) <==> CString(version) == "HTTP/1.0" || CString(version) == "HTTP/1.1"
  {
    hide CString;
    IsItsOwnString(HTTP_1_0);
    IsItsOwnString(HTTP_1_1);
    SameTextIff(version, HTTP_1_0, 0);
    SameTextIff(version, HTTP_1_1, 0);
  }

  // ----- By name -----

  predicate Called(h: Header, capitals: seq<byte>) {
    UpperCase(CString(h.name)) == capitals
  }

  predicate NoneCalled(headers: seq<Header>, capitals: seq<byte>) {
    forall j :: 0 <= j < |headers| ==> !Called(headers[j], capitals)
  }

  /** Header `i` is the first with this name. */
  predicate FirstCalled(headers: seq<Header>, i: nat, capitals: seq<byte>) {
    i < |headers| && Called(headers[i], capitals) && forall j :: 0 <= j < i ==> !Called(headers[j], capitals)
  }

  lemma NamesIff(h: Header, name: seq<byte>)
    ensures Names(h, name) <==> Called(h, UpperCase(CString(name)))
  {
    hide UpperCase, SameIgnoringCase, CString;
    SameInCapitals(CString(h.name), CString(name));
  }

  /** A lookup yields the value of the first header with that name, compared in capitals, and nothing only
      if there is none. */
  lemma LookUpIs(headers: seq<Header>, name: seq<byte>, capitals: seq<byte>)
    requires UpperCase(CString(name)) == capitals
    ensures GetHeader(headers, name).None? <==> NoneCalled(headers, capitals)
    ensures forall i: nat :: FirstCalled(headers, i, capitals) ==> GetHeader(headers, name) == Some(headers[i].value)
    ensures GetHeader(headers, name).Some? ==> exists i: nat :: FirstCalled(headers, i, capitals)
  {
    hide UpperCase, Names, Called, CString;
    FindHeaderIsFirst(headers, name, 0);
    forall h: Header ensures Names(h, name) <==> Called(h, capitals) {
      NamesIff(h, name);
    }
    match FindHeader(headers, name, 0)
    case None =>
    case Some(k) =>
      assert FirstCalled(headers, k, capitals);
      forall i: nat | FirstCalled(headers, i, capitals) ensures i == k {
        assert !(i < k) && !(k < i);
      }
  }

  lemma ContentLengthInCapitals()
    ensures UpperCase(CString(CONTENT_LENGTH)) == "CONTENT-LENGTH"
  {
    var s := CONTENT_LENGTH;
    assert s == "Content-Length" && |s| == 14;
    assert Lacks(s, '\0');
    IsItsOwnString(s);
    var capitals: seq<byte> := "CONTENT-LENGTH";
    assert |UpperCase(s)| == |capitals| == 14;
    assert Upper('o') == 'O' && Upper('n') == 'N' && Upper('t') == 'T' && Upper('e') == 'E' && Upper('g') == 'G' && Upper('h') == 'H';
    forall i | 0 <= i < 14 ensures UpperCase(s)[i] == capitals[i] {
      assert UpperCase(s)[i] == Upper(s[i]);
      assert i <= 3 || i == 4 || i == 5 || i == 6 || i == 7 || i == 8 || i == 9 || i >= 10;
    }
  }

  lemma ConnectionInCapitals()
    ensures UpperCase(CString(CONNECTION)) == "CONNECTION"
  {
    IsItsOwnString(CONNECTION);
  }

  lemma KeepAliveInCapitals()
    ensures UpperCase(KEEP_ALIVE) == "KEEP-ALIVE"
  {
  }

  // ----- The declared length -----

  /** Without a Content-Length field there is no body. */
  lemma NoLength(headers: seq<Header>)
    requires NoneCalled(headers, "CONTENT-LENGTH")
    ensures ContentLength(headers) == 0
  {
    hide UpperCase, NoneCalled, FirstCalled, GetHeader;
    ContentLengthInCapitals();
    LookUpIs(headers, CONTENT_LENGTH, "CONTENT-LENGTH");
  }

  /** With one, the first counts, whatever its text: blanks, a sign, digits and a tail, any of them missing. */
  lemma LengthOfText(headers: seq<Header>, i: nat, blanks: seq<byte>, sign: seq<byte>, digits: seq<byte>, tail: seq<byte>)
    requires FirstCalled(headers, i, "CONTENT-LENGTH")
    requires IsNumberText(blanks, sign, digits, tail) && CString(headers[i].value) == blanks + (sign + (digits + tail))
    ensures var n := Decimal(digits);
            ContentLength(headers) ==
              if n >= TWO_TO_64 then TWO_TO_64 - 1 else if sign == ['-'] then (TWO_TO_64 - n) % TWO_TO_64 else n
  {
    hide UpperCase, FirstCalled, GetHeader, Strtoul, CString, Decimal, IsNumberText;
    ContentLengthInCapitals();
    LookUpIs(headers, CONTENT_LENGTH, "CONTENT-LENGTH");
    StrtoulReads(blanks, sign, digits, tail);
  }

  lemma DigitsAreText(n: nat)
    ensures CString(Numeral(n, 10)) == Numeral(n, 10)
  {
    var s := Numeral(n, 10);
    assert forall i :: 0 <= i < |s| ==> s[i] != '\0';
  }

  /** A plain decimal means what it says, and 2^64 - 1 if it is too large. */
  lemma DeclaredLength(headers: seq<Header>, i: nat, n: nat)
    requires FirstCalled(headers, i, "CONTENT-LENGTH") && headers[i].value == Numeral(n, 10)
    ensures ContentLength(headers) == Min(n, TWO_TO_64 - 1)
  {
    hide UpperCase, FirstCalled, GetHeader, Strtoul, CString, Numeral;
    ContentLengthInCapitals();
    LookUpIs(headers, CONTENT_LENGTH, "CONTENT-LENGTH");
    DigitsAreText(n);
    StrtoulReadsDecimal(n);
  }

  // ----- Persistence -----

  /** What the server decides: the version's default without a Connection field, and with one, to stay
      open exactly if the first such field is nothing but "keep-alive", in any case. */
  lemma Persistence(line: RequestLine, headers: seq<Header>)
    ensures GetHeader(headers, CONNECTION).None? ==>
              (MakeRequest(line, headers).keepAlive <==> CString(line.version) == "HTTP/1.1")
    ensures forall v :: GetHeader(headers, CONNECTION) == Some(v) ==>
              (MakeRequest(line, headers).keepAlive <==> UpperCase(CString(v)) == "KEEP-ALIVE")
  {
    hide ContentLength, GetHeader, SameIgnoringCase, UpperCase, CString;
    IsItsOwnString(HTTP_1_1);
    SameTextIff(line.version, HTTP_1_1, 0);
    if GetHeader(headers, CONNECTION).Some? {
      SameInCapitals(CString(GetHeader(headers, CONNECTION).value), KEEP_ALIVE);
      KeepAliveInCapitals();
    }
  }

  /** The same in terms of the headers alone. */
  lemma PersistenceByName(line: RequestLine, headers: seq<Header>)
    ensures NoneCalled(headers, "CONNECTION") ==>
              (MakeRequest(line, headers).keepAlive <==> CString(line.version) == "HTTP/1.1")
    ensures forall i: nat :: FirstCalled(headers, i, "CONNECTION") ==>
              (MakeRequest(line, headers).keepAlive <==> UpperCase(CString(headers[i].value)) == "KEEP-ALIVE")
  {
    hide UpperCase, NoneCalled, FirstCalled, GetHeader, CString, MakeRequest;
    ConnectionInCapitals();
    LookUpIs(headers, CONNECTION, "CONNECTION");
    Persistence(line, headers);
  }

  /** The other fields are what was parsed. */
  lemma MadeOf(line: RequestLine, headers: seq<Header>)
    ensures var r := MakeRequest(line, headers);
            r.line == line && r.headers == headers && r.contentLength == ContentLength(headers)
  {
  }
}
