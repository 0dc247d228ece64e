/** printf's `%d`, `%lld` and `%zx`, and libc's `strtoul`. */
module Numerals {
  import opened Bytes

  const TWO_TO_64: nat := 0x1_0000_0000_0000_0000

  predicate IsBase(base: nat) {
    base == 10 || base == 16
  }

  function DigitChar(d: nat): byte
    requires d < 16
  {
    if d < 10 then ('0' as int + d) as char else ('a' as int + d - 10) as char
  }

  /** The value of a digit character in the given base, either letter case. */
  function DigitValue(c: byte, base: nat): (r: Option<nat>)
    requires IsBase(base)
    ensures r.Some? ==> r.value < base
  {
    var v :=
      if '0' <= c <= '9' then c as int - '0' as int
      else if 'a' <= c <= 'f' then c as int - 'a' as int + 10
      else if 'A' <= c <= 'F' then c as int - 'A' as int + 10
      else 16;
    if v < base then Some(v) else None
  }

  /** Lower-case digits without leading zeros, most significant first. */
  function Numeral(n: nat, base: nat): (r: seq<byte>)
    requires IsBase(base)
    ensures r != []
    ensures forall i :: 0 <= i < |r| ==> DigitValue(r[i], base).Some?
  {
    if n < base then [DigitChar(n)] else Numeral(n / base, base) + [DigitChar(n % base)]
  }

  /** `%d`: a minus sign where one is needed. */
  function Signed(n: int): seq<byte> {
    if n < 0 then ['-'] + Numeral(-n, 10) else Numeral(n, 10)
  }

  /** The number `acc` with one more digit written behind it. */
  function Append(acc: nat, base: nat, d: nat): nat
    requires IsBase(base)
  {
    if base == 10 then 10 * acc + d else 16 * acc + d
  }

  /** The number spelled by the leading digits of `s`, continuing from `acc`, and what follows it. */
  function Leading(s: seq<byte>, base: nat, acc: nat): (r: (nat, seq<byte>))
    requires IsBase(base)
  {
    if s == [] then (acc, s)
    else match DigitValue(s[0], base)
      case None => (acc, s)
      case Some(d) => Leading(s[1..], base, Append(acc, base, d))
  }

  predicate IsSpace(c: byte) {
    9 <= c as int <= 13 || c == ' '
  }

  function SkipSpace(s: seq<byte>): seq<byte> {
    if s != [] && IsSpace(s[0]) then SkipSpace(s[1..]) else s
  }

  /** `strtoul(s, NULL, 10)` with a 64-bit `unsigned long`: an optional sign, saturation on
      overflow, and a minus sign taken modulo 2^64. */
  function Strtoul(s: seq<byte>): (r: nat)
    ensures r < TWO_TO_64
  {
    var t := SkipSpace(s);
    var signed := t != [] && (t[0] == '-' || t[0] == '+');
    var magnitude := Leading(if signed then t[1..] else t, 10, 0).0;
    if magnitude >= TWO_TO_64 then TWO_TO_64 - 1
    else if signed && t[0] == '-' && magnitude > 0 then TWO_TO_64 - magnitude
    else magnitude
  }

  function Pow(base: nat, k: nat): nat {
    if k == 0 then 1 else base * Pow(base, k - 1)
  }

  lemma DigitRoundTrip(d: nat, base: nat)
    requires IsBase(base) && d < base
    ensures DigitValue(DigitChar(d), base) == Some(d)
  {
    assert ('0' as int + d) as char as int == '0' as int + d;
    assert ('a' as int + d - 10) as char as int == 'a' as int + d - 10 || d < 10;
  }

  /** One digit in front of `t` shifts it into the accumulator. */
  lemma LeadingDigit(d: nat, base: nat, acc: nat, t: seq<byte>)
    requires IsBase(base) && d < base
    ensures Leading([DigitChar(d)] + t, base, acc) == Leading(t, base, Append(acc, base, d))
  {
    DigitRoundTrip(d, base);
    assert ([DigitChar(d)] + t)[1..] == t;
  }

  /** Reading a printed number back, whatever follows it: digits in front of `t` just seed the
      accumulator with the number they spell. */
  lemma {:induction false} LeadingNumeral(n: nat, base: nat, t: seq<byte>)
    requires IsBase(base)
    ensures Leading(Numeral(n, base) + t, base, 0) == Leading(t, base, n)
  {
    if n < base {
      LeadingDigit(n, base, 0, t);
    } else {
      var rest := [DigitChar(n % base)] + t;
      assert Numeral(n, base) + t == Numeral(n / base, base) + rest;
      LeadingNumeral(n / base, base, rest);
      LeadingDigit(n % base, base, n / base, t);
    }
  }

  lemma {:induction false} NumeralLength(n: nat, base: nat, k: nat)
    requires IsBase(base) && 1 <= k && n < Pow(base, k)
    ensures |Numeral(n, base)| <= k
  {
    if n < base {
    } else {
      assert Pow(base, 1) == base * Pow(base, 0);
      assert n / base < Pow(base, k - 1);
      NumeralLength(n / base, base, k - 1);
    }
  }

  /** No size that fits a `size_t` needs more than 16 hexadecimal digits. */
  lemma HexFitsSizeT(n: nat)
    requires n < TWO_TO_64
    ensures |Numeral(n, 16)| <= 16
  {
    assert Pow(16, 4) == 0x1_0000;
    assert Pow(16, 8) == 0x1_0000_0000;
    assert Pow(16, 12) == 0x1_0000_0000_0000;
    assert Pow(16, 16) == TWO_TO_64;
    NumeralLength(n, 16, 16);
  }

  /** No 32-bit `int` needs more than 11 characters under `%d`. */
  lemma SignedFitsInt32(n: int)
    requires -0x8000_0000 <= n < 0x8000_0000
    ensures |Signed(n)| <= 11
  {
    assert Pow(10, 10) == 10_000_000_000;
    NumeralLength(if n < 0 then -n else n, 10, 10);
  }

  // ----- What strtoul reads -----

  predicate IsDigit(c: byte) {
    '0' <= c <= '9'
  }

  predicate AllDigits(s: seq<byte>) {
    forall i :: 0 <= i < |s| ==> IsDigit(s[i])
  }

  /** White space in the C locale. */
  predicate IsBlank(c: byte) {
    c == ' ' || c == '\t' || c == '\n' || c as int == 11 || c as int == 12 || c == '\r'
  }

  predicate AllSpace(s: seq<byte>) {
    forall i :: 0 <= i < |s| ==> IsBlank(s[i])
  }

  predicate IsSign(s: seq<byte>) {
    s == [] || s == ['+'] || s == ['-']
  }

  /** The number a row of digits stands for, leading zeros included: its last digit counts once, the ones
      in front of it ten times. */
  function Decimal(digits: seq<byte>): nat
    requires AllDigits(digits)
  {
    if digits == [] then 0
    else 10 * Decimal(digits[..|digits| - 1]) + (digits[|digits| - 1] as int - '0' as int)
  }

  lemma {:induction false} LeadingDigits(digits: seq<byte>, tail: seq<byte>)
    requires AllDigits(digits)
    ensures Leading(digits + tail, 10, 0) == Leading(tail, 10, Decimal(digits))
  {
    if digits == [] {
      assert digits + tail == tail;
    } else {
      var front, last := digits[..|digits| - 1], digits[|digits| - 1];
      var behind := [last] + tail;
      assert digits + tail == front + behind;
      LeadingDigits(front, behind);
      assert behind[1..] == tail;
    }
  }

  lemma {:induction false} SkipsSpace(blanks: seq<byte>, s: seq<byte>)
    requires AllSpace(blanks) && (s == [] || !IsBlank(s[0]))
    ensures SkipSpace(blanks + s) == s
  {
    if blanks == [] {
      assert blanks + s == s;
    } else {
      assert (blanks + s)[1..] == blanks[1..] + s;
      SkipsSpace(blanks[1..], s);
    }
  }

  /** A text as `strtoul` sees it: blanks, a sign or none, digits or none, and a tail it does not read. */
  ghost predicate IsNumberText(blanks: seq<byte>, sign: seq<byte>, digits: seq<byte>, tail: seq<byte>) {
    && AllSpace(blanks) && IsSign(sign) && AllDigits(digits)
    && (tail != [] ==> !IsDigit(tail[0]))
    && (sign == [] && digits == [] && tail != [] ==> !IsBlank(tail[0]) && tail[0] != '+' && tail[0] != '-')
  }

  lemma LeadingStops(tail: seq<byte>, acc: nat)
    requires tail != [] ==> !IsDigit(tail[0])
    ensures Leading(tail, 10, acc) == (acc, tail)
  {
  }

  /** Its value: the digits' number, 2^64 - 1 if that does not fit, and taken modulo 2^64 behind a minus
      sign; 0 without digits. */
  lemma StrtoulReads(blanks: seq<byte>, sign: seq<byte>, digits: seq<byte>, tail: seq<byte>)
    requires IsNumberText(blanks, sign, digits, tail)
    ensures var n := Decimal(digits);
            Strtoul(blanks + (sign + (digits + tail))) ==
              if n >= TWO_TO_64 then TWO_TO_64 - 1 else if sign == ['-'] then (TWO_TO_64 - n) % TWO_TO_64 else n
  {
    hide Decimal, Leading, SkipSpace;
    var number := digits + tail;
    var t := sign + number;
    SkipsSpace(blanks, t);
    LeadingDigits(digits, tail);
    LeadingStops(tail, Decimal(digits));
    if sign == [] {
      assert t == number;
    } else {
      assert t[1..] == number;
    }
  }

  lemma {:induction false} BlanksOff(s: seq<byte>) returns (blanks: seq<byte>, rest: seq<byte>)
    ensures s == blanks + rest && AllSpace(blanks) && (rest != [] ==> !IsBlank(rest[0]))
  {
    if s == [] || !IsBlank(s[0]) {
      return [], s;
    }
    blanks, rest := BlanksOff(s[1..]);
    blanks := [s[0]] + blanks;
  }

  lemma {:induction false} DigitsOff(s: seq<byte>) returns (digits: seq<byte>, tail: seq<byte>)
    ensures s == digits + tail && AllDigits(digits) && (tail != [] ==> !IsDigit(tail[0]))
  {
    if s == [] || !IsDigit(s[0]) {
      return [], s;
    }
    digits, tail := DigitsOff(s[1..]);
    digits := [s[0]] + digits;
  }

  /** Every text is of that shape, so nothing `strtoul` may be given is left open. */
  lemma NumberText(s: seq<byte>) returns (blanks: seq<byte>, sign: seq<byte>, digits: seq<byte>, tail: seq<byte>)
    ensures IsNumberText(blanks, sign, digits, tail) && s == blanks + (sign + (digits + tail))
  {
    hide AllSpace, AllDigits;
    var rest;
    blanks, rest := BlanksOff(s);
    if rest != [] && (rest[0] == '+' || rest[0] == '-') {
      sign := [rest[0]];
      digits, tail := DigitsOff(rest[1..]);
      assert rest == sign + rest[1..];
    } else {
      sign := [];
      digits, tail := DigitsOff(rest);
      assert rest == sign + rest;
    }
  }

  // ----- What printf writes -----

  /** A row of digits with no zero in front, except that zero itself is one. */
  predicate NoLeadingZero(s: seq<byte>) {
    s != [] && (s[0] == '0' ==> |s| == 1)
  }

  /** `%d` and `%lld` of a number that is not negative: decimal digits, and the number they stand for is
      the one printed. */
  lemma {:induction false} NumeralIsDecimal(n: nat)
    ensures var s := Numeral(n, 10);
            && AllDigits(s) && Decimal(s) == n && NoLeadingZero(s) && (s[0] == '0' ==> n == 0)
  {
    var s := Numeral(n, 10);
    if n < 10 {
      DigitRoundTrip(n, 10);
      assert s[..0] == [];
    } else {
      NumeralIsDecimal(n / 10);
      DigitRoundTrip(n % 10, 10);
      assert s[..|s| - 1] == Numeral(n / 10, 10);
    }
  }

  /** And of any number: behind a minus sign if it is negative, and only then. */
  lemma SignedIsDecimal(n: int)
    ensures var s := Signed(n);
            var digits := if n < 0 then s[1..] else s;
            && s != [] && (s[0] == '-' <==> n < 0)
            && AllDigits(digits) && NoLeadingZero(digits) && Decimal(digits) == (if n < 0 then -n else n)
  {
    hide Numeral, Decimal;
    NumeralIsDecimal(if n < 0 then -n else n);
    assert n < 0 ==> Signed(n)[1..] == Numeral(-n, 10);
  }

  /** A status code has three digits. */
  lemma ThreeDigits(n: nat)
    requires 100 <= n <= 999
    ensures |Signed(n)| == 3
  {
    assert |Numeral(n / 10 / 10, 10)| == 1;
    assert |Numeral(n / 10, 10)| == 2;
  }

  /** The value of a lower-case hexadecimal digit, 16 for anything else. */
  function HexValue(c: byte): nat {
    if '0' <= c <= '9' then c as int - '0' as int
    else if 'a' <= c <= 'f' then c as int - 'a' as int + 10
    else 16
  }

  predicate AllHex(s: seq<byte>) {
    forall i :: 0 <= i < |s| ==> HexValue(s[i]) < 16
  }

  function Hexadecimal(digits: seq<byte>): nat {
    if digits == [] then 0
    else 16 * Hexadecimal(digits[..|digits| - 1]) + HexValue(digits[|digits| - 1])
  }

  lemma HexDigit(d: nat)
    requires d < 16
    ensures HexValue(DigitChar(d)) == d && (DigitChar(d) == '0' <==> d == 0)
  {
    assert ('0' as int + d) as char as int == '0' as int + d;
    assert ('a' as int + d - 10) as char as int == 'a' as int + d - 10 || d < 10;
  }

  /** `%zx`: lower-case hexadecimal digits, and the number they stand for is the one printed. */
  lemma {:induction false} NumeralIsHexadecimal(n: nat)
    ensures var s := Numeral(n, 16);
            && AllHex(s) && Hexadecimal(s) == n && NoLeadingZero(s) && (s[0] == '0' ==> n == 0)
  {
    var s := Numeral(n, 16);
    HexDigit(n % 16);
    if n < 16 {
      assert s[..0] == [];
    } else {
      NumeralIsHexadecimal(n / 16);
      assert s[..|s| - 1] == Numeral(n / 16, 16);
    }
  }

  /** A plain decimal: the number itself, or 2^64 - 1 once it is too large. */
  lemma StrtoulReadsDecimal(n: nat)
    ensures Strtoul(Numeral(n, 10)) == Min(n, TWO_TO_64 - 1)
  {
    hide Decimal, Strtoul, Numeral;
    var s := Numeral(n, 10);
    NumeralIsDecimal(n);
    StrtoulReads([], [], s, []);
    assert [] + ([] + (s + [])) == s;
  }

  /** A negative length is not rejected: it wraps to a huge one. */
  lemma StrtoulWrapsNegatives(n: nat)
    requires 0 < n < TWO_TO_64
    ensures Strtoul(['-'] + Numeral(n, 10)) == TWO_TO_64 - n
  {
    hide Decimal, Strtoul, Numeral;
    var s := Numeral(n, 10);
    NumeralIsDecimal(n);
    StrtoulReads([], ['-'], s, []);
    assert [] + (['-'] + (s + [])) == ['-'] + s;
  }
}
