/**
  The global `parseInt` of ECMAScript, for the two ways the scraper calls it:
  with radix 10 (date components, the yearly total) and with no radix (the
  day's level, where a "0x" prefix switches to base 16).
 */
module JsNumber {
  import opened JsText

  /** What `parseInt` returns: NaN, or an integral Number. */
  datatype ParsedInt = NaN | Int(value: int)

  /** `parseInt(s, 10)` or `parseInt(s)`. */
  datatype Radix = Decimal | Unspecified

  /** The value of a digit character in bases up to 36; 36 for any other character. */
  function DigitValue(c: char): (v: nat)
    ensures v <= 36
    ensures v < 10 <==> '0' <= c <= '9'
  {
    if '0' <= c <= '9' then c as int - '0' as int
    else if 'a' <= c <= 'z' then c as int - 'a' as int + 10
    else if 'A' <= c <= 'Z' then c as int - 'A' as int + 10
    else 36
  }

  predicate IsDigit(c: char, base: nat) {
    DigitValue(c) < base
  }

  predicate AllDigits(s: string, base: nat) {
    forall i :: 0 <= i < |s| ==> IsDigit(s[i], base)
  }

  /** The longest prefix made of digits of the base: the part `parseInt` reads. */
  function LeadingDigits(s: string, base: nat): (d: string)
    ensures |d| <= |s| && d == s[..|d|]
    ensures AllDigits(d, base)
    ensures |d| == |s| || !IsDigit(s[|d|], base)
  {
    if s != [] && IsDigit(s[0], base) then
      var d := [s[0]] + LeadingDigits(s[1..], base);
      assert d == s[..|d|];
      d
    else []
  }

  /** The number a string of digits denotes, most significant digit first. */
  function DigitsValue(d: string, base: nat): nat
    requires AllDigits(d, base)
  {
    if d == [] then 0
    else DigitsValue(d[..|d| - 1], base) * base + DigitValue(d[|d| - 1])
  }

  /** The global `parseInt`: skip white space, read an optional sign, then
      the digits (see ReadUnsigned); NaN when there are none. */
  function ParseInt(s: string, radix: Radix): (r: ParsedInt)
    ensures (forall i :: 0 <= i < |s| ==> !IsDigit(s[i], 10)) ==> r == NaN
  {
    if s != [] && IsSpace(s[0]) then
      var r := ParseInt(s[1..], radix);
      assert forall i :: 0 <= i < |s| - 1 ==> s[1..][i] == s[i + 1];
      r
    else ReadSigned(s, radix)
  }

  /** An optional sign, then the digits. */
  function ReadSigned(t: string, radix: Radix): (r: ParsedInt)
    ensures r.Int? ==> exists i :: 0 <= i < |t| && IsDigit(t[i], 10)
  {
    if t != [] && t[0] == '-' then
      var r := Negate(ReadUnsigned(t[1..], radix));
      assert r.Int? ==> IsDigit(t[1], 10);
      r
    else if t != [] && t[0] == '+' then
      var r := ReadUnsigned(t[1..], radix);
      assert r.Int? ==> IsDigit(t[1], 10);
      r
    else ReadUnsigned(t, radix)
  }

  function Negate(p: ParsedInt): ParsedInt {
    match p
    case NaN => NaN
    case Int(v) => Int(-v)
  }

  /** Reads a "0x"/"0X" prefix when no radix is given (then base 16, else
      base 10) and as many digits of the base as follow. */
  function ReadUnsigned(u: string, radix: Radix): (r: ParsedInt)
    ensures r.Int? ==> r.value >= 0 && u != [] && IsDigit(u[0], 10)
  {
    var hex := radix == Unspecified && |u| >= 2 && u[0] == '0' && (u[1] == 'x' || u[1] == 'X');
    var base := if hex then 16 else 10;
    var digits := LeadingDigits(if hex then u[2..] else u, base);
    if digits == [] then NaN else Int(DigitsValue(digits, base))
  }

  /** The canonical decimal spelling of a natural number. */
  function DecimalDigits(n: nat): (d: string)
    ensures d != [] && AllDigits(d, 10)
    decreases n
  {
    var last := ['0' + (n % 10) as char];
    if n < 10 then last else DecimalDigits(n / 10) + last
  }

  /** The canonical decimal spelling of an integer, with a "-" when negative. */
  function DecimalString(n: int): string
  {
    if n < 0 then "-" + DecimalDigits(-n) else DecimalDigits(n)
  }

  lemma {:induction false} DecimalDigitsValue(n: nat)
    ensures DigitsValue(DecimalDigits(n), 10) == n
    decreases n
  {
    var d := DecimalDigits(n);
    if n >= 10 {
      DecimalDigitsValue(n / 10);
      assert d[..|d| - 1] == DecimalDigits(n / 10);
    }
  }

  /** `LeadingDigits` stops exactly where the digits stop. */
  lemma {:induction false} LeadingDigitsOf(d: string, rest: string, base: nat)
    requires AllDigits(d, base)
    requires rest == [] || !IsDigit(rest[0], base)
    ensures LeadingDigits(d + rest, base) == d
  {
    if d != [] {
      assert (d + rest)[1..] == d[1..] + rest;
      LeadingDigitsOf(d[1..], rest, base);
    } else {
      assert d + rest == rest;
    }
  }

  /** `parseInt(String(n) + rest, 10)` is `n` whenever `rest` does not go on
      with a digit: parsing reads back what printing wrote, and ignores the
      tail. Without a radix the same holds of the numeral alone. */
  lemma {:induction false} ParseDecimalString(n: int, rest: string, radix: Radix)
    requires rest == [] || !IsDigit(rest[0], 10)
    requires radix == Unspecified ==> rest == []
    ensures ParseInt(DecimalString(n) + rest, radix) == Int(n)
  {
    if n < 0 {
      ParseNegative(n, rest, radix);
    } else {
      ParseNatural(n, rest, radix);
    }
  }

  lemma {:induction false} ParseNatural(n: nat, rest: string, radix: Radix)
    requires rest == [] || !IsDigit(rest[0], 10)
    requires radix == Unspecified ==> rest == []
    ensures ParseInt(DecimalString(n) + rest, radix) == Int(n)
  {
    var s := DecimalDigits(n) + rest;
    assert DecimalString(n) + rest == s;
    ReadDecimalDigits(n, rest, radix);
    assert IsDigit(s[0], 10);
    assert ReadSigned(s, radix) == ReadUnsigned(s, radix);
  }

  lemma {:induction false} ParseNegative(n: int, rest: string, radix: Radix)
    requires n < 0
    requires rest == [] || !IsDigit(rest[0], 10)
    requires radix == Unspecified ==> rest == []
    ensures ParseInt(DecimalString(n) + rest, radix) == Int(n)
  {
    MinusSpelling(n, rest);
    ParseIntMinus(DecimalDigits(-n) + rest, radix);
    ReadDecimalDigits(-n, rest, radix);
  }

  lemma {:induction false} MinusSpelling(n: int, rest: string)
    requires n < 0
    ensures DecimalString(n) + rest == ['-'] + (DecimalDigits(-n) + rest)
  {
    var d := DecimalDigits(-n);
    assert DecimalString(n) == ['-'] + d;
  }

  /** A leading "-" negates what follows it. */
  lemma {:induction false} ParseIntMinus(tail: string, radix: Radix)
    ensures ParseInt(['-'] + tail, radix) == Negate(ReadUnsigned(tail, radix))
  {
    var s := ['-'] + tail;
    assert s[0] == '-' && s[1..] == tail;
    assert !IsSpace(s[0]);
  }

  /** A string of decimal digits reads as its value; the empty string as NaN. */
  lemma {:induction false} ParseDigits(d: string)
    requires AllDigits(d, 10)
    ensures ParseInt(d, Decimal) == if d == [] then NaN else Int(DigitsValue(d, 10))
  {
    if d != [] {
      assert ReadSigned(d, Decimal) == ReadUnsigned(d, Decimal);
      LeadingDigitsOf(d, [], 10);
      assert d + [] == d;
    }
  }

  lemma {:induction false} ReadDecimalDigits(m: nat, rest: string, radix: Radix)
    requires rest == [] || !IsDigit(rest[0], 10)
    requires radix == Unspecified ==> rest == []
    ensures ReadUnsigned(DecimalDigits(m) + rest, radix) == Int(m)
  {
    var u := DecimalDigits(m) + rest;
    DecimalDigitsValue(m);
    LeadingDigitsOf(DecimalDigits(m), rest, 10);
    if radix == Unspecified {
      assert u == DecimalDigits(m);
      NoLeadingZero(m);
    }
  }

  /** A canonical numeral of two or more digits does not start with "0". */
  lemma {:induction false} NoLeadingZero(m: nat)
    ensures |DecimalDigits(m)| >= 2 ==> DecimalDigits(m)[0] != '0'
    decreases m
  {
    if m >= 10 {
      NoLeadingZero(m / 10);
      assert DecimalDigits(m)[0] == DecimalDigits(m / 10)[0];
    }
  }

  /** White space in front does not change what `parseInt` reads. */
  lemma {:induction false} ParseIntSkipsSpace(space: string, s: string, radix: Radix)
    requires AllSpace(space)
    ensures ParseInt(space + s, radix) == ParseInt(s, radix)
  {
    if space != [] {
      assert (space + s)[1..] == space[1..] + s;
      ParseIntSkipsSpace(space[1..], s, radix);
    } else {
      assert space + s == s;
    }
  }

  /** `parseInt` reads what follows the leading white space, as TrimStart leaves it. */
  lemma {:induction false} ParseIntTrimStart(s: string, radix: Radix)
    ensures ParseInt(s, radix) == ReadSigned(TrimStart(s), radix)
  {
    if s != [] && IsSpace(s[0]) {
      ParseIntTrimStart(s[1..], radix);
    }
  }
}
