/** JavaScript's `parseInt(text, 10)`, which controller.js applies to the
    HOUR_SEND setting before comparing it with the current hour.

    The algorithm (section 19.2.5 of ECMAScript 2024) strips leading white
    space, reads an optional sign, then the longest run of decimal digits;
    without a digit the result is NaN, which no hour equals. NaN is `None`
    here. The result is kept as an exact integer: JavaScript rounds digit
    runs longer than 2^53, but no such number rounds to an hour 0..23, so
    the comparison the notifier makes comes out the same. */
module JsNumber {
  import opened Common

  /** StrWhiteSpaceChar: the WhiteSpace and LineTerminator code points. */
  predicate IsStrWhiteSpace(c: char) {
    || c == '\t' || c == '\n' || c == '\U{0B}' || c == '\U{0C}' || c == '\r' || c == ' '
    || c == '\U{A0}' || c == '\U{1680}' || ('\U{2000}' <= c <= '\U{200A}')
    || c == '\U{2028}' || c == '\U{2029}' || c == '\U{202F}' || c == '\U{205F}'
    || c == '\U{3000}' || c == '\U{FEFF}'
  }

  /** `s` without its leading white space. */
  function TrimStart(s: string): (r: string)
    ensures |r| <= |s| && r == s[|s| - |r|..]
    ensures r == [] || !IsStrWhiteSpace(r[0])
  {
    if s != [] && IsStrWhiteSpace(s[0]) then TrimStart(s[1..]) else s
  }

  predicate IsDigit(c: char) {
    '0' <= c <= '9'
  }

  predicate AllDigits(s: string) {
    forall i :: 0 <= i < |s| ==> IsDigit(s[i])
  }

  /** The longest prefix of `s` made of decimal digits. */
  function LeadingDigits(s: string): (r: string)
    ensures r <= s && AllDigits(r)
    ensures |r| == |s| || !IsDigit(s[|r|])
  {
    if s != [] && IsDigit(s[0]) then
      assert s == [s[0]] + s[1..];
      [s[0]] + LeadingDigits(s[1..])
    else []
  }

  function DigitValue(c: char): int
    requires IsDigit(c)
  {
    c as int - '0' as int
  }

  /** The number a run of decimal digits denotes, most significant first. */
  function DigitsValue(ds: string): nat
    requires AllDigits(ds)
  {
    if ds == [] then 0 else DigitsValue(ds[..|ds| - 1]) * 10 + DigitValue(ds[|ds| - 1])
  }

  /** `parseInt(s, 10)`; `None` stands for NaN. */
  function ParseInt10(s: string): Option<int> {
    SignedDigits(TrimStart(s))
  }

  /** What `parseInt` reads once the white space is gone: an optional sign
      and the digits after it. */
  function SignedDigits(t: string): Option<int> {
    if t != [] && t[0] == '-' then
      match Magnitude(t[1..])
      case None => None
      case Some(v) => Some(-v)
    else if t != [] && t[0] == '+' then Magnitude(t[1..])
    else Magnitude(t)
  }

  /** The value of the digits at the start of `body`; `None` without one. */
  function Magnitude(body: string): Option<int> {
    var ds := LeadingDigits(body);
    if ds == [] then None else Some(DigitsValue(ds))
  }

  function DigitChar(n: int): (c: char)
    requires 0 <= n <= 9
    ensures IsDigit(c) && DigitValue(c) == n
  {
    ('0' as int + n) as char
  }

  /** The decimal numeral of a natural number, without leading zeros. */
  function Decimal(n: nat): (r: string)
    ensures r != [] && AllDigits(r)
  {
    if n < 10 then [DigitChar(n)] else Decimal(n / 10) + [DigitChar(n % 10)]
  }

  /** How JavaScript prints an integer: a minus sign, then the numeral. */
  function IntToString(n: int): string {
    if n < 0 then "-" + Decimal(-n) else Decimal(n)
  }

  lemma {:induction false} DecimalValue(n: nat)
    ensures DigitsValue(Decimal(n)) == n
  {
    if n >= 10 {
      DecimalValue(n / 10);
      var d := Decimal(n / 10) + [DigitChar(n % 10)];
      assert d[..|d| - 1] == Decimal(n / 10);
    }
  }

  lemma {:induction false} LeadingDigitsOfNumeral(ds: string, rest: string)
    requires AllDigits(ds)
    requires rest == [] || !IsDigit(rest[0])
    ensures LeadingDigits(ds + rest) == ds
  {
    if ds == [] {
      assert ds + rest == rest;
    } else {
      assert (ds + rest)[0] == ds[0];
      assert (ds + rest)[1..] == ds[1..] + rest;
      LeadingDigitsOfNumeral(ds[1..], rest);
      assert [ds[0]] + ds[1..] == ds;
    }
  }

  lemma MagnitudeOfNumeral(ds: string, rest: string)
    requires ds != [] && AllDigits(ds)
    requires rest == [] || !IsDigit(rest[0])
    ensures Magnitude(ds + rest) == Some(DigitsValue(ds))
  {
    LeadingDigitsOfNumeral(ds, rest);
  }

  lemma NegativeRun(ds: string, rest: string)
    requires ds != [] && AllDigits(ds)
    requires rest == [] || !IsDigit(rest[0])
    ensures SignedDigits("-" + (ds + rest)) == Some(0 - DigitsValue(ds))
  {
    SignDropped(ds + rest);
    MagnitudeOfNumeral(ds, rest);
  }

  lemma SignDropped(body: string)
    ensures ("-" + body)[0] == '-' && ("-" + body)[1..] == body
  {
  }

  lemma NegativeNumeral(n: int, rest: string)
    requires n < 0
    requires rest == [] || !IsDigit(rest[0])
    ensures SignedDigits(IntToString(n) + rest) == Some(n)
  {
    var ds := Decimal(-n);
    var s := IntToString(n) + rest;
    assert IntToString(n) == "-" + ds;
    Associative("-", ds, rest);
    assert s == "-" + (ds + rest);
    NegativeRun(ds, rest);
    DecimalValue(-n);
    assert 0 - DigitsValue(ds) == n;
  }

  lemma Associative(a: string, b: string, c: string)
    ensures (a + b) + c == a + (b + c)
  {
  }

  lemma NonNegativeNumeral(n: int, rest: string)
    requires n >= 0
    requires rest == [] || !IsDigit(rest[0])
    ensures SignedDigits(IntToString(n) + rest) == Some(n)
  {
    var ds := Decimal(n);
    var t := ds + rest;
    assert t[0] == ds[0] && IsDigit(ds[0]);
    MagnitudeOfNumeral(ds, rest);
    DecimalValue(n);
  }

  lemma SignedNumeral(n: int, rest: string)
    requires rest == [] || !IsDigit(rest[0])
    ensures SignedDigits(IntToString(n) + rest) == Some(n)
  {
    if n < 0 {
      NegativeNumeral(n, rest);
    } else {
      NonNegativeNumeral(n, rest);
    }
  }

  /** A printed integer followed by anything that does not start with a
      digit parses back to that integer (so "9am" gives 9). */
  lemma ParseIntOfNumeralPrefix(n: int, rest: string)
    requires rest == [] || !IsDigit(rest[0])
    ensures ParseInt10(IntToString(n) + rest) == Some(n)
  {
    var s := IntToString(n) + rest;
    assert s[0] == IntToString(n)[0];
    assert !IsStrWhiteSpace(s[0]);
    SignedNumeral(n, rest);
  }

  /** Round trip: parsing how an integer prints gives the integer back. */
  lemma ParseIntRoundTrip(n: int)
    ensures ParseInt10(IntToString(n)) == Some(n)
  {
    ParseIntOfNumeralPrefix(n, []);
    assert IntToString(n) + [] == IntToString(n);
  }

  lemma {:induction false} TrimStartSkips(ws: string, s: string)
    requires forall i :: 0 <= i < |ws| ==> IsStrWhiteSpace(ws[i])
    ensures TrimStart(ws + s) == TrimStart(s)
  {
    if ws != [] {
      assert (ws + s)[0] == ws[0];
      assert (ws + s)[1..] == ws[1..] + s;
      TrimStartSkips(ws[1..], s);
    } else {
      assert ws + s == s;
    }
  }

  /** Leading white space never changes what `parseInt` reads. */
  lemma ParseIntIgnoresLeadingWhiteSpace(ws: string, s: string)
    requires forall i :: 0 <= i < |ws| ==> IsStrWhiteSpace(ws[i])
    ensures ParseInt10(ws + s) == ParseInt10(s)
  {
    TrimStartSkips(ws, s);
  }

  /** An unset variable reaches `parseInt` as the text "undefined": NaN. */
  lemma UndefinedIsNaN()
    ensures ParseInt10("undefined") == None
    ensures ParseInt10("") == None
  {
    assert TrimStart("undefined") == "undefined";
    assert LeadingDigits("undefined") == [];
  }
}
