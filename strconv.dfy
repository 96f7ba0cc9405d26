/**
  The part of Go's `strconv.ParseInt(s, 0, 0)` that `GetInt` relies on, restricted to
  an optional sign followed by decimal digits, with the range check of a 64-bit `int`.
  `FormatInt` is the writer's side, used to state the round trip.
*/
module Strconv {

  /** The range of Go's `int` on a 64-bit platform (`bitSize` 0 means the size of `int`). */
  const MIN_INT: int := -0x8000_0000_0000_0000
  const MAX_INT: int := 0x7FFF_FFFF_FFFF_FFFF

  /** The outcome of `ParseInt`: a value, or one of Go's two error kinds. */
  datatype IntResult = Parsed(value: int) | ErrSyntax | ErrRange

  predicate IsDigit(c: char) {
    '0' <= c <= '9'
  }

  predicate AllDigits(ds: string) {
    forall i :: 0 <= i < |ds| ==> IsDigit(ds[i])
  }

  function DigitValue(c: char): (d: nat)
    requires IsDigit(c)
    ensures d < 10
  {
    c as int - '0' as int
  }

  function DigitChar(d: nat): (c: char)
    requires d < 10
    ensures IsDigit(c) && DigitValue(c) == d
  {
    ('0' as int + d) as char
  }

  /** A non-empty run of decimal digits without a redundant leading zero. */
  predicate IsDecimal(ds: string) {
    |ds| > 0 && AllDigits(ds) && (ds[0] == '0' ==> |ds| == 1)
  }

  /** The number a run of decimal digits denotes, most significant digit first. */
  function DecimalValue(ds: string): nat
    requires AllDigits(ds)
  {
    if ds == [] then 0 else 10 * DecimalValue(ds[..|ds| - 1]) + DigitValue(ds[|ds| - 1])
  }

  /** The decimal digits of n, most significant first. */
  function Digits(n: nat): (ds: string)
    ensures IsDecimal(ds) && DecimalValue(ds) == n
  {
    if n < 10 then [DigitChar(n)]
    else
      var ds := Digits(n / 10) + [DigitChar(n % 10)];
      assert ds[..|ds| - 1] == Digits(n / 10);
      ds
  }

  /** The sign character, if any, and the digits after it. */
  function SignAndDigits(s: string): (p: (bool, string))
    ensures |s| > 0 && (s[0] == '+' || s[0] == '-') ==> p.1 == s[1..]
    ensures !(|s| > 0 && (s[0] == '+' || s[0] == '-')) ==> p.1 == s
    ensures p.0 <==> |s| > 0 && s[0] == '-'
  {
    if |s| > 0 && (s[0] == '+' || s[0] == '-') then (s[0] == '-', s[1..]) else (false, s)
  }

  /** Go's `strconv.ParseInt(s, 0, 0)` on the decimal forms it accepts. */
  function ParseInt(s: string): (r: IntResult)
    ensures r.Parsed? ==> MIN_INT <= r.value <= MAX_INT
    ensures r == ErrSyntax <==> !IsDecimal(SignAndDigits(s).1)
  {
    var (negative, ds) := SignAndDigits(s);
    if !IsDecimal(ds) then ErrSyntax
    else
      var n := if negative then -(DecimalValue(ds) as int) else DecimalValue(ds) as int;
      if MIN_INT <= n <= MAX_INT then Parsed(n) else ErrRange
  }

  /** The canonical decimal spelling of n, as Go's `strconv.Itoa` writes it. */
  function FormatInt(n: int): string {
    if n < 0 then "-" + Digits(-n) else Digits(n)
  }

  /** Parsing what `FormatInt` writes gives the number back, or a range error outside `int`. */
  lemma {:induction false} ParseFormat(n: int)
    ensures ParseInt(FormatInt(n)) == if MIN_INT <= n <= MAX_INT then Parsed(n) else ErrRange
  {
    var s := FormatInt(n);
    if n < 0 {
      assert s[0] == '-' && s[1..] == Digits(-n);
    } else {
      var ds := Digits(n);
      assert s == ds && ds[0] != '+' && ds[0] != '-';
    }
  }

  /** Digits that do not start with zero denote a positive number. */
  lemma {:induction false} LeadingDigitPositive(ds: string)
    requires |ds| > 0 && AllDigits(ds) && ds[0] != '0'
    ensures DecimalValue(ds) > 0
  {
    var prefix := ds[..|ds| - 1];
    if |prefix| > 0 {
      assert prefix[0] == ds[0];
      LeadingDigitPositive(prefix);
    }
  }

  /** Every canonical run of digits is the spelling of the number it denotes. */
  lemma {:induction false} DigitsOfValue(ds: string)
    requires IsDecimal(ds)
    ensures Digits(DecimalValue(ds)) == ds
  {
    var prefix := ds[..|ds| - 1];
    var last := ds[|ds| - 1];
    if |prefix| > 0 {
      assert prefix[0] == ds[0] && ds[0] != '0';
      LeadingDigitPositive(prefix);
      DigitsOfValue(prefix);
      var n := DecimalValue(ds);
      assert n / 10 == DecimalValue(prefix) && n % 10 == DigitValue(last);
      assert DigitChar(n % 10) == last;
      assert ds == prefix + [last];
    }
  }

  /** Apart from a leading '+' and "-0", a string that parses is the canonical spelling of its value. */
  lemma ParseCanonical(s: string)
    requires ParseInt(s).Parsed?
    requires s[0] != '+' && s != "-0"
    ensures FormatInt(ParseInt(s).value) == s
  {
    var (negative, ds) := SignAndDigits(s);
    DigitsOfValue(ds);
    if negative {
      assert ds != "0";
      LeadingDigitPositive(ds);
      assert s == "-" + ds;
    }
  }

  /** A leading '+' changes nothing: "+42" parses as "42" does. */
  lemma ParsePlus(s: string)
    requires s == [] || (s[0] != '+' && s[0] != '-')
    ensures ParseInt("+" + s) == ParseInt(s)
  {
    assert ("+" + s)[1..] == s;
  }

  /** The sample values: "42" and "-1234" parse, "whatever" is a syntax error. */
  lemma ParseIntExamples()
    ensures ParseInt("42") == Parsed(42)
    ensures ParseInt("-1234") == Parsed(-1234)
    ensures ParseInt("whatever") == ErrSyntax
  {
    assert "42"[..1] == "4" && "4"[..0] == "";
    assert "-1234"[1..] == "1234" && "1234"[..3] == "123" && "123"[..2] == "12" && "12"[..1] == "1";
    assert !IsDigit("whatever"[0]);
  }

  /** A sign written out: "+42" is 42. */
  lemma ParsePlusExample()
    ensures ParseInt("+42") == Parsed(42)
  {
    ParsePlus("42");
    ParseIntExamples();
  }
}
