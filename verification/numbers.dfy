/** Decimal integers as `int.Parse(value, CultureInfo.InvariantCulture)` reads
    them and as `int.ToString()` writes them: optional white space, an
    optional leading sign, ASCII digits, optional white space and trailing NUL
    characters, within the range of a 32-bit `int`. */
module Numbers {
  import opened Wrappers
  import opened Exceptions
  import opened Text

  const MinInt32: int := -0x8000_0000
  const MaxInt32: int := 0x7FFF_FFFF

  /** The white space `NumberStyles.Integer` admits before and after a
      number: U+0009..U+000D and U+0020 (a narrower set than `Trim`'s). */
  predicate IsNumberWhite(c: char) {
    '\U{0009}' <= c <= '\U{000D}' || c == ' '
  }

  predicate IsNul(c: char) {
    c == '\0'
  }

  predicate IsDigit(c: char) {
    '0' <= c <= '9'
  }

  predicate AllDigits(s: string) {
    forall i :: 0 <= i < |s| ==> IsDigit(s[i])
  }

  function DigitChar(d: nat): (c: char)
    requires d < 10
    ensures IsDigit(c)
  {
    ('0' as int + d) as char
  }

  /** The value of a run of decimal digits, most significant first. */
  function DigitsValue(ds: string): nat
    requires AllDigits(ds)
  {
    if |ds| == 0 then 0
    else DigitsValue(ds[..|ds| - 1]) * 10 + (ds[|ds| - 1] as int - '0' as int)
  }

  /** The shortest decimal digits of `n`. */
  function NatToDigits(n: nat): (ds: string)
    ensures 0 < |ds| && AllDigits(ds)
  {
    if n < 10 then [DigitChar(n)] else NatToDigits(n / 10) + [DigitChar(n % 10)]
  }

  /** `int.ToString()` under the invariant culture. */
  function Int32ToString(n: int): string {
    if n < 0 then "-" + NatToDigits(-n) else NatToDigits(n)
  }

  lemma {:induction false} DigitsRoundTrip(n: nat)
    ensures DigitsValue(NatToDigits(n)) == n
  {
    if 10 <= n {
      var ds := NatToDigits(n);
      assert ds[..|ds| - 1] == NatToDigits(n / 10);
      DigitsRoundTrip(n / 10);
    }
  }

  /** What is left of a literal once the leading white space, the trailing
      NUL characters and the white space before them are cut off. */
  function NumberBody(s: string): string {
    var t := s[SkipStart(s, IsNumberWhite)..];
    var u := t[..SkipEnd(t, IsNul)];
    u[..SkipEnd(u, IsNumberWhite)]
  }

  /** A well-formed integer literal: an optional leading sign followed by
      one or more ASCII digits. */
  predicate IsIntegerLiteral(b: string) {
    || (0 < |b| && AllDigits(b))
    || (1 < |b| && (b[0] == '+' || b[0] == '-') && AllDigits(b[1..]))
  }

  /** The value a well-formed literal denotes, whatever its size. */
  function LiteralValue(b: string): int
    requires IsIntegerLiteral(b)
  {
    if AllDigits(b) then DigitsValue(b)
    else if b[0] == '-' then -(DigitsValue(b[1..]) as int)
    else DigitsValue(b[1..])
  }

  predicate InInt32Range(v: int) {
    MinInt32 <= v <= MaxInt32
  }

  /** `int.Parse(s, CultureInfo.InvariantCulture)`: a malformed literal throws
      `FormatException`, a well-formed one outside the 32-bit range throws
      `OverflowException`, and any other literal yields its value. */
  function ParseInt32(s: string): (r: Result<int, Exception>)
    ensures r.Ok? <==> IsIntegerLiteral(NumberBody(s)) && InInt32Range(LiteralValue(NumberBody(s)))
    ensures r.Ok? ==> r.value == LiteralValue(NumberBody(s)) && InInt32Range(r.value)
    ensures r == Err(OverflowException) <==> IsIntegerLiteral(NumberBody(s)) && !InInt32Range(LiteralValue(NumberBody(s)))
    ensures r == Err(FormatException) <==> !IsIntegerLiteral(NumberBody(s))
    ensures r.Err? ==> r.error == FormatException || r.error == OverflowException
  {
    ParseSignedDigits(NumberBody(s))
  }

  /** An optional leading sign followed by at least one digit. */
  function ParseSignedDigits(body: string): (r: Result<int, Exception>)
    ensures r.Ok? <==> IsIntegerLiteral(body) && InInt32Range(LiteralValue(body))
    ensures r.Ok? ==> r.value == LiteralValue(body) && InInt32Range(r.value)
    ensures r == Err(OverflowException) <==> IsIntegerLiteral(body) && !InInt32Range(LiteralValue(body))
    ensures r == Err(FormatException) <==> !IsIntegerLiteral(body)
  {
    var signed := 0 < |body| && (body[0] == '-' || body[0] == '+');
    var digits := if signed then body[1..] else body;
    if |digits| == 0 || !AllDigits(digits) then Err(FormatException)
    else
      var magnitude: int := DigitsValue(digits);
      var v: int := if signed && body[0] == '-' then -magnitude else magnitude;
      if MinInt32 <= v <= MaxInt32 then Ok(v) else Err(OverflowException)
  }

  ghost predicate AllNumberWhite(w: string) {
    forall i :: 0 <= i < |w| ==> IsNumberWhite(w[i])
  }

  /** A literal that neither starts nor ends with white space or NUL keeps
      its body when white space is put around it. */
  lemma NumberBodyOfPadded(w1: string, x: string, w2: string)
    requires AllNumberWhite(w1) && AllNumberWhite(w2)
    requires 0 < |x| && !IsNumberWhite(x[0]) && !IsNumberWhite(x[|x| - 1]) && !IsNul(x[|x| - 1])
    ensures NumberBody(w1 + x + w2) == x
  {
    var s := w1 + x + w2;
    assert s[|w1|] == x[0];
    assert forall i :: 0 <= i < |w1| ==> s[i] == w1[i];
    var a := SkipStart(s, IsNumberWhite);
    assert a == |w1|;
    var t := s[a..];
    assert t == x + w2;
    var e := SkipEnd(t, IsNul);
    assert t[|t| - 1] == (if |w2| == 0 then x[|x| - 1] else w2[|w2| - 1]);
    assert e == |t|;
    var u := t[..e];
    assert u == x + w2;
    assert u[|x| - 1] == x[|x| - 1];
    assert forall i :: |x| <= i < |u| ==> u[i] == w2[i - |x|];
    var f := SkipEnd(u, IsNumberWhite);
    assert f == |x|;
    assert u[..f] == x;
  }

  /** `int.ToString()` writes a well-formed literal denoting its argument. */
  lemma Int32ToStringIsLiteral(n: int)
    ensures IsIntegerLiteral(Int32ToString(n)) && LiteralValue(Int32ToString(n)) == n
  {
    var x := Int32ToString(n);
    if n < 0 {
      var ds := NatToDigits(-n);
      assert x[1..] == ds;
      assert !AllDigits(x) by { assert !IsDigit(x[0]); }
      DigitsRoundTrip(-n);
    } else {
      DigitsRoundTrip(n);
    }
  }

  /** `int.ToString()` output is its own number body. */
  lemma NumberBodyOfInt32ToString(n: int)
    ensures NumberBody(Int32ToString(n)) == Int32ToString(n)
  {
    var x := Int32ToString(n);
    var m: nat := if n < 0 then -n else n;
    var ds := NatToDigits(m);
    assert x[|x| - 1] == ds[|ds| - 1];
    assert IsDigit(x[0]) || x[0] == '-';
    assert x == [] + x + [];
    NumberBodyOfPadded([], x, []);
  }

  /** An integer outside the 32-bit range, written out, overflows. */
  lemma ParseInt32Overflows(n: int)
    requires !InInt32Range(n)
    ensures ParseInt32(Int32ToString(n)) == Err(OverflowException)
  {
    Int32ToStringIsLiteral(n);
    NumberBodyOfInt32ToString(n);
  }

  /** Every 32-bit integer survives `ToString` followed by `int.Parse`, with
      any amount of white space around it. */
  lemma ParseInt32RoundTrip(w1: string, n: int, w2: string)
    requires MinInt32 <= n <= MaxInt32
    requires AllNumberWhite(w1) && AllNumberWhite(w2)
    ensures ParseInt32(w1 + Int32ToString(n) + w2) == Ok(n)
  {
    var x := Int32ToString(n);
    var m: nat := if n < 0 then -n else n;
    var ds := NatToDigits(m);
    assert x[|x| - 1] == ds[|ds| - 1];
    assert IsDigit(x[0]) || x[0] == '-';
    NumberBodyOfPadded(w1, x, w2);
    Int32ToStringIsLiteral(n);
  }
}
