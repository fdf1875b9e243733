/** Numbers as the engine reads and writes them: the numerals of the
    location pattern, Python's float() seen through the text repr() gives
    back, and Python's int() and str() on integers. */
module Decimals {
  import opened Wrappers
  import opened PyText

  /** A decimal numeral `-?\d+(\.\d+)?`; an empty `fraction` stands for a
      numeral without a fractional part. */
  datatype Decimal = Decimal(negative: bool, whole: string, fraction: string)

  predicate WellFormed(d: Decimal) {
    IsDigits(d.whole) && (d.fraction == [] || IsDigits(d.fraction))
  }

  /** The numeral's text. */
  function Text(d: Decimal): string {
    (if d.negative then "-" else "") + d.whole + (if d.fraction == [] then "" else "." + d.fraction)
  }

  /** Recognises exactly the numerals `-?\d+(\.\d+)?` and reads their parts. */
  function Parse(t: string): (r: Option<Decimal>)
    ensures r.Some? ==> WellFormed(r.value) && Text(r.value) == t
  {
    var negative := |t| > 0 && t[0] == '-';
    var body := if negative then t[1..] else t;
    match ParseUnsigned(body)
    case Some((whole, fraction)) =>
      SignThenBody(t, negative, body);
      TextOfParts(negative, whole, fraction, body);
      Some(Decimal(negative, whole, fraction))
    case None => None
  }

  lemma SignThenBody(t: string, negative: bool, body: string)
    requires negative == (|t| > 0 && t[0] == '-')
    requires body == if negative then t[1..] else t
    ensures t == (if negative then "-" else "") + body
  {
    if negative {
      assert t == [t[0]] + t[1..];
    }
  }

  lemma TextOfParts(negative: bool, whole: string, fraction: string, body: string)
    requires body == whole + (if fraction == [] then "" else "." + fraction)
    ensures Text(Decimal(negative, whole, fraction)) == (if negative then "-" else "") + body
  {
  }

  /** The unsigned part `\d+(\.\d+)?`, as its whole digits and fraction digits. */
  function ParseUnsigned(body: string): (r: Option<(string, string)>)
    ensures r.Some? ==> WellFormed(Decimal(false, r.value.0, r.value.1))
    ensures r.Some? ==> body == r.value.0 + (if r.value.1 == [] then "" else "." + r.value.1)
  {
    if '.' in body then
      var k := IndexOf(body, '.');
      if IsDigits(body[..k]) && IsDigits(body[k + 1..]) then
        assert body == body[..k] + "." + body[k + 1..];
        Some((body[..k], body[k + 1..]))
      else None
    else if IsDigits(body) then Some((body, ""))
    else None
  }

  /** Every well-formed numeral is read back from its own text. */
  lemma ParseText(d: Decimal)
    requires WellFormed(d)
    ensures Parse(Text(d)) == Some(d)
  {
    var body := d.whole + (if d.fraction == [] then "" else "." + d.fraction);
    ParseUnsignedText(d.whole, d.fraction);
    assert body[0] == d.whole[0];
    ParseSigned(d.negative, body);
    assert Text(d) == (if d.negative then "-" else "") + body;
  }

  /** The sign is read off first; the rest is the unsigned part. */
  lemma ParseSigned(negative: bool, body: string)
    requires body != [] && body[0] != '-'
    ensures Parse((if negative then "-" else "") + body) ==
      match ParseUnsigned(body)
      case Some((whole, fraction)) => Some(Decimal(negative, whole, fraction))
      case None => None
  {
    var t := (if negative then "-" else "") + body;
    if negative {
      assert t[1..] == body;
    } else {
      assert t == body;
    }
  }

  lemma ParseUnsignedText(whole: string, fraction: string)
    requires WellFormed(Decimal(false, whole, fraction))
    ensures ParseUnsigned(whole + (if fraction == [] then "" else "." + fraction)) == Some((whole, fraction))
  {
    var body := whole + (if fraction == [] then "" else "." + fraction);
    assert '.' !in whole;
    if fraction == [] {
      assert body == whole;
    } else {
      assert body[|whole|] == '.';
      var k := IndexOf(body, '.');
      assert k == |whole|;
      assert body[..k] == whole;
      assert body[k + 1..] == fraction;
    }
  }

  function DigitValue(c: char): nat {
    if IsDigit(c) then c as int - '0' as int else 0
  }

  /** The value of a string of decimal digits, most significant first. */
  function DigitsValue(s: string): nat {
    if s == [] then 0 else 10 * DigitsValue(s[..|s| - 1]) + DigitValue(s[|s| - 1])
  }

  /** The positive naturals: what a power of ten or of two always is. */
  type Positive = n: nat | n >= 1 witness 1

  function Pow10(n: nat): Positive {
    if n == 0 then 1 else 10 * Pow10(n - 1)
  }

  /** The value of the digits after the decimal point. */
  function FractionValue(f: string): real {
    DigitsValue(f) as real / Pow10(|f|) as real
  }

  /** The exact value the numeral denotes. */
  function Value(d: Decimal): real {
    var magnitude := DigitsValue(d.whole) as real + FractionValue(d.fraction);
    if d.negative then -magnitude else magnitude
  }

  /** A leading zero adds nothing to the value. */
  lemma {:induction false} LeadingZero(t: string)
    ensures DigitsValue("0" + t) == DigitsValue(t)
    decreases |t|
  {
    if t != [] {
      var u := "0" + t;
      assert u[..|u| - 1] == "0" + t[..|t| - 1];
      LeadingZero(t[..|t| - 1]);
    }
  }

  /** Leading zeros removed, one digit kept: how repr() writes the whole part. */
  function TrimLeadingZeros(s: string): (r: string)
    requires IsDigits(s)
    ensures IsDigits(r) && (|r| == 1 || r[0] != '0')
    ensures DigitsValue(r) == DigitsValue(s)
  {
    if |s| > 1 && s[0] == '0' then
      LeadingZero(s[1..]);
      assert s == "0" + s[1..];
      TrimLeadingZeros(s[1..])
    else s
  }

  /** Trailing zeros removed: how repr() writes the fraction. */
  function TrimTrailingZeros(f: string): (r: string)
    requires f == [] || IsDigits(f)
    ensures r == [] || (IsDigits(r) && r[|r| - 1] != '0')
    ensures FractionValue(r) == FractionValue(f)
  {
    if |f| > 0 && f[|f| - 1] == '0' then
      var g := f[..|f| - 1];
      TrailingZero(g);
      assert f == g + "0";
      TrimTrailingZeros(g)
    else f
  }

  /** A trailing zero after the decimal point adds nothing to the value. */
  lemma TrailingZero(g: string)
    ensures FractionValue(g + "0") == FractionValue(g)
  {
    var f := g + "0";
    assert f[..|f| - 1] == g;
    var a := DigitsValue(g) as real;
    var b := Pow10(|g|) as real;
    assert DigitsValue(f) as real == 10.0 * a;
    assert Pow10(|f|) as real == 10.0 * b;
    ScaledQuotient(a, b);
  }

  lemma ScaledQuotient(a: real, b: real)
    requires b > 0.0
    ensures (10.0 * a) / (10.0 * b) == a / b
  {
  }

  /** The text repr() gives a Python float: no superfluous leading zero,
      at least one fraction digit, no superfluous trailing zero. */
  predicate IsFloatRepr(f: Decimal) {
    && WellFormed(f)
    && (|f.whole| == 1 || f.whole[0] != '0')
    && |f.fraction| >= 1
    && (|f.fraction| == 1 || f.fraction[|f.fraction| - 1] != '0')
  }

  /** float(Text(d)) as repr() writes it: the same value and sign, in the
      form repr() uses (see README for digits float() cannot hold). */
  function ToFloat(d: Decimal): (f: Decimal)
    requires WellFormed(d)
    ensures IsFloatRepr(f)
    ensures f.negative == d.negative && Value(f) == Value(d)
  {
    var fraction := TrimTrailingZeros(d.fraction);
    assert FractionValue("0") == 0.0;
    Decimal(d.negative, TrimLeadingZeros(d.whole), if fraction == [] then "0" else fraction)
  }

  /** repr() writes a float in plain positional form, the one IsFloatRepr
      describes, only when it is zero or at least 1e-4 and below 1e16 in
      magnitude; anything else it writes with an exponent (`5e-05`). */
  predicate PositionalRepr(f: Decimal) {
    Value(f) == 0.0 || (0.0001 <= Value(f) < 10000000000000000.0) || (-10000000000000000.0 < Value(f) <= -0.0001)
  }

  /** A float's repr is read back as the same float. */
  lemma FloatReprStable(f: Decimal)
    requires IsFloatRepr(f)
    ensures ToFloat(f) == f
  {
  }

  /** str(n) for a natural number. */
  function NatText(n: nat): (s: string)
    ensures IsDigits(s) && DigitsValue(s) == n
    ensures n > 0 ==> s[0] != '0'
  {
    var last := [('0' as int + n % 10) as char];
    if n < 10 then last
    else
      var s := NatText(n / 10) + last;
      assert s[..|s| - 1] == NatText(n / 10);
      s
  }

  /** str(i) for a Python int. */
  function IntText(i: int): string {
    if i < 0 then "-" + NatText(-i) else NatText(i)
  }

  /** The digits `1_000` style: underscores only singly, between digits. */
  predicate IsUnderscoredDigits(s: string) {
    |s| > 0 && forall i :: 0 <= i < |s| ==> DigitOrJoiner(s, i)
  }

  predicate DigitOrJoiner(s: string, i: nat)
    requires i < |s|
  {
    || IsDigit(s[i])
    || (s[i] == '_' && 0 < i < |s| - 1 && IsDigit(s[i - 1]) && IsDigit(s[i + 1]))
  }

  /** The digits int() reads once the underscores between them are gone. */
  function RemoveUnderscores(s: string): string {
    if s == [] then []
    else if s[|s| - 1] == '_' then RemoveUnderscores(s[..|s| - 1])
    else RemoveUnderscores(s[..|s| - 1]) + [s[|s| - 1]]
  }

  /** Every character but '_' is kept, as often as it occurs, and a string
      without underscores comes back unchanged. */
  lemma UnderscoresRemoved(s: string)
    ensures '_' !in RemoveUnderscores(s)
    ensures forall c :: c != '_' ==> multiset(RemoveUnderscores(s))[c] == multiset(s)[c]
    ensures (forall i :: 0 <= i < |s| ==> s[i] != '_') ==> RemoveUnderscores(s) == s
  {
    NoUnderscoreLeft(s);
    OthersKept(s);
    if forall i :: 0 <= i < |s| ==> s[i] != '_' {
      NothingToRemove(s);
    }
  }

  lemma {:induction false} NoUnderscoreLeft(s: string)
    ensures '_' !in RemoveUnderscores(s)
    decreases |s|
  {
    if s != [] {
      NoUnderscoreLeft(s[..|s| - 1]);
    }
  }

  lemma {:induction false} OthersKept(s: string)
    ensures forall c :: c != '_' ==> multiset(RemoveUnderscores(s))[c] == multiset(s)[c]
    decreases |s|
  {
    if s != [] {
      var init := s[..|s| - 1];
      OthersKept(init);
      assert s == init + [s[|s| - 1]];
      assert multiset(s) == multiset(init) + multiset{s[|s| - 1]};
    }
  }

  lemma {:induction false} NothingToRemove(s: string)
    requires forall i :: 0 <= i < |s| ==> s[i] != '_'
    ensures RemoveUnderscores(s) == s
    decreases |s|
  {
    if s != [] {
      var init := s[..|s| - 1];
      NothingToRemove(init);
      assert s == init + [s[|s| - 1]];
    }
  }

  /** int(s) on a str: optional surrounding whitespace, an optional sign,
      then digits; None where Python raises ValueError. */
  function ParseInt(s: string): (r: Option<int>)
  {
    ParseStrippedInt(Strip(s))
  }

  /** int() once the surrounding whitespace is gone. */
  function ParseStrippedInt(t: string): (r: Option<int>)
  {
    var signed := |t| > 0 && (t[0] == '-' || t[0] == '+');
    var digits := if signed then t[1..] else t;
    if IsUnderscoredDigits(digits) then
      var n: int := DigitsValue(RemoveUnderscores(digits));
      Some(if signed && t[0] == '-' then -n else n)
    else None
  }

  /** int() reads back every integer str() writes. */
  lemma ParseIntText(i: int)
    ensures ParseInt(IntText(i)) == Some(i)
  {
    var s := IntText(i);
    var n: nat := if i < 0 then -i else i;
    var digits := NatText(n);
    PlainDigits(digits);
    assert Trimmed(s) by {
      assert s[|s| - 1] == digits[|digits| - 1];
      assert s[0] == '-' || s[0] == digits[0];
    }
    StripTrimmed(s);
    if i < 0 {
      assert s == "-" + digits;
      assert s[1..] == digits;
      SignedDigits(s, digits);
    } else {
      assert s == digits;
      assert s[0] == digits[0];
      assert ParseStrippedInt(s) == Some(i);
    }
  }

  lemma SignedDigits(s: string, digits: string)
    requires IsDigits(digits) && s == "-" + digits
    ensures ParseStrippedInt(s) == Some(0 - DigitsValue(digits))
  {
    assert s[1..] == digits;
    PlainDigits(digits);
  }

  /** Plain digits are read by int() as their value. */
  lemma PlainDigits(digits: string)
    requires IsDigits(digits)
    ensures IsUnderscoredDigits(digits) && RemoveUnderscores(digits) == digits
  {
    assert forall k :: 0 <= k < |digits| ==> DigitOrJoiner(digits, k);
    UnderscoresRemoved(digits);
  }

  /** A Python int as the JSON number str() writes. */
  function IntDecimal(i: int): (d: Decimal)
    ensures WellFormed(d) && d.fraction == [] && Text(d) == IntText(i)
  {
    Decimal(i < 0, NatText(if i < 0 then -i else i), "")
  }
}
