/** Plain decimal texts: an optional sign, digits, and optionally a point with more digits. */
module Parsing {
  import opened Powers
  import opened Decimals
  import opened Results

  predicate IsDigit(c: char) {
    '0' <= c <= '9'
  }

  predicate AllDigits(text: string) {
    forall i :: 0 <= i < |text| ==> IsDigit(text[i])
  }

  /** The number that a text of digits denotes in base ten. */
  function NumberOf(digits: string): (n: nat)
    requires AllDigits(digits)
  {
    if digits == "" then 0
    else 10 * NumberOf(digits[..|digits| - 1]) + (digits[|digits| - 1] as int - '0' as int)
  }

  /** The place of the first point, or the length of a text without one. */
  function PointIn(text: string): (p: nat)
    ensures p <= |text|
    ensures forall i :: 0 <= i < p ==> text[i] != '.'
    ensures p < |text| ==> text[p] == '.'
  {
    if text == "" || text[0] == '.' then 0 else 1 + PointIn(text[1..])
  }

  /** Digits with at most one point; the digits after the point become decimal places. */
  function ParseUnsigned(body: string): (r: Option<Decimal>) {
    var p := PointIn(body);
    var whole, fraction := body[..p], if p < |body| then body[p + 1..] else "";
    if whole == "" || !AllDigits(whole) || !AllDigits(fraction) || (p < |body| && fraction == "") then None
    else Some(Decimal(NumberOf(whole + fraction), -|fraction|))
  }

  /** Texts of at most 1024 characters with an optional sign. */
  function ParseDecimal(text: string): (r: Option<Decimal>) {
    if !(1 <= |text| <= 1024) then None
    else if text[0] == '-' then
      var r := ParseUnsigned(text[1..]);
      if r == None then None else Some(r.value.Neg())
    else ParseUnsigned(if text[0] == '+' then text[1..] else text)
  }

  lemma {:induction false} NumberBelow(digits: string)
    requires AllDigits(digits)
    ensures NumberOf(digits) < IntPow10(|digits|)
  {
    if digits == "" {
    } else {
      NumberBelow(digits[..|digits| - 1]);
    }
  }

  /** A parsed number has at most 1024 digits and at most 1024 decimal places. */
  lemma ParsedDigits(text: string)
    requires ParseDecimal(text).Some?
    ensures
      var d := ParseDecimal(text).value;
      && -IntPow10(1024) < d.coefficient < IntPow10(1024)
      && -1024 <= d.exponent <= 0
  {
    hide ParseUnsigned, IntPow10, Decimal.Value;
    var body := if text[0] == '+' || text[0] == '-' then text[1..] else text;
    UnsignedDigits(body);
  }

  lemma UnsignedDigits(body: string)
    requires |body| <= 1024 && ParseUnsigned(body).Some?
    ensures 0 <= ParseUnsigned(body).value.coefficient < IntPow10(1024)
    ensures -1024 <= ParseUnsigned(body).value.exponent <= 0
  {
    hide IntPow10, NumberOf;
    var p := PointIn(body);
    var digits := body[..p] + if p < |body| then body[p + 1..] else "";
    NumberBelow(digits);
    IntPow10Grow(|digits|, 1024);
  }

  /** Digits around a point: the number of whole units, and the fraction in units of the last place. */
  lemma ParsedFraction(whole: string, fraction: string)
    requires AllDigits(whole) && AllDigits(fraction) && whole != "" && fraction != ""
    ensures ParseUnsigned(whole + "." + fraction).Some?
    ensures
      var d := ParseUnsigned(whole + "." + fraction).value;
      && d.exponent == -|fraction|
      && d.coefficient == NumberOf(whole) * IntPow10(|fraction|) + NumberOf(fraction)
  {
    hide NumberOf, IntPow10;
    var body := whole + "." + fraction;
    PointAfter(whole, fraction);
    assert body[..|whole|] == whole && body[|whole| + 1..] == fraction;
    NumberOfJoined(whole, fraction);
  }

  lemma ParsedWhole(whole: string)
    requires AllDigits(whole) && whole != ""
    ensures ParseUnsigned(whole) == Some(Decimal(NumberOf(whole), 0))
  {
    hide NumberOf;
    assert PointIn(whole) == |whole|;
    assert whole[..|whole|] == whole && whole + "" == whole;
  }

  /** A sign in front. */
  lemma ParsedSign(body: string)
    requires body != "" && |body| < 1024 && '0' <= body[0] <= '9'
    ensures ParseDecimal(body) == ParseUnsigned(body) && ParseDecimal("+" + body) == ParseUnsigned(body)
    ensures ParseUnsigned(body).Some? ==>
      && ParseDecimal("-" + body).Some?
      && ParseDecimal("-" + body).value.Value() == -ParseUnsigned(body).value.Value()
    ensures ParseUnsigned(body) == None ==> ParseDecimal("-" + body) == None
  {
    hide ParseUnsigned, Decimal.Value;
    assert ("+" + body)[1..] == body && ("-" + body)[1..] == body;
  }

  lemma PointAfter(whole: string, fraction: string)
    requires AllDigits(whole)
    ensures PointIn(whole + "." + fraction) == |whole|
  {
    var text := whole + "." + fraction;
    var p := PointIn(text);
    assert text[|whole|] == '.';
    assert forall i :: 0 <= i < |whole| ==> text[i] == whole[i];
  }

  lemma {:induction false} NumberOfJoined(a: string, b: string)
    requires AllDigits(a) && AllDigits(b)
    ensures NumberOf(a + b) == NumberOf(a) * IntPow10(|b|) + NumberOf(b)
  {
    if b == "" {
      assert a + b == a;
    } else {
      var front := b[..|b| - 1];
      NumberOfJoined(a, front);
      assert (a + b)[..|a + b| - 1] == a + front;
      TenTimes(NumberOf(a), IntPow10(|front|), NumberOf(front));
    }
  }

  lemma TenTimes(x: int, p: int, y: int)
    ensures 10 * (x * p + y) == x * (10 * p) + 10 * y
  {
  }

  /** Only digits and one point between digits are accepted. */
  lemma RefusedTexts(body: string, i: nat)
    requires ParseUnsigned(body).Some? && i < |body|
    ensures '0' <= body[i] <= '9' || (body[i] == '.' && 0 < i < |body| - 1 && PointIn(body) == i)
  {
    hide NumberOf, PointIn, AllDigits;
    var p := PointIn(body);
    if i < p {
      DigitIn(body[..p], i);
    } else if i > p {
      DigitIn(body[p + 1..], i - p - 1);
    }
  }

  lemma DigitIn(text: string, i: nat)
    requires AllDigits(text) && i < |text|
    ensures '0' <= text[i] <= '9'
  {
  }
}
