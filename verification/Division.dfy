/** Division to 16 significant digits and the two output roundings. */
module Division {
  import opened Powers
  import opened Decimals
  import opened Rounding
  import opened Results

  const ZERO_DENOMINATOR := Invalid("denominator", "must not be zero")
  const DIVISION_OVERFLOW := Invalid("decimal", "division scale overflow")
  const OUTPUT_OVERFLOW := Invalid("decimal", "output scale overflow")

  predicate FitsScale(value: int) {
    -0x8000_0000 < value < 0x7fff_ffff
  }

  /** The library's division: the quotient rounded half away from zero at 10^-scale. */
  function DivRound(n: Decimal, d: Decimal, scale: int): (r: Decimal)
    requires !d.IsZero()
    ensures r.Value() == RoundTo(Over(n.Value(), NonZero(d)), Pow10(-scale))
  {
    PlacesRound(Over(n.Value(), NonZero(d)), scale);
    Decimal(RoundHalfAway(Times(Over(n.Value(), NonZero(d)), Pow10(scale))), -scale)
  }

  /** The library's Round: half away from zero at 10^-places. */
  function Round(value: Decimal, places: int): (r: Decimal)
    ensures r.Value() == RoundTo(value.Value(), Pow10(-places))
  {
    PlacesRound(value.Value(), places);
    Decimal(RoundHalfAway(Times(value.Value(), Pow10(places))), -places)
  }

  function NonZero(d: Decimal): (v: real)
    requires !d.IsZero()
    ensures v == d.Value() && v != 0.0
  {
    SignOfValue(d);
    d.Value()
  }

  lemma PlacesRound(x: real, places: int)
    ensures Decimal(RoundHalfAway(Times(x, Pow10(places))), -places).Value() == RoundTo(x, Pow10(-places))
  {
    hide Pow10, Times, Over, RoundTo, RoundHalfAway;
    var q := Times(x, Pow10(places));
    Pow10Inverse(places);
    TimesAssociates(x, Pow10(places), Pow10(-places));
    TimesUnits(x);
    TimesCommutes(1.0, x);
    RoundToMultiple(x, q, Pow10(-places));
  }

  // ---- specification ----

  /** The scale that leaves 16 significant digits in the quotient. */
  ghost function QuotientScale(n: Decimal, d: Decimal): (scale: int)
    requires !n.IsZero() && !d.IsZero()
  {
    SignOfValue(n);
    NonZeroQuotient(n.Value(), NonZero(d));
    -LastPlace(16, Over(n.Value(), NonZero(d)))
  }

  lemma NonZeroQuotient(a: real, b: real)
    requires a != 0.0 && b != 0.0
    ensures Over(a, b) != 0.0
  {
    hide Over, Times;
    OverTimes(a, b);
    TimesUnits(b);
  }

  ghost predicate ScalesFit(n: Decimal, d: Decimal)
    requires !n.IsZero() && !d.IsZero()
  {
    var scale := QuotientScale(n, d);
    && FitsScale(scale)
    && FitsScale(n.exponent - d.exponent + scale)
    && FitsScale(n.exponent + scale)
    && FitsScale(d.exponent - scale)
  }

  ghost function Divided(n: Decimal, d: Decimal): (r: Result<Decimal>) {
    if d.IsZero() then Err(ZERO_DENOMINATOR)
    else if n.IsZero() then Ok(ZERO)
    else if ScalesFit(n, d) then Ok(DivRound(n, d, QuotientScale(n, d)))
    else Err(DIVISION_OVERFLOW)
  }

  // ---- the magnitude computation ----

  lemma CoefficientDecade(d: Decimal)
    requires d.coefficient > 0
    ensures IsMagnitude(d.Value(), Digits(d.coefficient) - 1 + d.exponent)
  {
    hide Pow10, Times, IntPow10, Digits;
    var n, e := Digits(d.coefficient), d.exponent;
    DigitsBounds(d.coefficient);
    PowerOnGrid(e, n - 1);
    PowerOnGrid(e, n);
    assert e + (n - 1) == n - 1 + e && e + n == n - 1 + e + 1;
    TimesOrder(IntPow10(n - 1) as real, d.coefficient as real, Pow10(e));
    TimesOrder(d.coefficient as real, IntPow10(n) as real, Pow10(e));
  }

  function Positive(k: int): (n: nat) {
    if k > 0 then k else 0
  }

  /** Comparing across k decimal places is comparing coefficients scaled by the difference. */
  lemma CompareAcross(a: int, b: int, e: int, k: int)
    ensures Decimal(a, e).Value() < Decimal(b, e + k).Value()
            <==> a * IntPow10(Positive(-k)) < b * IntPow10(Positive(k))
  {
    hide Pow10, Times;
    var low := if k > 0 then e else e + k;
    CompareAt(Decimal(a, e), Decimal(b, e + k), low);
    assert a * IntPow10(0) == a && b * IntPow10(0) == b;
    assert Decimal(a, e).CoefficientAt(low) == a * IntPow10(Positive(-k));
    assert Decimal(b, e + k).CoefficientAt(low) == b * IntPow10(Positive(k));
  }

  lemma CompareAt(x: Decimal, y: Decimal, e: int)
    requires e <= x.exponent && e <= y.exponent
    ensures x.Value() < y.Value() <==> x.CoefficientAt(e) < y.CoefficientAt(e)
  {
    hide Pow10, Times, IntPow10;
    TimesOrder(x.CoefficientAt(e) as real, y.CoefficientAt(e) as real, Pow10(e));
  }

  /** A quotient reaches 10^t exactly when the numerator reaches the denominator moved t places. */
  lemma QuotientReaches(x: Decimal, y: Decimal, t: int)
    requires y.coefficient > 0
    ensures NonZero(y) > 0.0
    ensures Over(x.Value(), NonZero(y)) < Pow10(t) <==> x.Value() < Decimal(y.coefficient, y.exponent + t).Value()
  {
    hide Pow10, Times, Over, IntPow10;
    SignOfValue(y);
    var v := y.Value();
    OverTimes(x.Value(), v);
    TimesOrder(Over(x.Value(), v), Pow10(t), v);
    TimesCommutes(Pow10(t), v);
    TimesAssociates(y.coefficient as real, Pow10(y.exponent), Pow10(t));
    Pow10Add(y.exponent, t);
  }

  /** The magnitude found from text lengths and one comparison is floor(log10 |n/d|). */
  lemma MagnitudeFromDigits(x: Decimal, y: Decimal, digits: int, magnitude: int)
    requires x.coefficient > 0 && y.coefficient > 0
    requires digits == Digits(x.coefficient) - Digits(y.coefficient)
    requires magnitude == digits + x.exponent - y.exponent
             - (if x.coefficient * IntPow10(Positive(-digits)) < y.coefficient * IntPow10(Positive(digits))
                then 1 else 0)
    ensures NonZero(y) > 0.0
    ensures IsMagnitude(Over(x.Value(), NonZero(y)), magnitude)
  {
    hide Pow10, Times, Over, IntPow10, Digits, Positive;
    var p := digits + x.exponent - y.exponent;
    CoefficientDecade(x);
    QuotientReaches(x, y, p);
    CompareAcross(x.coefficient, y.coefficient, x.exponent, digits);
    assert y.exponent + p == x.exponent + digits;
    QuotientReaches(x, y, p - 1);
    CoefficientDecade(Decimal(y.coefficient, y.exponent + (p - 1)));
    QuotientReaches(x, y, p + 1);
    CoefficientDecade(Decimal(y.coefficient, y.exponent + (p + 1)));
  }

  lemma QuotientMagnitude(n: Decimal, d: Decimal, digits: int, magnitude: int)
    requires !n.IsZero() && !d.IsZero()
    requires digits == Digits(AbsInt(n.coefficient)) - Digits(AbsInt(d.coefficient))
    requires magnitude == digits + n.exponent - d.exponent
             - (if AbsInt(n.coefficient) * IntPow10(Positive(-digits))
                   < AbsInt(d.coefficient) * IntPow10(Positive(digits))
                then 1 else 0)
    ensures QuotientScale(n, d) == 15 - magnitude
  {
    hide Pow10, Times, Over, IntPow10, Digits, Positive, Magnitude;
    var x, y := n.Magnified(), d.Magnified();
    MagnitudeFromDigits(x, y, digits, magnitude);
    SignOfValue(n);
    NonZeroQuotient(n.Value(), d.Value());
    QuotientOfMagnitudes(n.Value(), d.Value());
    MagnitudeUnique(Over(x.Value(), y.Value()), magnitude);
  }

  lemma QuotientOfMagnitudes(a: real, b: real)
    requires b != 0.0
    ensures Abs(b) > 0.0 && Over(Abs(a), Abs(b)) == Abs(Over(a, b))
  {
    hide Over, Times;
    var q := Over(a, b);
    OverTimes(a, b);
    TimesNegated(q, b);
    TimesCommutes(q, b);
    TimesNegated(b, q);
    TimesCommutes(-b, q);
    TimesNegated(q, -b);
    TimesUnits(Abs(b));
    TimesOrder(0.0, q, Abs(b));
    TimesOrder(q, 0.0, Abs(b));
    OverUnique(Abs(q), Abs(a), Abs(b));
  }

  function AbsInt(value: int): (r: nat)
    ensures r == value || r == -value
  {
    if value < 0 then -value else value
  }

  /** Rescales both coefficients to one length, reads off the magnitude, then divides once. */
  method Divide(numerator: Decimal, denominator: Decimal) returns (r: Result<Decimal>)
    ensures r == Divided(numerator, denominator)
  {
    if denominator.IsZero() {
      return Err(ZERO_DENOMINATOR);
    }
    if numerator.IsZero() {
      return Ok(ZERO);
    }
    hide Pow10, Times, Over, IntPow10, Digits;
    var a, b := AbsInt(numerator.coefficient), AbsInt(denominator.coefficient);
    var digits := Digits(a) - Digits(b);
    var power := IntPow10(AbsInt(digits));
    if digits >= 0 {
      b := b * power;
    } else {
      a := a * power;
    }
    var magnitude := digits + numerator.exponent - denominator.exponent;
    if a < b {
      magnitude := magnitude - 1;
    }
    TextLengths(numerator, denominator, digits, a, b);
    QuotientMagnitude(numerator, denominator, digits, magnitude);
    var scale := 15 - magnitude;
    var shift := numerator.exponent - denominator.exponent + scale;
    if !FitsScale(scale) || !FitsScale(shift)
       || !FitsScale(numerator.exponent + scale) || !FitsScale(denominator.exponent - scale) {
      return Err(DIVISION_OVERFLOW);
    }
    return Ok(DivRound(numerator, denominator, scale));
  }

  lemma TextLengths(n: Decimal, d: Decimal, digits: int, a: int, b: int)
    requires a == if digits >= 0 then AbsInt(n.coefficient) else AbsInt(n.coefficient) * IntPow10(AbsInt(digits))
    requires b == if digits >= 0 then AbsInt(d.coefficient) * IntPow10(AbsInt(digits)) else AbsInt(d.coefficient)
    ensures a == AbsInt(n.coefficient) * IntPow10(Positive(-digits))
    ensures b == AbsInt(d.coefficient) * IntPow10(Positive(digits))
  {
    assert IntPow10(0) == 1;
  }

  // ---- what the quotient is ----

  /** A successful division is the quotient correctly rounded to 16 significant digits. */
  lemma DividedIsRounded(n: Decimal, d: Decimal)
    requires Divided(n, d).Ok?
    ensures !d.IsZero() && Divided(n, d).value.Value() == Sig(16, Over(n.Value(), NonZero(d)))
  {
    hide Pow10, Times, Over, Magnitude, RoundTo;
    SignOfValue(n);
    SignOfValue(ZERO);
    if n.IsZero() {
      TimesUnits(NonZero(d));
      OverUnique(0.0, 0.0, NonZero(d));
    } else {
      NonZeroQuotient(n.Value(), NonZero(d));
    }
  }

  /** The one failure that depends on how the operands are written: the scale test on their exponents. */
  ghost predicate Overflows(n: Decimal, d: Decimal) {
    !n.IsZero() && !d.IsZero() && !ScalesFit(n, d)
  }

  /**
   Equal values give the identical answer, coefficient and exponent or error, whatever the operands' representation,
   exactly when the scale test treats both representations alike.
   */
  lemma DividedIgnoresRepresentation(n: Decimal, n': Decimal, d: Decimal, d': Decimal)
    requires n.Value() == n'.Value() && d.Value() == d'.Value()
    ensures Divided(n, d) == Divided(n', d') <==> (Overflows(n, d) <==> Overflows(n', d'))
  {
    hide Pow10, Times, Over, Magnitude, RoundHalfAway;
    SignOfValue(n);
    SignOfValue(n');
    SignOfValue(d);
    SignOfValue(d');
  }

  /** One written with 2^31 - 1 decimal places divides nothing, although one written as 1 does. */
  lemma RepresentationMatters()
    ensures var one, long := Decimal(1, 0), Decimal(IntPow10(0x7fff_ffff), -0x7fff_ffff);
      && one.Value() == long.Value()
      && Divided(one, one).Ok? && Divided(one, long) == Err(DIVISION_OVERFLOW)
  {
    var one, long := Decimal(1, 0), Decimal(IntPow10(0x7fff_ffff), -0x7fff_ffff);
    hide Pow10, Times, Over, Magnitude, RoundHalfAway, IntPow10;
    RescaleKeepsValue(one, -0x7fff_ffff);
    TimesUnits(1.0);
    OverUnique(1.0, 1.0, 1.0);
    Pow10Zero();
    Pow10Step(0);
    MagnitudeUnique(1.0, 0);
  }

  lemma OverOrder(a: real, b: real, c: real)
    requires c > 0.0
    ensures a <= b <==> Over(a, c) <= Over(b, c)
  {
    hide Over, Times;
    OverTimes(a, c);
    OverTimes(b, c);
    TimesOrder(Over(a, c), Over(b, c), c);
  }

  lemma DividedMonotone(n: Decimal, n': Decimal, d: Decimal)
    requires d.IsPositive() && n.Value() <= n'.Value()
    requires Divided(n, d).Ok? && Divided(n', d).Ok?
    ensures Divided(n, d).value.Value() <= Divided(n', d).value.Value()
  {
    hide Divided, Over, Sig;
    DividedIsRounded(n, d);
    DividedIsRounded(n', d);
    OverOrder(n.Value(), n'.Value(), d.Value());
    SigMonotone(16, Over(n.Value(), d.Value()), Over(n'.Value(), d.Value()));
  }

  /** The two answers that need no division. */
  lemma DividedZero(n: Decimal, d: Decimal)
    ensures d.coefficient == 0 <==> Divided(n, d) == Err(Invalid("denominator", "must not be zero"))
    ensures d.coefficient != 0 && n.coefficient == 0 ==> Divided(n, d) == Ok(Decimal(0, 0))
  {
    hide ScalesFit;
  }

  /** Otherwise only the exponents can fail: four numbers must lie strictly inside the 32-bit range. */
  lemma DividedOverflows(n: Decimal, d: Decimal, magnitude: int)
    requires n.coefficient != 0 && d.coefficient != 0
    requires Pow10(magnitude) <= Abs(Over(n.Value(), NonZero(d))) < Pow10(magnitude + 1)
    ensures Divided(n, d) == Err(Invalid("decimal", "division scale overflow"))
            <==> !(&& -2_147_483_648 < 15 - magnitude < 2_147_483_647
                   && -2_147_483_648 < n.exponent - d.exponent + (15 - magnitude) < 2_147_483_647
                   && -2_147_483_648 < n.exponent + (15 - magnitude) < 2_147_483_647
                   && -2_147_483_648 < d.exponent - (15 - magnitude) < 2_147_483_647)
    ensures Divided(n, d).Ok? ==> Divided(n, d).value.exponent == magnitude - 15
  {
    hide Pow10, Times, Over, Magnitude, RoundHalfAway;
    SignOfValue(n);
    NonZeroQuotient(n.Value(), NonZero(d));
    MagnitudeUnique(Abs(Over(n.Value(), NonZero(d))), magnitude);
  }

  /** Multiplying back recovers the numerator exactly when the quotient has at most 16 digits. */
  lemma DividedExact(n: Decimal, d: Decimal)
    requires Divided(n, d).Ok?
    ensures !d.IsZero()
    ensures Times(Divided(n, d).value.Value(), d.Value()) == n.Value()
            <==> Representable(16, Over(n.Value(), NonZero(d)))
  {
    hide Divided, Over, Sig, Times, Representable;
    DividedIsRounded(n, d);
    var q := Over(n.Value(), NonZero(d));
    SigFixed(16, q);
    OverTimes(n.Value(), d.Value());
    if Times(Sig(16, q), d.Value()) == n.Value() {
      OverUnique(Sig(16, q), n.Value(), d.Value());
    }
  }

  /** Moderate exponents and text lengths never overflow the scale. */
  lemma DividedFits(n: Decimal, d: Decimal, bound: int)
    requires 0 <= bound <= 0x1000_0000 && !d.IsZero()
    requires Digits(AbsInt(n.coefficient)) <= bound && Digits(AbsInt(d.coefficient)) <= bound
    requires -bound <= n.exponent <= bound && -bound <= d.exponent <= bound
    ensures Divided(n, d).Ok?
  {
    hide Pow10, Times, Over, IntPow10, Digits, Magnitude;
    if !n.IsZero() {
      var digits := Digits(AbsInt(n.coefficient)) - Digits(AbsInt(d.coefficient));
      var magnitude := digits + n.exponent - d.exponent
        - (if AbsInt(n.coefficient) * IntPow10(Positive(-digits)) < AbsInt(d.coefficient) * IntPow10(Positive(digits))
           then 1 else 0);
      QuotientMagnitude(n, d, digits, magnitude);
    }
  }

  // ---- output ----

  ghost function OutputScale(value: Decimal): (scale: int)
    requires !value.IsZero()
  {
    SignOfValue(value);
    -LastPlace(8, value.Value())
  }

  /** FormatNumber fails only when its scale leaves the 32-bit range, and then no text exists. */
  ghost function Formatted(value: Decimal): (r: Result<Decimal>) {
    if value.IsZero() then Ok(ZERO)
    else if FitsScale(OutputScale(value)) && FitsScale(OutputScale(value) + value.exponent)
    then Ok(Round(value, OutputScale(value)))
    else Err(OUTPUT_OVERFLOW)
  }

  /** The decimal printed for a derived value. */
  method FormatNumber(value: Decimal) returns (r: Result<Decimal>)
    ensures r == Formatted(value)
    ensures r.Ok? ==> r.value.Value() == Sig(8, value.Value())
    ensures r.Err? ==> r.error == OUTPUT_OVERFLOW
  {
    SignOfValue(ZERO);
    SignOfValue(value);
    if value.IsZero() {
      return Ok(ZERO);
    }
    hide Pow10, Times, IntPow10, Digits, Magnitude, RoundTo;
    var magnitude := Digits(AbsInt(value.coefficient)) - 1 + value.exponent;
    CoefficientDecade(value.Magnified());
    MagnitudeUnique(value.Magnified().Value(), magnitude);
    var scale := 7 - magnitude;
    if !FitsScale(scale) || !FitsScale(scale + value.exponent) {
      return Err(OUTPUT_OVERFLOW);
    }
    return Ok(Round(value, scale));
  }

  /** Zero prints as zero; otherwise printing fails exactly when one of two numbers leaves the 32-bit range. */
  lemma FormattedOverflows(value: Decimal, magnitude: int)
    requires value.coefficient != 0 && Pow10(magnitude) <= Abs(value.Value()) < Pow10(magnitude + 1)
    ensures Formatted(Decimal(0, value.exponent)) == Ok(Decimal(0, 0))
    ensures Formatted(value) == Err(Invalid("decimal", "output scale overflow"))
            <==> !(&& -2_147_483_648 < 7 - magnitude < 2_147_483_647
                   && -2_147_483_648 < 7 - magnitude + value.exponent < 2_147_483_647)
  {
    hide Pow10, Times, Magnitude, RoundHalfAway, RoundTo;
    SignOfValue(value);
    MagnitudeUnique(Abs(value.Value()), magnitude);
  }

  lemma FormattedIsRounded(value: Decimal)
    requires Formatted(value).Ok?
    ensures Formatted(value).value.Value() == Sig(8, value.Value())
  {
    hide Pow10, Times, Magnitude, RoundTo;
    SignOfValue(ZERO);
    SignOfValue(value);
  }
}
