/**
 Why the division-scale error cannot occur: source decimals are plain texts of at most 1024 characters, histories have
 fewer than 2^32 candles, and smoothing loses less than two decimal places in five candles.
 */
module ScaleSafety {
  import opened Powers
  import opened Decimals
  import opened Rounding
  import opened Results
  import opened Division
  import opened Market
  import opened TrueRanges
  import opened AtrSequences
  import opened Extrema
  import opened Detection
  import opened Levels
  import opened Parsing

  /** At most 1024 digits, at most 1024 of them after the point. */
  ghost predicate SourceDecimal(d: Decimal) {
    FewDigits(1024, d) && -1024 <= d.exponent <= 0
  }

  /** Every accepted text gives such a number. */
  lemma ParsedIsSource(text: string)
    requires ParseDecimal(text).Some?
    ensures SourceDecimal(ParseDecimal(text).value)
  {
    hide ParseDecimal, IntPow10;
    ParsedDigits(text);
  }

  ghost predicate SourceCandles(candles: seq<Candle>) {
    && |candles| < 0x1_0000_0000
    && SoundBars(Bars(candles))
    && forall i :: 0 <= i < |candles| ==>
         SourceDecimal(candles[i].high) && SourceDecimal(candles[i].low) && SourceDecimal(candles[i].close)
  }

  // ---- one division ----

  /** The scale follows from the decade of the quotient. */
  lemma ScaleBetween(n: Decimal, d: Decimal, lo: int, hi: int)
    requires !n.IsZero() && !d.IsZero()
    requires Pow10(lo) <= Abs(Over(n.Value(), NonZero(d))) < Pow10(hi)
    ensures 16 - hi <= QuotientScale(n, d) <= 15 - lo
  {
    hide Pow10, Times, Over, Magnitude;
    SignOfValue(n);
    NonZeroQuotient(n.Value(), NonZero(d));
    var q := Abs(Over(n.Value(), NonZero(d)));
    var m := Magnitude(q);
    Pow10Order(m, hi - 1);
    Pow10Order(hi, m);
    Pow10Order(lo, m);
    Pow10Order(m + 1, lo);
  }

  const FAR: int := 1_800_000_000

  /** Quotients between 10^lo and 10^hi of operands with moderate exponents divide without an error. */
  lemma DivisionFits(n: Decimal, d: Decimal, lo: int, hi: int)
    requires !d.IsZero() && -FAR <= n.exponent <= 10_000 && -5_000 <= d.exponent <= 5_000
    requires -FAR <= lo <= hi <= 5_000
    requires !n.IsZero() ==> Pow10(lo) <= Abs(Over(n.Value(), NonZero(d))) < Pow10(hi)
    ensures Divided(n, d).Ok?
    ensures n.IsZero() ==> Divided(n, d) == Ok(ZERO)
    ensures !n.IsZero() ==> lo - 15 <= Divided(n, d).value.exponent <= hi - 16
  {
    hide Pow10, Times, Over, Magnitude, QuotientScale, RoundHalfAway;
    if !n.IsZero() {
      ScaleBetween(n, d, lo, hi);
    }
  }

  lemma AtLeastUnit(d: Decimal)
    requires d.Value() > 0.0
    ensures d.Value() >= Pow10(d.exponent)
  {
    hide Pow10, Times;
    SignOfValue(d);
    TimesUnits(Pow10(d.exponent));
    TimesOrder(1.0, d.coefficient as real, Pow10(d.exponent));
  }

  // ---- true ranges and their sum ----

  lemma SourceBelow(d: Decimal)
    requires SourceDecimal(d)
    ensures Abs(d.Value()) < Pow10(1024)
  {
    hide Pow10, Decimal.Value, IntPow10;
    MagnitudeBelow(1024, d);
    Pow10Order(1024 + d.exponent, 1024);
  }

  lemma RangeBelow(candles: seq<Candle>, i: nat)
    requires SourceCandles(candles) && 1 <= i < |candles|
    ensures 0.0 <= TrueRange(Bars(candles), i) <= Pow10(1024)
    ensures -1024 <= RangeAt(candles, i).exponent <= 0
  {
    hide Pow10, Decimal.Value, FewDigits;
    var bars := Bars(candles);
    assert SoundBar(bars[i]) && SoundBar(bars[i - 1]);
    SourceBelow(candles[i].high);
    SourceBelow(candles[i].low);
    SourceBelow(candles[i - 1].close);
  }

  lemma {:induction false} SumExponent(candles: seq<Candle>, n: nat)
    requires SourceCandles(candles) && n < |candles|
    ensures -1024 <= SumOf(candles, n).exponent <= 0
  {
    hide SourceCandles, RangeAt, Decimal.Value;
    if n == 0 {
    } else {
      SumExponent(candles, n - 1);
      RangeBelow(candles, n);
    }
  }

  lemma AllRangesWithin(candles: seq<Candle>, n: nat)
    requires SourceCandles(candles) && n < |candles|
    ensures RangesWithin(Bars(candles), n, 0.0, Pow10(1024))
  {
    hide SourceCandles, TrueRange, Pow10;
    forall j {:trigger TrueRange(Bars(candles), j)} | 1 <= j <= n
      ensures 0.0 <= TrueRange(Bars(candles), j) <= Pow10(1024)
    {
      RangeBelow(candles, j);
    }
  }

  // ---- the slowest possible decay ----

  ghost function Decay(i: nat): (f: real)
    ensures 0.0 < f <= 1.0
    ensures i > 0 ==> f <= 0.4
  {
    if i == 0 then 1.0 else 0.4 * Decay(i - 1)
  }

  lemma {:induction false} DecayBound(i: nat)
    ensures Decay(i) >= Pow10(-(2 * (i / 5) + 2))
  {
    if i < 5 {
      assert Decay(4) == 0.16 * Decay(2) == 0.0256;
      assert Pow10(-2) == 0.01;
      assert Decay(3) == 0.16 * Decay(1);
    } else {
      DecayBound(i - 5);
      assert Decay(i) == 0.16 * Decay(i - 2) && Decay(i - 2) == 0.16 * Decay(i - 4);
      assert Decay(i - 4) == 0.4 * Decay(i - 5);
      var e := -(2 * ((i - 5) / 5) + 2);
      Pow10Step(e - 1);
      Pow10Step(e - 2);
      assert i / 5 == (i - 5) / 5 + 1;
    }
  }

  const LEAST: int := -1034

  /** No nonzero value at candle i can be smaller. */
  ghost function Bottom(i: nat): (w: real)
    ensures w > 0.0
  {
    TimesUnits(Pow10(LEAST));
    TimesOrder(0.0, Decay(i), Pow10(LEAST));
    Times(Decay(i), Pow10(LEAST))
  }

  ghost function BottomPlace(i: nat): (e: int) {
    LEAST - 2 * (i / 5) - 2
  }

  lemma BottomBound(i: nat)
    ensures Bottom(i) >= Pow10(BottomPlace(i))
    ensures i > 0 ==> Bottom(i) == 0.4 * Bottom(i - 1)
    ensures i > 0 ==> Bottom(i) <= 0.4 * Pow10(LEAST)
    ensures i < 0x1_0000_0000 ==> BottomPlace(i) >= -1_717_990_000
  {
    hide Pow10, Times;
    DecayBound(i);
    Pow10Add(-(2 * (i / 5) + 2), LEAST);
    TimesOrder(Pow10(-(2 * (i / 5) + 2)), Decay(i), Pow10(LEAST));
    if i > 0 {
      TwoFifths(Decay(i - 1), Pow10(LEAST));
      TwoFifths(1.0, Pow10(LEAST));
      TimesUnits(Pow10(LEAST));
      TimesOrder(Decay(i), 0.4, Pow10(LEAST));
    }
  }

  lemma TwoFifths(a: real, p: real)
    ensures Times(0.4 * a, p) == 0.4 * Times(a, p)
  {
  }

  // ---- the quotient of one smoothing step ----

  lemma MostCandles(n: nat)
    requires n < 0x1_0000_0000
    ensures n as real <= IntPow10(10) as real
  {
    SmallPowers();
    assert IntPow10(10) == 10 * IntPow10(9);
    assert IntPow10(3) == 1_000;
    assert IntPow10(6) == 1_000_000;
    assert IntPow10(9) == 1_000_000_000;
  }

  /** Dividing something of at least 10^-1024 by the period leaves at least 10^-1034. */
  lemma SmallestShare(x: real, period: nat)
    requires 1 <= period < 0x1_0000_0000 && x >= Pow10(-1024)
    ensures Over(x, period as real) >= Pow10(LEAST)
  {
    hide Pow10, Over, Times, IntPow10;
    MostCandles(period);
    PowerOnGrid(LEAST, 10);
    var p := period as real;
    TimesOrder(p, IntPow10(10) as real, Pow10(LEAST));
    TimesCommutes(p, Pow10(LEAST));
    OverTimes(x, p);
    TimesOrder(Pow10(LEAST), Over(x, p), p);
  }

  /** With a period of at least two, at least half of the previous value remains. */
  lemma HalfKept(previous: real, tr: real, period: nat)
    requires period >= 2 && previous >= 0.0 && tr >= 0.0
    ensures Smooth(previous, tr, period) >= previous / 2.0
  {
    hide Over, Times;
    var p, w := period as real, (period - 1) as real;
    HalfOfPeriod(previous, p, w);
    OverTimes(Times(previous, w) + tr, p);
    TimesOrder(previous / 2.0, Smooth(previous, tr, period), p);
  }

  lemma HalfOfPeriod(x: real, p: real, w: real)
    requires x >= 0.0 && w == p - 1.0 && p >= 2.0
    ensures Times(x / 2.0, p) <= Times(x, w)
  {
    assert x * w - (x / 2.0) * p == (x / 2.0) * (p - 2.0);
    assert (x / 2.0) * (p - 2.0) >= 0.0;
  }

  lemma RoundedShare(q: real)
    requires q > 0.0
    ensures Sig(16, q) >= 0.8 * q
  {
    hide Sig;
    RelativeError(q);
  }

  /** What holds for the value at candle i. */
  ghost predicate Bounded(v: Decimal, i: nat) {
    && 0.0 <= v.Value() <= Pow10(1024)
    && (v.Value() > 0.0 ==> v.Value() >= Bottom(i))
    && BottomPlace(i) - 15 <= v.exponent <= 1024
  }

  lemma QuotientBounded(candles: seq<Candle>, period: nat, i: nat, previous: Decimal)
    requires SourceCandles(candles) && 1 <= period <= i < |candles|
    requires i > period ==> Wilder(candles, period, i - 1) == Ok(previous) && Bounded(previous, i - 1)
    ensures var n := Numerator(candles, period, i, previous);
      && n.Value() >= 0.0
      && BottomPlace(i) - 15 <= n.exponent <= 1024
      && Over(n.Value(), period as real) <= Pow10(1024)
      && (n.Value() > 0.0 ==> Over(n.Value(), period as real) * 0.8 >= Bottom(i))
  {
    hide SourceCandles, TrueRange, Pow10, Over, Times, Decimal.Value, RangeAt, SumOf, Bottom, Smooth, RangeSum;
    BottomBound(i);
    if i == period {
      AllRangesWithin(candles, period);
      SumWithin(Bars(candles), period, 0.0, Pow10(1024));
      OverWithin(RangeSum(Bars(candles), period), period, 0.0, Pow10(1024));
      SumExponent(candles, period);
      TimesCommutes(period as real, 0.0);
      TimesUnits(period as real);
      SumShare(candles, period);
    } else {
      BottomBound(i - 1);
      RangeBelow(candles, i);
      StepBounded(candles, period, i, previous);
    }
  }

  lemma SumShare(candles: seq<Candle>, period: nat)
    requires SourceCandles(candles) && 1 <= period < |candles|
    ensures SumOf(candles, period).Value() > 0.0 ==>
      Over(SumOf(candles, period).Value(), period as real) >= Pow10(LEAST)
  {
    hide Pow10, Over, Decimal.Value, SumOf;
    var sum := SumOf(candles, period);
    SumExponent(candles, period);
    if sum.Value() > 0.0 {
      AtLeastUnit(sum);
      Pow10Order(-1024, sum.exponent);
      SmallestShare(sum.Value(), period);
    }
  }

  lemma StepBounded(candles: seq<Candle>, period: nat, i: nat, previous: Decimal)
    requires SourceCandles(candles) && 1 <= period < i < |candles| && Bounded(previous, i - 1)
    ensures var n := Numerator(candles, period, i, previous);
      && n.Value() >= 0.0
      && BottomPlace(i) - 15 <= n.exponent <= 1024
      && Over(n.Value(), period as real) <= Pow10(1024)
      && (n.Value() > 0.0 ==> Over(n.Value(), period as real) * 0.8 >= Bottom(i))
  {
    hide SourceCandles, TrueRange, Pow10, Over, Times, Decimal.Value, RangeAt, SumOf, Bottom, Smooth;
    RangeBelow(candles, i);
    SourceLength(candles);
    BottomBound(i);
    NumeratorIsSmooth(candles, period, i, previous);
    var x, tr, n := previous.Value(), RangeAt(candles, i).Value(), Numerator(candles, period, i, previous);
    SmoothWithin(x, tr, period, 0.0, Pow10(1024));
    ShareSign(n.Value(), period);
    if period >= 2 && x > 0.0 {
      HalfKept(x, tr, period);
    } else if n.Value() > 0.0 {
      LoneRange(x, tr, period);
      AtLeastUnit(RangeAt(candles, i));
      Pow10Order(-1024, RangeAt(candles, i).exponent);
      SmallestShare(tr, period);
    }
  }

  lemma NumeratorIsSmooth(candles: seq<Candle>, period: nat, i: nat, previous: Decimal)
    requires 1 <= period < i < |candles|
    ensures var n := Numerator(candles, period, i, previous);
      && n.Value() == Times(previous.Value(), (period - 1) as real) + RangeAt(candles, i).Value()
      && Over(n.Value(), period as real) == Smooth(previous.Value(), RangeAt(candles, i).Value(), period)
      && n.exponent == if previous.exponent <= RangeAt(candles, i).exponent then previous.exponent
                       else RangeAt(candles, i).exponent
  {
    hide RangeAt, Decimal.Value, Times, Over;
  }

  lemma ShareSign(x: real, period: nat)
    requires period >= 1 && Over(x, period as real) >= 0.0
    ensures x >= 0.0
  {
    hide Over, Times;
    OverTimes(x, period as real);
    TimesUnits(period as real);
    TimesOrder(0.0, Over(x, period as real), period as real);
  }

  lemma LoneRange(x: real, tr: real, period: nat)
    requires period == 1 || x == 0.0
    ensures Times(x, (period - 1) as real) + tr == tr
  {
  }

  /** No division of the recurrence overflows, for any accepted history and any period. */
  lemma {:induction false} WilderSucceeds(candles: seq<Candle>, period: nat, i: nat)
    requires SourceCandles(candles) && 1 <= period <= i < |candles|
    ensures Wilder(candles, period, i).Ok? && Bounded(Wilder(candles, period, i).value, i)
  {
    hide SourceCandles, Pow10, Over, Numerator, Divided, Bottom, Sig, RangesWithin, Atr;
    var previous := ZERO;
    if i > period {
      WilderSucceeds(candles, period, i - 1);
      previous := Wilder(candles, period, i - 1).value;
    }
    QuotientBounded(candles, period, i, previous);
    WilderAt(candles, period, i, previous);
    SourceLength(candles);
    BottomBound(i);
    NextStep(Numerator(candles, period, i, previous), period, i);
    DividedIsRounded(Numerator(candles, period, i, previous), FromInt(period));
    AllRangesWithin(candles, i);
    AtrWithin(Bars(candles), period, i, 0.0, Pow10(1024));
    PowerFixed(16, 1024);
    SigSign(16, 0.0);
    WilderIsAtr(candles, period, i);
  }

  lemma SourceLength(candles: seq<Candle>)
    requires SourceCandles(candles)
    ensures |candles| < 0x1_0000_0000
  {
  }

  lemma NextStep(n: Decimal, period: nat, i: nat)
    requires 1 <= period <= i < 0x1_0000_0000 && n.Value() >= 0.0 && BottomPlace(i) - 15 <= n.exponent <= 1024
    requires Over(n.Value(), period as real) <= Pow10(1024)
    requires n.Value() > 0.0 ==> Over(n.Value(), period as real) * 0.8 >= Bottom(i)
    ensures var r := Divided(n, FromInt(period));
      && r.Ok?
      && BottomPlace(i) - 15 <= r.value.exponent <= 1024
      && (r.value.Value() > 0.0 ==> r.value.Value() >= Bottom(i))
  {
    hide Pow10, Over, Divided, Bottom, Sig, Decimal.Value;
    BottomBound(i);
    SignOfValue(n);
    Pow10Step(1024);
    var d := FromInt(period);
    DivisionFits(n, d, BottomPlace(i), 1025);
    DividedIsRounded(n, d);
    SigSign(16, Over(n.Value(), period as real));
    SignOfValue(ZERO);
    if n.Value() > 0.0 {
      RoundedShare(Over(n.Value(), period as real));
    }
  }

  // ---- the other divisions ----

  lemma {:induction false} ProductDigits(a: Decimal, b: Decimal, s: nat, t: nat)
    requires FewDigits(s, a) && FewDigits(t, b)
    ensures FewDigits(s + t, a.Mul(b))
  {
    hide Decimal.Value, Times, Pow10, IntPow10;
    var x, y := a.coefficient, b.coefficient;
    IntPow10Product(s, t);
    ProductBound(x, y, IntPow10(s), IntPow10(t));
  }

  lemma {:induction false} IntPow10Product(s: nat, t: nat)
    ensures IntPow10(s + t) == IntPow10(s) * IntPow10(t)
  {
    if s == 0 {
    } else {
      IntPow10Product(s - 1, t);
      IntPow10Regroup(IntPow10(s - 1), IntPow10(t));
    }
  }

  lemma IntPow10Regroup(a: int, b: int)
    ensures 10 * (a * b) == (10 * a) * b
  {
  }

  lemma ProductBound(x: int, y: int, a: int, b: int)
    requires -a < x < a && -b < y < b
    ensures -(a * b) < x * y < a * b
  {
    var m, n := AbsInt(x), AbsInt(y);
    assert m * n <= m * b && m * b < a * b;
    assert x * y == m * n || x * y == -(m * n);
  }

  /** Values of at most s digits divided by a small constant never overflow. */
  lemma ConstantDivisorFits(n: Decimal, d: Decimal, s: nat)
    requires FewDigits(s, n) && s <= 2_100 && -2_100 <= n.exponent <= 0
    requires d == HUNDRED || d == TWO
    ensures Divided(n, d).Ok?
  {
    hide Divided, IntPow10, Digits;
    DigitsAtMost(AbsInt(n.coefficient), s);
    assert Digits(100) == 3 && Digits(2) == 1 by {
      SmallDigits();
    }
    DividedFits(n, d, 2_101);
  }

  lemma SmallDigits()
    ensures Digits(100) == 3 && Digits(2) == 1
  {
    assert Digits(10) == 1 + Digits(1);
  }

  lemma {:induction false} DigitsAtMost(n: nat, s: nat)
    requires n < IntPow10(s)
    ensures Digits(n) <= s + 1
  {
    if n < 10 {
    } else {
      DigitsAtMost(n / 10, s - 1);
    }
  }

  lemma SelectedIsSource(candles: seq<Candle>, source: PriceSource, kind: Kind, i: nat)
    requires SourceCandles(candles) && i < |candles|
    ensures SourceDecimal(Selected(candles[i], source, kind))
  {
    hide SourceDecimal;
  }

  /** Settings parsed from texts of the same limited length. */
  ghost predicate SourceMethod(algorithm: Method) {
    match algorithm
    case LocalExtrema(_) => true
    case PercentReversal(pct) => SourceDecimal(pct)
    case AtrReversal(_, multiplier) => SourceDecimal(multiplier)
  }

  lemma ParsedMethod(text: string, period: nat, span: nat)
    requires ParseDecimal(text).Some?
    ensures SourceMethod(LocalExtrema(span))
    ensures SourceMethod(PercentReversal(ParseDecimal(text).value))
    ensures SourceMethod(AtrReversal(period, ParseDecimal(text).value))
  {
    hide ParseDecimal, SourceDecimal;
    ParsedIsSource(text);
  }

  /** Percentage thresholds never fail. */
  lemma PercentSucceeds(candles: seq<Candle>, settings: ExtremaSettings)
    requires SourceCandles(candles) && SourceMethod(settings.algorithm)
    ensures !CandidateFails(candles, settings)
  {
    hide SourceCandles, Divided, Selected, SourceDecimal, Decimal.Value, Starts;
    if settings.algorithm.PercentReversal? {
      forall kind, i: nat | i < |candles|
        ensures !ThresholdFails(candles, settings, kind, i)
      {
        SelectedIsSource(candles, settings.source, kind, i);
        ProductSucceeds(Selected(candles[i], settings.source, kind), settings.algorithm.reversalPct);
      }
    }
  }

  lemma ProductSucceeds(a: Decimal, b: Decimal)
    requires SourceDecimal(a) && SourceDecimal(b)
    ensures Divided(a.Mul(b), HUNDRED).Ok?
  {
    hide Divided, FewDigits, Decimal.Value;
    ProductDigits(a, b, 1024, 1024);
    ConstantDivisorFits(a.Mul(b), HUNDRED, 2048);
  }

  /** Zone midpoints never fail. */
  lemma MidpointsSucceed(candles: seq<Candle>, settings: ExtremaSettings, points: seq<Extremum>, error: ValidationError)
    requires SourceCandles(candles) && IsDetected(candles, settings, points)
    ensures !MidpointFails(points, error)
  {
    hide SourceCandles, Divided, Selected, Decimal.Add, Decimal.Value, SourceDecimal, Turns, Applicable;
    var turns := Turns(Bars(candles), settings);
    forall i | 0 <= i < |points|
      ensures SourceDecimal(points[i].price)
    {
      assert IsPoint(candles, settings, turns[i], points[i]);
      SelectedIsSource(candles, settings.source, turns[i].kind, turns[i].index);
    }
    forall p, q | p in points && q in points
      ensures Divided(p.price.Add(q.price), TWO).Ok?
    {
      SumSucceeds(p.price, q.price);
    }
  }

  lemma SumSucceeds(a: Decimal, b: Decimal)
    requires SourceDecimal(a) && SourceDecimal(b)
    ensures Divided(a.Add(b), TWO).Ok?
  {
    hide Divided, Decimal.Value, IntPow10;
    var e := if a.exponent <= b.exponent then a.exponent else b.exponent;
    RescaledDigits(a, e);
    RescaledDigits(b, e);
    assert IntPow10(2049) == 10 * IntPow10(2048) by {
      NextPower(2048);
    }
    assert FewDigits(2049, a.Add(b));
    ConstantDivisorFits(a.Add(b), TWO, 2049);
  }

  lemma NextPower(n: nat)
    ensures IntPow10(n + 1) == 10 * IntPow10(n)
  {
  }

  lemma RescaledDigits(a: Decimal, e: int)
    requires SourceDecimal(a) && -1024 <= e <= a.exponent
    ensures -IntPow10(2048) < a.CoefficientAt(e) < IntPow10(2048)
  {
    hide IntPow10, Decimal.Value;
    var n := a.exponent - e;
    IntPow10Product(1024, n);
    ProductBelow(a.coefficient, IntPow10(1024), IntPow10(n));
    IntPow10Grow(1024 + n, 2048);
  }

  lemma ProductBelow(x: int, a: int, b: int)
    requires -a < x < a && b >= 1
    ensures -(a * b) < x * b < a * b
  {
  }

  /** For accepted source data a failed detection is always a rejected setting. */
  lemma DetectionFailsOnlyOnSettings(candles: seq<Candle>, settings: ExtremaSettings, error: ValidationError)
    requires SourceCandles(candles) && SourceMethod(settings.algorithm)
    requires DetectionFails(candles, settings, error)
    ensures settings.Validate(|candles|) == Some(error)
  {
    hide SourceCandles, CandidateFails, Wilder, ExtremaSettings.Validate, Bounded, SourceDecimal;
    PercentSucceeds(candles, settings);
    if settings.algorithm.AtrReversal? && 1 <= settings.algorithm.atrPeriod < |candles| {
      WilderSucceeds(candles, settings.algorithm.atrPeriod, |candles| - 1);
    }
  }

  /** For accepted source data no step of the levels calculation can fail once the settings are valid. */
  lemma LevelsAlwaysSucceed(candles: seq<Candle>, settings: LevelSettings, error: ValidationError)
    requires SourceCandles(candles) && settings.Validate(|candles|) == None && SourceMethod(settings.extrema.algorithm)
    ensures 1 <= settings.atrPeriod < |candles| && Wilder(candles, settings.atrPeriod, |candles| - 1).Ok?
    ensures !DetectionFails(candles, settings.extrema, error)
    ensures !exists points :: IsDetected(candles, settings.extrema, points) && MidpointFails(points, error)
  {
    hide SourceCandles, Wilder, ExtremaSettings.Validate, Bounded, DetectionFails, IsDetected, MidpointFails,
      SourceMethod, Decimal.Value;
    LevelsNeed(settings, |candles|);
    WilderSucceeds(candles, settings.atrPeriod, |candles| - 1);
    if DetectionFails(candles, settings.extrema, error) {
      DetectionFailsOnlyOnSettings(candles, settings.extrema, error);
    }
    forall points | IsDetected(candles, settings.extrema, points)
      ensures !MidpointFails(points, error)
    {
      MidpointsSucceed(candles, settings.extrema, points, error);
    }
  }

  /** Nor can any step of the trend calculation. */
  lemma TrendAlwaysSucceeds(candles: seq<Candle>, settings: TrendSettings, error: ValidationError)
    requires SourceCandles(candles) && settings.Validate(|candles|) == None
    requires SourceMethod(settings.extrema.algorithm) && SourceDecimal(settings.equalityTolerancePct)
    ensures !DetectionFails(candles, settings.extrema, error)
    ensures candles != [] && Divided(candles[|candles| - 1].close.Mul(settings.equalityTolerancePct), HUNDRED).Ok?
  {
    hide Divided, ExtremaSettings.Validate, DetectionFails, SourceMethod, SourceDecimal, Decimal.Value, Decimal.Mul;
    ValidIsApplicable(settings.extrema, |candles|);
    if DetectionFails(candles, settings.extrema, error) {
      DetectionFailsOnlyOnSettings(candles, settings.extrema, error);
    }
    ProductSucceeds(candles[|candles| - 1].close, settings.equalityTolerancePct);
  }

  /** A quotient of numbers in known decades. */
  lemma QuotientOfPowers(n: real, d: real, a: int, b: int, c: int, e: int)
    requires Pow10(a) <= n < Pow10(b) && Pow10(c) <= d < Pow10(e)
    ensures Pow10(a - e) <= Over(n, d) < Pow10(b - c)
  {
    hide Pow10, Times, Over;
    OverTimes(n, d);
    Pow10Add(e, a - e);
    Pow10Add(c, b - c);
    TimesCommutes(d, Pow10(a - e));
    TimesCommutes(d, Pow10(b - c));
    TimesOrder(d, Pow10(e), Pow10(a - e));
    TimesOrder(Pow10(c), d, Pow10(b - c));
    TimesOrder(Pow10(a - e), Over(n, d), d);
    TimesOrder(Over(n, d), Pow10(b - c), d);
  }

  /** The NATR division never fails either. */
  lemma NatrSucceeds(candles: seq<Candle>, period: nat)
    requires SourceCandles(candles) && 1 <= period < |candles|
    ensures Wilder(candles, period, |candles| - 1).Ok?
    ensures Divided(Wilder(candles, period, |candles| - 1).value.Mul(HUNDRED), candles[|candles| - 1].close).Ok?
  {
    hide Wilder, Divided, Pow10, Times, Over, Decimal.Value, FewDigits, Bottom;
    var i := |candles| - 1;
    WilderSucceeds(candles, period, i);
    var v, close := Wilder(candles, period, i).value, candles[i].close;
    var n := v.Mul(HUNDRED);
    assert SoundBar(Bars(candles)[i]);
    AtLeastUnit(close);
    Pow10Order(-1024, close.exponent);
    SourceBelow(close);
    SignOfValue(n);
    SignOfValue(close);
    BottomBound(i);
    Hundredfold(v.Value());
    Pow10Step(1024);
    Pow10Step(1025);
    Pow10Step(1026);
    if n.Value() > 0.0 {
      Pow10Positive(BottomPlace(i));
      QuotientOfPowers(n.Value(), close.Value(), BottomPlace(i), 1027, -1024, 1024);
    }
    DivisionFits(n, close, BottomPlace(i) - 1024, 2051);
  }

  lemma Pow10Positive(k: int)
    ensures Pow10(k) > 0.0
  {
  }

  lemma Hundredfold(x: real)
    ensures Times(x, 100.0) == 100.0 * x
  {
  }

  // ---- every derived number can be printed ----

  lemma ProductOfPowers(x: real, y: real, a: int, b: int, c: int, e: int)
    requires Pow10(a) <= x < Pow10(b) && Pow10(c) <= y < Pow10(e)
    ensures Pow10(a + c) <= Times(x, y) < Pow10(b + e)
  {
    hide Pow10, Times;
    Pow10Add(a, c);
    Pow10Add(b, e);
    TimesOrder(Pow10(a), x, y);
    TimesOrder(x, Pow10(b), y);
    TimesCommutes(Pow10(a), y);
    TimesCommutes(Pow10(b), y);
    TimesCommutes(Pow10(a), Pow10(c));
    TimesCommutes(Pow10(b), Pow10(e));
    TimesOrder(Pow10(c), y, Pow10(a));
    TimesOrder(y, Pow10(e), Pow10(b));
  }

  /** The output scale stays in range for numbers of moderate decade and exponent. */
  lemma PrintFits(v: Decimal, lo: int, hi: int)
    requires v.IsZero() || Pow10(lo) <= v.Value() < Pow10(hi)
    requires -FAR <= lo <= hi <= 5_000 && -FAR <= v.exponent <= 5_000
    ensures Formatted(v).Ok?
  {
    hide Pow10, Times, Magnitude, RoundHalfAway;
    if !v.IsZero() {
      SignOfValue(v);
      var m := Magnitude(v.Value());
      Pow10Order(hi, m);
      Pow10Order(m + 1, lo);
    }
  }

  lemma SourceBetween(d: Decimal)
    requires SourceDecimal(d) && d.Value() > 0.0
    ensures Pow10(-1024) <= d.Value() < Pow10(1024)
  {
    hide Pow10, Decimal.Value, FewDigits;
    AtLeastUnit(d);
    Pow10Order(-1024, d.exponent);
    SourceBelow(d);
  }

  /** A quotient of moderate numbers exists, has a moderate decade, and can be printed. */
  lemma QuotientPrints(n: Decimal, d: Decimal, lo: int, hi: int)
    requires d.Value() > 0.0 && -5_000 <= n.exponent <= 5_000 && -5_000 <= d.exponent <= 5_000
    requires -4_000 <= lo <= hi <= 4_000
    requires n.IsZero() || (n.Value() > 0.0 && Pow10(lo) <= Over(n.Value(), d.Value()) < Pow10(hi))
    ensures Divided(n, d).Ok? && Formatted(Divided(n, d).value).Ok?
  {
    hide Pow10, Over, Divided, Formatted, Sig, Decimal.Value, Magnitude;
    SignOfValue(d);
    SignOfValue(n);
    DivisionFits(n, d, lo, hi);
    if n.IsZero() {
      PrintFits(ZERO, 0, 0);
    } else {
      var q := Over(n.Value(), d.Value());
      DividedIsRounded(n, d);
      SigDecade(16, q);
      Pow10Order(lo, Magnitude(q));
      Pow10Order(Magnitude(q) + 1, lo);
      Pow10Order(hi, Magnitude(q));
      Pow10Order(Magnitude(q) + 1, hi);
      Pow10Step(hi);
      PrintFits(Divided(n, d).value, lo, hi + 1);
    }
  }

  /** Percentage thresholds and tolerances have a text. */
  lemma PercentPrints(price: Decimal, pct: Decimal)
    requires SourceDecimal(price) && price.Value() > 0.0
    requires SourceDecimal(pct) && pct.Value() >= 0.0
    ensures Divided(price.Mul(pct), HUNDRED).Ok? && Formatted(Divided(price.Mul(pct), HUNDRED).value).Ok?
  {
    hide Pow10, Times, Over, Divided, Formatted, FewDigits, Decimal.Value;
    var n := price.Mul(pct);
    SignOfValue(n);
    SignOfValue(pct);
    TimesCommutes(price.Value(), 0.0);
    TimesUnits(price.Value());
    if pct.Value() > 0.0 {
      SourceBetween(price);
      SourceBetween(pct);
      ProductOfPowers(price.Value(), pct.Value(), -1024, 1024, -1024, 1024);
      Pow10Zero();
      Pow10Step(0);
      Pow10Step(1);
      Pow10Step(2);
      QuotientOfPowers(n.Value(), 100.0, -2048, 2048, 2, 3);
    }
    QuotientPrints(n, HUNDRED, -2051, 2046);
  }

  /** Source prices and the middle of two of them have a text. */
  lemma PricePrints(a: Decimal)
    requires SourceDecimal(a) && a.Value() > 0.0
    ensures Formatted(a).Ok?
  {
    hide Pow10, Formatted, FewDigits, Decimal.Value;
    SourceBetween(a);
    PrintFits(a, -1024, 1024);
  }

  lemma MidpointPrints(a: Decimal, b: Decimal)
    requires SourceDecimal(a) && SourceDecimal(b) && a.Value() > 0.0 && b.Value() > 0.0
    ensures Divided(a.Add(b), TWO).Ok? && Formatted(Divided(a.Add(b), TWO).value).Ok?
  {
    hide Pow10, Over, Divided, Formatted, FewDigits, Decimal.Value;
    SourceBetween(a);
    SourceBetween(b);
    Pow10Step(1024);
    Pow10Zero();
    Pow10Step(0);
    SignOfValue(a.Add(b));
    QuotientOfPowers(a.Add(b).Value(), 2.0, -1024, 1025, 0, 1);
    QuotientPrints(a.Add(b), TWO, -1025, 1025);
  }

  /** Every ATR value has a text, and so has its product with a positive factor: a threshold or a zone width. */
  lemma AtrPrints(candles: seq<Candle>, period: nat, i: nat, factor: Decimal)
    requires SourceCandles(candles) && 1 <= period <= i < |candles|
    requires SourceDecimal(factor) && factor.Value() > 0.0
    ensures Wilder(candles, period, i).Ok?
    ensures Formatted(Wilder(candles, period, i).value).Ok?
    ensures Formatted(Wilder(candles, period, i).value.Mul(factor)).Ok?
  {
    hide Wilder, SourceCandles, Pow10, Times, Formatted, Bottom, FewDigits, Decimal.Value;
    WilderSucceeds(candles, period, i);
    SourceLength(candles);
    BottomBound(i);
    Pow10Step(1024);
    var v := Wilder(candles, period, i).value;
    SignOfValue(v);
    SignOfValue(v.Mul(factor));
    TimesUnits(factor.Value());
    if v.Value() > 0.0 {
      SourceBetween(factor);
      ProductOfPowers(v.Value(), factor.Value(), BottomPlace(i), 1025, -1024, 1024);
    }
    PrintFits(v, BottomPlace(i), 1025);
    PrintFits(v.Mul(factor), BottomPlace(i) - 1024, 2049);
  }
}
