/** Trend classification: the online summary of a price sequence and the ordered decision rules. */
module Trend {
  import opened Powers
  import opened Decimals
  import opened Rounding
  import opened Results
  import opened Division
  import opened Market
  import opened TrueRanges
  import opened Swings
  import opened Extrema
  import opened Detection

  // ---- a price sequence as a whole ----

  /** Every next price is more than the tolerance above the previous one. */
  ghost predicate Rising(prices: seq<real>, tolerance: real) {
    forall i :: 0 < i < |prices| ==> prices[i] - prices[i - 1] > tolerance
  }

  ghost predicate Falling(prices: seq<real>, tolerance: real) {
    forall i :: 0 < i < |prices| ==> prices[i] - prices[i - 1] < -tolerance
  }

  ghost predicate IsLeast(prices: seq<real>, m: real) {
    m in prices && forall i :: 0 <= i < |prices| ==> m <= prices[i]
  }

  ghost predicate IsGreatest(prices: seq<real>, m: real) {
    m in prices && forall i :: 0 <= i < |prices| ==> prices[i] <= m
  }

  ghost function LeastOf(prices: seq<real>): (m: real)
    requires prices != []
    ensures IsLeast(prices, m)
  {
    if |prices| == 1 then prices[0]
    else
      var front := prices[..|prices| - 1];
      assert prices == front + [prices[|prices| - 1]];
      Least(LeastOf(front), prices[|prices| - 1])
  }

  ghost function GreatestOf(prices: seq<real>): (m: real)
    requires prices != []
    ensures IsGreatest(prices, m)
  {
    if |prices| == 1 then prices[0]
    else
      var front := prices[..|prices| - 1];
      assert prices == front + [prices[|prices| - 1]];
      Greatest(GreatestOf(front), prices[|prices| - 1])
  }

  lemma ExtremesUnique(prices: seq<real>, least: real, greatest: real)
    requires prices != []
    ensures IsLeast(prices, least) <==> least == LeastOf(prices)
    ensures IsGreatest(prices, greatest) <==> greatest == GreatestOf(prices)
  {
    hide LeastOf, GreatestOf;
    var l, g := LeastOf(prices), GreatestOf(prices);
  }

  /** With two prices and a nonnegative tolerance, at most one direction holds. */
  lemma DirectionsExclude(prices: seq<real>, tolerance: real)
    requires |prices| >= 2 && tolerance >= 0.0
    ensures !(Rising(prices, tolerance) && Falling(prices, tolerance))
  {
    assert Rising(prices, tolerance) ==> prices[1] - prices[0] > tolerance;
  }

  // ---- the summary kept while points arrive ----

  class PriceStructure {
    var count: nat
    var last: Decimal
    var min: Decimal
    var max: Decimal
    var rising: bool
    var falling: bool

    /** The fields say exactly what the definitions say about all prices added so far. */
    ghost predicate Summarises(prices: seq<real>, tolerance: real)
      reads this
    {
      && count == |prices|
      && (prices != [] ==>
            && last.Value() == prices[|prices| - 1]
            && min.Value() == LeastOf(prices)
            && max.Value() == GreatestOf(prices)
            && (rising <==> Rising(prices, tolerance))
            && (falling <==> Falling(prices, tolerance)))
    }

    constructor ()
      ensures count == 0
      ensures forall tolerance :: Summarises([], tolerance)
    {
      count, last, min, max, rising, falling := 0, ZERO, ZERO, ZERO, false, false;
    }

    method Add(price: Decimal, tolerance: Decimal, ghost prices: seq<real>)
      requires Summarises(prices, tolerance.Value())
      modifies this
      ensures Summarises(prices + [price.Value()], tolerance.Value())
    {
      hide Decimal.Value, Decimal.Sub, Decimal.Neg, Decimal.LessThan, LeastOf, GreatestOf, Rising, Falling, IsLeast,
        IsGreatest, Min, Max;
      ghost var more := prices + [price.Value()];
      if count == 0 {
        assert more == [price.Value()];
        OnePrice(price.Value(), tolerance.Value());
        min, max := price, price;
        rising, falling := true, true;
      } else {
        OneMorePrice(prices, price.Value(), tolerance.Value());
        var difference := price.Sub(last);
        rising := rising && tolerance.LessThan(difference);
        falling := falling && difference.LessThan(tolerance.Neg());
        min := Min(min, price);
        max := Max(max, price);
      }
      last := price;
      count := count + 1;
    }
  }

  lemma OnePrice(p: real, tolerance: real)
    ensures LeastOf([p]) == p && GreatestOf([p]) == p && Rising([p], tolerance) && Falling([p], tolerance)
  {
  }

  lemma OneMorePrice(prices: seq<real>, p: real, tolerance: real)
    requires prices != []
    ensures LeastOf(prices + [p]) == Least(LeastOf(prices), p)
    ensures GreatestOf(prices + [p]) == Greatest(GreatestOf(prices), p)
    ensures Rising(prices + [p], tolerance) <==> Rising(prices, tolerance) && p - prices[|prices| - 1] > tolerance
    ensures Falling(prices + [p], tolerance) <==> Falling(prices, tolerance) && p - prices[|prices| - 1] < -tolerance
  {
    hide Rising, Falling, LeastOf, GreatestOf;
    ExtremesStep(prices, p);
    RisingStep(prices, p, tolerance);
    FallingStep(prices, p, tolerance);
  }

  lemma FallingStep(prices: seq<real>, p: real, tolerance: real)
    requires prices != []
    ensures Falling(prices + [p], tolerance) <==> Falling(prices, tolerance) && p - prices[|prices| - 1] < -tolerance
  {
    var more := prices + [p];
    assert more[|prices|] == p && more[|prices| - 1] == prices[|prices| - 1];
    if Falling(more, tolerance) {
      forall i | 0 < i < |prices|
        ensures prices[i] - prices[i - 1] < -tolerance
      {
        assert more[i] - more[i - 1] < -tolerance;
      }
    }
  }

  lemma ExtremesStep(prices: seq<real>, p: real)
    requires prices != []
    ensures LeastOf(prices + [p]) == Least(LeastOf(prices), p)
    ensures GreatestOf(prices + [p]) == Greatest(GreatestOf(prices), p)
  {
    assert (prices + [p])[..|prices|] == prices;
  }

  lemma RisingStep(prices: seq<real>, p: real, tolerance: real)
    requires prices != []
    ensures Rising(prices + [p], tolerance) <==> Rising(prices, tolerance) && p - prices[|prices| - 1] > tolerance
  {
    var more := prices + [p];
    assert more[|prices|] == p && more[|prices| - 1] == prices[|prices| - 1];
    if Rising(more, tolerance) {
      forall i | 0 < i < |prices|
        ensures prices[i] - prices[i - 1] > tolerance
      {
        assert more[i] - more[i - 1] > tolerance;
      }
    }
  }

  // ---- the decision rules ----

  datatype TrendState = Up | Down | Sideways | Undetermined

  datatype TrendReason =
    | FlatRange | InsufficientStructure | RisingStructure | FallingStructure
    | StructureBroken | HorizontalStructure | MixedStructure

  datatype Verdict = Verdict(state: TrendState, reason: TrendReason)

  ghost function Classified(range: real, highs: seq<real>, lows: seq<real>, close: real, tolerance: real): (v: Verdict)
  {
    if range <= tolerance then Verdict(Sideways, FlatRange)
    else if |highs| < 2 || |lows| < 2 then Verdict(Undetermined, InsufficientStructure)
    else if Rising(highs, tolerance) && Rising(lows, tolerance) then
      if close < lows[|lows| - 1] - tolerance then Verdict(Undetermined, StructureBroken)
      else Verdict(Up, RisingStructure)
    else if Falling(highs, tolerance) && Falling(lows, tolerance) then
      if close > highs[|highs| - 1] + tolerance then Verdict(Undetermined, StructureBroken)
      else Verdict(Down, FallingStructure)
    else if GreatestOf(highs) - LeastOf(highs) <= tolerance && GreatestOf(lows) - LeastOf(lows) <= tolerance
         && close >= LeastOf(lows) - tolerance && close <= GreatestOf(highs) + tolerance
    then Verdict(Sideways, HorizontalStructure)
    else Verdict(Undetermined, MixedStructure)
  }

  ghost function SelectedSeries(bars: seq<Bar>, source: PriceSource, kind: Kind): (prices: seq<real>)
    ensures |prices| == |bars| && forall i :: 0 <= i < |bars| ==> prices[i] == Price(bars[i], source, kind)
  {
    seq(|bars|, i requires 0 <= i < |bars| => Price(bars[i], source, kind))
  }

  ghost predicate TurnsWithin(turns: seq<Turn>, n: nat) {
    forall i :: 0 <= i < |turns| ==> turns[i].index < n
  }

  ghost function TurnPrices(bars: seq<Bar>, source: PriceSource, turns: seq<Turn>): (prices: seq<real>)
    requires TurnsWithin(turns, |bars|)
    ensures |prices| == |turns| && forall i :: 0 <= i < |turns| ==>
      prices[i] == Price(bars[turns[i].index], source, turns[i].kind)
  {
    seq(|turns|, i requires 0 <= i < |turns| => Price(bars[turns[i].index], source, turns[i].kind))
  }

  lemma {:induction false} OfKindWithin(turns: seq<Turn>, kind: Kind, n: nat)
    requires TurnsWithin(turns, n)
    ensures TurnsWithin(OfKind(turns, kind), n)
    ensures forall i :: 0 <= i < |OfKind(turns, kind)| ==> OfKind(turns, kind)[i].kind == kind
  {
    if turns == [] {
    } else {
      OfKindWithin(turns[..|turns| - 1], kind, n);
    }
  }

  lemma AllWithin(bars: seq<Bar>, settings: ExtremaSettings)
    requires Applicable(settings, |bars|)
    ensures TurnsWithin(Turns(bars, settings), |bars|)
  {
    hide Turns;
    forall k | 0 <= k < |Turns(bars, settings)|
      ensures Turns(bars, settings)[k].index < |bars|
    {
      TurnWithin(bars, settings, k);
    }
  }

  ghost function Swing(bars: seq<Bar>, settings: ExtremaSettings, kind: Kind): (prices: seq<real>)
    requires Applicable(settings, |bars|)
  {
    AllWithin(bars, settings);
    OfKindWithin(Turns(bars, settings), kind, |bars|);
    TurnPrices(bars, settings.source, OfKind(Turns(bars, settings), kind))
  }

  ghost function Tolerance(close: real, pct: real): (t: real) {
    Sig(16, Over(Times(close, pct), 100.0))
  }

  ghost function RangeOfPrices(bars: seq<Bar>, source: PriceSource): (range: real)
    requires bars != []
  {
    GreatestOf(SelectedSeries(bars, source, High)) - LeastOf(SelectedSeries(bars, source, Low))
  }

  lemma ApplicableNeeds(settings: ExtremaSettings, count: nat)
    requires Applicable(settings, count)
    ensures count >= 2
  {
  }

  /** The verdict on a whole history. */
  ghost function TrendOf(bars: seq<Bar>, settings: ExtremaSettings, pct: real): (v: Verdict)
    requires Applicable(settings, |bars|)
  {
    ApplicableNeeds(settings, |bars|);
    var close := bars[|bars| - 1].close;
    Classified(RangeOfPrices(bars, settings.source), Swing(bars, settings, High), Swing(bars, settings, Low), close,
               Tolerance(close, pct))
  }

  // ---- reflection about the last close ----

  ghost function ReflectPrices(k: real, prices: seq<real>): (r: seq<real>)
    ensures |r| == |prices| && forall i :: 0 <= i < |r| ==> r[i] == k - prices[i]
  {
    seq(|prices|, i requires 0 <= i < |prices| => k - prices[i])
  }

  ghost function Swapped(v: Verdict): (r: Verdict) {
    match v
    case Verdict(Up, RisingStructure) => Verdict(Down, FallingStructure)
    case Verdict(Down, FallingStructure) => Verdict(Up, RisingStructure)
    case _ => v
  }

  lemma ReflectedStructure(k: real, prices: seq<real>, tolerance: real)
    ensures Rising(ReflectPrices(k, prices), tolerance) <==> Falling(prices, tolerance)
    ensures Falling(ReflectPrices(k, prices), tolerance) <==> Rising(prices, tolerance)
    ensures prices != [] ==> LeastOf(ReflectPrices(k, prices)) == k - GreatestOf(prices)
    ensures prices != [] ==> GreatestOf(ReflectPrices(k, prices)) == k - LeastOf(prices)
  {
    hide LeastOf, GreatestOf;
    var r := ReflectPrices(k, prices);
    assert forall i :: 0 < i < |prices| ==> r[i] - r[i - 1] == -(prices[i] - prices[i - 1]);
    if prices != [] {
      var l, g := LeastOf(prices), GreatestOf(prices);
      var i :| 0 <= i < |prices| && prices[i] == l;
      var j :| 0 <= j < |prices| && prices[j] == g;
      assert r[i] == k - l && r[j] == k - g;
      ExtremesUnique(r, k - g, k - l);
    }
  }

  /** Reflecting both structures about the close exchanges UP with DOWN and keeps every other verdict. */
  lemma ClassifiedReflected(range: real, highs: seq<real>, lows: seq<real>, close: real, tolerance: real)
    requires tolerance >= 0.0
    ensures Classified(range, ReflectPrices(2.0 * close, lows), ReflectPrices(2.0 * close, highs), close, tolerance)
            == Swapped(Classified(range, highs, lows, close, tolerance))
  {
    hide Rising, Falling, LeastOf, GreatestOf;
    ReflectedStructure(2.0 * close, highs, tolerance);
    ReflectedStructure(2.0 * close, lows, tolerance);
    if |highs| >= 2 && |lows| >= 2 {
      DirectionsExclude(highs, tolerance);
    }
  }

  lemma SwingReflected(k: real, bars: seq<Bar>, settings: ExtremaSettings, kind: Kind)
    requires !settings.algorithm.PercentReversal? && Applicable(settings, |bars|)
    ensures Swing(Reflect(k, bars), settings, kind) == ReflectPrices(k, Swing(bars, settings, Opposite(kind)))
  {
    hide Turns, OfKind;
    KindsReflected(k, bars, settings, kind);
    AllWithin(bars, settings);
    OfKindWithin(Turns(bars, settings), Opposite(kind), |bars|);
  }

  lemma RangeReflected(k: real, bars: seq<Bar>, source: PriceSource)
    requires bars != []
    ensures RangeOfPrices(Reflect(k, bars), source) == RangeOfPrices(bars, source)
  {
    hide LeastOf, GreatestOf;
    var highs, lows := SelectedSeries(bars, source, High), SelectedSeries(bars, source, Low);
    assert SelectedSeries(Reflect(k, bars), source, High) == ReflectPrices(k, lows);
    assert SelectedSeries(Reflect(k, bars), source, Low) == ReflectPrices(k, highs);
    ReflectedStructure(k, highs, 0.0);
    ReflectedStructure(k, lows, 0.0);
  }

  lemma ToleranceNonnegative(close: real, pct: real)
    requires close > 0.0 && pct >= 0.0
    ensures Tolerance(close, pct) >= 0.0
  {
    hide Times, Over, Sig;
    TimesUnits(pct);
    if pct > 0.0 {
      PercentThresholdPositive(close, pct);
    } else {
      TimesCommutes(close, 0.0);
      TimesUnits(close);
      TimesUnits(100.0);
      OverUnique(0.0, 0.0, 100.0);
      SigSign(16, 0.0);
    }
  }

  /** End to end: detection and classification of the mirrored history give the mirrored verdict. */
  lemma TrendReflected(bars: seq<Bar>, settings: ExtremaSettings, pct: real)
    requires !settings.algorithm.PercentReversal? && Applicable(settings, |bars|) && pct >= 0.0
    requires bars != [] && bars[|bars| - 1].close > 0.0
    ensures TrendOf(Reflect(2.0 * bars[|bars| - 1].close, bars), settings, pct) == Swapped(TrendOf(bars, settings, pct))
  {
    hide Classified, Swing, RangeOfPrices, Tolerance, Swapped;
    var close := bars[|bars| - 1].close;
    SwingReflected(2.0 * close, bars, settings, High);
    SwingReflected(2.0 * close, bars, settings, Low);
    RangeReflected(2.0 * close, bars, settings.source);
    ToleranceNonnegative(close, pct);
    ClassifiedReflected(RangeOfPrices(bars, settings.source), Swing(bars, settings, High), Swing(bars, settings, Low),
                        close, Tolerance(close, pct));
  }

  // ---- shifting the decimal point of every price ----

  ghost function ScalePrices(p: real, prices: seq<real>): (r: seq<real>)
    ensures |r| == |prices| && forall i :: 0 <= i < |r| ==> r[i] == Times(prices[i], p)
  {
    seq(|prices|, i requires 0 <= i < |prices| => Times(prices[i], p))
  }

  lemma ScaledStructure(p: real, prices: seq<real>, tolerance: real)
    requires p > 0.0
    ensures Rising(ScalePrices(p, prices), Times(tolerance, p)) <==> Rising(prices, tolerance)
    ensures Falling(ScalePrices(p, prices), Times(tolerance, p)) <==> Falling(prices, tolerance)
    ensures prices != [] ==> LeastOf(ScalePrices(p, prices)) == Times(LeastOf(prices), p)
    ensures prices != [] ==> GreatestOf(ScalePrices(p, prices)) == Times(GreatestOf(prices), p)
  {
    hide Times, LeastOf, GreatestOf;
    var r := ScalePrices(p, prices);
    TimesNegated(tolerance, p);
    forall i | 0 < i < |prices|
      ensures r[i] - r[i - 1] > Times(tolerance, p) <==> prices[i] - prices[i - 1] > tolerance
      ensures r[i] - r[i - 1] < -Times(tolerance, p) <==> prices[i] - prices[i - 1] < -tolerance
    {
      TimesDistributes(prices[i], prices[i - 1], p);
      TimesOrder(tolerance, prices[i] - prices[i - 1], p);
      TimesOrder(prices[i] - prices[i - 1], -tolerance, p);
    }
    if prices != [] {
      ScaledExtremes(p, prices);
    }
  }

  lemma ScaledExtremes(p: real, prices: seq<real>)
    requires p > 0.0 && prices != []
    ensures LeastOf(ScalePrices(p, prices)) == Times(LeastOf(prices), p)
    ensures GreatestOf(ScalePrices(p, prices)) == Times(GreatestOf(prices), p)
  {
    hide Times, LeastOf, GreatestOf;
    var r, l, g := ScalePrices(p, prices), LeastOf(prices), GreatestOf(prices);
    var i :| 0 <= i < |prices| && prices[i] == l;
    var j :| 0 <= j < |prices| && prices[j] == g;
    assert r[i] == Times(l, p) && r[j] == Times(g, p);
    forall k | 0 <= k < |prices|
      ensures Times(l, p) <= r[k] <= Times(g, p)
    {
      TimesOrder(l, prices[k], p);
      TimesOrder(prices[k], g, p);
    }
    ExtremesUnique(r, Times(l, p), Times(g, p));
  }

  lemma ClassifiedScaled(p: real, range: real, highs: seq<real>, lows: seq<real>, close: real, tolerance: real)
    requires p > 0.0
    ensures Classified(Times(range, p), ScalePrices(p, highs), ScalePrices(p, lows), Times(close, p),
                       Times(tolerance, p))
            == Classified(range, highs, lows, close, tolerance)
  {
    hide Times, Rising, Falling, LeastOf, GreatestOf;
    TimesOrder(range, tolerance, p);
    ScaledStructure(p, highs, tolerance);
    ScaledStructure(p, lows, tolerance);
    if |highs| >= 2 && |lows| >= 2 {
      ScaledComparisons(p, highs, lows, close, tolerance);
    }
  }

  lemma ScaledComparisons(p: real, highs: seq<real>, lows: seq<real>, close: real, tolerance: real)
    requires p > 0.0 && |highs| >= 2 && |lows| >= 2
    ensures Times(close, p) < Times(lows[|lows| - 1], p) - Times(tolerance, p) <==> close < lows[|lows| - 1] - tolerance
    ensures Times(close, p) > Times(highs[|highs| - 1], p) + Times(tolerance, p)
            <==> close > highs[|highs| - 1] + tolerance
    ensures Times(GreatestOf(highs), p) - Times(LeastOf(highs), p) <= Times(tolerance, p)
            <==> GreatestOf(highs) - LeastOf(highs) <= tolerance
    ensures Times(GreatestOf(lows), p) - Times(LeastOf(lows), p) <= Times(tolerance, p)
            <==> GreatestOf(lows) - LeastOf(lows) <= tolerance
    ensures Times(close, p) >= Times(LeastOf(lows), p) - Times(tolerance, p) <==> close >= LeastOf(lows) - tolerance
    ensures Times(close, p) <= Times(GreatestOf(highs), p) + Times(tolerance, p)
            <==> close <= GreatestOf(highs) + tolerance
  {
    hide Times, LeastOf, GreatestOf;
    ScaledDifference(p, close, lows[|lows| - 1], -tolerance);
    ScaledDifference(p, close, highs[|highs| - 1], tolerance);
    ScaledDifference(p, GreatestOf(highs), LeastOf(highs), tolerance);
    ScaledDifference(p, GreatestOf(lows), LeastOf(lows), tolerance);
    ScaledDifference(p, close, LeastOf(lows), -tolerance);
    ScaledDifference(p, close, GreatestOf(highs), tolerance);
    TimesNegated(tolerance, p);
  }

  lemma ScaledDifference(p: real, a: real, b: real, d: real)
    requires p > 0.0
    ensures Times(a, p) - Times(b, p) <= Times(d, p) <==> a - b <= d
    ensures Times(a, p) - Times(b, p) < Times(d, p) <==> a - b < d
  {
    hide Times;
    TimesDistributes(a, b, p);
    TimesOrder(a - b, d, p);
  }

  lemma SwingShifted(k: int, bars: seq<Bar>, settings: ExtremaSettings, kind: Kind)
    requires Applicable(settings, |bars|)
    ensures Swing(Shift10(k, bars), settings, kind) == ScalePrices(Pow10(k), Swing(bars, settings, kind))
  {
    hide Turns, OfKind, Times, Pow10;
    TurnsShifted(k, bars, settings);
    AllWithin(bars, settings);
    OfKindWithin(Turns(bars, settings), kind, |bars|);
  }

  lemma SelectedShifted(k: int, bars: seq<Bar>, source: PriceSource, kind: Kind)
    ensures SelectedSeries(Shift10(k, bars), source, kind) == ScalePrices(Pow10(k), SelectedSeries(bars, source, kind))
  {
    hide Times, Pow10;
  }

  lemma RangeShifted10(k: int, bars: seq<Bar>, source: PriceSource)
    requires bars != []
    ensures RangeOfPrices(Shift10(k, bars), source) == Times(RangeOfPrices(bars, source), Pow10(k))
  {
    hide LeastOf, GreatestOf, Times, Pow10;
    var highs, lows := SelectedSeries(bars, source, High), SelectedSeries(bars, source, Low);
    SelectedShifted(k, bars, source, High);
    SelectedShifted(k, bars, source, Low);
    hide SelectedSeries;
    ScaledExtremes(Pow10(k), highs);
    ScaledExtremes(Pow10(k), lows);
    TimesDistributes(GreatestOf(highs), LeastOf(lows), Pow10(k));
  }

  /** The verdict does not depend on where the decimal point of the prices is. */
  lemma TrendShifted(k: int, bars: seq<Bar>, settings: ExtremaSettings, pct: real)
    requires Applicable(settings, |bars|)
    ensures TrendOf(Shift10(k, bars), settings, pct) == TrendOf(bars, settings, pct)
  {
    hide Classified, Swing, RangeOfPrices, Times, Pow10;
    ApplicableNeeds(settings, |bars|);
    var close := bars[|bars| - 1].close;
    SwingShifted(k, bars, settings, High);
    SwingShifted(k, bars, settings, Low);
    RangeShifted10(k, bars, settings.source);
    PercentShifted(close, pct, k);
    ClassifiedScaled(Pow10(k), RangeOfPrices(bars, settings.source), Swing(bars, settings, High),
                     Swing(bars, settings, Low), close, Tolerance(close, pct));
  }

  // ---- the calculation on exact decimals ----

  datatype TrendResult = TrendResult(
    state: TrendState, reason: TrendReason, tolerance: Decimal, referenceClose: Decimal, extrema: seq<Extremum>)

  ghost function KindPrices(points: seq<Extremum>, kind: Kind): (prices: seq<real>) {
    if points == [] then []
    else
      KindPrices(points[..|points| - 1], kind)
      + (if points[|points| - 1].kind == kind then [points[|points| - 1].price.Value()] else [])
  }

  /** The prices fed to the two structures are the prices of the detected turns. */
  lemma {:induction false} KindPricesAreSwings(candles: seq<Candle>, settings: ExtremaSettings, turns: seq<Turn>,
                                               points: seq<Extremum>, kind: Kind)
    requires ArePoints(candles, settings, turns, points) && TurnsWithin(turns, |candles|)
    ensures TurnsWithin(OfKind(turns, kind), |candles|)
    ensures KindPrices(points, kind) == TurnPrices(Bars(candles), settings.source, OfKind(turns, kind))
  {
    hide Decimal.Value;
    OfKindWithin(turns, kind, |candles|);
    if turns == [] {
    } else {
      var n := |turns| - 1;
      assert IsPoint(candles, settings, turns[n], points[n]);
      KindPricesAreSwings(candles, settings, turns[..n], points[..n], kind);
      OfKindWithin(turns[..n], kind, |candles|);
      PointPrice(candles, settings, turns[n], points[n]);
    }
  }

  method SelectedExtremes(candles: seq<Candle>, source: PriceSource) returns (maximum: Decimal, minimum: Decimal)
    requires candles != []
    ensures maximum.Value() - minimum.Value() == RangeOfPrices(Bars(candles), source)
  {
    hide Decimal.Value, LeastOf, GreatestOf;
    ghost var highs := SelectedSeries(Bars(candles), source, High);
    ghost var lows := SelectedSeries(Bars(candles), source, Low);
    maximum, minimum := Selected(candles[0], source, High), Selected(candles[0], source, Low);
    var i := 0;
    while i < |candles|
      invariant 0 <= i <= |candles|
      invariant maximum.Value() in highs && minimum.Value() in lows
      invariant forall j :: 0 <= j < i ==> highs[j] <= maximum.Value() && minimum.Value() <= lows[j]
    {
      var high, low := Selected(candles[i], source, High), Selected(candles[i], source, Low);
      assert high.Value() == highs[i] && low.Value() == lows[i];
      maximum, minimum := Max(maximum, high), Min(minimum, low);
      i := i + 1;
    }
    ExtremesUnique(highs, 0.0, maximum.Value());
    ExtremesUnique(lows, minimum.Value(), 0.0);
  }

  /** The complete answer: the verdict on the whole history, with the numbers it was reached with. */
  ghost predicate IsTrend(candles: seq<Candle>, settings: ExtremaSettings, pct: Decimal, result: TrendResult) {
    && candles != []
    && IsDetected(candles, settings, result.extrema)
    && result.referenceClose == candles[|candles| - 1].close
    && result.tolerance.Value() == Tolerance(candles[|candles| - 1].close.Value(), pct.Value())
    && Verdict(result.state, result.reason) == TrendOf(Bars(candles), settings, pct.Value())
  }

  lemma MakeTrend(candles: seq<Candle>, settings: ExtremaSettings, pct: Decimal, result: TrendResult)
    requires candles != [] && IsDetected(candles, settings, result.extrema)
    requires Applicable(settings, |candles|) && result.referenceClose == candles[|candles| - 1].close
    requires result.tolerance.Value() == Tolerance(candles[|candles| - 1].close.Value(), pct.Value())
    requires Verdict(result.state, result.reason) == TrendOf(Bars(candles), settings, pct.Value())
    ensures IsTrend(candles, settings, pct, result)
  {
    hide TrendOf, Tolerance, Decimal.Value, ArePoints;
  }

  /** The points must be the detected points of these candles. */
  method ClassifyTrend(candles: seq<Candle>, points: seq<Extremum>, settings: ExtremaSettings, tolerancePct: Decimal)
    returns (r: Result<TrendResult>)
    requires IsDetected(candles, settings, points)
    ensures candles != []
    ensures r.Ok? ==> IsTrend(candles, settings, tolerancePct, r.value) && r.value.extrema == points
    ensures r.Ok? <==> Divided(candles[|candles| - 1].close.Mul(tolerancePct), HUNDRED).Ok?
    ensures r.Err? ==> Divided(candles[|candles| - 1].close.Mul(tolerancePct), HUNDRED) == Err(r.error)
  {
    hide *;
    DetectedApplies(candles, settings, points);
    var close := candles[|candles| - 1].close;
    var divided := Divide(close.Mul(tolerancePct), HUNDRED);
    if divided.Err? {
      return Err(divided.error);
    }
    var tolerance := divided.value;
    ToleranceValue(close, tolerancePct);
    var maximum, minimum := SelectedExtremes(candles, settings.source);
    var highs := new PriceStructure();
    var lows := new PriceStructure();
    ghost var tol := tolerance.Value();
    NoKindPrices();
    NothingSummarised(highs, tol);
    NothingSummarised(lows, tol);
    var i := 0;
    while i < |points|
      invariant 0 <= i <= |points| && highs != lows
      invariant highs.Summarises(KindPrices(points[..i], High), tol)
      invariant lows.Summarises(KindPrices(points[..i], Low), tol)
    {
      var point := points[i];
      KindPricesStep(points, i);
      if point.kind == High {
        highs.Add(point.price, tolerance, KindPrices(points[..i], High));
      } else {
        lows.Add(point.price, tolerance, KindPrices(points[..i], Low));
      }
      i := i + 1;
    }
    assert points[..i] == points;
    var state, reason := Decide(maximum.Sub(minimum), highs, lows, close, tolerance, KindPrices(points, High),
                                KindPrices(points, Low));
    TrendMeans(candles, points, settings, tolerancePct);
    MakeTrend(candles, settings, tolerancePct, TrendResult(state, reason, tolerance, close, points));
    return Ok(TrendResult(state, reason, tolerance, close, points));
  }

  /** The ordered rules over the two summaries. */
  method Decide(range: Decimal, highs: PriceStructure, lows: PriceStructure, close: Decimal, tolerance: Decimal,
                ghost highPrices: seq<real>, ghost lowPrices: seq<real>)
    returns (state: TrendState, reason: TrendReason)
    requires highs.Summarises(highPrices, tolerance.Value()) && lows.Summarises(lowPrices, tolerance.Value())
    ensures Verdict(state, reason) == Classified(range.Value(), highPrices, lowPrices, close.Value(), tolerance.Value())
  {
    hide Decimal.Value, Decimal.Sub, Decimal.Add, Decimal.AtMost, Decimal.LessThan, Rising, Falling, LeastOf,
      GreatestOf;
    state, reason := Undetermined, MixedStructure;
    if range.AtMost(tolerance) {
      state, reason := Sideways, FlatRange;
    } else if highs.count < 2 || lows.count < 2 {
      reason := InsufficientStructure;
    } else if highs.rising && lows.rising {
      if close.LessThan(lows.last.Sub(tolerance)) {
        reason := StructureBroken;
      } else {
        state, reason := Up, RisingStructure;
      }
    } else if highs.falling && lows.falling {
      if highs.last.Add(tolerance).LessThan(close) {
        reason := StructureBroken;
      } else {
        state, reason := Down, FallingStructure;
      }
    } else if highs.max.Sub(highs.min).AtMost(tolerance) && lows.max.Sub(lows.min).AtMost(tolerance)
           && lows.min.Sub(tolerance).AtMost(close) && close.AtMost(highs.max.Add(tolerance)) {
      state, reason := Sideways, HorizontalStructure;
    }
  }

  lemma DetectedApplies(candles: seq<Candle>, settings: ExtremaSettings, points: seq<Extremum>)
    requires IsDetected(candles, settings, points)
    ensures Applicable(settings, |candles|) && candles != []
  {
    hide Turns, ArePoints;
  }

  lemma ToleranceValue(close: Decimal, pct: Decimal)
    requires Divided(close.Mul(pct), HUNDRED).Ok?
    ensures Divided(close.Mul(pct), HUNDRED).value.Value() == Tolerance(close.Value(), pct.Value())
  {
    hide Divided, Sig, Over, Times, Pow10;
    DividedIsRounded(close.Mul(pct), HUNDRED);
  }

  lemma NoKindPrices()
    ensures forall kind :: KindPrices([], kind) == []
  {
  }

  lemma NothingSummarised(s: PriceStructure, tolerance: real)
    requires s.count == 0
    ensures s.Summarises([], tolerance)
  {
  }

  lemma KindPricesStep(points: seq<Extremum>, i: nat)
    requires i < |points|
    ensures KindPrices(points[..i + 1], points[i].kind)
            == KindPrices(points[..i], points[i].kind) + [points[i].price.Value()]
    ensures KindPrices(points[..i + 1], Opposite(points[i].kind)) == KindPrices(points[..i], Opposite(points[i].kind))
  {
    hide Decimal.Value;
    assert points[..i + 1][..i] == points[..i];
  }

  lemma TrendMeans(candles: seq<Candle>, points: seq<Extremum>, settings: ExtremaSettings, pct: Decimal)
    requires IsDetected(candles, settings, points)
    ensures Applicable(settings, |candles|) && candles != []
    ensures TrendOf(Bars(candles), settings, pct.Value())
            == Classified(RangeOfPrices(Bars(candles), settings.source), KindPrices(points, High),
                          KindPrices(points, Low), candles[|candles| - 1].close.Value(),
                          Tolerance(candles[|candles| - 1].close.Value(), pct.Value()))
  {
    hide Turns, Classified, OfKind, KindPrices, RangeOfPrices, Tolerance, Decimal.Value, IsPoint;
    AllWithin(Bars(candles), settings);
    KindPricesAreSwings(candles, settings, Turns(Bars(candles), settings), points, High);
    KindPricesAreSwings(candles, settings, Turns(Bars(candles), settings), points, Low);
  }

  method CalculateTrend(candles: seq<Candle>, settings: TrendSettings) returns (r: Result<TrendResult>)
    ensures r.Ok? ==> IsTrend(candles, settings.extrema, settings.equalityTolerancePct, r.value)
    ensures settings.Validate(|candles|) == None ==>
      && Applicable(settings.extrema, |candles|) && candles != []
      && (r.Ok? <==>
            && ThresholdsExist(candles, settings.extrema)
            && Divided(candles[|candles| - 1].close.Mul(settings.equalityTolerancePct), HUNDRED).Ok?)
    ensures settings.Validate(|candles|).Some? ==> r == Err(settings.Validate(|candles|).value)
    ensures r.Err? && settings.Validate(|candles|) == None ==>
      || DetectionFails(candles, settings.extrema, r.error)
      || (candles != []
          && Divided(candles[|candles| - 1].close.Mul(settings.equalityTolerancePct), HUNDRED) == Err(r.error))
  {
    hide Divided, IsTrend, ThresholdsExist, ExtremaSettings.Validate, IsDetected, DetectionFails, Decimal.Mul,
      Decimal.Value;
    var invalid := settings.Validate(|candles|);
    if invalid.Some? {
      return Err(invalid.value);
    }
    var points := DetectExtrema(candles, settings.extrema);
    if points.Err? {
      return Err(points.error);
    }
    r := ClassifyTrend(candles, points.value, settings.extrema, settings.equalityTolerancePct);
  }

  // ---- what a verdict says about the reported points ----

  /** The places of all points of one kind, in order. */
  ghost predicate Places(points: seq<Extremum>, kind: Kind, at: seq<nat>) {
    && |at| == |KindPrices(points, kind)|
    && (forall i :: 0 <= i < |at| ==>
          && at[i] < |points| && points[at[i]].kind == kind
          && KindPrices(points, kind)[i] == points[at[i]].price.Value())
    && (forall i, j :: 0 <= i < j < |at| ==> at[i] < at[j])
    && (forall m: nat :: m < |points| && points[m].kind == kind ==> m in at)
  }

  lemma {:induction false} FindPlaces(points: seq<Extremum>, kind: Kind) returns (at: seq<nat>)
    ensures Places(points, kind, at)
  {
    hide Places;
    if points == [] {
      at := [];
      NoPlaces(kind);
    } else {
      var n := |points| - 1;
      at := FindPlaces(points[..n], kind);
      PlacesGrow(points, kind, at);
      if points[n].kind == kind {
        at := at + [n];
      }
    }
  }

  lemma NoPlaces(kind: Kind)
    ensures Places([], kind, [])
  {
  }

  lemma PlacesGrow(points: seq<Extremum>, kind: Kind, at: seq<nat>)
    requires points != [] && Places(points[..|points| - 1], kind, at)
    ensures Places(points, kind, if points[|points| - 1].kind == kind then at + [|points| - 1] else at)
  {
    hide Places;
    if points[|points| - 1].kind == kind {
      PlacesAdded(points, kind, at);
    } else {
      PlacesKept(points, kind, at);
    }
  }

  lemma PlacesKept(points: seq<Extremum>, kind: Kind, at: seq<nat>)
    requires points != [] && points[|points| - 1].kind != kind && Places(points[..|points| - 1], kind, at)
    ensures Places(points, kind, at)
  {
    hide Decimal.Value, KindPrices;
    var front := points[..|points| - 1];
    LastKindPrice(points, kind);
    forall m: nat | m < |points| && points[m].kind == kind
      ensures m in at
    {
      assert front[m].kind == kind;
    }
  }

  lemma PlacesAdded(points: seq<Extremum>, kind: Kind, at: seq<nat>)
    requires points != [] && points[|points| - 1].kind == kind && Places(points[..|points| - 1], kind, at)
    ensures Places(points, kind, at + [|points| - 1])
  {
    hide Decimal.Value, KindPrices;
    var n := |points| - 1;
    var front, more := points[..n], at + [n];
    LastKindPrice(points, kind);
    forall i | 0 <= i < |more|
      ensures more[i] < |points| && points[more[i]].kind == kind
      ensures KindPrices(points, kind)[i] == points[more[i]].price.Value()
    {
      if i < |at| {
        assert front[at[i]] == points[at[i]];
      }
    }
    forall m: nat | m < |points| && points[m].kind == kind
      ensures m in more
    {
      if m < n {
        assert front[m].kind == kind && m in at;
      }
    }
  }

  lemma LastKindPrice(points: seq<Extremum>, kind: Kind)
    requires points != []
    ensures KindPrices(points, kind)
            == KindPrices(points[..|points| - 1], kind)
               + (if points[|points| - 1].kind == kind then [points[|points| - 1].price.Value()] else [])
  {
    hide Decimal.Value;
  }

  lemma PlaceOrder(at: seq<nat>, p: nat, i: nat)
    requires forall m, n :: 0 <= m < n < |at| ==> at[m] < at[n]
    requires p < |at| && i < |at|
    ensures p < i <==> at[p] < at[i]
  {
  }

  lemma NothingBetween(at: seq<nat>, i: nat, k: nat)
    requires forall m, n :: 0 <= m < n < |at| ==> at[m] < at[n]
    requires 0 < i <= |at| && k < |at|
    ensures at[k] <= at[i - 1] || (i < |at| && at[k] >= at[i])
  {
  }

  lemma NextPlace(points: seq<Extremum>, kind: Kind, at: seq<nat>, i: nat)
    requires Places(points, kind, at) && 0 < i < |at|
    ensures Neighbours(points, kind, at[i - 1], at[i])
  {
    hide Decimal.Value, KindPrices;
    forall m | at[i - 1] < m < at[i]
      ensures points[m].kind != kind
    {
      if points[m].kind == kind {
        var k :| 0 <= k < |at| && at[k] == m;
        NothingBetween(at, i, k);
      }
    }
  }

  lemma NeighbourPlace(points: seq<Extremum>, kind: Kind, at: seq<nat>, a: int, b: int) returns (i: nat)
    requires Places(points, kind, at) && Neighbours(points, kind, a, b)
    ensures 0 < i < |at| && at[i - 1] == a && at[i] == b
  {
    hide Decimal.Value, KindPrices;
    var p :| 0 <= p < |at| && at[p] == a;
    i :| 0 <= i < |at| && at[i] == b;
    PlaceOrder(at, p, i);
    NextPlace(points, kind, at, i);
  }

  /** Every next point of the kind lies more than the tolerance above the previous one. */
  ghost predicate Climbs(points: seq<Extremum>, kind: Kind, tolerance: real) {
    Rising(KindPrices(points, kind), tolerance)
  }

  /** Every next point of the kind lies more than the tolerance below the previous one. */
  ghost predicate Drops(points: seq<Extremum>, kind: Kind, tolerance: real) {
    Falling(KindPrices(points, kind), tolerance)
  }

  /** The points a and b are neighbours among the points of the kind. */
  ghost predicate Neighbours(points: seq<Extremum>, kind: Kind, a: int, b: int) {
    && 0 <= a < b < |points| && points[a].kind == kind && points[b].kind == kind
    && forall m :: a < m < b ==> points[m].kind != kind
  }

  lemma RisingPairs(prices: seq<real>, tolerance: real)
    ensures Rising(prices, tolerance)
            <==> forall h, i :: 0 <= h < i == h + 1 < |prices| ==> prices[i] - prices[h] > tolerance
    ensures Falling(prices, tolerance)
            <==> forall h, i :: 0 <= h < i == h + 1 < |prices| ==> prices[i] - prices[h] < -tolerance
  {
    if forall h, i :: 0 <= h < i == h + 1 < |prices| ==> prices[i] - prices[h] > tolerance {
      assert forall i :: 0 < i < |prices| ==> prices[i] - prices[i - 1] > tolerance;
    }
    if forall h, i :: 0 <= h < i == h + 1 < |prices| ==> prices[i] - prices[h] < -tolerance {
      assert forall i :: 0 < i < |prices| ==> prices[i] - prices[i - 1] < -tolerance;
    }
  }

  lemma StepsMean(points: seq<Extremum>, kind: Kind, tolerance: real)
    ensures Climbs(points, kind, tolerance)
            <==> forall a, b :: Neighbours(points, kind, a, b) ==>
                   points[b].price.Value() - points[a].price.Value() > tolerance
    ensures Drops(points, kind, tolerance)
            <==> forall a, b :: Neighbours(points, kind, a, b) ==>
                   points[a].price.Value() - points[b].price.Value() > tolerance
  {
    hide Decimal.Value, KindPrices;
    var prices := KindPrices(points, kind);
    var at := FindPlaces(points, kind);
    forall h, i | 0 <= h < i == h + 1 < |prices|
      ensures Neighbours(points, kind, at[h], at[i])
      ensures prices[i] == points[at[i]].price.Value() && prices[h] == points[at[h]].price.Value()
    {
      NextPlace(points, kind, at, i);
    }
    RisingPairs(prices, tolerance);
    forall a, b | Neighbours(points, kind, a, b)
      ensures Rising(prices, tolerance) ==> points[b].price.Value() - points[a].price.Value() > tolerance
      ensures Falling(prices, tolerance) ==> points[a].price.Value() - points[b].price.Value() > tolerance
    {
      var i := NeighbourPlace(points, kind, at, a, b);
      assert prices[i] == points[b].price.Value() && prices[i - 1] == points[a].price.Value();
    }
  }

  ghost predicate Twice(points: seq<Extremum>, kind: Kind) {
    |KindPrices(points, kind)| >= 2
  }

  /** There are at least two points of the kind. */
  lemma TwiceMeans(points: seq<Extremum>, kind: Kind)
    ensures Twice(points, kind)
            <==> exists a, b :: 0 <= a < b < |points| && points[a].kind == kind && points[b].kind == kind
  {
    hide Decimal.Value, KindPrices;
    var at := FindPlaces(points, kind);
    if |at| >= 2 {
      assert at[0] < at[1] && points[at[0]].kind == kind && points[at[1]].kind == kind;
    }
    if a, b :| 0 <= a < b < |points| && points[a].kind == kind && points[b].kind == kind {
      var p :| 0 <= p < |at| && at[p] == a;
      var q :| 0 <= q < |at| && at[q] == b;
      assert p != q;
    }
  }

  ghost predicate Level(points: seq<Extremum>, kind: Kind, tolerance: real) {
    || KindPrices(points, kind) == []
    || GreatestOf(KindPrices(points, kind)) - LeastOf(KindPrices(points, kind)) <= tolerance
  }

  /** The extreme prices of a kind are prices of its points, and bound them all. */
  lemma ExtremePlaces(points: seq<Extremum>, kind: Kind) returns (low: nat, high: nat)
    requires KindPrices(points, kind) != []
    ensures low < |points| && points[low].kind == kind
    ensures points[low].price.Value() == LeastOf(KindPrices(points, kind))
    ensures high < |points| && points[high].kind == kind
    ensures points[high].price.Value() == GreatestOf(KindPrices(points, kind))
    ensures forall a :: 0 <= a < |points| && points[a].kind == kind ==>
      points[low].price.Value() <= points[a].price.Value() <= points[high].price.Value()
  {
    hide Decimal.Value, KindPrices, LeastOf, GreatestOf;
    var prices := KindPrices(points, kind);
    var at := FindPlaces(points, kind);
    var i :| 0 <= i < |prices| && prices[i] == LeastOf(prices);
    var j :| 0 <= j < |prices| && prices[j] == GreatestOf(prices);
    low, high := at[i], at[j];
    forall a | 0 <= a < |points| && points[a].kind == kind
      ensures points[low].price.Value() <= points[a].price.Value() <= points[high].price.Value()
    {
      var p :| 0 <= p < |at| && at[p] == a;
      assert prices[p] == points[a].price.Value();
      assert LeastOf(prices) <= prices[p] <= GreatestOf(prices);
    }
  }

  /** No two prices of the kind differ by more than the tolerance. */
  lemma LevelMeans(points: seq<Extremum>, kind: Kind, tolerance: real)
    ensures Level(points, kind, tolerance)
            <==> forall a, b ::
                   0 <= a < |points| && 0 <= b < |points| && points[a].kind == kind && points[b].kind == kind
                   ==> points[a].price.Value() - points[b].price.Value() <= tolerance
  {
    hide Decimal.Value, KindPrices, LeastOf, GreatestOf, IsLeast, IsGreatest;
    if KindPrices(points, kind) == [] {
      var at := FindPlaces(points, kind);
    } else {
      var low, high := ExtremePlaces(points, kind);
    }
  }

  /** The last point of the kind. */
  ghost predicate LastOfKind(points: seq<Extremum>, kind: Kind, a: int) {
    0 <= a < |points| && points[a].kind == kind && forall m :: a < m < |points| ==> points[m].kind != kind
  }

  lemma FinalPlace(points: seq<Extremum>, kind: Kind) returns (a: nat)
    requires KindPrices(points, kind) != []
    ensures LastOfKind(points, kind, a)
    ensures points[a].price.Value() == KindPrices(points, kind)[|KindPrices(points, kind)| - 1]
    ensures forall b :: LastOfKind(points, kind, b) ==> b == a
  {
    hide Decimal.Value, KindPrices;
    var at := FindPlaces(points, kind);
    a := at[|at| - 1];
    assert forall m :: m in at ==> m <= a;
    assert forall m: nat :: m < |points| && points[m].kind == kind ==> m in at;
  }

  ghost predicate Flat(candles: seq<Candle>, source: PriceSource, tolerance: real)
    requires candles != []
  {
    RangeOfPrices(Bars(candles), source) <= tolerance
  }

  /** The range of the selected prices is within the tolerance exactly when every pair of them is. */
  lemma FlatMeans(candles: seq<Candle>, source: PriceSource, tolerance: real)
    requires candles != []
    ensures Flat(candles, source, tolerance)
            <==> forall i, j :: 0 <= i < |candles| && 0 <= j < |candles| ==>
                   Selected(candles[i], source, High).Value() - Selected(candles[j], source, Low).Value() <= tolerance
  {
    hide Decimal.Value, LeastOf, GreatestOf, Selected;
    var highs, lows := SelectedSeries(Bars(candles), source, High), SelectedSeries(Bars(candles), source, Low);
    assert forall i :: 0 <= i < |candles| ==> highs[i] == Selected(candles[i], source, High).Value();
    assert forall i :: 0 <= i < |candles| ==> lows[i] == Selected(candles[i], source, Low).Value();
    var i :| 0 <= i < |highs| && highs[i] == GreatestOf(highs);
    var j :| 0 <= j < |lows| && lows[j] == LeastOf(lows);
    assert RangeOfPrices(Bars(candles), source) == highs[i] - lows[j];
  }

  /** The tolerance is the percentage of the last close, rounded to 16 digits; the rest is the evidence used. */
  lemma ReportedTolerance(candles: seq<Candle>, settings: ExtremaSettings, pct: Decimal, result: TrendResult)
    requires IsTrend(candles, settings, pct, result)
    ensures candles != [] && result.referenceClose == candles[|candles| - 1].close
    ensures IsDetected(candles, settings, result.extrema)
    ensures result.tolerance.Value() == Sig(16, Over(Times(result.referenceClose.Value(), pct.Value()), 100.0))
  {
    hide TrendOf, IsDetected, Sig, Over, Times, Decimal.Value;
  }

  ghost predicate FellThrough(points: seq<Extremum>, close: real, tolerance: real)
    requires KindPrices(points, Low) != []
  {
    close < KindPrices(points, Low)[|KindPrices(points, Low)| - 1] - tolerance
  }

  ghost predicate BrokeOut(points: seq<Extremum>, close: real, tolerance: real)
    requires KindPrices(points, High) != []
  {
    close > KindPrices(points, High)[|KindPrices(points, High)| - 1] + tolerance
  }

  /** The close lies more than the tolerance below the last LOW, or above the last HIGH. */
  lemma LastMeans(points: seq<Extremum>, close: real, tolerance: real)
    ensures KindPrices(points, Low) != [] ==>
      (FellThrough(points, close, tolerance)
       <==> exists a :: LastOfKind(points, Low, a) && close < points[a].price.Value() - tolerance)
    ensures KindPrices(points, High) != [] ==>
      (BrokeOut(points, close, tolerance)
       <==> exists a :: LastOfKind(points, High, a) && close > points[a].price.Value() + tolerance)
  {
    hide Decimal.Value, KindPrices, LastOfKind;
    if KindPrices(points, Low) != [] {
      var a := FinalPlace(points, Low);
      assert LastOfKind(points, Low, a);
    }
    if KindPrices(points, High) != [] {
      var a := FinalPlace(points, High);
      assert LastOfKind(points, High, a);
    }
  }

  ghost predicate Inside(points: seq<Extremum>, close: real, tolerance: real)
    requires KindPrices(points, High) != [] && KindPrices(points, Low) != []
  {
    && close >= LeastOf(KindPrices(points, Low)) - tolerance
    && close <= GreatestOf(KindPrices(points, High)) + tolerance
  }

  /** The close lies between the lowest LOW and the highest HIGH, widened by the tolerance. */
  lemma InsideMeans(points: seq<Extremum>, close: real, tolerance: real)
    requires KindPrices(points, High) != [] && KindPrices(points, Low) != []
    ensures Inside(points, close, tolerance) <==>
      && (exists a :: 0 <= a < |points| && points[a].kind == Low && close >= points[a].price.Value() - tolerance)
      && (exists a :: 0 <= a < |points| && points[a].kind == High && close <= points[a].price.Value() + tolerance)
  {
    hide Decimal.Value, KindPrices, LeastOf, GreatestOf, IsLeast, IsGreatest;
    var low, someHigh := ExtremePlaces(points, Low);
    var someLow, high := ExtremePlaces(points, High);
    assert points[low].kind == Low && points[high].kind == High;
  }

  /** The ordered rules over two price lists, for any truth values of their conditions. */
  lemma Rules(range: real, highs: seq<real>, lows: seq<real>, close: real, t: real, flat: bool, enough: bool, up: bool,
              down: bool, fell: bool, broke: bool, level: bool)
    requires flat <==> range <= t
    requires enough <==> |highs| >= 2 && |lows| >= 2
    requires up <==> Rising(highs, t) && Rising(lows, t)
    requires down <==> Falling(highs, t) && Falling(lows, t)
    requires enough ==> (fell <==> close < lows[|lows| - 1] - t)
    requires enough ==> (broke <==> close > highs[|highs| - 1] + t)
    requires enough ==>
      (level <==> && GreatestOf(highs) - LeastOf(highs) <= t && GreatestOf(lows) - LeastOf(lows) <= t
                  && close >= LeastOf(lows) - t && close <= GreatestOf(highs) + t)
    ensures
      var v := Classified(range, highs, lows, close, t);
      && (v == Verdict(Sideways, FlatRange) <==> flat)
      && (v == Verdict(Undetermined, InsufficientStructure) <==> !flat && !enough)
      && (v == Verdict(Up, RisingStructure) <==> !flat && enough && up && !fell)
      && (v == Verdict(Down, FallingStructure) <==> !flat && enough && !up && down && !broke)
      && (v == Verdict(Undetermined, StructureBroken)
          <==> !flat && enough && ((up && fell) || (!up && down && broke)))
      && (v == Verdict(Sideways, HorizontalStructure) <==> !flat && enough && !up && !down && level)
      && (v == Verdict(Undetermined, MixedStructure) <==> !flat && enough && !up && !down && !level)
  {
    hide Rising, Falling, LeastOf, GreatestOf;
  }

  /**
   What each verdict says about the candles and the reported points. FlatMeans, TwiceMeans, StepsMean, LevelMeans,
   LastMeans and InsideMeans state the conditions in candle prices and reported prices.
   */
  lemma VerdictMeans(candles: seq<Candle>, settings: ExtremaSettings, pct: Decimal, result: TrendResult)
    requires IsTrend(candles, settings, pct, result)
    ensures
      var points, t, close := result.extrema, result.tolerance.Value(), result.referenceClose.Value();
      var verdict := (result.state, result.reason);
      var flat := Flat(candles, settings.source, t);
      var enough := Twice(points, High) && Twice(points, Low);
      var up := Climbs(points, High, t) && Climbs(points, Low, t);
      var down := Drops(points, High, t) && Drops(points, Low, t);
      && (verdict == (Sideways, FlatRange) <==> flat)
      && (verdict == (Undetermined, InsufficientStructure) <==> !flat && !enough)
      && (verdict == (Up, RisingStructure) <==> !flat && enough && up && !FellThrough(points, close, t))
      && (verdict == (Down, FallingStructure) <==> !flat && enough && !up && down && !BrokeOut(points, close, t))
      && (verdict == (Undetermined, StructureBroken)
          <==> && !flat && enough
               && ((up && FellThrough(points, close, t)) || (!up && down && BrokeOut(points, close, t))))
      && (verdict == (Sideways, HorizontalStructure)
          <==> && !flat && enough && !up && !down
               && Level(points, High, t) && Level(points, Low, t) && Inside(points, close, t))
      && (verdict == (Undetermined, MixedStructure)
          <==> && !flat && enough && !up && !down
               && !(Level(points, High, t) && Level(points, Low, t) && Inside(points, close, t)))
  {
    hide *;
    var points, t, close := result.extrema, result.tolerance.Value(), result.referenceClose.Value();
    var enough := Twice(points, High) && Twice(points, Low);
    TrendParts(candles, settings, pct, result);
    ConditionsMean(candles, settings.source, points, close, t);
    Rules(RangeOfPrices(Bars(candles), settings.source), KindPrices(points, High), KindPrices(points, Low), close, t,
          Flat(candles, settings.source, t), enough, Climbs(points, High, t) && Climbs(points, Low, t),
          Drops(points, High, t) && Drops(points, Low, t), enough && FellThrough(points, close, t),
          enough && BrokeOut(points, close, t),
          enough && Level(points, High, t) && Level(points, Low, t) && Inside(points, close, t));
  }

  lemma TrendParts(candles: seq<Candle>, settings: ExtremaSettings, pct: Decimal, result: TrendResult)
    requires IsTrend(candles, settings, pct, result)
    ensures candles != []
    ensures Verdict(result.state, result.reason)
            == Classified(RangeOfPrices(Bars(candles), settings.source), KindPrices(result.extrema, High),
                          KindPrices(result.extrema, Low), result.referenceClose.Value(), result.tolerance.Value())
  {
    hide Classified, KindPrices, RangeOfPrices, TrendOf, IsDetected, Tolerance, Decimal.Value;
    TrendMeans(candles, result.extrema, settings, pct);
  }

  /** The conditions on reported points are those of the rules on price lists. */
  lemma ConditionsMean(candles: seq<Candle>, source: PriceSource, points: seq<Extremum>, close: real, t: real)
    requires candles != []
    ensures Flat(candles, source, t) <==> RangeOfPrices(Bars(candles), source) <= t
    ensures Twice(points, High) <==> |KindPrices(points, High)| >= 2
    ensures Twice(points, Low) <==> |KindPrices(points, Low)| >= 2
    ensures Climbs(points, High, t) && Climbs(points, Low, t)
            <==> Rising(KindPrices(points, High), t) && Rising(KindPrices(points, Low), t)
    ensures Drops(points, High, t) && Drops(points, Low, t)
            <==> Falling(KindPrices(points, High), t) && Falling(KindPrices(points, Low), t)
    ensures Twice(points, High) && Twice(points, Low) ==>
      var highs, lows := KindPrices(points, High), KindPrices(points, Low);
      && (FellThrough(points, close, t) <==> close < lows[|lows| - 1] - t)
      && (BrokeOut(points, close, t) <==> close > highs[|highs| - 1] + t)
      && (Level(points, High, t) <==> GreatestOf(highs) - LeastOf(highs) <= t)
      && (Level(points, Low, t) <==> GreatestOf(lows) - LeastOf(lows) <= t)
      && (Inside(points, close, t) <==> close >= LeastOf(lows) - t && close <= GreatestOf(highs) + t)
  {
    hide Rising, Falling, LeastOf, GreatestOf, KindPrices, RangeOfPrices, Decimal.Value, Selected, LastOfKind;
  }
}
