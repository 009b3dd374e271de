/** Wilder's Average True Range: the seed mean, the rounded recurrence, and what rounding can do to it. */
module TrueRanges {
  import opened Powers
  import opened Rounding
  import opened Market

  // ---- on plain numbers ----

  ghost function Max3(a: real, b: real, c: real): (m: real) {
    if a >= b && a >= c then a else if b >= c then b else c
  }

  ghost function TrueRange(bars: seq<Bar>, i: nat): (tr: real)
    requires 1 <= i < |bars|
  {
    Max3(bars[i].high - bars[i].low, Abs(bars[i].high - bars[i - 1].close), Abs(bars[i].low - bars[i - 1].close))
  }

  ghost function RangeSum(bars: seq<Bar>, n: nat): (sum: real)
    requires n < |bars|
  {
    if n == 0 then 0.0 else RangeSum(bars, n - 1) + TrueRange(bars, n)
  }

  /** One smoothing step before rounding. */
  ghost function Smooth(previous: real, tr: real, period: nat): (q: real)
    requires period >= 1
  {
    Over(Times(previous, (period - 1) as real) + tr, period as real)
  }

  ghost function Atr(bars: seq<Bar>, period: nat, i: nat): (value: real)
    requires 1 <= period <= i < |bars|
  {
    if i == period then Sig(16, Over(RangeSum(bars, period), period as real))
    else Sig(16, Smooth(Atr(bars, period, i - 1), TrueRange(bars, i), period))
  }

  /** The same recurrence without any rounding. */
  ghost function ExactAtr(bars: seq<Bar>, period: nat, i: nat): (value: real)
    requires 1 <= period <= i < |bars|
  {
    if i == period then Over(RangeSum(bars, period), period as real)
    else Smooth(ExactAtr(bars, period, i - 1), TrueRange(bars, i), period)
  }

  // ---- what these numbers are ----

  /** The greatest of the candle's own range and the two distances from the previous close. */
  lemma TrueRangeIsGreatest(bars: seq<Bar>, i: nat)
    requires 1 <= i < |bars|
    ensures var b, previous, tr := bars[i], bars[i - 1].close, TrueRange(bars, i);
      && tr >= b.high - b.low
      && tr >= b.high - previous && tr >= previous - b.high
      && tr >= b.low - previous && tr >= previous - b.low
      && (|| tr == b.high - b.low
          || tr == b.high - previous || tr == previous - b.high
          || tr == b.low - previous || tr == previous - b.low)
  {
  }

  /** The span of the candle once the previous close is added to it. */
  lemma TrueRangeIsSpan(bars: seq<Bar>, i: nat)
    requires 1 <= i < |bars| && bars[i].low <= bars[i].high
    ensures var b, previous := bars[i], bars[i - 1].close;
      TrueRange(bars, i)
      == (if b.high >= previous then b.high else previous) - (if b.low <= previous then b.low else previous)
  {
  }

  /** The seed is the mean of the first ranges. */
  lemma AtrSeed(bars: seq<Bar>, period: nat)
    requires 1 <= period < |bars|
    ensures RangeSum(bars, 0) == 0.0
    ensures forall n :: 1 <= n < |bars| ==> RangeSum(bars, n) == RangeSum(bars, n - 1) + TrueRange(bars, n)
    ensures ExactAtr(bars, period, period) == RangeSum(bars, period) / period as real
    ensures Atr(bars, period, period) == Sig(16, RangeSum(bars, period) / period as real)
  {
    hide Sig, TrueRange, Over;
    QuotientIs(RangeSum(bars, period), period as real);
  }

  /** Every later value is its predecessor, weighted with period - 1, and the new range, divided by the period. */
  lemma AtrStep(bars: seq<Bar>, period: nat, i: nat) returns (q: real)
    requires 1 <= period < i < |bars|
    ensures ExactAtr(bars, period, i) * period as real
            == ExactAtr(bars, period, i - 1) * (period - 1) as real + TrueRange(bars, i)
    ensures q * period as real == Atr(bars, period, i - 1) * (period - 1) as real + TrueRange(bars, i)
    ensures Atr(bars, period, i) == Sig(16, q)
  {
    hide Sig, TrueRange, Smooth;
    SmoothMeans(ExactAtr(bars, period, i - 1), TrueRange(bars, i), period);
    SmoothMeans(Atr(bars, period, i - 1), TrueRange(bars, i), period);
    q := Smooth(Atr(bars, period, i - 1), TrueRange(bars, i), period);
  }

  lemma QuotientIs(a: real, b: real)
    requires b != 0.0
    ensures Over(a, b) == a / b
  {
  }

  lemma SmoothMeans(x: real, tr: real, period: nat)
    requires period >= 1
    ensures Smooth(x, tr, period) * period as real == x * (period - 1) as real + tr
  {
  }

  /** What one smoothing step leaves of every earlier weight. */
  ghost function Ratio(period: nat): (r: real)
    requires period >= 1
  {
    Over((period - 1) as real, period as real)
  }

  /** How much of a range remains after k smoothing steps. */
  ghost function Fade(period: nat, k: nat): (f: real)
    requires period >= 1
  {
    if k == 0 then 1.0 else Times(Fade(period, k - 1), Ratio(period))
  }

  /** The age of range j at candle i: the ranges of the seed all start to fade at its end. */
  ghost function Age(period: nat, i: nat, j: nat): (age: nat)
    requires period <= i && j <= i
  {
    if j <= period then i - period else i - j
  }

  ghost function FadedSum(bars: seq<Bar>, period: nat, i: nat, n: nat): (sum: real)
    requires 1 <= period <= i < |bars| && n <= i
  {
    if n == 0 then 0.0
    else FadedSum(bars, period, i, n - 1) + Times(Fade(period, Age(period, i, n)), TrueRange(bars, n))
  }

  ghost function FadeTotal(period: nat, i: nat, n: nat): (sum: real)
    requires 1 <= period <= i && n <= i
  {
    if n == 0 then 0.0 else FadeTotal(period, i, n - 1) + Fade(period, Age(period, i, n))
  }

  /** The unrounded ATR is a weighted mean of all true ranges, with weights that fade by (period - 1) / period. */
  lemma {:induction false} ExactAtrIsWeightedMean(bars: seq<Bar>, period: nat, i: nat)
    requires 1 <= period <= i < |bars|
    ensures Times(ExactAtr(bars, period, i), period as real) == FadedSum(bars, period, i, i)
    ensures FadeTotal(period, i, i) == period as real
  {
    hide TrueRange, Times, Over, RangeSum, Fade;
    var p, w, tr := period as real, (period - 1) as real, TrueRange(bars, i);
    if i == period {
      SeedWeights(bars, period, period);
      OverTimes(RangeSum(bars, period), p);
    } else {
      var x := ExactAtr(bars, period, i - 1);
      ExactAtrIsWeightedMean(bars, period, i - 1);
      FadeOnce(bars, period, i, i - 1);
      OverTimes(Times(x, w) + tr, p);
      FadeZero(period);
      TimesUnits(tr);
      OverTimes(w, p);
      TimesCommutes(Ratio(period), p);
      TimesAssociates(x, p, Ratio(period));
    }
  }

  lemma FadeZero(period: nat)
    requires period >= 1
    ensures Fade(period, 0) == 1.0
  {
  }

  lemma {:induction false} SeedWeights(bars: seq<Bar>, period: nat, n: nat)
    requires 1 <= period < |bars| && n <= period
    ensures FadedSum(bars, period, period, n) == RangeSum(bars, n)
    ensures FadeTotal(period, period, n) == n as real
  {
    hide TrueRange, Times, Over;
    if n == 0 {
    } else {
      SeedWeights(bars, period, n - 1);
      TimesUnits(TrueRange(bars, n));
    }
  }

  /** One more candle fades every earlier weight once. */
  lemma {:induction false} FadeOnce(bars: seq<Bar>, period: nat, i: nat, n: nat)
    requires 1 <= period < i < |bars| && n < i
    ensures FadedSum(bars, period, i, n) == Times(FadedSum(bars, period, i - 1, n), Ratio(period))
    ensures FadeTotal(period, i, n) == Times(FadeTotal(period, i - 1, n), Ratio(period))
  {
    hide TrueRange, Times, Over, Ratio;
    if n == 0 {
      TimesUnits(Ratio(period));
    } else {
      FadeOnce(bars, period, i, n - 1);
      var r, f, tr := Ratio(period), Fade(period, Age(period, i - 1, n)), TrueRange(bars, n);
      assert Fade(period, Age(period, i, n)) == Times(f, r);
      TimesAssociates(f, r, tr);
      TimesCommutes(r, tr);
      TimesAssociates(f, tr, r);
      TimesDistributes(FadedSum(bars, period, i - 1, n - 1), Times(f, tr), r);
      TimesDistributes(FadeTotal(period, i - 1, n - 1), f, r);
    }
  }

  // ---- every value stays inside the rounded range of the true ranges seen so far ----

  ghost predicate RangesWithin(bars: seq<Bar>, n: nat, lo: real, hi: real)
    requires n < |bars|
  {
    forall j {:trigger TrueRange(bars, j)} :: 1 <= j <= n ==> lo <= TrueRange(bars, j) <= hi
  }

  lemma {:induction false} SumWithin(bars: seq<Bar>, n: nat, lo: real, hi: real)
    requires n < |bars| && RangesWithin(bars, n, lo, hi)
    ensures Times(n as real, lo) <= RangeSum(bars, n) <= Times(n as real, hi)
  {
    hide Times, TrueRange;
    if n == 0 {
      TimesUnits(lo);
      TimesUnits(hi);
    } else {
      SumWithin(bars, n - 1, lo, hi);
      TimesOneMore(n - 1, lo);
      TimesOneMore(n - 1, hi);
      assert lo <= TrueRange(bars, n) <= hi;
    }
  }

  lemma TimesOneMore(n: int, x: real)
    ensures Times((n + 1) as real, x) == Times(n as real, x) + x
  {
  }

  lemma OverWithin(sum: real, n: nat, lo: real, hi: real)
    requires n >= 1 && Times(n as real, lo) <= sum <= Times(n as real, hi)
    ensures lo <= Over(sum, n as real) <= hi
  {
    hide Times, Over;
    OverTimes(sum, n as real);
    TimesCommutes(n as real, lo);
    TimesCommutes(n as real, hi);
    TimesOrder(lo, Over(sum, n as real), n as real);
    TimesOrder(Over(sum, n as real), hi, n as real);
  }

  lemma SmoothWithin(previous: real, tr: real, period: nat, lo: real, hi: real)
    requires period >= 1 && lo <= previous <= hi && lo <= tr <= hi
    ensures lo <= Smooth(previous, tr, period) <= hi
  {
    hide Times, Over;
    var w := (period - 1) as real;
    TimesOneMore(period - 1, lo);
    TimesOneMore(period - 1, hi);
    TimesCommutes(w, lo);
    TimesCommutes(w, hi);
    if period == 1 {
      TimesUnits(previous);
      TimesCommutes(w, previous);
      TimesUnits(lo);
      TimesUnits(hi);
    } else {
      TimesOrder(lo, previous, w);
      TimesOrder(previous, hi, w);
    }
    OverWithin(Times(previous, w) + tr, period, lo, hi);
  }

  lemma RoundedWithin(q: real, lo: real, hi: real)
    requires lo <= q || Sig(16, lo) <= q
    requires q <= hi || q <= Sig(16, hi)
    ensures Sig(16, lo) <= Sig(16, q) <= Sig(16, hi)
  {
    hide Sig;
    SigIdempotent(16, lo);
    SigIdempotent(16, hi);
    if lo <= q { SigMonotone(16, lo, q); } else { SigMonotone(16, Sig(16, lo), q); }
    if q <= hi { SigMonotone(16, q, hi); } else { SigMonotone(16, q, Sig(16, hi)); }
  }

  ghost function Least(a: real, b: real): (m: real) {
    if a <= b then a else b
  }

  ghost function Greatest(a: real, b: real): (m: real) {
    if a <= b then b else a
  }

  /** However many roundings were made, the value lies between the rounded extremes. */
  lemma {:induction false} AtrWithin(bars: seq<Bar>, period: nat, i: nat, lo: real, hi: real)
    requires 1 <= period <= i < |bars| && RangesWithin(bars, i, lo, hi)
    ensures Sig(16, lo) <= Atr(bars, period, i) <= Sig(16, hi)
  {
    hide Sig, Over, Smooth, TrueRange;
    if i == period {
      SumWithin(bars, period, lo, hi);
      OverWithin(RangeSum(bars, period), period, lo, hi);
      RoundedWithin(Over(RangeSum(bars, period), period as real), lo, hi);
    } else {
      AtrWithin(bars, period, i - 1, lo, hi);
      var previous, tr := Atr(bars, period, i - 1), TrueRange(bars, i);
      SmoothWithin(previous, tr, period, Least(lo, Sig(16, lo)), Greatest(hi, Sig(16, hi)));
      RoundedWithin(Smooth(previous, tr, period), lo, hi);
    }
  }

  /** Some bound exists for every history, and no value is negative. */
  lemma {:induction false} RangeTop(bars: seq<Bar>, n: nat) returns (top: real)
    requires n < |bars|
    ensures RangesWithin(bars, n, 0.0, top)
  {
    hide TrueRange;
    top := 0.0;
    if n == 0 {
    } else {
      top := RangeTop(bars, n - 1);
      RangeNonnegative(bars, n);
      top := Greatest(top, TrueRange(bars, n));
    }
  }

  lemma RangeNonnegative(bars: seq<Bar>, i: nat)
    requires 1 <= i < |bars|
    ensures TrueRange(bars, i) >= 0.0
  {
  }

  lemma AtrNonnegative(bars: seq<Bar>, period: nat, i: nat)
    requires 1 <= period <= i < |bars|
    ensures Atr(bars, period, i) >= 0.0
  {
    hide Atr, RangesWithin, Sig;
    var top := RangeTop(bars, i);
    AtrWithin(bars, period, i, 0.0, top);
    SigSign(16, 0.0);
  }

  // ---- rounding error does not grow with the length of the history ----

  /** Half a unit of the sixteenth significant digit, relative to the number rounded. */
  const HALF_ULP: real := 0.0000000000000005

  lemma RelativeError(x: real)
    ensures Abs(Sig(16, x) - x) <= HALF_ULP * Abs(x)
  {
    hide Sig;
    SigRelativeError(16, x);
    SmallPowers();
  }

  /** Smoothing contracts a difference of period * b to (period - 1) * b. */
  lemma SmoothContracts(x: real, y: real, tr: real, period: nat, b: real)
    requires period >= 1 && Abs(x - y) <= Times(period as real, b)
    ensures Abs(Smooth(x, tr, period) - Smooth(y, tr, period)) <= Times((period - 1) as real, b)
  {
    hide Times, Over;
    var p, w := period as real, (period - 1) as real;
    var qx, qy := Smooth(x, tr, period), Smooth(y, tr, period);
    OverTimes(Times(x, w) + tr, p);
    OverTimes(Times(y, w) + tr, p);
    TimesDistributes(qx, qy, p);
    TimesDistributes(x, y, w);
    assert Times(qx - qy, p) == Times(x - y, w);
    var bound := Times(p, b);
    TimesNegated(bound, w);
    TimesNegated(Times(w, b), p);
    TimesAssociates(w, b, p);
    TimesCommutes(b, p);
    TimesCommutes(w, bound);
    if period == 1 {
      TimesUnits(x - y);
      TimesUnits(bound);
      TimesCommutes(x - y, w);
    } else {
      TimesOrder(x - y, bound, w);
      TimesOrder(-bound, x - y, w);
    }
    TimesOrder(qx - qy, Times(w, b), p);
    TimesOrder(-Times(w, b), qx - qy, p);
  }

  /** The deviation from the exact recurrence is bounded by the period, not by the history. */
  lemma AtrError(bars: seq<Bar>, period: nat, i: nat, top: real)
    requires 1 <= period <= i < |bars| && RangesWithin(bars, i, 0.0, top)
    ensures Abs(Atr(bars, period, i) - ExactAtr(bars, period, i))
            <= period as real * 0.0000000000000005 * (if top <= Sig(16, top) then Sig(16, top) else top)
  {
    hide Sig, Atr, ExactAtr, RangesWithin;
    AtrDeviation(bars, period, i, top);
    ErrorProduct(period as real, Greatest(top, Sig(16, top)));
  }

  lemma ErrorProduct(p: real, cap: real)
    ensures Times(p, HALF_ULP * cap) == p * 0.0000000000000005 * cap
  {
  }

  lemma {:induction false} AtrDeviation(bars: seq<Bar>, period: nat, i: nat, top: real)
    requires 1 <= period <= i < |bars| && RangesWithin(bars, i, 0.0, top)
    ensures Abs(Atr(bars, period, i) - ExactAtr(bars, period, i))
            <= Times(period as real, HALF_ULP * Greatest(top, Sig(16, top)))
  {
    hide Sig, Over, Smooth, TrueRange, Times;
    var cap := Greatest(top, Sig(16, top));
    var b := HALF_ULP * cap;
    assert 0.0 <= TrueRange(bars, 1) <= top;
    TimesOneMore(period - 1, b);
    TimesUnits(b);
    TimesNonnegative(period - 1, b);
    if i == period {
      SumWithin(bars, period, 0.0, top);
      var q := Over(RangeSum(bars, period), period as real);
      OverWithin(RangeSum(bars, period), period, 0.0, top);
      RelativeError(q);
    } else {
      AtrDeviation(bars, period, i - 1, top);
      AtrWithin(bars, period, i - 1, 0.0, top);
      SigSign(16, 0.0);
      var x, y, tr := Atr(bars, period, i - 1), ExactAtr(bars, period, i - 1), TrueRange(bars, i);
      SmoothContracts(x, y, tr, period, b);
      SmoothWithin(x, tr, period, 0.0, cap);
      RelativeError(Smooth(x, tr, period));
    }
  }

  lemma TimesNonnegative(n: int, x: real)
    requires n >= 0 && x >= 0.0
    ensures Times(n as real, x) >= 0.0
  {
  }

  // ---- how the value depends on the history ----

  /** Later candles never change an earlier value. */
  lemma {:induction false} AtrPrefix(bars: seq<Bar>, n: nat, period: nat, i: nat)
    requires 1 <= period <= i < n <= |bars|
    ensures Atr(bars[..n], period, i) == Atr(bars, period, i)
  {
    hide Sig, Over, Smooth;
    if i == period {
      SumPrefix(bars, n, period);
    } else {
      AtrPrefix(bars, n, period, i - 1);
      assert TrueRange(bars[..n], i) == TrueRange(bars, i);
    }
  }

  lemma {:induction false} SumPrefix(bars: seq<Bar>, n: nat, i: nat)
    requires i < n <= |bars|
    ensures RangeSum(bars[..n], i) == RangeSum(bars, i)
  {
    if i == 0 {
    } else {
      SumPrefix(bars, n, i - 1);
    }
  }

  /** Reflecting every price leaves true ranges, and so every ATR, unchanged. */
  lemma {:induction false} AtrReflected(k: real, bars: seq<Bar>, period: nat, i: nat)
    requires 1 <= period <= i < |bars|
    ensures Atr(Reflect(k, bars), period, i) == Atr(bars, period, i)
  {
    hide Sig, Over, Smooth;
    if i == period {
      SumReflected(k, bars, period);
    } else {
      AtrReflected(k, bars, period, i - 1);
      assert TrueRange(Reflect(k, bars), i) == TrueRange(bars, i);
    }
  }

  lemma {:induction false} SumReflected(k: real, bars: seq<Bar>, i: nat)
    requires i < |bars|
    ensures RangeSum(Reflect(k, bars), i) == RangeSum(bars, i)
  {
    if i == 0 {
    } else {
      SumReflected(k, bars, i - 1);
    }
  }

  /** Multiplying every price by 10^k multiplies every ATR by 10^k, rounding included. */
  lemma {:induction false} AtrShifted(k: int, bars: seq<Bar>, period: nat, i: nat)
    requires 1 <= period <= i < |bars|
    ensures Atr(Shift10(k, bars), period, i) == Times(Atr(bars, period, i), Pow10(k))
  {
    hide Sig, Over, TrueRange, Times, Pow10;
    if i == period {
      SumShifted(k, bars, period);
      OverShifted(RangeSum(bars, period), period as real, k);
      SigScale(16, Over(RangeSum(bars, period), period as real), k);
    } else {
      AtrShifted(k, bars, period, i - 1);
      RangeShifted(k, bars, i);
      var x, tr, w := Atr(bars, period, i - 1), TrueRange(bars, i), (period - 1) as real;
      TimesAssociates(x, w, Pow10(k));
      TimesCommutes(w, Pow10(k));
      TimesAssociates(x, Pow10(k), w);
      TimesDistributes(Times(x, w), tr, Pow10(k));
      OverShifted(Times(x, w) + tr, period as real, k);
      SigScale(16, Smooth(x, tr, period), k);
    }
  }

  lemma OverShifted(a: real, b: real, k: int)
    requires b != 0.0
    ensures Over(Times(a, Pow10(k)), b) == Times(Over(a, b), Pow10(k))
  {
    hide Over, Times, Pow10;
    OverTimes(a, b);
    TimesAssociates(Over(a, b), b, Pow10(k));
    TimesCommutes(b, Pow10(k));
    TimesAssociates(Over(a, b), Pow10(k), b);
    OverUnique(Times(Over(a, b), Pow10(k)), Times(a, Pow10(k)), b);
  }

  lemma RangeShifted(k: int, bars: seq<Bar>, i: nat)
    requires 1 <= i < |bars|
    ensures TrueRange(Shift10(k, bars), i) == Times(TrueRange(bars, i), Pow10(k))
  {
    hide Times, Pow10;
    var b, c, p := bars[i], bars[i - 1].close, Pow10(k);
    TimesDistributes(b.high, b.low, p);
    TimesDistributes(b.high, c, p);
    TimesDistributes(b.low, c, p);
    AbsShifted(b.high - c, p);
    AbsShifted(b.low - c, p);
    TimesOrder(b.high - b.low, Abs(b.high - c), p);
    TimesOrder(Abs(b.high - c), b.high - b.low, p);
    TimesOrder(b.high - b.low, Abs(b.low - c), p);
    TimesOrder(Abs(b.low - c), b.high - b.low, p);
    TimesOrder(Abs(b.high - c), Abs(b.low - c), p);
    TimesOrder(Abs(b.low - c), Abs(b.high - c), p);
  }

  lemma AbsShifted(x: real, p: real)
    requires p > 0.0
    ensures Abs(Times(x, p)) == Times(Abs(x), p)
  {
    hide Times;
    TimesNegated(x, p);
    TimesUnits(p);
    TimesOrder(x, 0.0, p);
    TimesOrder(0.0, x, p);
  }

  lemma {:induction false} SumShifted(k: int, bars: seq<Bar>, i: nat)
    requires i < |bars|
    ensures RangeSum(Shift10(k, bars), i) == Times(RangeSum(bars, i), Pow10(k))
  {
    hide Times, Pow10, TrueRange;
    if i == 0 {
      TimesUnits(Pow10(k));
    } else {
      SumShifted(k, bars, i - 1);
      RangeShifted(k, bars, i);
      TimesDistributes(RangeSum(bars, i - 1), TrueRange(bars, i), Pow10(k));
    }
  }

  // ---- period one ----

  /** With period one the value is the true range, exactly when that range has at most 16 digits. */
  lemma PeriodOne(bars: seq<Bar>, i: nat)
    requires 1 <= i < |bars|
    ensures Atr(bars, 1, i) == Sig(16, TrueRange(bars, i))
    ensures Atr(bars, 1, i) == TrueRange(bars, i) <==> Representable(16, TrueRange(bars, i))
  {
    hide Sig, TrueRange, Representable, Times, Over;
    var tr := TrueRange(bars, i);
    SigFixed(16, tr);
    TimesUnits(tr);
    TimesCommutes(1.0, tr);
    OverUnique(tr, tr, 1.0);
    if i == 1 {
      assert RangeSum(bars, 1) == RangeSum(bars, 0) + tr;
    } else {
      var previous := Atr(bars, 1, i - 1);
      TimesUnits(previous);
      TimesCommutes(0.0, previous);
    }
  }
}
