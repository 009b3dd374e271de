/** The loop over exact decimals that produces every available ATR value, and NATR. */
module AtrSequences {
  import opened Powers
  import opened Decimals
  import opened Rounding
  import opened Results
  import opened Division
  import opened Market
  import opened TrueRanges

  /** Available values only: the first one belongs to candle index `period`. */
  datatype AtrSequence = AtrSequence(period: nat, values: seq<Decimal>) {
    function At(index: nat): (value: Decimal)
      requires period <= index < period + |values|
    {
      values[index - period]
    }
  }

  datatype AtrResult = AtrResult(value: Decimal, candleIndex: nat, valueTime: Time)

  datatype NatrResult = NatrResult(
    value: Decimal, atr: Decimal, referenceClose: Decimal, candleIndex: nat, valueTime: Time)

  // ---- the recurrence on decimals, with its division errors ----

  function RangeAfter(c: Candle, previousClose: Decimal): (tr: Decimal)
    ensures tr.Value() == Max3(c.high.Value() - c.low.Value(), Abs(c.high.Value() - previousClose.Value()),
                               Abs(c.low.Value() - previousClose.Value()))
  {
    Max(Max(c.high.Sub(c.low), c.high.Sub(previousClose).Magnified()), c.low.Sub(previousClose).Magnified())
  }

  function RangeAt(candles: seq<Candle>, i: nat): (tr: Decimal)
    requires 1 <= i < |candles|
    ensures tr.Value() == TrueRange(Bars(candles), i)
  {
    RangeAfter(candles[i], candles[i - 1].close)
  }

  /** On the fields of two neighbouring candles: the span of the candle and the previous close. */
  lemma RangeOfCandles(candles: seq<Candle>, i: nat)
    requires 1 <= i < |candles|
    ensures var high, low := candles[i].high.Value(), candles[i].low.Value();
      var previous := candles[i - 1].close.Value();
      low <= high ==> TrueRange(Bars(candles), i) == RangeAt(candles, i).Value()
                   == (if high >= previous then high else previous) - (if low <= previous then low else previous)
  {
    hide Decimal.Value, TrueRange;
    if candles[i].low.Value() <= candles[i].high.Value() {
      TrueRangeIsSpan(Bars(candles), i);
    }
  }

  function SumOf(candles: seq<Candle>, n: nat): (sum: Decimal)
    requires n < |candles|
    ensures sum.Value() == RangeSum(Bars(candles), n)
  {
    if n == 0 then ZERO else SumOf(candles, n - 1).Add(RangeAt(candles, n))
  }

  ghost function Numerator(candles: seq<Candle>, period: nat, i: nat, previous: Decimal): (n: Decimal)
    requires 1 <= period <= i < |candles|
  {
    if i == period then SumOf(candles, period)
    else previous.Mul(FromInt(period - 1)).Add(RangeAt(candles, i))
  }

  /** The value at candle i, or the first division error met on the way to it. */
  ghost function Wilder(candles: seq<Candle>, period: nat, i: nat): (r: Result<Decimal>)
    requires 1 <= period <= i < |candles|
  {
    if i == period then Divided(Numerator(candles, period, i, ZERO), FromInt(period))
    else
      var previous := Wilder(candles, period, i - 1);
      if previous.Err? then previous
      else Divided(Numerator(candles, period, i, previous.value), FromInt(period))
  }

  /** Without an error, each decimal value is the rounded recurrence on plain numbers. */
  lemma {:induction false} WilderIsAtr(candles: seq<Candle>, period: nat, i: nat)
    requires 1 <= period <= i < |candles| && Wilder(candles, period, i).Ok?
    ensures Wilder(candles, period, i).value.Value() == Atr(Bars(candles), period, i)
  {
    hide Divided, Sig, Over, Times, Pow10, RangeAt, TrueRange;
    if i == period {
      DividedIsRounded(SumOf(candles, period), FromInt(period));
    } else {
      WilderIsAtr(candles, period, i - 1);
      var previous := Wilder(candles, period, i - 1).value;
      DividedIsRounded(Numerator(candles, period, i, previous), FromInt(period));
    }
  }

  lemma WilderAt(candles: seq<Candle>, period: nat, i: nat, previous: Decimal)
    requires 1 <= period <= i < |candles|
    requires i == period || Wilder(candles, period, i - 1) == Ok(previous)
    ensures Wilder(candles, period, i) == Divided(Numerator(candles, period, i, previous), FromInt(period))
  {
    hide Divided, RangeAt, SumOf, Decimal.Add, Decimal.Mul;
  }

  /** The numerator as the loop forms it from its running sum or its last value. */
  lemma NumeratorAt(candles: seq<Candle>, period: nat, i: nat, sum: Decimal, previous: Decimal)
    requires 1 <= period <= i < |candles|
    requires i == period ==> sum == SumOf(candles, period)
    ensures i == period ==> Numerator(candles, period, i, previous) == sum
    ensures i > period ==> Numerator(candles, period, i, previous)
                           == previous.Mul(FromInt(period - 1)).Add(RangeAt(candles, i))
  {
  }

  lemma {:induction false} WilderErrorStays(candles: seq<Candle>, period: nat, i: nat, j: nat)
    requires 1 <= period <= i <= j < |candles| && Wilder(candles, period, i).Err?
    ensures Wilder(candles, period, j) == Wilder(candles, period, i)
    decreases j
  {
    if i == j {
    } else {
      WilderErrorStays(candles, period, i, j - 1);
    }
  }

  /** An appended history repeats every earlier value and every earlier error. */
  lemma {:induction false} WilderPrefix(candles: seq<Candle>, n: nat, period: nat, i: nat)
    requires 1 <= period <= i < n <= |candles|
    ensures Wilder(candles[..n], period, i) == Wilder(candles, period, i)
  {
    hide Divided, RangeAfter, Decimal.Add, Decimal.Mul, Decimal.Value, FromInt, Bars, TrueRange, RangeSum;
    if i == period {
      SumOfPrefix(candles, n, period);
    } else {
      WilderPrefix(candles, n, period, i - 1);
    }
  }

  lemma {:induction false} SumOfPrefix(candles: seq<Candle>, n: nat, i: nat)
    requires i < n <= |candles|
    ensures SumOf(candles[..n], i) == SumOf(candles, i)
  {
    hide RangeAfter, Decimal.Add, Decimal.Value, Bars, TrueRange, RangeSum;
    if i == 0 {
    } else {
      SumOfPrefix(candles, n, i - 1);
    }
  }

  // ---- the sequence ----

  /** The complete sequence of a history. */
  ghost predicate IsSequence(s: AtrSequence, candles: seq<Candle>, period: nat) {
    && 1 <= period < |candles|
    && s.period == period
    && |s.values| == |candles| - period
    && forall k :: 0 <= k < |s.values| ==> Wilder(candles, period, period + k) == Ok(s.values[k])
  }

  lemma SequenceValue(s: AtrSequence, candles: seq<Candle>, period: nat, i: nat)
    requires IsSequence(s, candles, period) && period <= i < |candles|
    ensures Wilder(candles, period, i) == Ok(s.At(i))
    ensures s.At(i).Value() == Atr(Bars(candles), period, i)
  {
    hide Wilder, Atr;
    assert Wilder(candles, period, period + (i - period)) == Ok(s.values[i - period]);
    WilderIsAtr(candles, period, i);
  }

  method CalculateAtrSequence(candles: seq<Candle>, period: nat) returns (r: Result<AtrSequence>)
    ensures ValidateAtr(period, |candles|).Some? ==> r == Err(ValidateAtr(period, |candles|).value)
    ensures r.Ok? ==> IsSequence(r.value, candles, period)
    ensures r.Err? && ValidateAtr(period, |candles|) == None ==> Wilder(candles, period, |candles| - 1) == Err(r.error)
  {
    hide *;
    var invalid := ValidateAtr(period, |candles|);
    if invalid.Some? {
      return Err(invalid.value);
    }
    var values: seq<Decimal> := [];
    var sum := ZERO;
    var divisor := FromInt(period);
    var weight := FromInt(period - 1);
    var i := 1;
    SumStart(candles);
    while i < |candles|
      invariant 1 <= i <= |candles|
      invariant i <= period ==> sum == SumOf(candles, i - 1) && values == []
      invariant i > period ==> |values| == i - period
      invariant forall k :: 0 <= k < |values| ==> Wilder(candles, period, period + k) == Ok(values[k])
    {
      var tr := RangeAt(candles, i);
      if i <= period {
        SumStep(candles, i);
        sum := sum.Add(tr);
      }
      if i < period {
        i := i + 1;
        continue;
      }
      var numerator := sum;
      ghost var previous := ZERO;
      if i > period {
        assert Wilder(candles, period, period + (|values| - 1)) == Ok(values[|values| - 1]);
        previous := values[|values| - 1];
        numerator := values[|values| - 1].Mul(weight).Add(tr);
      }
      NumeratorAt(candles, period, i, sum, previous);
      WilderAt(candles, period, i, previous);
      var value := Divide(numerator, divisor);
      if value.Err? {
        WilderErrorStays(candles, period, i, |candles| - 1);
        return Err(value.error);
      }
      values := values + [value.value];
      i := i + 1;
    }
    MakeSequence(candles, AtrSequence(period, values));
    return Ok(AtrSequence(period, values));
  }

  lemma SumStart(candles: seq<Candle>)
    requires |candles| > 0
    ensures SumOf(candles, 0) == ZERO
  {
  }

  lemma SumStep(candles: seq<Candle>, n: nat)
    requires 1 <= n < |candles|
    ensures SumOf(candles, n) == SumOf(candles, n - 1).Add(RangeAt(candles, n))
  {
    hide RangeAt, Decimal.Add;
  }

  lemma MakeSequence(candles: seq<Candle>, s: AtrSequence)
    requires 1 <= s.period < |candles| && |s.values| == |candles| - s.period
    requires forall k :: 0 <= k < |s.values| ==> Wilder(candles, s.period, s.period + k) == Ok(s.values[k])
    ensures IsSequence(s, candles, s.period)
  {
    hide Wilder;
  }

  function Latest(s: AtrSequence, candles: seq<Candle>): (r: AtrResult)
    requires 1 <= s.period < |candles| && |s.values| == |candles| - s.period
  {
    var index := |candles| - 1;
    AtrResult(s.At(index), index, candles[index].closeTime)
  }

  /** The latest value is the recurrence value of the last candle, with that candle's closing time. */
  lemma LatestIsAtr(s: AtrSequence, candles: seq<Candle>, period: nat)
    requires IsSequence(s, candles, period)
    ensures s.period == period && 1 <= period < |candles| && |s.values| == |candles| - period
    ensures var r := Latest(s, candles);
      && r.candleIndex == |candles| - 1
      && r.valueTime == candles[|candles| - 1].closeTime
      && Wilder(candles, period, |candles| - 1) == Ok(r.value)
      && r.value.Value() == Atr(Bars(candles), period, |candles| - 1)
  {
    hide Wilder, Atr;
    SequenceValue(s, candles, period, |candles| - 1);
  }

  ghost predicate AtrFails(candles: seq<Candle>, period: nat, error: ValidationError) {
    || ValidateAtr(period, |candles|) == Some(error)
    || (1 <= period < |candles| && Wilder(candles, period, |candles| - 1) == Err(error))
  }

  method CalculateAtr(candles: seq<Candle>, period: nat) returns (r: Result<AtrResult>)
    ensures r.Ok? ==>
      && 1 <= period < |candles|
      && r.value.candleIndex == |candles| - 1
      && r.value.valueTime == candles[|candles| - 1].closeTime
      && Wilder(candles, period, |candles| - 1) == Ok(r.value.value)
      && r.value.value.Value() == Atr(Bars(candles), period, |candles| - 1)
    ensures r.Ok? <==> 1 <= period < |candles| && Wilder(candles, period, |candles| - 1).Ok?
    ensures r.Err? ==> AtrFails(candles, period, r.error)
    ensures period == 0 ==> r == Err(Invalid("period", "must be positive"))
    ensures 1 <= period && |candles| <= period ==>
      r == Err(Invalid("candle_count", "insufficient candles for settings"))
  {
    hide Wilder, Atr;
    var sequence := CalculateAtrSequence(candles, period);
    if sequence.Err? {
      return Err(sequence.error);
    }
    LatestIsAtr(sequence.value, candles, period);
    return Ok(Latest(sequence.value, candles));
  }

  /** With period one the answer is the rounded span of the last candle and the close before it. */
  lemma PeriodOneIsSpan(candles: seq<Candle>, r: AtrResult)
    requires |candles| >= 2 && Wilder(candles, 1, |candles| - 1) == Ok(r.value)
    ensures var n := |candles| - 1;
      var high, low, previous := candles[n].high.Value(), candles[n].low.Value(), candles[n - 1].close.Value();
      low <= high ==>
        r.value.Value()
        == Sig(16, (if high >= previous then high else previous) - (if low <= previous then low else previous))
  {
    hide Wilder, Atr, Sig, TrueRange, RangeAt, Decimal.Value;
    var n := |candles| - 1;
    WilderIsAtr(candles, 1, n);
    PeriodOne(Bars(candles), n);
    RangeOfCandles(candles, n);
  }

  /** A true range of 18 digits is not its own period-one ATR. */
  lemma PeriodOneDiffers()
    ensures var bars := [Bar(3.0, 2.0, 2.0), Bar(3.23456784999999999, 2.0, 3.0)];
      TrueRange(bars, 1) == 1.23456784999999999 && Atr(bars, 1, 1) == 1.23456785
  {
    hide Sig;
    var bars := [Bar(3.0, 2.0, 2.0), Bar(3.23456784999999999, 2.0, 3.0)];
    PeriodOne(bars, 1);
    EighteenDigitsRound();
  }

  ghost function Natr(bars: seq<Bar>, period: nat): (value: real)
    requires 1 <= period < |bars| && bars[|bars| - 1].close != 0.0
  {
    Sig(16, Over(Times(Atr(bars, period, |bars| - 1), 100.0), bars[|bars| - 1].close))
  }

  /** Not affected by the order of magnitude of the prices. */
  lemma NatrShifted(k: int, bars: seq<Bar>, period: nat)
    requires 1 <= period < |bars| && bars[|bars| - 1].close != 0.0
    ensures Shift10(k, bars)[|bars| - 1].close != 0.0
    ensures Natr(Shift10(k, bars), period) == Natr(bars, period)
  {
    hide Sig, Over, Times, Pow10, Atr;
    var n := |bars| - 1;
    AtrShifted(k, bars, period, n);
    ShiftedRatio(Times(Atr(bars, period, n), 100.0), bars[n].close, Pow10(k));
    TimesAssociates(Atr(bars, period, n), 100.0, Pow10(k));
    TimesCommutes(100.0, Pow10(k));
    TimesAssociates(Atr(bars, period, n), Pow10(k), 100.0);
  }

  lemma ShiftedRatio(a: real, b: real, p: real)
    requires b != 0.0 && p > 0.0
    ensures Times(b, p) != 0.0 && Over(Times(a, p), Times(b, p)) == Over(a, b)
  {
    hide Over, Times;
    TimesUnits(p);
    TimesOrder(b, 0.0, p);
    TimesOrder(0.0, b, p);
    OverTimes(a, b);
    TimesAssociates(Over(a, b), b, p);
    OverUnique(Over(a, b), Times(a, p), Times(b, p));
  }

  method CalculateNatr(candles: seq<Candle>, period: nat) returns (r: Result<NatrResult>)
    requires SoundBars(Bars(candles))
    ensures r.Ok? ==>
      && 1 <= period < |candles|
      && r.value.candleIndex == |candles| - 1
      && r.value.valueTime == candles[|candles| - 1].closeTime
      && r.value.referenceClose == candles[|candles| - 1].close
      && r.value.atr.Value() == Atr(Bars(candles), period, |candles| - 1)
      && r.value.value.Value() == Natr(Bars(candles), period)
      && r.value.referenceClose.Value() > 0.0
      && r.value.value.Value() == Sig(16, Over(Times(r.value.atr.Value(), 100.0), r.value.referenceClose.Value()))
    ensures r.Ok? <==>
      && 1 <= period < |candles| && Wilder(candles, period, |candles| - 1).Ok?
      && Divided(Wilder(candles, period, |candles| - 1).value.Mul(HUNDRED), candles[|candles| - 1].close).Ok?
    ensures r.Err? ==>
      || AtrFails(candles, period, r.error)
      || (&& 1 <= period < |candles|
          && Wilder(candles, period, |candles| - 1).Ok?
          && Divided(Wilder(candles, period, |candles| - 1).value.Mul(HUNDRED), candles[|candles| - 1].close)
             == Err(r.error))
  {
    hide Wilder, AtrFails, Atr, Divided, Times, Sig, Over;
    var atr := CalculateAtr(candles, period);
    if atr.Err? {
      return Err(atr.error);
    }
    var close := candles[atr.value.candleIndex].close;
    var numerator := atr.value.value.Mul(HUNDRED);
    var value := Divide(numerator, close);
    if value.Err? {
      return Err(value.error);
    }
    DividedIsRounded(numerator, close);
    assert SoundBar(Bars(candles)[|candles| - 1]);
    return Ok(NatrResult(value.value, atr.value.value, close, atr.value.candleIndex, atr.value.valueTime));
  }
}
