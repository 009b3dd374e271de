/** Which candle lists become a series, and what every accepted series guarantees. */
module Series {
  import opened Decimals
  import opened Results
  import opened Market
  import opened Calendar

  datatype CandleSeries = CandleSeries(selection: CandleSelection, range: CandleRange, candles: seq<Candle>)

  const WRONG_INSTRUMENT := Invalid("instrument", "source identity does not match selection")
  const WRONG_INTERVAL := Invalid("interval", "source interval does not match selection")
  const WRONG_RANGE := Invalid("range", "source range does not match selection")
  const WRONG_COUNT := Invalid("candles", "source count does not match selection")

  /** The first broken rule of one candle, as field and rule. */
  function Violation(c: Candle, opening: Time, closing: Time): (v: Option<(string, string)>) {
    if c.openTime != opening then Some(("open_time", "must match the next calendar slot"))
    else if c.closeTime != closing then Some(("close_time", "must match the exclusive slot end"))
    else if !ValidTime(c.fetchedAt) then Some(("fetched_at", BAD_TIME))
    else if !c.open.IsPositive() then Some(("open", "must be positive"))
    else if !c.high.IsPositive() then Some(("high", "must be positive"))
    else if !c.low.IsPositive() then Some(("low", "must be positive"))
    else if !c.close.IsPositive() then Some(("close", "must be positive"))
    else if c.open.LessThan(c.low) || c.high.LessThan(c.open) then Some(("open", "must be between low and high"))
    else if c.close.LessThan(c.low) || c.high.LessThan(c.close) then Some(("close", "must be between low and high"))
    else if c.volume.IsNegative() then Some(("volume", "must be nonnegative"))
    else if c.turnover.IsNegative() then Some(("turnover", "must be nonnegative"))
    else if c.tradesCount.Some? && c.tradesCount.value < 0
    then Some(("trades_count", "must be nonnegative when present"))
    else None
  }

  /** A candle breaks no rule exactly when it fills its slot with ordered positive prices and nonnegative amounts. */
  lemma NoViolation(c: Candle, opening: Time, closing: Time)
    ensures Violation(c, opening, closing) == None <==>
      && c.openTime == opening && c.closeTime == closing
      && 0 <= c.fetchedAt < 253_402_300_800 * 1_000_000_000
      && c.open.Value() > 0.0 && c.high.Value() > 0.0 && c.low.Value() > 0.0 && c.close.Value() > 0.0
      && c.low.Value() <= c.open.Value() <= c.high.Value()
      && c.low.Value() <= c.close.Value() <= c.high.Value()
      && c.volume.Value() >= 0.0 && c.turnover.Value() >= 0.0
      && (c.tradesCount.Some? ==> c.tradesCount.value >= 0)
  {
    hide Decimal.Value, ValidTime;
    ValidTimeIsRange(c.fetchedAt);
  }

  /** The named field is the one that breaks the named rule. */
  lemma ViolationNames(c: Candle, opening: Time, closing: Time, field: string, rule: string)
    requires Violation(c, opening, closing) == Some((field, rule))
    ensures field == "open_time" ==> c.openTime != opening
    ensures field == "close_time" ==> c.closeTime != closing
    ensures field == "fetched_at" ==> !(0 <= c.fetchedAt < 253_402_300_800 * 1_000_000_000)
    ensures field == "open" && rule == "must be positive" ==> c.open.Value() <= 0.0
    ensures field == "high" ==> c.high.Value() <= 0.0
    ensures field == "low" ==> c.low.Value() <= 0.0
    ensures field == "close" && rule == "must be positive" ==> c.close.Value() <= 0.0
    ensures field == "open" && rule != "must be positive" ==> !(c.low.Value() <= c.open.Value() <= c.high.Value())
    ensures field == "close" && rule != "must be positive" ==> !(c.low.Value() <= c.close.Value() <= c.high.Value())
    ensures field == "volume" ==> c.volume.Value() < 0.0
    ensures field == "turnover" ==> c.turnover.Value() < 0.0
    ensures field == "trades_count" ==> c.tradesCount.Some? && c.tradesCount.value < 0
    ensures field in ["open_time", "close_time", "fetched_at", "open", "high", "low", "close", "volume", "turnover",
                      "trades_count"]
  {
    hide Decimal.Value, ValidTime;
    ValidTimeIsRange(c.fetchedAt);
  }

  lemma SoundCandle(c: Candle, opening: Time, closing: Time)
    requires Violation(c, opening, closing) == None
    ensures c.openTime == opening && c.closeTime == closing && SoundBar(BarOf(c))
    ensures c.low.Value() <= c.open.Value() <= c.high.Value()
  {
    hide Decimal.Value, ValidTime;
  }

  /** Candle i fills slot number k + i. */
  ghost predicate FillsSlot(interval: string, k: nat, candles: seq<Candle>, i: nat)
    requires Slot(interval).Some? && i < |candles|
  {
    Violation(candles[i], Boundary(interval, k + i), Boundary(interval, k + i + 1)) == None
  }

  ghost predicate Matches(selection: CandleSelection, instrument: Instrument, interval: string, actual: CandleRange,
                          candles: seq<Candle>)
    requires selection.candleCount < 0x1_0000_0000
  {
    && RangeOf(selection).Ok?
    && instrument == selection.instrument
    && interval == selection.interval
    && actual == RangeOf(selection).value
    && |candles| == selection.candleCount
  }

  /** Every candle fills the next slot from the start of the planned range. */
  ghost predicate FillsRange(selection: CandleSelection, candles: seq<Candle>, k: nat)
    requires selection.candleCount < 0x1_0000_0000
  {
    && RangeOf(selection).Ok?
    && |candles| == selection.candleCount > 0
    && InSpan(selection.interval, k) && InSpan(selection.interval, k + |candles|)
    && RangeOf(selection).value
       == CandleRange(Boundary(selection.interval, k), Boundary(selection.interval, k + |candles|))
    && forall i :: 0 <= i < |candles| ==> FillsSlot(selection.interval, k, candles, i)
  }

  /** The first candle that breaks a rule, with that rule. */
  ghost predicate FirstBroken(interval: string, k: nat, candles: seq<Candle>, error: ValidationError) {
    && Slot(interval).Some?
    && error.InvalidCandle?
    && error.index < |candles|
    && (forall i :: 0 <= i < error.index ==> FillsSlot(interval, k, candles, i))
    && Violation(candles[error.index], Boundary(interval, k + error.index), Boundary(interval, k + error.index + 1))
       == Some((error.field, error.rule))
  }

  /** The error of a list that is not accepted: the first check it fails. */
  ghost predicate Rejects(selection: CandleSelection, instrument: Instrument, interval: string, actual: CandleRange,
                          candles: seq<Candle>, k: nat, error: ValidationError)
    requires selection.candleCount < 0x1_0000_0000
  {
    if RangeOf(selection).Err? then error == RangeOf(selection).error
    else if instrument != selection.instrument then error == WRONG_INSTRUMENT
    else if interval != selection.interval then error == WRONG_INTERVAL
    else if actual != RangeOf(selection).value then error == WRONG_RANGE
    else if |candles| != selection.candleCount then error == WRONG_COUNT
    else
      && InSpan(interval, k) && RangeOf(selection).value.from == Boundary(interval, k)
      && FirstBroken(interval, k, candles, error)
  }

  /** Candle i breaks no rule in the slot that lies i slots after the start. */
  ghost predicate FitsFrom(interval: string, from: Time, candles: seq<Candle>, i: nat)
    requires i < |candles| < 0x1_0000_0000
  {
    var opening, closing := Shift(interval, from, i as int64), Shift(interval, from, (i + 1) as int64);
    opening.Ok? && closing.Ok? && Violation(candles[i], opening.value, closing.value) == None
  }

  /** The first failed check decides the error, and a broken candle is named with its field and rule. */
  lemma RejectionMeans(selection: CandleSelection, instrument: Instrument, interval: string, actual: CandleRange,
                       candles: seq<Candle>, k: nat, error: ValidationError)
    requires selection.candleCount < 0x1_0000_0000
    requires Rejects(selection, instrument, interval, actual, candles, k, error)
    ensures
      if RangeOf(selection).Err? then error == RangeOf(selection).error
      else if instrument != selection.instrument then
        error == Invalid("instrument", "source identity does not match selection")
      else if interval != selection.interval then
        error == Invalid("interval", "source interval does not match selection")
      else if actual != RangeOf(selection).value then error == Invalid("range", "source range does not match selection")
      else if |candles| != selection.candleCount then
        error == Invalid("candles", "source count does not match selection")
      else
        && error.InvalidCandle? && error.index < |candles|
        && var from := RangeOf(selection).value.from;
        var opening := Shift(interval, from, error.index as int64);
        var closing := Shift(interval, from, (error.index + 1) as int64);
        && (forall i :: 0 <= i < error.index ==> FitsFrom(interval, from, candles, i))
        && opening.Ok? && closing.Ok?
        && Violation(candles[error.index], opening.value, closing.value) == Some((error.field, error.rule))
  {
    hide RangeOf, Violation, Shift, Boundary, Slot, InSpan, ValidTime;
    if RangeOf(selection).Ok? && instrument == selection.instrument && interval == selection.interval
       && actual == RangeOf(selection).value && |candles| == selection.candleCount {
      var j := RangeFinds(selection);
      SpanSlots(interval, j);
      SpanSlots(interval, k);
      BoundaryOrder(interval, j, k);
      SlotShifts(interval, k, error.index, |candles|);
      forall i | 0 <= i < error.index
        ensures FitsFrom(interval, RangeOf(selection).value.from, candles, i)
      {
        SlotShifts(interval, k, i, |candles|);
        FilledSlot(interval, k, candles, i);
      }
    }
  }

  method NewCandleSeries(selection: CandleSelection, instrument: Instrument, interval: string, actual: CandleRange,
                         candles: seq<Candle>)
    returns (r: Result<CandleSeries>, ghost k: nat)
    requires selection.candleCount < 0x1_0000_0000
    ensures r.Ok? ==>
      && Matches(selection, instrument, interval, actual, candles)
      && r.value == CandleSeries(selection, RangeOf(selection).value, candles)
    ensures r.Ok? ==> FillsRange(selection, candles, k)
    ensures r.Err? ==> Rejects(selection, instrument, interval, actual, candles, k, r.error)
    ensures r.Ok? <==>
      && RangeOf(selection).Ok?
      && instrument == selection.instrument && interval == selection.interval && actual == RangeOf(selection).value
      && |candles| == selection.candleCount
      && forall i :: 0 <= i < |candles| ==> FitsFrom(interval, RangeOf(selection).value.from, candles, i)
  {
    hide FirstBroken, FillsSlot, FillsRange, Matches, RangeOf, InSpan, Boundary, Slot, Violation, Shift, ValidTime;
    k := 0;
    var planned := RangeOf(selection);
    if planned.Err? {
      return Err(planned.error), k;
    }
    var expected := planned.value;
    if instrument != selection.instrument {
      return Err(WRONG_INSTRUMENT), k;
    }
    if interval != selection.interval {
      return Err(WRONG_INTERVAL), k;
    }
    if actual != expected {
      return Err(WRONG_RANGE), k;
    }
    if |candles| != selection.candleCount {
      return Err(WRONG_COUNT), k;
    }
    MakeMatches(selection, instrument, interval, actual, candles);
    k := RangeFinds(selection);
    SpanSlots(interval, k);
    var owned: seq<Candle> := [];
    var opening := expected.from;
    var index := 0;
    while index < |candles|
      invariant 0 <= index <= |candles|
      invariant InSpan(interval, k + index) && opening == Boundary(interval, k + index)
      invariant owned == candles[..index]
      invariant forall i :: 0 <= i < index ==> FillsSlot(interval, k, candles, i)
    {
      NextInSpan(interval, k, index, |candles|);
      ShiftMoves(interval, k + index, 1);
      var closing := Shift(interval, opening, 1);
      if closing.Err? {
        assert false;
      }
      var broken := Violation(candles[index], opening, closing.value);
      if broken.Some? {
        MakeBroken(interval, k, candles, InvalidCandle(index, broken.value.0, broken.value.1));
        SlotShifts(interval, k, index, |candles|);
        assert !FitsFrom(interval, expected.from, candles, index);
        return Err(InvalidCandle(index, broken.value.0, broken.value.1)), k;
      }
      MakeFilled(interval, k, candles, index);
      owned := owned + [candles[index]];
      opening := closing.value;
      index := index + 1;
    }
    MakeAccepted(selection, candles, k);
    forall i | 0 <= i < |candles|
      ensures FitsFrom(interval, expected.from, candles, i)
    {
      SlotShifts(interval, k, i, |candles|);
      FilledSlot(interval, k, candles, i);
    }
    return Ok(CandleSeries(selection, expected, owned)), k;
  }

  lemma SpanSlots(interval: string, k: int)
    requires InSpan(interval, k)
    ensures Slot(interval).Some?
  {
  }

  lemma MakeMatches(selection: CandleSelection, instrument: Instrument, interval: string, actual: CandleRange,
                    candles: seq<Candle>)
    requires selection.candleCount < 0x1_0000_0000 && RangeOf(selection).Ok?
    requires instrument == selection.instrument && interval == selection.interval
    requires actual == RangeOf(selection).value && |candles| == selection.candleCount
    ensures Matches(selection, instrument, interval, actual, candles)
  {
    hide RangeOf;
  }

  /** The slots of a range are the shifts of its start. */
  lemma SlotShifts(interval: string, k: nat, i: nat, n: nat)
    requires InSpan(interval, k) && InSpan(interval, k + n) && i < n < 0x1_0000_0000
    ensures Slot(interval).Some?
    ensures Shift(interval, Boundary(interval, k), i as int64) == Ok(Boundary(interval, k + i))
    ensures Shift(interval, Boundary(interval, k), (i + 1) as int64) == Ok(Boundary(interval, k + i + 1))
  {
    hide Shift, Slot, Boundary, InSpan;
    SpanSlots(interval, k);
    NextInSpan(interval, k, i, n);
    if i > 0 {
      NextInSpan(interval, k, i - 1, n);
    }
    ShiftMoves(interval, k, i as int64);
    ShiftMoves(interval, k, (i + 1) as int64);
  }

  lemma FilledSlot(interval: string, k: nat, candles: seq<Candle>, i: nat)
    requires Slot(interval).Some? && i < |candles| && FillsSlot(interval, k, candles, i)
    ensures Violation(candles[i], Boundary(interval, k + i), Boundary(interval, k + i + 1)) == None
  {
    hide Violation, Boundary, Slot;
  }

  lemma MakeFilled(interval: string, k: nat, candles: seq<Candle>, i: nat)
    requires Slot(interval).Some? && i < |candles|
    requires Violation(candles[i], Boundary(interval, k + i), Boundary(interval, k + i + 1)) == None
    ensures FillsSlot(interval, k, candles, i)
  {
    hide Violation, Boundary, Slot;
  }

  lemma MakeBroken(interval: string, k: nat, candles: seq<Candle>, error: ValidationError)
    requires Slot(interval).Some? && error.InvalidCandle? && error.index < |candles|
    requires forall i :: 0 <= i < error.index ==> FillsSlot(interval, k, candles, i)
    requires Violation(candles[error.index], Boundary(interval, k + error.index),
                       Boundary(interval, k + error.index + 1))
             == Some((error.field, error.rule))
    ensures FirstBroken(interval, k, candles, error)
  {
    hide Violation, Boundary, Slot, FillsSlot;
  }

  lemma MakeAccepted(selection: CandleSelection, candles: seq<Candle>, k: nat)
    requires selection.candleCount < 0x1_0000_0000 && RangeOf(selection).Ok? && |candles| == selection.candleCount > 0
    requires InSpan(selection.interval, k) && InSpan(selection.interval, k + |candles|)
    requires Slot(selection.interval).Some?
    requires RangeOf(selection).value
            == CandleRange(Boundary(selection.interval, k), Boundary(selection.interval, k + |candles|))
    requires forall i :: 0 <= i < |candles| ==> FillsSlot(selection.interval, k, candles, i)
    ensures FillsRange(selection, candles, k)
  {
    hide RangeOf, InSpan, Boundary, Slot, FillsSlot;
  }

  /** Slots between two supported boundaries are supported, so shifting inside the range never fails. */
  lemma NextInSpan(interval: string, k: nat, index: nat, n: nat)
    requires InSpan(interval, k + n) && index < n
    ensures InSpan(interval, k + index + 1)
  {
    hide Boundary, Slot;
    BoundaryOrder(interval, k + index + 1, k + n);
  }

  /** Where candle i of an accepted list lies. */
  lemma CandleSlot(selection: CandleSelection, candles: seq<Candle>, k: nat, i: nat)
    requires selection.candleCount < 0x1_0000_0000 && FillsRange(selection, candles, k) && i < |candles|
    ensures Slot(selection.interval).Some?
    ensures candles[i].openTime == Boundary(selection.interval, k + i)
    ensures candles[i].closeTime == Boundary(selection.interval, k + i + 1)
    ensures SoundBar(BarOf(candles[i]))
  {
    hide RangeOf, Slot, Boundary, Violation, SoundBar;
    assert FillsSlot(selection.interval, k, candles, i);
    SoundCandle(candles[i], Boundary(selection.interval, k + i), Boundary(selection.interval, k + i + 1));
  }

  /** An accepted list tiles its range exactly, and every candle is closed by the requested time. */
  lemma SeriesTiles(selection: CandleSelection, candles: seq<Candle>, k: nat, i: nat)
    requires selection.candleCount < 0x1_0000_0000 && FillsRange(selection, candles, k) && i < |candles|
    ensures var from := RangeOf(selection).value.from;
      && Shift(selection.interval, from, i as int64) == Ok(candles[i].openTime)
      && Shift(selection.interval, from, (i + 1) as int64) == Ok(candles[i].closeTime)
      && candles[i].openTime < candles[i].closeTime
      && (i + 1 < |candles| ==> candles[i].closeTime == candles[i + 1].openTime)
      && (i + 1 == |candles| ==> candles[i].closeTime == RangeOf(selection).value.to)
      && candles[i].closeTime <= RangeOf(selection).value.to <= selection.to
      && SoundBar(BarOf(candles[i]))
  {
    hide RangeOf, Shift, Slot, Boundary, FillsSlot, SoundBar, InSpan;
    var interval := selection.interval;
    CandleSlot(selection, candles, k, i);
    NextInSpan(interval, k, i, |candles|);
    BoundaryOrder(interval, k + i + 1, k + |candles|);
    BoundaryOrder(interval, k + i + 1, k + i);
    if i > 0 {
      NextInSpan(interval, k, i - 1, |candles|);
    }
    ShiftMoves(interval, k, i as int64);
    ShiftMoves(interval, k, (i + 1) as int64);
    if i + 1 < |candles| {
      CandleSlot(selection, candles, k, i + 1);
    }
    var j := RangeFinds(selection);
  }

  lemma SeriesSound(selection: CandleSelection, candles: seq<Candle>, k: nat)
    requires selection.candleCount < 0x1_0000_0000 && FillsRange(selection, candles, k)
    ensures SoundBars(Bars(candles))
  {
    hide RangeOf, Shift, SoundBar, FillsRange;
    forall i | 0 <= i < |candles|
      ensures SoundBar(Bars(candles)[i])
    {
      SeriesTiles(selection, candles, k, i);
    }
  }

  // ---- planning and loading ----

  datatype Loaded = Loaded(instrument: Instrument, interval: string, range: CandleRange, candles: seq<Candle>)

  const TOO_LATE := Invalid("selection.to", "selected range ends after the current closed-candle boundary")

  /** Plans the range, refuses candles that have not closed yet, then checks what was loaded. */
  method Prepare(selection: CandleSelection, evaluatedAt: Time, settingsError: Option<ValidationError>,
                 loaded: Result<Loaded>)
    returns (r: Result<CandleSeries>, ghost k: nat)
    requires selection.candleCount < 0x1_0000_0000
    ensures r.Ok? ==>
      && settingsError == None && loaded.Ok?
      && r.value.candles == loaded.value.candles
      && RangeOf(selection).Ok? && Floor(selection.interval, evaluatedAt).Ok?
      && RangeOf(selection).value.to <= Floor(selection.interval, evaluatedAt).value
    ensures r.Ok? ==> FillsRange(selection, r.value.candles, k)
    ensures
      var planned, boundary := RangeOf(selection), Floor(selection.interval, evaluatedAt);
      if planned.Err? then r == Err(planned.error)
      else if settingsError.Some? then r == Err(settingsError.value)
      else if boundary.Err? then r == Err(boundary.error)
      else if planned.value.to > boundary.value then
        r == Err(Invalid("selection.to", "selected range ends after the current closed-candle boundary"))
      else if loaded.Err? then r == Err(loaded.error)
      else
        var actual := loaded.value;
        if r.Ok? then Matches(selection, actual.instrument, actual.interval, actual.range, actual.candles)
        else Rejects(selection, actual.instrument, actual.interval, actual.range, actual.candles, k, r.error)
  {
    hide RangeOf, Floor, FillsRange, Matches, Rejects, FitsFrom;
    k := 0;
    var planned := RangeOf(selection);  // parsing the selection and planning compute the same range
    if planned.Err? {
      return Err(planned.error), k;
    }
    if settingsError.Some? {
      return Err(settingsError.value), k;
    }
    var closedBoundary := Floor(selection.interval, evaluatedAt);
    if closedBoundary.Err? {
      return Err(closedBoundary.error), k;
    }
    if planned.value.to > closedBoundary.value {
      return Err(TOO_LATE), k;
    }
    if loaded.Err? {
      return Err(loaded.error), k;
    }
    var actual := loaded.value;
    r, k := NewCandleSeries(selection, actual.instrument, actual.interval, actual.range, actual.candles);
  }

  /** A prepared series only contains candles that had closed, both at `to` and at the evaluation time. */
  lemma PreparedCandlesClosed(selection: CandleSelection, evaluatedAt: Time, candles: seq<Candle>, k: nat, i: nat)
    requires selection.candleCount < 0x1_0000_0000 && FillsRange(selection, candles, k) && i < |candles|
    requires Floor(selection.interval, evaluatedAt).Ok?
    requires RangeOf(selection).value.to <= Floor(selection.interval, evaluatedAt).value
    ensures candles[i].closeTime <= selection.to && candles[i].closeTime <= evaluatedAt
  {
    hide RangeOf, Floor, Boundary, Slot, FillsRange;
    SeriesTiles(selection, candles, k, i);
    var f := FloorFinds(selection.interval, evaluatedAt);
  }
}
