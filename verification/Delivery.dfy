/**
 From an accepted series of parsed candles to a checked answer: every calculation succeeds, every derived number has a
 text, and the checker accepts everything but a zone whose printed midpoint jumps over its upper bound.
 */
module Delivery {
  import opened Decimals
  import opened Results
  import opened Division
  import opened Market
  import opened Rounding
  import opened Powers
  import opened TrueRanges
  import opened AtrSequences
  import opened Extrema
  import opened Detection
  import opened Zones
  import opened Levels
  import opened ReportedZones
  import opened Calendar
  import opened Series
  import opened Parsing
  import opened Reporting
  import opened ScaleSafety

  /** The candles that were parsed from these texts. */
  ghost predicate ReadFrom(texts: seq<SourceCandle>, candles: seq<Candle>) {
    && |texts| == |candles|
    && forall i :: 0 <= i < |texts| ==>
         && texts[i].openTime == candles[i].openTime && texts[i].closeTime == candles[i].closeTime
         && ParseDecimal(texts[i].open) == Some(candles[i].open)
         && ParseDecimal(texts[i].high) == Some(candles[i].high)
         && ParseDecimal(texts[i].low) == Some(candles[i].low)
         && ParseDecimal(texts[i].close) == Some(candles[i].close)
  }

  /** An accepted list of parsed candles. */
  ghost predicate ParsedSeries(selection: CandleSelection, texts: seq<SourceCandle>, candles: seq<Candle>, k: nat)
    requires selection.candleCount < 0x1_0000_0000
  {
    FillsRange(selection, candles, k) && ReadFrom(texts, candles)
  }

  /** Acceptance gives what NATR, the scale bounds and the checker theorems ask of their candles. */
  lemma ParsedSeriesSound(selection: CandleSelection, texts: seq<SourceCandle>, candles: seq<Candle>, k: nat)
    requires selection.candleCount < 0x1_0000_0000 && ParsedSeries(selection, texts, candles, k)
    ensures SoundBars(Bars(candles)) && SourceCandles(candles) && SameTimes(candles, texts)
  {
    hide RangeOf, Slot, Boundary, InSpan, FillsSlot, SourceDecimal, SoundBars, ParseDecimal;
    SeriesSound(selection, candles, k);
    forall i | 0 <= i < |candles|
      ensures SourceDecimal(candles[i].high) && SourceDecimal(candles[i].low) && SourceDecimal(candles[i].close)
    {
      ParsedIsSource(texts[i].high);
      ParsedIsSource(texts[i].low);
      ParsedIsSource(texts[i].close);
    }
  }

  // ---- every number has a text ----

  lemma PointSource(candles: seq<Candle>, settings: ExtremaSettings, points: seq<Extremum>, i: nat)
    requires SourceCandles(candles) && IsDetected(candles, settings, points) && i < |points|
    ensures SourceDecimal(points[i].price) && points[i].price.Value() > 0.0
  {
    hide SourceCandles, Selected, Decimal.Value, SourceDecimal, Turns, Applicable, Divided, Wilder;
    var turns := Turns(Bars(candles), settings);
    assert IsPoint(candles, settings, turns[i], points[i]);
    SelectedIsSource(candles, settings.source, turns[i].kind, turns[i].index);
    SourceSound(candles);
    DetectedPositive(candles, settings, points);
  }

  lemma SourceSound(candles: seq<Candle>)
    requires SourceCandles(candles)
    ensures SoundBars(Bars(candles))
  {
  }

  /** No reported extremum lacks a text, whatever the method. */
  lemma ExtremaPrinted(candles: seq<Candle>, settings: ExtremaSettings, points: seq<Extremum>, i: nat,
                       error: ValidationError)
    requires SourceCandles(candles) && SourceMethod(settings.algorithm)
    requires IsDetected(candles, settings, points) && i < |points|
    ensures !CannotFormat(points[i], error)
  {
    hide SourceCandles, Selected, Decimal.Value, Decimal.Mul, SourceDecimal, Turns, Formatted, Divided, Wilder;
    var turns := Turns(Bars(candles), settings);
    assert IsPoint(candles, settings, turns[i], points[i]);
    PointSource(candles, settings, points, i);
    match settings.algorithm
    case LocalExtrema(_) =>
    case PercentReversal(pct) =>
      PercentPrints(points[i].price, pct);
    case AtrReversal(period, multiplier) =>
      AtrPrints(candles, period, turns[i].index, multiplier);
  }

  /** No zone lacks a text, and neither do the ATR value and the zone width. */
  lemma LevelsPrinted(candles: seq<Candle>, settings: LevelSettings, result: LevelsResult, i: nat)
    requires SourceCandles(candles) && IsLevels(candles, settings, result)
    requires SourceDecimal(settings.zoneWidthAtr) && settings.zoneWidthAtr.Value() > 0.0
    ensures Formatted(result.atr.value).Ok? && Formatted(result.maximumZoneWidth).Ok?
    ensures i < |result.zones| ==>
      var zone := result.zones[i];
      Formatted(zone.lower).Ok? && Formatted(zone.upper).Ok? && Formatted(zone.representative).Ok?
  {
    hide SourceCandles, Selected, Decimal.Value, Decimal.Mul, Decimal.Add, SourceDecimal, IsDetected, Formatted,
      Divided, Wilder, PriceOrder, ZonesOf, Touches, RoleOf;
    AtrPrints(candles, settings.atrPeriod, |candles| - 1, settings.zoneWidthAtr);
    if i < |result.zones| {
      var points, spacing := result.extrema, settings.minTouchSeparationBars;
      var kept := ZonesOf(SpotsOf(points), result.maximumZoneWidth.Value(), spacing, settings.minTouches);
      var order := PriceOrder(SpotsOf(points));
      assert ZoneOfSpan(candles, points, order, kept[i], result.referenceClose, spacing, result.zones[i]);
      var group := order[kept[i].start..kept[i].end];
      PointSource(candles, settings.extrema, points, group[0]);
      PointSource(candles, settings.extrema, points, group[|group| - 1]);
      PricePrints(result.zones[i].lower);
      PricePrints(result.zones[i].upper);
      MidpointPrints(result.zones[i].lower, result.zones[i].upper);
    }
  }

  /** The tolerance of a trend answer has a text. */
  lemma TolerancePrinted(candles: seq<Candle>, pct: Decimal)
    requires SourceCandles(candles) && candles != []
    requires SourceDecimal(pct) && !pct.IsNegative()
    ensures Divided(candles[|candles| - 1].close.Mul(pct), HUNDRED).Ok?
    ensures Formatted(Divided(candles[|candles| - 1].close.Mul(pct), HUNDRED).value).Ok?
  {
    hide Decimal.Value, Decimal.Mul, SourceDecimal, Formatted, Divided;
    assert SoundBar(Bars(candles)[|candles| - 1]);
    PercentPrints(candles[|candles| - 1].close, pct);
  }

  // ---- the whole path ----

  /** What the checker says about a mapped answer: everything passes but overprinted zones. */
  lemma LevelsPass(candles: seq<Candle>, settings: LevelSettings, texts: seq<SourceCandle>, result: LevelsResult,
                   levels: WireLevels, view: ResultView)
    requires SoundBars(Bars(candles)) && SameTimes(candles, texts) && IsLevels(candles, settings, result)
    requires IsMappedLevels(result, settings.extrema.source, texts, levels)
    requires view == ResultView(texts, Some(levels.extrema), levels.zones, MethodNameOf(settings.extrema.algorithm),
                                settings.extrema.source, settings.minTouches)
    ensures ValidateResultReference(levels.candleIndex, levels.valueTime, texts)
    ensures forall i :: 0 <= i < |levels.extrema| ==> AcceptableExtremum(view, levels.extrema[i])
    ensures |levels.zones| == |result.zones|
    ensures forall i :: 0 <= i < |levels.zones| ==>
      && result.zones[i].representative.Value() > 0.0
      && (AcceptableZone(view, levels.zones[i]) <==> !Overprinted(result.zones[i]))
  {
    hide SoundBars, SameTimes, IsLevels, IsMappedPoint, IsMappedZone, Formatted, AcceptableExtremum, AcceptableZone,
      Overprinted, Decimal.Value, ValidateResultReference;
    LevelsReferenceAccepted(candles, texts, settings, result);
    LevelsDetected(candles, settings, result);
    forall i | 0 <= i < |levels.extrema|
      ensures AcceptableExtremum(view, levels.extrema[i])
    {
      ExtremaAccepted(candles, texts, settings.extrema, result.extrema, view, i);
    }
    forall i | 0 <= i < |levels.zones|
      ensures result.zones[i].representative.Value() > 0.0
      ensures AcceptableZone(view, levels.zones[i]) <==> !Overprinted(result.zones[i])
    {
      ZoneAccepted(candles, texts, settings, result, view, i);
    }
  }

  lemma LevelsDetected(candles: seq<Candle>, settings: LevelSettings, result: LevelsResult)
    requires IsLevels(candles, settings, result)
    ensures IsDetected(candles, settings.extrema, result.extrema)
  {
    hide IsDetected, AreZones, Wilder;
  }

  /** Mapping a result of parsed candles never fails. */
  lemma LevelsMap(candles: seq<Candle>, settings: LevelSettings, texts: seq<SourceCandle>, result: LevelsResult,
                  failure: MapFailure)
    requires SourceCandles(candles) && SameTimes(candles, texts) && IsLevels(candles, settings, result)
    requires SourceMethod(settings.extrema.algorithm)
    requires SourceDecimal(settings.zoneWidthAtr) && settings.zoneWidthAtr.Value() > 0.0
    ensures !LevelsCannotMap(result, texts, failure)
  {
    hide SourceCandles, SourceMethod, SourceDecimal, IsLevels, Formatted, CannotFormat, Decimal.Value;
    LevelsDetected(candles, settings, result);
    PointsInside(candles, settings.extrema, result.extrema);
    LevelsPrinted(candles, settings, result, |result.zones|);
    if failure.NoText? {
      forall i | 0 <= i < |result.extrema|
        ensures !CannotFormat(result.extrema[i], failure.error)
      {
        ExtremaPrinted(candles, settings.extrema, result.extrema, i, failure.error);
      }
    }
    forall i | 0 <= i < |result.zones|
      ensures !ZoneCannotMap(result.zones[i])
    {
      LevelsPrinted(candles, settings, result, i);
    }
  }

  lemma PointsInside(candles: seq<Candle>, settings: ExtremaSettings, points: seq<Extremum>)
    requires IsDetected(candles, settings, points)
    ensures forall i :: 0 <= i < |points| ==>
      points[i].candleIndex < |candles| && points[i].confirmationIndex < |candles|
  {
    hide Turns, Applicable, Divided, Wilder, Decimal.Mul, Selected;
    forall i | 0 <= i < |points|
      ensures points[i].candleIndex < |candles| && points[i].confirmationIndex < |candles|
    {
      assert IsPoint(candles, settings, Turns(Bars(candles), settings)[i], points[i]);
    }
  }

  datatype Answer =
    | Rejected(error: ValidationError)
    | Undeliverable(failure: MapFailure)
    | Delivered(levels: WireLevels)

  /** The role that arrives is the position of the last close relative to the unprinted bounds. */
  lemma WireRoles(candles: seq<Candle>, settings: LevelSettings, texts: seq<SourceCandle>, result: LevelsResult,
                  levels: WireLevels, i: nat)
    requires IsLevels(candles, settings, result) && candles != []
    requires IsMappedLevels(result, settings.extrema.source, texts, levels) && i < |result.zones|
    ensures |levels.zones| == |result.zones|
    ensures
      var role, zone, close := levels.zones[i].role, result.zones[i], candles[|candles| - 1].close.Value();
      && (role == RoleSupport <==> close > zone.upper.Value())
      && (role == RoleResistance <==> close < zone.lower.Value())
      && (role == RoleAtPrice <==> zone.lower.Value() <= close <= zone.upper.Value())
  {
    hide IsLevels, IsMappedZone, IsMappedLevels, Decimal.Value;
    ZoneRoles(candles, settings, result, i);
    MappedLevelsMeans(result, settings.extrema.source, texts, levels);
    MappedZoneMeans(result.zones[i], levels.zones[i]);
  }

  /** A wire price is a text of the reported price. */
  lemma WirePrices(candles: seq<Candle>, texts: seq<SourceCandle>, settings: ExtremaSettings, points: seq<Extremum>,
                   wires: seq<WireExtremum>, i: nat)
    requires IsDetected(candles, settings, points) && AreMappedPoints(points, settings.source, texts, wires)
    requires ReadFrom(texts, candles) && i < |points|
    ensures |wires| == |points| && ParseDecimal(wires[i].price) == Some(points[i].price)
    ensures wires[i].reversal.Some? <==> points[i].reversal.Some?
    ensures points[i].reversal.Some? ==>
      ParseDecimal(wires[i].reversal.value.confirmationPrice) == Some(points[i].reversal.value.confirmationPrice)
  {
    hide IsDetected, IsMappedPoint, ParseDecimal, Decimal.Value, Atr, Sig, Over, Times;
    ReportedPoint(candles, settings, points, i);
    MappedPointMeans(points[i], settings.source, texts, wires[i]);
    if points[i].reversal.Some? {
      ReportedEvidence(candles, settings, points, i);
    }
  }

  lemma LevelsRead(candles: seq<Candle>, settings: LevelSettings, texts: seq<SourceCandle>, result: LevelsResult,
                   levels: WireLevels)
    requires IsLevels(candles, settings, result) && ReadFrom(texts, candles)
    requires IsMappedLevels(result, settings.extrema.source, texts, levels)
    ensures |levels.extrema| == |result.extrema|
    ensures forall i :: 0 <= i < |levels.extrema| ==>
      ParseDecimal(levels.extrema[i].price) == Some(result.extrema[i].price)
  {
    hide IsLevels, IsDetected, ReadFrom, ParseDecimal, IsMappedPoint, IsMappedZone, Formatted, Decimal.Value;
    LevelsDetected(candles, settings, result);
    forall i | 0 <= i < |levels.extrema|
      ensures ParseDecimal(levels.extrema[i].price) == Some(result.extrema[i].price)
    {
      WirePrices(candles, texts, settings.extrema, result.extrema, levels.extrema, i);
    }
  }

  lemma SeriesRead(selection: CandleSelection, texts: seq<SourceCandle>, candles: seq<Candle>, k: nat)
    requires selection.candleCount < 0x1_0000_0000 && ParsedSeries(selection, texts, candles, k)
    ensures ReadFrom(texts, candles)
  {
  }

  /** A levels request over an accepted series is answered unless its settings are invalid, and the checker agrees. */
  method AnswerLevels(selection: CandleSelection, candles: seq<Candle>, ghost k: nat, settings: LevelSettings,
                      texts: seq<SourceCandle>)
    returns (answer: Answer, ghost result: Option<LevelsResult>)
    requires selection.candleCount < 0x1_0000_0000 && ParsedSeries(selection, texts, candles, k)
    requires SourceMethod(settings.extrema.algorithm) && SourceDecimal(settings.zoneWidthAtr)
    ensures settings.Validate(|candles|).Some? ==> answer == Rejected(settings.Validate(|candles|).value)
    ensures settings.Validate(|candles|) == None ==>
      && answer.Delivered? && result.Some? && candles != []
      && IsLevels(candles, settings, result.value)
      && IsMappedLevels(result.value, settings.extrema.source, texts, answer.levels)
    ensures answer.Delivered? ==>
      var levels := answer.levels;
      var view := ResultView(texts, Some(levels.extrema), levels.zones, MethodNameOf(settings.extrema.algorithm),
                             settings.extrema.source, settings.minTouches);
      && result.Some? && |levels.zones| == |result.value.zones|
      && ValidateResultReference(levels.candleIndex, levels.valueTime, texts)
      && (forall i :: 0 <= i < |levels.extrema| ==> AcceptableExtremum(view, levels.extrema[i]))
      && (forall i :: 0 <= i < |levels.zones| ==>
            && result.value.zones[i].representative.Value() > 0.0
            && (AcceptableZone(view, levels.zones[i]) <==> !Overprinted(result.value.zones[i])))
    ensures answer.Delivered? ==>
      && result.Some? && |answer.levels.extrema| == |result.value.extrema|
      && forall i :: 0 <= i < |answer.levels.extrema| ==>
           ParseDecimal(answer.levels.extrema[i].price) == Some(result.value.extrema[i].price)
    ensures answer.Delivered? ==> candles != [] && forall i :: 0 <= i < |answer.levels.zones| ==>
      var role, close := answer.levels.zones[i].role, candles[|candles| - 1].close.Value();
      && result.Some? && i < |result.value.zones|
      && (role == RoleSupport <==> close > result.value.zones[i].upper.Value())
      && (role == RoleResistance <==> close < result.value.zones[i].lower.Value())
      && (role == RoleAtPrice <==> result.value.zones[i].lower.Value() <= close <= result.value.zones[i].upper.Value())
  {
    hide *;
    result := None;
    ParsedSeriesSound(selection, texts, candles, k);
    SeriesRead(selection, texts, candles, k);
    var calculated := CalculateLevels(candles, settings);
    if calculated.Err? {
      if settings.Validate(|candles|) == None {
        LevelsAlwaysSucceed(candles, settings, calculated.error);
      }
      return Rejected(calculated.error), result;
    }
    result := Some(calculated.value);
    TextsPresent(candles, settings, texts);
    var mapped := MapLevels(calculated.value, settings.extrema.source, texts);
    LevelsNeed(settings, |candles|);
    if mapped.Failed? {
      answer := Undeliverable(mapped.failure);
      LevelsMap(candles, settings, texts, calculated.value, mapped.failure);
      return;
    }
    var levels := mapped.value;
    LevelsPass(candles, settings, texts, calculated.value, levels,
               ResultView(texts, Some(levels.extrema), levels.zones, MethodNameOf(settings.extrema.algorithm),
                          settings.extrema.source, settings.minTouches));
    forall i | 0 <= i < |levels.zones|
      ensures
        var role, zone, close := levels.zones[i].role, calculated.value.zones[i], candles[|candles| - 1].close.Value();
        && (role == RoleSupport <==> close > zone.upper.Value())
        && (role == RoleResistance <==> close < zone.lower.Value())
        && (role == RoleAtPrice <==> zone.lower.Value() <= close <= zone.upper.Value())
    {
      WireRoles(candles, settings, texts, calculated.value, levels, i);
    }
    LevelsRead(candles, settings, texts, calculated.value, levels);
    return Delivered(levels), result;
  }

  lemma TextsPresent(candles: seq<Candle>, settings: LevelSettings, texts: seq<SourceCandle>)
    requires SameTimes(candles, texts) && settings.Validate(|candles|) == None
    ensures texts != []
  {
    hide ExtremaSettings.Validate, Decimal.Value;
    LevelsNeed(settings, |candles|);
  }
}
