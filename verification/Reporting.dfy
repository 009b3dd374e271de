/** The wire form of extrema and zones, and the independent checker that reads it back. */
module Reporting {
  import opened Powers
  import opened Decimals
  import opened Rounding
  import opened Results
  import opened Division
  import opened Market
  import opened Extrema
  import opened Detection
  import opened Zones
  import opened Levels
  import opened DoubleRounding

  /** Source decimals stay the text they arrived as. */
  type Text = string

  datatype SourceCandle = SourceCandle(openTime: Time, closeTime: Time, open: Text, high: Text, low: Text, close: Text)

  datatype WireKind = KindUnspecified | KindHigh | KindLow

  datatype WireRole = RoleUnspecified | RoleSupport | RoleResistance | RoleAtPrice

  /** Derived numbers travel as the decimal that their text denotes. */
  datatype WireEvidence = WireEvidence(threshold: Decimal, confirmationPrice: Text, candidateAtr: Option<Decimal>)

  datatype WireExtremum = WireExtremum(
    kind: WireKind, candleIndex: nat, time: Time, price: Text,
    confirmationIndex: nat, confirmationTime: Time, reversal: Option<WireEvidence>)

  datatype WireZone = WireZone(
    lower: Decimal, upper: Decimal, representative: Decimal, role: WireRole,
    extremumIndices: seq<int>, acceptedCandleIndices: seq<int>, touchCount: nat,
    firstTouchTime: Time, lastTouchTime: Time)

  datatype MapFailure = ReferenceOutside(index: nat) | NoText(error: ValidationError)

  datatype Mapped<+T> = Wire(value: T) | Failed(failure: MapFailure)

  // ---- mapping ----

  function WireKindOf(kind: Kind): (r: WireKind) {
    match kind
    case High => KindHigh
    case Low => KindLow
  }

  function WireRoleOf(role: ZoneRole): (r: WireRole) {
    match role
    case Support => RoleSupport
    case Resistance => RoleResistance
    case AtPrice => RoleAtPrice
  }

  function SourcePrice(candle: SourceCandle, source: PriceSource, kind: Kind): (t: Text) {
    if source == Close then candle.close else if kind == High then candle.high else candle.low
  }

  function ConfirmationPrice(candle: SourceCandle, source: PriceSource, kind: Kind): (t: Text) {
    if source == Close then candle.close else if kind == High then candle.low else candle.high
  }

  ghost predicate IsMappedPoint(point: Extremum, source: PriceSource, candles: seq<SourceCandle>, wire: WireExtremum) {
    && point.candleIndex < |candles| && point.confirmationIndex < |candles|
    && wire.kind == WireKindOf(point.kind)
    && wire.candleIndex == point.candleIndex && wire.time == point.time
    && wire.price == SourcePrice(candles[point.candleIndex], source, point.kind)
    && wire.confirmationIndex == point.confirmationIndex && wire.confirmationTime == point.confirmationTime
    && (point.reversal.Some? <==> wire.reversal.Some?)
    && (point.reversal.Some? ==>
          && Formatted(point.reversal.value.threshold) == Ok(wire.reversal.value.threshold)
          && wire.reversal.value.confirmationPrice
             == ConfirmationPrice(candles[point.confirmationIndex], source, point.kind)
          && (point.reversal.value.candidateAtr.Some? <==> wire.reversal.value.candidateAtr.Some?)
          && (point.reversal.value.candidateAtr.Some? ==>
                Formatted(point.reversal.value.candidateAtr.value) == Ok(wire.reversal.value.candidateAtr.value)))
  }

  ghost predicate AreMappedPoints(points: seq<Extremum>, source: PriceSource, candles: seq<SourceCandle>,
                                  wires: seq<WireExtremum>) {
    |wires| == |points| && forall i :: 0 <= i < |points| ==> IsMappedPoint(points[i], source, candles, wires[i])
  }

  ghost predicate CannotFormat(point: Extremum, error: ValidationError) {
    && point.reversal.Some?
    && (|| Formatted(point.reversal.value.threshold) == Err(error)
        || (point.reversal.value.candidateAtr.Some?
            && Formatted(point.reversal.value.candidateAtr.value) == Err(error)))
  }

  /** A point refers to a missing candle, or one of its numbers has no text. */
  ghost predicate ExtremaCannotMap(points: seq<Extremum>, candles: seq<SourceCandle>, failure: MapFailure) {
    match failure
    case ReferenceOutside(index) =>
      && index < |points|
      && (points[index].candleIndex >= |candles| || points[index].confirmationIndex >= |candles|)
    case NoText(error) => exists i :: 0 <= i < |points| && CannotFormat(points[i], error)
  }

  method MapExtrema(points: seq<Extremum>, source: PriceSource, candles: seq<SourceCandle>)
    returns (r: Mapped<seq<WireExtremum>>)
    ensures r.Wire? ==> AreMappedPoints(points, source, candles, r.value)
    ensures r.Failed? ==> ExtremaCannotMap(points, candles, r.failure)
  {
    hide Formatted, Decimal.Value;
    var wires: seq<WireExtremum> := [];
    var i := 0;
    while i < |points|
      invariant 0 <= i <= |points| && |wires| == i
      invariant forall j :: 0 <= j < i ==> IsMappedPoint(points[j], source, candles, wires[j])
    {
      var point := points[i];
      if point.candleIndex >= |candles| || point.confirmationIndex >= |candles| {
        return Failed(ReferenceOutside(i));
      }
      var wire := WireExtremum(WireKindOf(point.kind), point.candleIndex, point.time,
        SourcePrice(candles[point.candleIndex], source, point.kind), point.confirmationIndex, point.confirmationTime,
        None);
      if point.reversal.Some? {
        var threshold := FormatNumber(point.reversal.value.threshold);
        if threshold.Err? {
          assert CannotFormat(points[i], threshold.error);
          return Failed(NoText(threshold.error));
        }
        var evidence := WireEvidence(threshold.value,
          ConfirmationPrice(candles[point.confirmationIndex], source, point.kind), None);
        if point.reversal.value.candidateAtr.Some? {
          var candidate := FormatNumber(point.reversal.value.candidateAtr.value);
          if candidate.Err? {
            assert CannotFormat(points[i], candidate.error);
            return Failed(NoText(candidate.error));
          }
          evidence := evidence.(candidateAtr := Some(candidate.value));
        }
        wire := wire.(reversal := Some(evidence));
      }
      assert IsMappedPoint(points[i], source, candles, wire);
      wires := wires + [wire];
      i := i + 1;
    }
    return Wire(wires);
  }

  ghost predicate IsMappedZone(zone: PriceZone, wire: WireZone) {
    && Formatted(zone.lower) == Ok(wire.lower)
    && Formatted(zone.upper) == Ok(wire.upper)
    && Formatted(zone.representative) == Ok(wire.representative)
    && wire.role == WireRoleOf(zone.role)
    && wire.extremumIndices == zone.extremumIndices
    && wire.acceptedCandleIndices == zone.acceptedCandleIndices
    && wire.touchCount == zone.touchCount
    && wire.firstTouchTime == zone.firstTouchTime
    && wire.lastTouchTime == zone.lastTouchTime
  }

  method MapZone(zone: PriceZone) returns (r: Mapped<WireZone>)
    ensures r.Wire? ==> IsMappedZone(zone, r.value)
    ensures r.Failed? <==> ZoneCannotMap(zone)
    ensures r.Failed? ==> r.failure == NoText(OUTPUT_OVERFLOW)
  {
    hide Formatted, Decimal.Value;
    var lower := FormatNumber(zone.lower);
    if lower.Err? {
      return Failed(NoText(lower.error));
    }
    var upper := FormatNumber(zone.upper);
    if upper.Err? {
      return Failed(NoText(upper.error));
    }
    var representative := FormatNumber(zone.representative);
    if representative.Err? {
      return Failed(NoText(representative.error));
    }
    var extremumIndices: seq<int> := [];
    for i := 0 to |zone.extremumIndices|
      invariant extremumIndices == zone.extremumIndices[..i]
    {
      extremumIndices := extremumIndices + [zone.extremumIndices[i]];
    }
    var accepted: seq<int> := [];
    for i := 0 to |zone.acceptedCandleIndices|
      invariant accepted == zone.acceptedCandleIndices[..i]
    {
      accepted := accepted + [zone.acceptedCandleIndices[i]];
    }
    return Wire(WireZone(lower.value, upper.value, representative.value, WireRoleOf(zone.role), extremumIndices,
                         accepted, zone.touchCount, zone.firstTouchTime, zone.lastTouchTime));
  }

  /** A bound or the midpoint has no text. */
  ghost predicate ZoneCannotMap(zone: PriceZone) {
    Formatted(zone.lower).Err? || Formatted(zone.upper).Err? || Formatted(zone.representative).Err?
  }

  datatype WireLevels = WireLevels(
    zones: seq<WireZone>, extrema: seq<WireExtremum>, atr: Decimal, candleIndex: nat, valueTime: Time,
    maximumZoneWidth: Decimal, referenceClose: Text)

  ghost predicate IsMappedLevels(result: LevelsResult, source: PriceSource, candles: seq<SourceCandle>,
                                 wire: WireLevels)
  {
    && candles != []
    && AreMappedPoints(result.extrema, source, candles, wire.extrema)
    && |wire.zones| == |result.zones|
    && (forall i :: 0 <= i < |result.zones| ==> IsMappedZone(result.zones[i], wire.zones[i]))
    && Formatted(result.atr.value) == Ok(wire.atr)
    && wire.candleIndex == result.atr.candleIndex && wire.valueTime == result.atr.valueTime
    && Formatted(result.maximumZoneWidth) == Ok(wire.maximumZoneWidth)
    && wire.referenceClose == candles[|candles| - 1].close
  }

  ghost predicate LevelsCannotMap(result: LevelsResult, candles: seq<SourceCandle>, failure: MapFailure) {
    || ExtremaCannotMap(result.extrema, candles, failure)
    || Formatted(result.atr.value).Err? || Formatted(result.maximumZoneWidth).Err?
    || exists i :: 0 <= i < |result.zones| && ZoneCannotMap(result.zones[i])
  }

  method MapLevels(result: LevelsResult, source: PriceSource, candles: seq<SourceCandle>)
    returns (r: Mapped<WireLevels>)
    requires candles != []
    ensures r.Wire? ==> IsMappedLevels(result, source, candles, r.value)
    ensures r.Failed? ==> LevelsCannotMap(result, candles, r.failure)
  {
    hide Formatted, AreMappedPoints, ExtremaCannotMap, IsMappedZone, ZoneCannotMap, Decimal.Value;
    var extrema := MapExtrema(result.extrema, source, candles);
    if extrema.Failed? {
      return Failed(extrema.failure);
    }
    var atr := FormatNumber(result.atr.value);
    if atr.Err? {
      return Failed(NoText(atr.error));
    }
    var width := FormatNumber(result.maximumZoneWidth);
    if width.Err? {
      return Failed(NoText(width.error));
    }
    var zones: seq<WireZone> := [];
    for i := 0 to |result.zones|
      invariant |zones| == i
      invariant forall j :: 0 <= j < i ==> IsMappedZone(result.zones[j], zones[j])
    {
      var zone := MapZone(result.zones[i]);
      if zone.Failed? {
        return Failed(zone.failure);
      }
      zones := zones + [zone.value];
    }
    return Wire(WireLevels(zones, extrema.value, atr.value, result.atr.candleIndex, result.atr.valueTime, width.value,
                           candles[|candles| - 1].close));
  }

  // ---- what a mapped message says ----

  /** A mapped point carries the source texts of its two candles and the printed evidence. */
  lemma MappedPointMeans(point: Extremum, source: PriceSource, candles: seq<SourceCandle>, wire: WireExtremum)
    requires IsMappedPoint(point, source, candles, wire)
    ensures point.candleIndex < |candles| && point.confirmationIndex < |candles|
    ensures wire.kind == KindHigh <==> point.kind == High
    ensures wire.kind == KindLow <==> point.kind == Low
    ensures wire.candleIndex == point.candleIndex && wire.time == point.time
    ensures wire.confirmationIndex == point.confirmationIndex && wire.confirmationTime == point.confirmationTime
    ensures var c := candles[point.candleIndex];
      && (source == Close ==> wire.price == c.close)
      && (source == HighLow && point.kind == High ==> wire.price == c.high)
      && (source == HighLow && point.kind == Low ==> wire.price == c.low)
    ensures point.reversal.Some? <==> wire.reversal.Some?
    ensures point.reversal.Some? ==>
      var c, e, w := candles[point.confirmationIndex], point.reversal.value, wire.reversal.value;
      && (source == Close ==> w.confirmationPrice == c.close)
      && (source == HighLow && point.kind == High ==> w.confirmationPrice == c.low)
      && (source == HighLow && point.kind == Low ==> w.confirmationPrice == c.high)
      && w.threshold.Value() == Sig(8, e.threshold.Value())
      && (e.candidateAtr.Some? <==> w.candidateAtr.Some?)
      && (e.candidateAtr.Some? ==> w.candidateAtr.value.Value() == Sig(8, e.candidateAtr.value.Value()))
  {
    hide Formatted, Sig, Decimal.Value;
    if point.reversal.Some? {
      FormattedIsRounded(point.reversal.value.threshold);
      if point.reversal.value.candidateAtr.Some? {
        FormattedIsRounded(point.reversal.value.candidateAtr.value);
      }
    }
  }

  /** A mapped zone carries the printed prices and everything else unchanged. */
  lemma MappedZoneMeans(zone: PriceZone, wire: WireZone)
    requires IsMappedZone(zone, wire)
    ensures wire.lower.Value() == Sig(8, zone.lower.Value())
    ensures wire.upper.Value() == Sig(8, zone.upper.Value())
    ensures wire.representative.Value() == Sig(8, zone.representative.Value())
    ensures wire.role == RoleSupport <==> zone.role == Support
    ensures wire.role == RoleResistance <==> zone.role == Resistance
    ensures wire.role == RoleAtPrice <==> zone.role == AtPrice
    ensures wire.extremumIndices == zone.extremumIndices
    ensures wire.acceptedCandleIndices == zone.acceptedCandleIndices && wire.touchCount == zone.touchCount
    ensures wire.firstTouchTime == zone.firstTouchTime && wire.lastTouchTime == zone.lastTouchTime
  {
    hide Formatted, Sig, Decimal.Value;
    FormattedIsRounded(zone.lower);
    FormattedIsRounded(zone.upper);
    FormattedIsRounded(zone.representative);
  }

  /** A mapped levels result maps all its points and zones in order, with the printed ATR and width. */
  lemma MappedLevelsMeans(result: LevelsResult, source: PriceSource, candles: seq<SourceCandle>, wire: WireLevels)
    requires IsMappedLevels(result, source, candles, wire)
    ensures candles != [] && wire.referenceClose == candles[|candles| - 1].close
    ensures |wire.extrema| == |result.extrema|
    ensures forall i :: 0 <= i < |result.extrema| ==> IsMappedPoint(result.extrema[i], source, candles, wire.extrema[i])
    ensures |wire.zones| == |result.zones|
    ensures forall i :: 0 <= i < |result.zones| ==> IsMappedZone(result.zones[i], wire.zones[i])
    ensures wire.atr.Value() == Sig(8, result.atr.value.Value())
    ensures wire.candleIndex == result.atr.candleIndex && wire.valueTime == result.atr.valueTime
    ensures wire.maximumZoneWidth.Value() == Sig(8, result.maximumZoneWidth.Value())
  {
    hide Formatted, Sig, Decimal.Value, IsMappedPoint, IsMappedZone;
    FormattedIsRounded(result.atr.value);
    FormattedIsRounded(result.maximumZoneWidth);
  }

  // ---- checking ----

  datatype MethodName = LocalMethod | PercentMethod | AtrMethod

  function MethodNameOf(algorithm: Method): (name: MethodName) {
    match algorithm
    case LocalExtrema(_) => LocalMethod
    case PercentReversal(_) => PercentMethod
    case AtrReversal(_, _) => AtrMethod
  }

  datatype ResultView = ResultView(
    candles: seq<SourceCandle>, extrema: Option<seq<WireExtremum>>, zones: seq<WireZone>,
    algorithm: MethodName, source: PriceSource, minTouch: nat)

  predicate ExpectedPrice(candle: SourceCandle, source: PriceSource, kind: WireKind, price: Text) {
    if source == HighLow then
      (kind == KindHigh && price == candle.high) || (kind == KindLow && price == candle.low)
    else price == candle.close
  }

  predicate ExpectedConfirmation(candle: SourceCandle, source: PriceSource, kind: WireKind, price: Text) {
    if source == HighLow then price == (if kind == KindHigh then candle.low else candle.high) else price == candle.close
  }

  /** What the checker demands of one extremum. */
  ghost predicate AcceptableExtremum(view: ResultView, point: WireExtremum) {
    && point.candleIndex < |view.candles| && point.confirmationIndex < |view.candles|
    && point.time == view.candles[point.candleIndex].openTime
    && point.confirmationTime == view.candles[point.confirmationIndex].closeTime
    && point.candleIndex <= point.confirmationIndex
    && point.kind != KindUnspecified
    && ExpectedPrice(view.candles[point.candleIndex], view.source, point.kind, point.price)
    && (view.algorithm == LocalMethod <==> point.reversal == None)
    && (point.reversal.Some? ==>
          && (view.algorithm == AtrMethod ==> point.reversal.value.candidateAtr.Some?)
          && ExpectedConfirmation(view.candles[point.confirmationIndex], view.source, point.kind,
                                  point.reversal.value.confirmationPrice))
  }

  /** The demands on an extremum, one by one. */
  lemma ExtremumDemands(view: ResultView, point: WireExtremum)
    ensures AcceptableExtremum(view, point) <==>
      && point.candleIndex <= point.confirmationIndex < |view.candles|
      && point.time == view.candles[point.candleIndex].openTime
      && point.confirmationTime == view.candles[point.confirmationIndex].closeTime
      && (point.kind == KindHigh || point.kind == KindLow)
      && (view.source == Close ==> point.price == view.candles[point.candleIndex].close)
      && (view.source == HighLow && point.kind == KindHigh ==> point.price == view.candles[point.candleIndex].high)
      && (view.source == HighLow && point.kind == KindLow ==> point.price == view.candles[point.candleIndex].low)
      && (view.algorithm == LocalMethod ==> point.reversal == None)
      && (view.algorithm != LocalMethod ==> point.reversal.Some?)
      && (view.algorithm == AtrMethod ==> point.reversal.Some? && point.reversal.value.candidateAtr.Some?)
      && (point.reversal.Some? ==>
            var price, c := point.reversal.value.confirmationPrice, view.candles[point.confirmationIndex];
            && (view.source == Close ==> price == c.close)
            && (view.source == HighLow && point.kind == KindHigh ==> price == c.low)
            && (view.source == HighLow && point.kind == KindLow ==> price == c.high))
  {
  }

  /** Returns the first extremum that breaks a demand. */
  method ValidateExtrema(view: ResultView) returns (broken: Option<nat>)
    requires view.extrema.Some?
    ensures broken == None
            <==> forall i :: 0 <= i < |view.extrema.value| ==> AcceptableExtremum(view, view.extrema.value[i])
    ensures broken.Some? ==>
      && broken.value < |view.extrema.value|
      && !AcceptableExtremum(view, view.extrema.value[broken.value])
      && forall i :: 0 <= i < broken.value ==> AcceptableExtremum(view, view.extrema.value[i])
  {
    var points := view.extrema.value;
    var index := 0;
    while index < |points|
      invariant 0 <= index <= |points|
      invariant forall i :: 0 <= i < index ==> AcceptableExtremum(view, points[i])
    {
      var point := points[index];
      if point.candleIndex >= |view.candles| || point.confirmationIndex >= |view.candles| {
        return Some(index);
      }
      var candle, confirmation := view.candles[point.candleIndex], view.candles[point.confirmationIndex];
      if point.time != candle.openTime || point.confirmationTime != confirmation.closeTime {
        return Some(index);
      }
      if point.confirmationIndex < point.candleIndex {
        return Some(index);
      }
      if point.kind == KindUnspecified {
        return Some(index);
      }
      var expectedPrice := candle.close;
      if view.source == HighLow {
        expectedPrice := if point.kind == KindHigh then candle.high else candle.low;
      }
      if point.price != expectedPrice {
        return Some(index);
      }
      if view.algorithm == LocalMethod && point.reversal.Some? {
        return Some(index);
      }
      if view.algorithm != LocalMethod && point.reversal == None {
        return Some(index);
      }
      if view.algorithm == AtrMethod && point.reversal.Some? && point.reversal.value.candidateAtr == None {
        return Some(index);
      }
      if point.reversal.Some? {
        var confirmationPrice := confirmation.close;
        if view.source == HighLow {
          confirmationPrice := if point.kind == KindHigh then confirmation.low else confirmation.high;
        }
        if point.reversal.value.confirmationPrice != confirmationPrice {
          return Some(index);
        }
      }
      index := index + 1;
    }
    return None;
  }

  predicate KnownExtremum(view: ResultView, index: int) {
    view.extrema.Some? && index < |view.extrema.value|
  }

  /** What the checker demands of one zone. */
  ghost predicate AcceptableZone(view: ResultView, zone: WireZone) {
    && zone.touchCount == |zone.acceptedCandleIndices| >= view.minTouch
    && zone.lower.Value() <= zone.upper.Value()
    && zone.lower.Value() <= zone.representative.Value() <= zone.upper.Value()
    && zone.role != RoleUnspecified
    && (forall i :: 0 <= i < |zone.extremumIndices| ==> KnownExtremum(view, zone.extremumIndices[i]))
    && (forall i :: 0 <= i < |zone.acceptedCandleIndices| ==> zone.acceptedCandleIndices[i] < |view.candles|)
    && (|zone.acceptedCandleIndices| > 0 ==>
          var first := zone.acceptedCandleIndices[0];
          var last := zone.acceptedCandleIndices[|zone.acceptedCandleIndices| - 1];
          && 0 <= first < |view.candles| && zone.firstTouchTime == view.candles[first].openTime
          && 0 <= last < |view.candles| && zone.lastTouchTime == view.candles[last].openTime)
  }

  /** The demands on a zone, one by one. */
  lemma ZoneDemands(view: ResultView, zone: WireZone)
    ensures AcceptableZone(view, zone) <==>
      var touches := zone.acceptedCandleIndices;
      && zone.touchCount == |touches| && zone.touchCount >= view.minTouch
      && zone.lower.Value() <= zone.representative.Value() <= zone.upper.Value()
      && (zone.role == RoleSupport || zone.role == RoleResistance || zone.role == RoleAtPrice)
      && (zone.extremumIndices != [] ==> view.extrema.Some?)
      && (forall i :: 0 <= i < |zone.extremumIndices| ==>
            view.extrema.Some? && zone.extremumIndices[i] < |view.extrema.value|)
      && (forall i :: 0 <= i < |touches| ==> touches[i] < |view.candles|)
      && (touches != [] ==>
            && 0 <= touches[0] < |view.candles| && 0 <= touches[|touches| - 1] < |view.candles|
            && zone.firstTouchTime == view.candles[touches[0]].openTime
            && zone.lastTouchTime == view.candles[touches[|touches| - 1]].openTime)
  {
    hide Decimal.Value;
    if zone.extremumIndices != [] && AcceptableZone(view, zone) {
      assert KnownExtremum(view, zone.extremumIndices[0]);
    }
  }

  ghost predicate UnsignedIndices(zone: WireZone) {
    && (forall i :: 0 <= i < |zone.extremumIndices| ==> 0 <= zone.extremumIndices[i])
    && (forall i :: 0 <= i < |zone.acceptedCandleIndices| ==> 0 <= zone.acceptedCandleIndices[i])
  }

  method ValidateZone(view: ResultView, zone: WireZone) returns (ok: bool)
    requires UnsignedIndices(zone)
    ensures ok <==> AcceptableZone(view, zone)
  {
    hide Decimal.Value, Decimal.LessThan;
    if zone.touchCount != |zone.acceptedCandleIndices| || zone.touchCount < view.minTouch {
      return false;
    }
    if zone.upper.LessThan(zone.lower)
       || zone.representative.LessThan(zone.lower) || zone.upper.LessThan(zone.representative) {
      return false;
    }
    if zone.role == RoleUnspecified {
      return false;
    }
    for i := 0 to |zone.extremumIndices|
      invariant forall j :: 0 <= j < i ==> KnownExtremum(view, zone.extremumIndices[j])
    {
      if !KnownExtremum(view, zone.extremumIndices[i]) {
        return false;
      }
    }
    for i := 0 to |zone.acceptedCandleIndices|
      invariant forall j :: 0 <= j < i ==> zone.acceptedCandleIndices[j] < |view.candles|
    {
      if zone.acceptedCandleIndices[i] >= |view.candles| {
        return false;
      }
    }
    if |zone.acceptedCandleIndices| > 0 {
      var first := view.candles[zone.acceptedCandleIndices[0]].openTime;
      var last := view.candles[zone.acceptedCandleIndices[|zone.acceptedCandleIndices| - 1]].openTime;
      if zone.firstTouchTime != first || zone.lastTouchTime != last {
        return false;
      }
    }
    return true;
  }

  /** Returns the first zone that breaks a demand. */
  method ValidateZones(view: ResultView) returns (broken: Option<nat>)
    requires forall i :: 0 <= i < |view.zones| ==> UnsignedIndices(view.zones[i])
    ensures broken == None <==> forall i :: 0 <= i < |view.zones| ==> AcceptableZone(view, view.zones[i])
    ensures broken.Some? ==>
      && broken.value < |view.zones|
      && !AcceptableZone(view, view.zones[broken.value])
      && forall i :: 0 <= i < broken.value ==> AcceptableZone(view, view.zones[i])
  {
    hide AcceptableZone, UnsignedIndices;
    var index := 0;
    while index < |view.zones|
      invariant 0 <= index <= |view.zones|
      invariant forall i :: 0 <= i < index ==> AcceptableZone(view, view.zones[i])
    {
      var ok := ValidateZone(view, view.zones[index]);
      if !ok {
        return Some(index);
      }
      index := index + 1;
    }
    return None;
  }

  /** An ATR answer must point at an existing candle and carry its closing time. */
  predicate ValidateResultReference(index: nat, valueTime: Time, candles: seq<SourceCandle>)
    ensures ValidateResultReference(index, valueTime, candles)
            <==> exists i :: 0 <= i < |candles| && i == index && candles[i].closeTime == valueTime
  {
    index < |candles| && valueTime == candles[index].closeTime
  }

  // ---- the producer against the checker ----

  /** The response candles carry the times of the candles that were analysed. */
  ghost predicate SameTimes(candles: seq<Candle>, texts: seq<SourceCandle>) {
    && |texts| == |candles|
    && forall i :: 0 <= i < |texts| ==>
         texts[i].openTime == candles[i].openTime && texts[i].closeTime == candles[i].closeTime
  }

  /** Every detected extremum, mapped to the wire, meets every demand of the checker. */
  lemma ExtremaAccepted(candles: seq<Candle>, texts: seq<SourceCandle>, settings: ExtremaSettings,
                        points: seq<Extremum>, view: ResultView, i: nat)
    requires IsDetected(candles, settings, points) && SameTimes(candles, texts)
    requires view.candles == texts && view.extrema.Some? && view.source == settings.source
    requires view.algorithm == MethodNameOf(settings.algorithm)
    requires AreMappedPoints(points, settings.source, texts, view.extrema.value) && i < |points|
    ensures AcceptableExtremum(view, view.extrema.value[i])
  {
    hide Turns, Applicable, Formatted, Divided, Decimal.Value, Selected;
    var turns := Turns(Bars(candles), settings);
    TurnWithin(Bars(candles), settings, i);
    assert IsPoint(candles, settings, turns[i], points[i]);
    assert IsMappedPoint(points[i], settings.source, texts, view.extrema.value[i]);
  }

  ghost predicate Overprinted(zone: PriceZone)
    requires zone.representative.Value() != 0.0
  {
    zone.upper.Value() < zone.representative.Value() && IsTie(zone.representative.Value())
  }

  /** The printed bounds and midpoint of a zone over positive prices. */
  lemma PrintedBounds(candles: seq<Candle>, points: seq<Extremum>, group: seq<int>, close: Decimal, spacing: nat,
                      zone: PriceZone, wire: WireZone)
    requires IsZone(candles, points, group, close, spacing, zone) && IsMappedZone(zone, wire)
    requires 0.0 < zone.lower.Value() <= zone.upper.Value()
    ensures zone.representative.Value() > 0.0
    ensures wire.lower.Value() <= wire.upper.Value() && wire.lower.Value() <= wire.representative.Value()
    ensures wire.representative.Value() <= wire.upper.Value() <==> !Overprinted(zone)
  {
    hide Divided, Formatted, Sig, Touches, IsTie, Over, Decimal.Value;
    RepresentativeIsMidpoint(candles, points, group, close, spacing, zone);
    FormattedIsRounded(zone.lower);
    FormattedIsRounded(zone.upper);
    FormattedIsRounded(zone.representative);
    var lower, upper := zone.lower.Value(), zone.upper.Value();
    HalfSum(lower, upper);
    PrintedMidpoint(lower, upper, Over(lower + upper, 2.0), zone.representative.Value());
  }

  ghost predicate PositivePoints(points: seq<Extremum>) {
    forall i :: 0 <= i < |points| ==> points[i].price.Value() > 0.0
  }

  lemma DetectedPositive(candles: seq<Candle>, settings: ExtremaSettings, points: seq<Extremum>)
    requires IsDetected(candles, settings, points) && SoundBars(Bars(candles))
    ensures PositivePoints(points)
  {
    hide Turns, Applicable, Divided, Decimal.Value;
    var turns := Turns(Bars(candles), settings);
    forall i | 0 <= i < |points|
      ensures points[i].price.Value() > 0.0
    {
      assert IsPoint(candles, settings, turns[i], points[i]);
      assert SoundBar(Bars(candles)[turns[i].index]);
    }
  }

  /** Bounds of a kept group come from its first and last reference in price order. */
  lemma GroupBounds(points: seq<Extremum>, g: Span)
    requires SpanWithin(g, |PriceOrder(SpotsOf(points))|)
    ensures var order := PriceOrder(SpotsOf(points));
      && |order| == |points|
      && 0 <= order[g.start] < |points| && 0 <= order[g.end - 1] < |points|
      && points[order[g.start]].price.Value() <= points[order[g.end - 1]].price.Value()
  {
    hide PriceOrder, Decimal.Value;
    var spots := SpotsOf(points);
    PriceOrderAscends(spots);
    var prices := PricesAt(spots, PriceOrder(spots));
    assert prices[g.start] <= prices[g.end - 1];
  }

  lemma KeptTouches(points: seq<Extremum>, width: real, spacing: nat, minTouches: nat, i: nat)
    requires width >= 0.0 && i < |ZonesOf(SpotsOf(points), width, spacing, minTouches)|
    ensures var g := ZonesOf(SpotsOf(points), width, spacing, minTouches)[i];
      var order := PriceOrder(SpotsOf(points));
      && SpanWithin(g, |order|) && References(order, |points|)
      && |Touches(SpotsOf(points), order[g.start..g.end], spacing)| >= minTouches
  {
    hide PriceOrder, Touches, Groups, Kept, Decimal.Value;
    var spots := SpotsOf(points);
    var order := PriceOrder(spots);
    PriceOrderAscends(spots);
    var prices := PricesAt(spots, order);
    GroupsSpaced(prices, width, 0);
    var kept := ZonesOf(spots, width, spacing, minTouches);
    assert kept == Kept(spots, order, Groups(prices, width, 0), spacing, minTouches);
    assert kept[i] in kept;
    KeptFrom(spots, order, Groups(prices, width, 0), spacing, minTouches, kept[i]);
  }

  /** A produced zone is refused in exactly one situation: its printed midpoint jumps over its printed upper bound. */
  lemma ZoneAccepted(candles: seq<Candle>, texts: seq<SourceCandle>, settings: LevelSettings, result: LevelsResult,
                     view: ResultView, i: nat)
    requires IsLevels(candles, settings, result) && SoundBars(Bars(candles)) && SameTimes(candles, texts)
    requires view.candles == texts && view.extrema.Some? && |view.extrema.value| == |result.extrema|
    requires view.minTouch == settings.minTouches
    requires i < |result.zones| == |view.zones| && IsMappedZone(result.zones[i], view.zones[i])
    ensures result.zones[i].representative.Value() > 0.0
    ensures AcceptableZone(view, view.zones[i]) <==> !Overprinted(result.zones[i])
  {
    hide IsDetected, PriceOrder, Divided, Formatted, Touches, Overprinted, Decimal.Value, Decimal.Mul, Decimal.Add,
      ZonesOf;
    var points, spacing := result.extrema, settings.minTouchSeparationBars;
    var zone, wire := result.zones[i], view.zones[i];
    var order := PriceOrder(SpotsOf(points));
    var kept := ZonesOf(SpotsOf(points), result.maximumZoneWidth.Value(), spacing, settings.minTouches);
    var g := kept[i];
    assert ZoneOfSpan(candles, points, order, g, result.referenceClose, spacing, zone);
    var group := order[g.start..g.end];
    DetectedPositive(candles, settings.extrema, points);
    GroupBounds(points, g);
    KeptTouches(points, result.maximumZoneWidth.Value(), spacing, settings.minTouches, i);
    PrintedBounds(candles, points, group, result.referenceClose, spacing, zone, wire);
    ZoneReferences(candles, points, group, result.referenceClose, spacing, zone, wire, texts);
  }

  lemma ZoneReferences(candles: seq<Candle>, points: seq<Extremum>, group: seq<int>, close: Decimal, spacing: nat,
                       zone: PriceZone, wire: WireZone, texts: seq<SourceCandle>)
    requires IsZone(candles, points, group, close, spacing, zone) && IsMappedZone(zone, wire)
    requires SameTimes(candles, texts)
    ensures wire.touchCount == |wire.acceptedCandleIndices| >= 1 && wire.role != RoleUnspecified
    ensures forall k :: 0 <= k < |wire.extremumIndices| ==> 0 <= wire.extremumIndices[k] < |points|
    ensures forall k :: 0 <= k < |wire.acceptedCandleIndices| ==> 0 <= wire.acceptedCandleIndices[k] < |texts|
    ensures wire.firstTouchTime == texts[wire.acceptedCandleIndices[0]].openTime
    ensures wire.lastTouchTime == texts[wire.acceptedCandleIndices[|wire.acceptedCandleIndices| - 1]].openTime
  {
    hide Divided, Formatted, Touches, Decimal.Value, Decimal.Add;
  }

  /** Zones with a 16-digit decimal between their bounds are never refused. */
  lemma ShortPricesAccepted(zone: PriceZone)
    requires 0.0 < zone.lower.Value() <= zone.upper.Value()
    requires zone.representative.Value() == Midpoint(zone.lower.Value(), zone.upper.Value())
    requires RoomFor16(zone.lower.Value(), zone.upper.Value())
    ensures zone.representative.Value() > 0.0 && !Overprinted(zone)
  {
    hide Sig, RoomFor16, Over, Decimal.Value, IsTie, Midpoint;
    MidpointInside(zone.lower.Value(), zone.upper.Value());
    MidpointWithin(zone.lower.Value(), zone.upper.Value());
  }

  /** The ATR evidence of a levels answer always refers to the last candle. */
  lemma LevelsReferenceAccepted(candles: seq<Candle>, texts: seq<SourceCandle>, settings: LevelSettings,
                                result: LevelsResult)
    requires IsLevels(candles, settings, result) && SameTimes(candles, texts)
    ensures ValidateResultReference(result.atr.candleIndex, result.atr.valueTime, texts)
  {
    hide IsDetected, AreZones, Decimal.Mul, Decimal.Value;
  }
}
