/** Support and resistance zones built from extrema on exact decimals. */
module Levels {
  import opened Powers
  import opened Decimals
  import opened Rounding
  import opened Results
  import opened Division
  import opened Market
  import opened TrueRanges
  import opened AtrSequences
  import opened Swings
  import opened Extrema
  import opened Detection
  import opened Sorting
  import opened Zones

  datatype PriceZone = PriceZone(
    lower: Decimal, upper: Decimal, representative: Decimal, role: ZoneRole,
    extremumIndices: seq<int>, acceptedCandleIndices: seq<int>, touchCount: nat,
    firstTouchTime: Time, lastTouchTime: Time)

  datatype LevelsResult = LevelsResult(
    zones: seq<PriceZone>, extrema: seq<Extremum>, atr: AtrResult, maximumZoneWidth: Decimal, referenceClose: Decimal)

  const TWO := FromInt(2)

  ghost function SpotsOf(points: seq<Extremum>): (spots: seq<Spot>)
    ensures |spots| == |points|
    ensures forall i :: 0 <= i < |spots| ==>
      spots[i] == Spot(points[i].price.Value(), points[i].candleIndex, points[i].kind)
  {
    seq(|points|, i requires 0 <= i < |points| => Spot(points[i].price.Value(), points[i].candleIndex, points[i].kind))
  }

  ghost predicate GroupWithin(points: seq<Extremum>, group: seq<int>) {
    group != [] && forall i :: 0 <= i < |group| ==> 0 <= group[i] < |points|
  }

  ghost predicate PointsWithin(candles: seq<Candle>, points: seq<Extremum>) {
    forall i :: 0 <= i < |points| ==> points[i].candleIndex < |candles|
  }

  /** The zone of one group, determined completely. */
  ghost predicate IsZone(candles: seq<Candle>, points: seq<Extremum>, group: seq<int>, close: Decimal, spacing: nat,
                         zone: PriceZone)
  {
    && GroupWithin(points, group)
    && zone.lower == points[group[0]].price
    && zone.upper == points[group[|group| - 1]].price
    && Divided(zone.lower.Add(zone.upper), TWO) == Ok(zone.representative)
    && zone.role == RoleOf(close.Value(), zone.lower.Value(), zone.upper.Value())
    && zone.extremumIndices == group
    && zone.acceptedCandleIndices == Touches(SpotsOf(points), group, spacing)
    && zone.touchCount == |zone.acceptedCandleIndices| >= 1
    && (forall i :: 0 <= i < zone.touchCount ==> 0 <= zone.acceptedCandleIndices[i] < |candles|)
    && zone.firstTouchTime == candles[zone.acceptedCandleIndices[0]].openTime
    && zone.lastTouchTime == candles[zone.acceptedCandleIndices[zone.touchCount - 1]].openTime
  }

  ghost predicate MidpointFails(points: seq<Extremum>, error: ValidationError) {
    exists p, q :: p in points && q in points && Divided(p.price.Add(q.price), TWO) == Err(error)
  }

  /** The representative price is the correctly rounded middle of the bounds. */
  lemma RepresentativeIsMidpoint(candles: seq<Candle>, points: seq<Extremum>, group: seq<int>, close: Decimal,
                                 spacing: nat, zone: PriceZone)
    requires IsZone(candles, points, group, close, spacing, zone)
    ensures zone.representative.Value() == Midpoint(zone.lower.Value(), zone.upper.Value())
  {
    hide Divided, Sig, Touches, Over, Times, Pow10;
    DividedIsRounded(zone.lower.Add(zone.upper), TWO);
  }

  /** Counts a chronological candle when it is far enough from the last one counted. */
  method AcceptTouches(candles: seq<int>, spacing: nat) returns (accepted: seq<int>)
    requires Nondecreasing(candles)
    ensures accepted == Accepted(candles, |candles|, spacing)
  {
    hide Nondecreasing;
    accepted := [];
    var i := 0;
    while i < |candles|
      invariant 0 <= i <= |candles|
      invariant accepted == Accepted(candles, i, spacing)
    {
      LastAcceptedBelow(candles, i, spacing);
      var index := candles[i];
      assert accepted != [] ==> index - accepted[|accepted| - 1] >= 0;
      if |accepted| == 0 || index - accepted[|accepted| - 1] >= spacing {
        accepted := accepted + [index];
      }
      i := i + 1;
    }
  }

  /** Accepted touches are candles of the history, and there is at least one. */
  lemma TouchedCandles(candles: seq<Candle>, points: seq<Extremum>, group: seq<int>, spacing: nat)
    requires GroupWithin(points, group) && PointsWithin(candles, points) && spacing >= 1
    ensures var accepted := Touches(SpotsOf(points), group, spacing);
      accepted != [] && forall k :: 0 <= k < |accepted| ==> 0 <= accepted[k] < |candles|
  {
    hide Touches, Decimal.Value, Spread;
    var spots := SpotsOf(points);
    var accepted := Touches(spots, group, spacing);
    TouchesFacts(spots, group, spacing);
    forall k | 0 <= k < |accepted|
      ensures 0 <= accepted[k] < |candles|
    {
      var m :| 0 <= m < |group| && CandlesAt(spots, group)[m] == accepted[k];
    }
  }

  method ZoneFromGroup(candles: seq<Candle>, points: seq<Extremum>, group: seq<int>, close: Decimal, spacing: nat)
    returns (r: Result<PriceZone>)
    requires GroupWithin(points, group) && PointsWithin(candles, points) && spacing >= 1
    ensures r.Ok? ==> IsZone(candles, points, group, close, spacing, r.value)
    ensures r.Err? ==> Divided(points[group[0]].price.Add(points[group[|group| - 1]].price), TWO) == Err(r.error)
  {
    hide Divided, Decimal.Add, Decimal.Value, MergeSorted, Accepted, StableSort, Nondecreasing, WeakOrder;
    var lower, upper := points[group[0]].price, points[group[|group| - 1]].price;
    var midpoint := Divide(lower.Add(upper), TWO);
    if midpoint.Err? {
      return Err(midpoint.error);
    }
    var role := AtPrice;
    if upper.LessThan(close) {
      role := Support;
    } else if close.LessThan(lower) {
      role := Resistance;
    }
    ghost var spots := SpotsOf(points);
    var extremumIndices: seq<int> := [];
    var touched := new int[|group|];
    var i := 0;
    while i < |group|
      invariant 0 <= i <= |group|
      invariant extremumIndices == group[..i]
      invariant touched[..i] == CandlesAt(spots, group)[..i]
    {
      extremumIndices := extremumIndices + [group[i]];
      touched[i] := points[group[i]].candleIndex;
      assert touched[..i + 1] == touched[..i] + [touched[i]];
      i := i + 1;
    }
    assert touched[..] == CandlesAt(spots, group);
    SortIndices(touched, IntLess());
    IntLessOrder(CandlesAt(spots, group));
    var accepted := AcceptTouches(touched[..], spacing);
    TouchedCandles(candles, points, group, spacing);
    return Ok(PriceZone(lower, upper, midpoint.value, role, extremumIndices, accepted, |accepted|,
                        candles[accepted[0]].openTime, candles[accepted[|accepted| - 1]].openTime));
  }

  // ---- all zones ----

  predicate PointBefore(p: Extremum, q: Extremum) {
    if p.price.LessThan(q.price) then true
    else if q.price.LessThan(p.price) then false
    else if p.candleIndex != q.candleIndex then p.candleIndex < q.candleIndex
    else p.kind == High && q.kind == Low
  }

  function PointLess(points: seq<Extremum>): (less: Less) {
    (a: int, b: int) => 0 <= a < |points| && 0 <= b < |points| && PointBefore(points[a], points[b])
  }

  lemma PointOrderIsPriceOrder(points: seq<Extremum>)
    ensures MergeSorted(PointLess(points), Iota(|points|)) == PriceOrder(SpotsOf(points))
    ensures WeakOrder(PointLess(points), Iota(|points|))
  {
    hide MergeSorted, Decimal.Value;
    var spots := SpotsOf(points);
    forall a, b | a in Iota(|points|) && b in Iota(|points|)
      ensures PointLess(points)(a, b) == Before(spots)(a, b)
    {
      assert PointBefore(points[a], points[b]) == SpotBefore(spots[a], spots[b]) by {
        PointBeforeMeans(points[a], points[b]);
      }
    }
    SortAgrees(PointLess(points), Before(spots), Iota(|points|));
    BeforeIsWeakOrder(spots);
    SameWeakOrder(PointLess(points), Before(spots), Iota(|points|));
  }

  lemma PointBeforeMeans(p: Extremum, q: Extremum)
    ensures PointBefore(p, q)
            <==> SpotBefore(Spot(p.price.Value(), p.candleIndex, p.kind), Spot(q.price.Value(), q.candleIndex, q.kind))
  {
    hide Decimal.Value, Decimal.LessThan;
  }

  lemma SameWeakOrder(less: Less, other: Less, s: seq<int>)
    requires WeakOrder(other, s) && forall x, y :: x in s && y in s ==> less(x, y) == other(x, y)
    ensures WeakOrder(less, s)
  {
  }

  /** One zone for each kept group, in the same order. */
  ghost predicate AreZones(candles: seq<Candle>, points: seq<Extremum>, order: seq<int>, kept: seq<Span>,
                           close: Decimal, spacing: nat, zones: seq<PriceZone>)
  {
    && InBounds(kept, |order|)
    && |zones| == |kept|
    && forall i :: 0 <= i < |kept| ==> ZoneOfSpan(candles, points, order, kept[i], close, spacing, zones[i])
  }

  ghost predicate ZoneOfSpan(candles: seq<Candle>, points: seq<Extremum>, order: seq<int>, g: Span, close: Decimal,
                             spacing: nat, zone: PriceZone)
  {
    SpanWithin(g, |order|) && IsZone(candles, points, order[g.start..g.end], close, spacing, zone)
  }

  method PointReferences(points: seq<Extremum>) returns (order: seq<int>)
    ensures order == PriceOrder(SpotsOf(points))
  {
    var indices := new int[|points|];
    var i := 0;
    while i < |points|
      invariant 0 <= i <= |points|
      invariant forall j :: 0 <= j < i ==> indices[j] == j
    {
      indices[i] := i;
      i := i + 1;
    }
    hide *;
    assert indices[..] == Iota(|points|);
    PointOrderIsPriceOrder(points);
    SortIndices(indices, PointLess(points));
    order := indices[..];
  }

  method BuildZones(candles: seq<Candle>, points: seq<Extremum>, width: Decimal, close: Decimal, minTouches: nat,
                    spacing: nat)
    returns (r: Result<seq<PriceZone>>)
    requires PointsWithin(candles, points) && spacing >= 1 && width.Value() >= 0.0
    ensures r.Ok? ==> AreZones(candles, points, PriceOrder(SpotsOf(points)),
                               ZonesOf(SpotsOf(points), width.Value(), spacing, minTouches), close, spacing, r.value)
    ensures r.Err? ==> MidpointFails(points, r.error)
  {
    hide *;
    ghost var spots, w := SpotsOf(points), width.Value();
    var order := PointReferences(points);
    ghost var prices := PricesStart(points, order, w, spacing, minTouches);
    ghost var kept: seq<Span> := [];
    var zones: seq<PriceZone> := [];
    NoZones(candles, points, order, close, spacing);
    var start := 0;
    while start < |order|
      invariant 0 <= start <= |order|
      invariant InBounds(Groups(prices, w, start), |order|)
      invariant kept + Kept(spots, order, Groups(prices, w, start), spacing, minTouches)
              == ZonesOf(spots, w, spacing, minTouches)
      invariant AreZones(candles, points, order, kept, close, spacing, zones)
      decreases |order| - start
    {
      var lower := points[order[start]].price;
      var boundary := lower.Add(width);
      var end := start + 1;
      while end < |order| && points[order[end]].price.AtMost(boundary)
        invariant start < end <= |order|
        invariant GroupEnd(prices, prices[start] + w, end) == GroupEnd(prices, prices[start] + w, start + 1)
      {
        GroupEndStep(prices, prices[start] + w, end);
        end := end + 1;
      }
      GroupEndStep(prices, prices[start] + w, end);
      GroupsStep(spots, order, prices, w, start, end, spacing, minTouches);
      GroupFits(points, order, start, end);
      var zone := ZoneFromGroup(candles, points, order[start..end], close, spacing);
      if zone.Err? {
        GroupFails(points, order[start..end], zone.error);
        return Err(zone.error);
      }
      TouchCountOf(candles, points, order[start..end], close, spacing, zone.value);
      if zone.value.touchCount >= minTouches {
        AddZone(candles, points, order, kept, close, spacing, zones, Span(start, end), zone.value);
        kept := kept + [Span(start, end)];
        zones := zones + [zone.value];
      }
      start := end;
    }
    NoGroups(spots, order, prices, w, spacing, minTouches);
    assert start == |order|;
    assert kept + [] == kept;
    return Ok(zones);
  }

  // ---- the steps of that loop ----

  lemma PricesStart(points: seq<Extremum>, order: seq<int>, w: real, spacing: nat, minTouches: nat)
    returns (prices: seq<real>)
    requires order == PriceOrder(SpotsOf(points)) && w >= 0.0
    ensures References(order, |SpotsOf(points)|) && |SpotsOf(points)| == |points|
    ensures |order| == |points| && forall i :: 0 <= i < |order| ==> 0 <= order[i] < |points|
    ensures |prices| == |order| && forall i :: 0 <= i < |order| ==> prices[i] == points[order[i]].price.Value()
    ensures InBounds(Groups(prices, w, 0), |order|)
    ensures ZonesOf(SpotsOf(points), w, spacing, minTouches)
            == Kept(SpotsOf(points), order, Groups(prices, w, 0), spacing, minTouches)
  {
    hide PriceOrder, Groups, Kept;
    PriceOrderAscends(SpotsOf(points));
    prices := PricesAt(SpotsOf(points), order);
    GroupsSpaced(prices, w, 0);
  }

  lemma NoZones(candles: seq<Candle>, points: seq<Extremum>, order: seq<int>, close: Decimal, spacing: nat)
    ensures AreZones(candles, points, order, [], close, spacing, [])
  {
  }

  lemma GroupEndStep(prices: seq<real>, boundary: real, end: nat)
    requires end <= |prices|
    ensures GroupEnd(prices, boundary, end)
            == if end < |prices| && prices[end] <= boundary then GroupEnd(prices, boundary, end + 1) else end
  {
  }

  lemma GroupsStep(spots: seq<Spot>, order: seq<int>, prices: seq<real>, w: real, start: nat, end: nat, spacing: nat,
                   minTouches: nat)
    requires References(order, |spots|) && |prices| == |order| && start < |prices|
    requires end == GroupEnd(prices, prices[start] + w, start + 1)
    requires InBounds(Groups(prices, w, start), |order|)
    ensures start < end <= |order| && InBounds(Groups(prices, w, end), |order|)
    ensures forall i :: start <= i < end ==> 0 <= order[i] < |spots|
    ensures Kept(spots, order, Groups(prices, w, start), spacing, minTouches)
            == (if |Touches(spots, order[start..end], spacing)| >= minTouches then [Span(start, end)] else [])
               + Kept(spots, order, Groups(prices, w, end), spacing, minTouches)
  {
    hide Touches, GroupEnd;
    var groups := Groups(prices, w, start);
    var rest := Groups(prices, w, end);
    assert groups == [Span(start, end)] + rest;
    forall i | 0 <= i < |rest|
      ensures SpanWithin(rest[i], |order|)
    {
      assert groups[i + 1] == rest[i];
    }
    assert groups[1..] == rest && groups[0] == Span(start, end);
  }

  lemma GroupFits(points: seq<Extremum>, order: seq<int>, start: nat, end: nat)
    requires start < end <= |order| && forall i :: 0 <= i < |order| ==> 0 <= order[i] < |points|
    ensures GroupWithin(points, order[start..end])
  {
  }

  lemma GroupFails(points: seq<Extremum>, group: seq<int>, error: ValidationError)
    requires GroupWithin(points, group)
    requires Divided(points[group[0]].price.Add(points[group[|group| - 1]].price), TWO) == Err(error)
    ensures MidpointFails(points, error)
  {
    hide Divided, Decimal.Add;
    var p, q := points[group[0]], points[group[|group| - 1]];
    assert p in points && q in points;
  }

  lemma TouchCountOf(candles: seq<Candle>, points: seq<Extremum>, group: seq<int>, close: Decimal, spacing: nat,
                     zone: PriceZone)
    requires IsZone(candles, points, group, close, spacing, zone)
    ensures forall i :: 0 <= i < |group| ==> 0 <= group[i] < |SpotsOf(points)|
    ensures zone.touchCount == |Touches(SpotsOf(points), group, spacing)|
  {
    hide Divided, Touches, Decimal.Value;
  }

  lemma AddZone(candles: seq<Candle>, points: seq<Extremum>, order: seq<int>, kept: seq<Span>, close: Decimal,
                spacing: nat, zones: seq<PriceZone>, g: Span, zone: PriceZone)
    requires AreZones(candles, points, order, kept, close, spacing, zones)
    requires g.start < g.end <= |order| && IsZone(candles, points, order[g.start..g.end], close, spacing, zone)
    ensures AreZones(candles, points, order, kept + [g], close, spacing, zones + [zone])
  {
    hide IsZone;
  }

  lemma NoGroups(spots: seq<Spot>, order: seq<int>, prices: seq<real>, w: real, spacing: nat, minTouches: nat)
    requires References(order, |spots|) && |prices| == |order|
    ensures InBounds(Groups(prices, w, |order|), |order|)
    ensures Kept(spots, order, Groups(prices, w, |order|), spacing, minTouches) == []
  {
  }

  // ---- levels ----

  lemma DetectedWithin(candles: seq<Candle>, settings: ExtremaSettings, points: seq<Extremum>)
    requires IsDetected(candles, settings, points)
    ensures PointsWithin(candles, points)
  {
    hide Turns, Applicable;
    var turns := Turns(Bars(candles), settings);
    forall i | 0 <= i < |points|
      ensures points[i].candleIndex < |candles|
    {
      assert IsPoint(candles, settings, turns[i], points[i]);
    }
  }

  /** The complete result: extrema as a fresh detection returns them, whether or not a sequence was reused. */
  ghost predicate IsLevels(candles: seq<Candle>, settings: LevelSettings, result: LevelsResult) {
    && 1 <= settings.atrPeriod < |candles|
    && IsDetected(candles, settings.extrema, result.extrema)
    && Wilder(candles, settings.atrPeriod, |candles| - 1) == Ok(result.atr.value)
    && result.atr.candleIndex == |candles| - 1
    && result.atr.valueTime == candles[|candles| - 1].closeTime
    && result.maximumZoneWidth == result.atr.value.Mul(settings.zoneWidthAtr)
    && result.maximumZoneWidth.Value() >= 0.0
    && result.referenceClose == candles[|candles| - 1].close
    && AreZones(candles, result.extrema, PriceOrder(SpotsOf(result.extrema)),
                ZonesOf(SpotsOf(result.extrema), result.maximumZoneWidth.Value(), settings.minTouchSeparationBars,
                        settings.minTouches),
                result.referenceClose, settings.minTouchSeparationBars, result.zones)
  }

  method CalculateLevels(candles: seq<Candle>, settings: LevelSettings) returns (r: Result<LevelsResult>)
    ensures r.Ok? ==> IsLevels(candles, settings, r.value)
    ensures settings.Validate(|candles|).Some? ==> r == Err(settings.Validate(|candles|).value)
    ensures r.Err? && settings.Validate(|candles|) == None ==>
      || Wilder(candles, settings.atrPeriod, |candles| - 1) == Err(r.error)
      || DetectionFails(candles, settings.extrema, r.error)
      || exists points :: IsDetected(candles, settings.extrema, points) && MidpointFails(points, r.error)
  {
    hide *;
    var invalid := settings.Validate(|candles|);
    if invalid.Some? {
      return Err(invalid.value);
    }
    LevelsNeed(settings, |candles|);
    var sequence := CalculateAtrSequence(candles, settings.atrPeriod);
    if sequence.Err? {
      return Err(sequence.error);
    }
    SequencePeriod(sequence.value, candles, settings.atrPeriod);
    var points := DetectExtremaWith(candles, settings.extrema, Some(sequence.value));
    if points.Err? {
      return Err(points.error);
    }
    LatestIsAtr(sequence.value, candles, settings.atrPeriod);
    var atr := Latest(sequence.value, candles);
    var width := atr.value.Mul(settings.zoneWidthAtr);
    AtrNonnegative(Bars(candles), settings.atrPeriod, |candles| - 1);
    WidthNonnegative(atr.value, settings.zoneWidthAtr);
    var close := candles[|candles| - 1].close;
    DetectedWithin(candles, settings.extrema, points.value);
    var zones := BuildZones(candles, points.value, width, close, settings.minTouches, settings.minTouchSeparationBars);
    if zones.Err? {
      return Err(zones.error);
    }
    MakeLevels(candles, settings, LevelsResult(zones.value, points.value, atr, width, close));
    return Ok(LevelsResult(zones.value, points.value, atr, width, close));
  }

  lemma LevelsNeed(settings: LevelSettings, count: nat)
    requires settings.Validate(count) == None
    ensures 1 <= settings.atrPeriod < count && settings.zoneWidthAtr.Value() > 0.0
    ensures settings.minTouchSeparationBars >= 1
    ensures ValidateAtr(settings.atrPeriod, count) == None
  {
    hide ExtremaSettings.Validate, Decimal.Value;
  }

  lemma SequencePeriod(s: AtrSequence, candles: seq<Candle>, period: nat)
    requires IsSequence(s, candles, period)
    ensures s.period == period && 1 <= period < |candles| && |s.values| == |candles| - period
    ensures IsSequence(s, candles, s.period)
  {
  }

  lemma WidthNonnegative(atr: Decimal, factor: Decimal)
    requires atr.Value() >= 0.0 && factor.Value() > 0.0
    ensures atr.Mul(factor).Value() >= 0.0
  {
    hide Times, Decimal.Value;
    TimesUnits(factor.Value());
    TimesOrder(0.0, atr.Value(), factor.Value());
  }

  lemma MakeLevels(candles: seq<Candle>, settings: LevelSettings, result: LevelsResult)
    requires 1 <= settings.atrPeriod < |candles| && result.maximumZoneWidth.Value() >= 0.0
    requires IsDetected(candles, settings.extrema, result.extrema)
    requires Wilder(candles, settings.atrPeriod, |candles| - 1) == Ok(result.atr.value)
    requires result.atr.candleIndex == |candles| - 1 && result.atr.valueTime == candles[|candles| - 1].closeTime
    requires result.maximumZoneWidth == result.atr.value.Mul(settings.zoneWidthAtr)
    requires result.referenceClose == candles[|candles| - 1].close
    requires AreZones(candles, result.extrema, PriceOrder(SpotsOf(result.extrema)),
      ZonesOf(SpotsOf(result.extrema), result.maximumZoneWidth.Value(), settings.minTouchSeparationBars,
              settings.minTouches),
      result.referenceClose, settings.minTouchSeparationBars, result.zones)
    ensures IsLevels(candles, settings, result)
  {
    hide AreZones, IsDetected, Wilder, Decimal.Mul, Decimal.Value;
  }

  /** A fresh detection gives the same extrema. */
  lemma LevelsExtremaAreDetected(candles: seq<Candle>, settings: LevelSettings, result: LevelsResult,
                                 again: seq<Extremum>)
    requires IsLevels(candles, settings, result) && IsDetected(candles, settings.extrema, again)
    ensures result.extrema == again
  {
    hide IsDetected, AreZones, Wilder;
    DetectedUnique(candles, settings.extrema, result.extrema, again);
  }

  /** Zones are narrow, disjoint and ascending, and read supports, at most one at the price, resistances. */
  lemma LevelsAscend(candles: seq<Candle>, settings: LevelSettings, result: LevelsResult, i: nat, j: nat)
    requires IsLevels(candles, settings, result) && i < j < |result.zones|
    ensures var first, second := result.zones[i], result.zones[j];
      && first.lower.Value() <= first.upper.Value() <= first.lower.Value() + result.maximumZoneWidth.Value()
      && first.upper.Value() < second.lower.Value() <= second.upper.Value()
      && (second.role != Resistance ==> first.role == Support)
      && (first.role != Support ==> second.role == Resistance)
  {
    hide IsDetected, PriceOrder, Wilder, Divided, Touches, ZonesOf, Decimal.Value, Decimal.Mul, Decimal.Add;
    var points, spacing, width := result.extrema, settings.minTouchSeparationBars, result.maximumZoneWidth.Value();
    var spots := SpotsOf(points);
    ZonesAscend(spots, width, spacing, settings.minTouches, result.referenceClose.Value(), i, j);
    var kept := ZonesOf(spots, width, spacing, settings.minTouches);
    ZoneNumbers(candles, points, kept[i], result.referenceClose, spacing, result.zones[i]);
    ZoneNumbers(candles, points, kept[j], result.referenceClose, spacing, result.zones[j]);
  }

  /** The representative price of a zone lies in the zone exactly when some 16-digit decimal does. */
  lemma RepresentativeInside(candles: seq<Candle>, settings: LevelSettings, result: LevelsResult, i: nat)
    requires IsLevels(candles, settings, result) && i < |result.zones|
    ensures var lower, upper := result.zones[i].lower.Value(), result.zones[i].upper.Value();
      && lower <= upper
      && (lower <= result.zones[i].representative.Value() <= upper <==> RoomFor16(lower, upper))
  {
    hide IsDetected, PriceOrder, Wilder, Divided, Touches, ZonesOf, RoomFor16, Midpoint, Decimal.Value, Decimal.Mul,
      Decimal.Add, RoleOf;
    var points, spacing, width := result.extrema, settings.minTouchSeparationBars, result.maximumZoneWidth.Value();
    var order := PriceOrder(SpotsOf(points));
    var zone, g := result.zones[i], ZonesOf(SpotsOf(points), width, spacing, settings.minTouches)[i];
    assert ZoneOfSpan(candles, points, order, g, result.referenceClose, spacing, zone);
    ZoneNumbers(candles, points, g, result.referenceClose, spacing, zone);
    assert NarrowSpan(PricesAt(SpotsOf(points), order), width, g);
    RepresentativeIsMidpoint(candles, points, order[g.start..g.end], result.referenceClose, spacing, zone);
    MidpointInside(zone.lower.Value(), zone.upper.Value());
  }

  lemma ZoneNumbers(candles: seq<Candle>, points: seq<Extremum>, g: Span, close: Decimal, spacing: nat, zone: PriceZone)
    requires ZoneOfSpan(candles, points, PriceOrder(SpotsOf(points)), g, close, spacing, zone)
    ensures var order := PriceOrder(SpotsOf(points));
      && References(order, |SpotsOf(points)|) && SpanWithin(g, |order|)
      && var prices := PricesAt(SpotsOf(points), order);
      && zone.lower.Value() == LowerOf(prices, g) && zone.upper.Value() == UpperOf(prices, g)
      && zone.role == RoleOf(close.Value(), LowerOf(prices, g), UpperOf(prices, g))
  {
    hide PriceOrder, Divided, Touches, Decimal.Value, Decimal.Add;
    PriceOrderPermutes(SpotsOf(points));
  }

  // ---- the whole calculation after shifting the decimal point of every price ----

  ghost function TurnSpots(bars: seq<Bar>, source: PriceSource, turns: seq<Turn>): (spots: seq<Spot>)
    requires forall i :: 0 <= i < |turns| ==> turns[i].index < |bars|
    ensures |spots| == |turns|
    ensures forall i :: 0 <= i < |spots| ==>
      spots[i] == Spot(Price(bars[turns[i].index], source, turns[i].kind), turns[i].index, turns[i].kind)
  {
    seq(|turns|, i requires 0 <= i < |turns| =>
      Spot(Price(bars[turns[i].index], source, turns[i].kind), turns[i].index, turns[i].kind))
  }

  /** The extrema of a history as grouping sees them. */
  ghost function HistorySpots(bars: seq<Bar>, settings: ExtremaSettings): (spots: seq<Spot>)
    requires Applicable(settings, |bars|)
  {
    TurnIndices(bars, settings);
    TurnSpots(bars, settings.source, Turns(bars, settings))
  }

  lemma TurnIndices(bars: seq<Bar>, settings: ExtremaSettings)
    requires Applicable(settings, |bars|)
    ensures forall i :: 0 <= i < |Turns(bars, settings)| ==> Turns(bars, settings)[i].index < |bars|
  {
    hide Turns;
    forall i | 0 <= i < |Turns(bars, settings)|
      ensures Turns(bars, settings)[i].index < |bars|
    {
      TurnWithin(bars, settings, i);
    }
  }

  lemma DetectedSpots(candles: seq<Candle>, settings: ExtremaSettings, points: seq<Extremum>)
    requires IsDetected(candles, settings, points)
    ensures Applicable(settings, |candles|)
    ensures SpotsOf(points) == HistorySpots(Bars(candles), settings)
  {
    hide Turns, Applicable, Decimal.Value, Divided;
    var bars := Bars(candles);
    var turns := Turns(bars, settings);
    TurnIndices(bars, settings);
    forall i | 0 <= i < |points|
      ensures SpotsOf(points)[i] == TurnSpots(bars, settings.source, turns)[i]
    {
      assert IsPoint(candles, settings, turns[i], points[i]);
    }
  }

  /** The maximum zone width of a history. */
  ghost function WidthOf(bars: seq<Bar>, settings: LevelSettings): (width: real)
    requires 1 <= settings.atrPeriod < |bars|
  {
    Times(Atr(bars, settings.atrPeriod, |bars| - 1), settings.zoneWidthAtr.Value())
  }

  lemma LevelsWidth(candles: seq<Candle>, settings: LevelSettings, result: LevelsResult)
    requires IsLevels(candles, settings, result)
    ensures result.maximumZoneWidth.Value() == WidthOf(Bars(candles), settings)
  {
    hide IsDetected, AreZones, Wilder, Atr, Decimal.Value;
    WilderIsAtr(candles, settings.atrPeriod, |candles| - 1);
  }

  lemma WidthShifted(k: int, bars: seq<Bar>, settings: LevelSettings)
    requires 1 <= settings.atrPeriod < |bars|
    ensures WidthOf(Shift10(k, bars), settings) == Times(WidthOf(bars, settings), Pow10(k))
  {
    hide Atr, Times, Pow10, Decimal.Value;
    var atr, factor := Atr(bars, settings.atrPeriod, |bars| - 1), settings.zoneWidthAtr.Value();
    AtrShifted(k, bars, settings.atrPeriod, |bars| - 1);
    TimesAssociates(atr, Pow10(k), factor);
    TimesCommutes(Pow10(k), factor);
    TimesAssociates(atr, factor, Pow10(k));
  }

  lemma SpotsShifted(k: int, bars: seq<Bar>, settings: ExtremaSettings)
    requires Applicable(settings, |bars|)
    ensures HistorySpots(Shift10(k, bars), settings) == ShiftSpots(k, HistorySpots(bars, settings))
  {
    hide Turns, Times, Pow10;
    TurnsShifted(k, bars, settings);
    TurnIndices(bars, settings);
  }

  /**
   Two successful calculations whose candles differ by 10^k in every price: the same extrema, groups, touches and roles,
   and every price, threshold and range of the answer shifted by 10^k.
   */
  lemma LevelsShifted(k: int, candles: seq<Candle>, others: seq<Candle>, settings: LevelSettings, result: LevelsResult,
                      shifted: LevelsResult, i: nat)
    requires Bars(others) == Shift10(k, Bars(candles))
    requires IsLevels(candles, settings, result) && IsLevels(others, settings, shifted)
    ensures |shifted.extrema| == |result.extrema|
    ensures forall j :: 0 <= j < |result.extrema| ==> IsShiftedPoint(k, result.extrema[j], shifted.extrema[j])
    ensures shifted.atr.value.Value() == Times(result.atr.value.Value(), Pow10(k))
    ensures shifted.atr.candleIndex == result.atr.candleIndex
    ensures shifted.maximumZoneWidth.Value() == Times(result.maximumZoneWidth.Value(), Pow10(k))
    ensures |shifted.zones| == |result.zones|
    ensures i < |result.zones| ==>
      var z, s := result.zones[i], shifted.zones[i];
      && s.extremumIndices == z.extremumIndices && s.acceptedCandleIndices == z.acceptedCandleIndices
      && s.touchCount == z.touchCount && s.role == z.role
      && s.lower.Value() == Times(z.lower.Value(), Pow10(k)) && s.upper.Value() == Times(z.upper.Value(), Pow10(k))
      && s.representative.Value() == Times(z.representative.Value(), Pow10(k))
  {
    hide IsDetected, PriceOrder, Wilder, Divided, Touches, ZonesOf, WidthOf, Atr, Decimal.Value, Decimal.Mul,
      Decimal.Add, Times, Pow10, HistorySpots, IsZone, IsShiftedPoint;
    var bars := Bars(candles);
    DetectedShifted(k, candles, others, settings.extrema, result.extrema, shifted.extrema);
    LevelsAtrShifted(k, candles, others, settings, result, shifted);
    var spots, width := SpotsOf(result.extrema), result.maximumZoneWidth.Value();
    DetectedSpots(candles, settings.extrema, result.extrema);
    DetectedSpots(others, settings.extrema, shifted.extrema);
    SpotsShifted(k, bars, settings.extrema);
    LevelsWidth(candles, settings, result);
    LevelsWidth(others, settings, shifted);
    WidthShifted(k, bars, settings);
    ZonesShifted(k, spots, width, settings.minTouchSeparationBars, settings.minTouches);
    OrderShifted(k, spots);
    var kept := ZonesOf(spots, width, settings.minTouchSeparationBars, settings.minTouches);
    if i < |result.zones| {
      ZoneShifted(k, candles, others, result.extrema, shifted.extrema, kept[i], result.referenceClose,
                  shifted.referenceClose, settings.minTouchSeparationBars, result.zones[i], shifted.zones[i]);
    }
  }

  lemma LevelsAtrShifted(k: int, candles: seq<Candle>, others: seq<Candle>, settings: LevelSettings,
                         result: LevelsResult, shifted: LevelsResult)
    requires Bars(others) == Shift10(k, Bars(candles))
    requires IsLevels(candles, settings, result) && IsLevels(others, settings, shifted)
    ensures shifted.atr.value.Value() == Times(result.atr.value.Value(), Pow10(k))
  {
    hide IsDetected, AreZones, Wilder, Atr, ZonesOf, PriceOrder, Decimal.Value, Decimal.Mul, Times, Pow10;
    WilderIsAtr(candles, settings.atrPeriod, |candles| - 1);
    WilderIsAtr(others, settings.atrPeriod, |candles| - 1);
    AtrShifted(k, Bars(candles), settings.atrPeriod, |candles| - 1);
  }

  lemma ZoneShifted(k: int, candles: seq<Candle>, others: seq<Candle>, points: seq<Extremum>, moved: seq<Extremum>,
                    g: Span, close: Decimal, movedClose: Decimal, spacing: nat, z: PriceZone, s: PriceZone)
    requires SpotsOf(moved) == ShiftSpots(k, SpotsOf(points))
    requires movedClose.Value() == Times(close.Value(), Pow10(k))
    requires PriceOrder(SpotsOf(moved)) == PriceOrder(SpotsOf(points))
    requires ZoneOfSpan(candles, points, PriceOrder(SpotsOf(points)), g, close, spacing, z)
    requires ZoneOfSpan(others, moved, PriceOrder(SpotsOf(points)), g, movedClose, spacing, s)
    ensures s.extremumIndices == z.extremumIndices && s.acceptedCandleIndices == z.acceptedCandleIndices
    ensures s.touchCount == z.touchCount && s.role == z.role
    ensures s.lower.Value() == Times(z.lower.Value(), Pow10(k)) && s.upper.Value() == Times(z.upper.Value(), Pow10(k))
    ensures s.representative.Value() == Times(z.representative.Value(), Pow10(k))
  {
    hide PriceOrder, Divided, Decimal.Value, Decimal.Add, Times, Pow10, Accepted, MergeSorted, Midpoint, RoleOf;
    var group := PriceOrder(SpotsOf(points))[g.start..g.end];
    RepresentativeIsMidpoint(candles, points, group, close, spacing, z);
    RepresentativeIsMidpoint(others, moved, group, movedClose, spacing, s);
    assert SpotsOf(moved)[group[0]].price == s.lower.Value();
    assert SpotsOf(moved)[group[|group| - 1]].price == s.upper.Value();
    MidpointShifted(k, z.lower.Value(), z.upper.Value());
    RoleShifted(k, close.Value(), z.lower.Value(), z.upper.Value());
    assert CandlesAt(SpotsOf(moved), group) == CandlesAt(SpotsOf(points), group);
  }
}
