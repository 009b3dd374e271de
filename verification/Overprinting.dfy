/**
 A request whose answer the checker refuses: five one-minute candles that close at 1, x, 1, x, 1 with an 18-digit x form
 one zone, and the printed midpoint of that zone lies above its printed upper bound.
 */
module Overprinting {
  import opened Powers
  import opened Decimals
  import opened Rounding
  import opened Results
  import opened Division
  import opened AtrSequences
  import opened DoubleRounding
  import opened Market
  import opened TrueRanges
  import opened Swings
  import opened Extrema
  import opened Detection
  import opened Sorting
  import opened Zones
  import opened Levels
  import opened Calendar
  import opened Series
  import opened Parsing
  import opened Reporting
  import opened ScaleSafety
  import opened Delivery

  const ONE := FromInt(1)
  const PEAK := Decimal(123_456_784_999_999_999, -17)

  const MINUTE: int := 60 * NANOS

  /** Candle number i, with one price throughout. */
  function FlatCandle(i: nat, price: Decimal): (c: Candle) {
    Candle(i * MINUTE, (i + 1) * MINUTE, price, price, price, price, ZERO, ZERO, None, 0)
  }

  const CANDLES := [FlatCandle(0, ONE), FlatCandle(1, PEAK), FlatCandle(2, ONE), FlatCandle(3, PEAK),
                    FlatCandle(4, ONE)]

  /** The texts that the candles were read from. */
  function FlatText(i: nat, price: string): (c: SourceCandle) {
    SourceCandle(i * MINUTE, (i + 1) * MINUTE, price, price, price, price)
  }

  const PEAK_TEXT := "1.23456784999999999"

  const TEXTS := [FlatText(0, "1"), FlatText(1, PEAK_TEXT), FlatText(2, "1"), FlatText(3, PEAK_TEXT), FlatText(4, "1")]

  const SETTINGS := LevelSettings(ExtremaSettings(Close, LocalExtrema(1)), 1, Decimal(1, -1), 2, 1)

  ghost function FlatBar(price: real): (b: Bar) {
    Bar(price, price, price)
  }

  ghost function ExampleBars(x: real): (bars: seq<Bar>) {
    [FlatBar(1.0), FlatBar(x), FlatBar(1.0), FlatBar(x), FlatBar(1.0)]
  }

  const X: real := 1.23456784999999999

  lemma PriceValues()
    ensures ONE.Value() == 1.0 && PEAK.Value() == X && Decimal(1, -1).Value() == 0.1
  {
    hide Pow10, Times;
    Pow10Zero();
    PowerOnGrid(-17, 17);
    PowerOnGrid(-1, 1);
    TenToSeventeen();
    PeakProduct(Pow10(-17));
    TenthProduct(Pow10(-1));
  }

  lemma TenToSeventeen()
    ensures IntPow10(17) == 100_000_000_000_000_000 && IntPow10(1) == 10
  {
    SmallPowers();
    assert IntPow10(17) == 10 * IntPow10(16) == 100 * IntPow10(15);
  }

  lemma PeakProduct(p: real)
    requires Times(100_000_000_000_000_000 as real, p) == 1.0
    ensures Times(123_456_784_999_999_999 as real, p) == X
  {
  }

  lemma TenthProduct(p: real)
    requires Times(10 as real, p) == 1.0
    ensures Times(1 as real, p) == 0.1
  {
  }

  lemma CandleBars()
    ensures Bars(CANDLES) == ExampleBars(X)
  {
    hide Decimal.Value;
    PriceValues();
  }

  // ---- what the calculation finds ----

  /** The three pivots: x at candle 1, one at candle 2, x at candle 3. */
  lemma ExampleTurns(x: real)
    requires x > 1.0
    ensures Turns(ExampleBars(x), SETTINGS.extrema) == [Turn(High, 1, 2), Turn(Low, 2, 3), Turn(High, 3, 4)]
  {
    var bars := ExampleBars(x);
    hide IsPivot;
    PivotsOfCandle(x, 1);
    PivotsOfCandle(x, 2);
    PivotsOfCandle(x, 3);
    assert Pivots(bars, Close, 1, 2) == Pivots(bars, Close, 1, 1) + PivotsAt(bars, Close, 1, 1);
    assert Pivots(bars, Close, 1, 3) == Pivots(bars, Close, 1, 2) + PivotsAt(bars, Close, 1, 2);
    assert Pivots(bars, Close, 1, 4) == Pivots(bars, Close, 1, 3) + PivotsAt(bars, Close, 1, 3);
  }

  lemma PivotsOfCandle(x: real, i: nat)
    requires x > 1.0 && 1 <= i <= 3
    ensures IsPivot(ExampleBars(x), Close, 1, High, i) <==> i != 2
    ensures IsPivot(ExampleBars(x), Close, 1, Low, i) <==> i == 2
  {
    var bars := ExampleBars(x);
    assert LeadPrice(bars, Close, High, i - 1) < LeadPrice(bars, Close, High, i) <==> i != 2;
    assert LeadPrice(bars, Close, Low, i - 1) < LeadPrice(bars, Close, Low, i) <==> i == 2;
  }

  ghost function ExampleSpots(x: real): (spots: seq<Spot>) {
    [Spot(x, 1, High), Spot(1.0, 2, Low), Spot(x, 3, High)]
  }

  /** In price order: the low, then both highs by candle. */
  lemma ExampleOrder(x: real)
    requires x > 1.0
    ensures PriceOrder(ExampleSpots(x)) == [1, 0, 2]
  {
    var less := Before(ExampleSpots(x));
    assert !less(2, 1) && less(1, 0) && !less(2, 0);
    hide Before, Merge, MergeSorted;
    SortOne(less, 0);
    SortOne(less, 1);
    SortOne(less, 2);
    assert [0][1..] == [] && [1][1..] == [] && [2][1..] == [] && [1, 2][1..] == [2];
    MergeStart(less, [1], [2]);
    MergeStart(less, [], [2]);
    MergeStart(less, [0], [1, 2]);
    MergeStart(less, [0], [2]);
    MergeNone(less, [], []);
    SortHalves(less, [1, 2], [1], [2]);
    SortHalves(less, [0, 1, 2], [0], [1, 2]);
    assert Merge(less, [], [2]) == [2];
    assert Merge(less, [1], [2]) == [1, 2];
    assert Merge(less, [0], [2]) == [0, 2];
    assert Merge(less, [0], [1, 2]) == [1, 0, 2];
    assert MergeSorted(less, [1, 2]) == [1, 2];
    assert MergeSorted(less, [0, 1, 2]) == [1, 0, 2];
    assert Iota(3) == [0, 1, 2];
  }

  lemma SortHalves(less: Less, s: seq<int>, left: seq<int>, right: seq<int>)
    requires s == left + right && |s| >= 2 && |left| == |s| / 2
    ensures MergeSorted(less, s) == Merge(less, MergeSorted(less, left), MergeSorted(less, right))
  {
    hide Merge;
    assert s[..|s| / 2] == left && s[|s| / 2..] == right;
  }

  lemma SortOne(less: Less, x: int)
    ensures MergeSorted(less, [x]) == [x]
  {
  }

  /** A width below the distance of the two prices separates the low from the highs. */
  lemma ExampleGroups(x: real, width: real)
    requires x > 1.0 && 0.0 <= width < x - 1.0
    ensures Groups([1.0, x, x], width, 0) == [Span(0, 1), Span(1, 3)]
  {
    var prices := [1.0, x, x];
    assert GroupEnd(prices, 1.0 + width, 1) == 1;
    assert GroupEnd(prices, x + width, 3) == 3;
    assert GroupEnd(prices, x + width, 2) == 3;
    assert Groups(prices, width, 3) == [];
    assert Groups(prices, width, 1) == [Span(1, 3)] + Groups(prices, width, 3);
    assert Groups(prices, width, 0) == [Span(0, 1)] + Groups(prices, width, 1);
  }

  /** One touch on the low, two separate touches on the highs. */
  lemma ExampleTouches(x: real)
    ensures Touches(ExampleSpots(x), [1], 1) == [2] && Touches(ExampleSpots(x), [0, 2], 1) == [1, 3]
  {
    var spots, less := ExampleSpots(x), IntLess();
    hide Accepted, Merge, MergeSorted;
    assert CandlesAt(spots, [1]) == [2] && CandlesAt(spots, [0, 2]) == [1, 3];
    SortOne(less, 1);
    SortOne(less, 2);
    SortOne(less, 3);
    SortHalves(less, [1, 3], [1], [3]);
    assert [1][1..] == [] && [3][1..] == [];
    MergeStart(less, [1], [3]);
    MergeStart(less, [], [3]);
    MergeNone(less, [], []);
    assert Merge(less, [], [3]) == [3];
    assert MergeSorted(less, [1, 3]) == [1, 3];
    AcceptedOne(2);
    AcceptedTwo(1, 3);
  }

  lemma AcceptedOne(c: int)
    ensures Accepted([c], 1, 1) == [c]
  {
    assert Accepted([c], 0, 1) == [];
  }

  lemma AcceptedTwo(c: int, d: int)
    requires c < d
    ensures Accepted([c, d], 2, 1) == [c, d]
  {
    assert Accepted([c, d], 0, 1) == [];
    assert Accepted([c, d], 1, 1) == [c];
  }

  /** Only the group of the highs is kept. */
  lemma ExampleZones(x: real, width: real)
    requires x > 1.0 && 0.0 <= width < x - 1.0
    ensures PriceOrder(ExampleSpots(x)) == [1, 0, 2]
    ensures ZonesOf(ExampleSpots(x), width, 1, 2) == [Span(1, 3)]
  {
    var spots, order := ExampleSpots(x), [1, 0, 2];
    hide PriceOrder, Groups, Touches;
    ExampleOrder(x);
    ExampleGroups(x, width);
    ExampleTouches(x);
    assert PricesAt(spots, order) == [1.0, x, x];
    assert order[0..1] == [1] && order[1..3] == [0, 2];
    var groups := [Span(0, 1), Span(1, 3)];
    assert groups[1..] == [Span(1, 3)] && [Span(1, 3)][1..] == [];
    assert InBounds(groups, 3) && InBounds(groups[1..], 3);
    assert Kept(spots, order, [Span(1, 3)], 1, 2) == [Span(1, 3)];
    assert Kept(spots, order, groups, 1, 2) == [Span(1, 3)];
  }

  /** The width is a tenth of an ATR below one. */
  lemma ExampleWidth()
    ensures 1 <= SETTINGS.atrPeriod < |ExampleBars(X)| && WidthOf(ExampleBars(X), SETTINGS) <= 0.1
  {
    hide Sig, Atr, Pow10, Decimal.Value, Times;
    var bars := ExampleBars(X);
    AtrWithin(bars, 1, 4, 0.0, 1.0);
    Pow10Zero();
    PowerFixed(16, 0);
    PriceValues();
    TenthAtMost(Atr(bars, 1, 4));
  }

  lemma TenthAtMost(atr: real)
    requires atr <= 1.0
    ensures Times(atr, 0.1) <= 0.1
  {
  }

  /** The levels of the example have exactly one zone, over the two highs, and it is overprinted. */
  lemma ExampleOverprinted(result: LevelsResult)
    requires IsLevels(CANDLES, SETTINGS, result)
    ensures |result.zones| == 1
    ensures result.zones[0].lower == PEAK && result.zones[0].upper == PEAK
    ensures !RoomFor16(PEAK.Value(), PEAK.Value())
    ensures result.zones[0].representative.Value() > 0.0 && Overprinted(result.zones[0])
  {
    hide IsDetected, PriceOrder, ZonesOf, Turns, Wilder, Divided, Touches, WidthOf, Sig, IsTie, Decimal.Value,
      Decimal.Mul, Decimal.Add, Midpoint, RoomFor16;
    CandleBars();
    DetectedSpots(CANDLES, SETTINGS.extrema, result.extrema);
    ExampleTurns(X);
    assert SpotsOf(result.extrema) == ExampleSpots(X);
    LevelsWidth(CANDLES, SETTINGS, result);
    ExampleWidth();
    var width := result.maximumZoneWidth.Value();
    ExampleZones(X, width);
    var zone := result.zones[0];
    assert ZoneOfSpan(CANDLES, result.extrema, [1, 0, 2], Span(1, 3), result.referenceClose, 1, zone);
    assert [1, 0, 2][1..3] == [0, 2];
    ExamplePoints(result.extrema);
    RepresentativeIsMidpoint(CANDLES, result.extrema, [0, 2], result.referenceClose, 1, zone);
    PriceValues();
    MidpointIsRounded(X, X);
    MidpointInside(X, X);
    PrintedMidpointExample();
  }

  lemma ExamplePoints(points: seq<Extremum>)
    requires IsDetected(CANDLES, SETTINGS.extrema, points)
    ensures |points| == 3 && points[0].price == PEAK && points[2].price == PEAK
  {
    hide Turns, Decimal.Value;
    CandleBars();
    ExampleTurns(X);
    var turns := Turns(Bars(CANDLES), SETTINGS.extrema);
    assert IsPoint(CANDLES, SETTINGS.extrema, turns[0], points[0]);
    assert IsPoint(CANDLES, SETTINGS.extrema, turns[2], points[2]);
  }

  // ---- the request ----

  const SELECTION := CandleSelection(Instrument("binance", "spot", "BTC"), "1m", 5 * MINUTE, 5)

  lemma MinuteBoundary(i: nat)
    ensures Slot("1m").Some? && Boundary("1m", i) == i * MINUTE
  {
  }

  lemma ExampleRange()
    ensures RangeOf(SELECTION) == Ok(CandleRange(0, 5 * MINUTE))
    ensures InSpan("1m", 0) && InSpan("1m", 5)
  {
    hide RangeOf, Boundary, Slot, InSpan, ValidTime;
    ValidTimeIsRange(5 * MINUTE);
    ValidSelection();
    MinuteBoundary(0);
    MinuteBoundary(5);
    var k := RangeFinds(SELECTION);
    MinuteBoundary(k);
    MinuteBoundary(k + 5);
    MinuteBoundary(k + 6);
  }

  lemma ValidSelection()
    ensures SELECTION.instrument.Validate() == None
  {
    assert "BTC"[1..] == "TC" && "TC"[1..] == "C";
    assert Utf8Length("C") == 1;
    assert Utf8Length("TC") == 2;
  }

  lemma ExampleAccepted()
    ensures ParsedSeries(SELECTION, TEXTS, CANDLES, 0)
  {
    hide RangeOf, Boundary, Slot, InSpan, Violation, ParseDecimal, PEAK_TEXT;
    ExampleRange();
    MinuteBoundary(0);
    MinuteBoundary(5);
    ExampleTexts();
    forall i | 0 <= i < |CANDLES|
      ensures FillsSlot("1m", 0, CANDLES, i)
    {
      MinuteBoundary(i);
      MinuteBoundary(i + 1);
      SoundExample(i);
    }
  }

  lemma ExampleTexts()
    ensures ParseDecimal("1") == Some(ONE) && ParseDecimal(PEAK_TEXT) == Some(PEAK)
  {
    hide ParseUnsigned, NumberOf, Decimal.Value, IntPow10;
    NumberOfOne();
    ParsedWhole("1");
    ParsedSign("1");
    NumberOfFraction();
    TenToSeventeen();
    ParsedFraction("1", "23456784999999999");
    assert PEAK_TEXT == "1" + "." + "23456784999999999";
    ParsedSign(PEAK_TEXT);
  }

  lemma NumberOfOne()
    ensures NumberOf("1") == 1
  {
    assert "1"[..0] == "";
  }

  lemma NumberOfFraction()
    ensures AllDigits("23456784999999999") && NumberOf("23456784999999999") == 23_456_784_999_999_999
  {
    hide NumberOf, IntPow10;
    assert AllDigits("2345678") && AllDigits("4999") && AllDigits("999999");
    NumberOfSeven();
    NumberOfNines();
    SmallTens();
    NumberOfJoined("999", "999");
    assert "999" + "999" == "999999";
    NumberOfJoined("4", "999");
    assert "4" + "999" == "4999";
    NumberOfJoined("4999", "999999");
    assert "4999" + "999999" == "4999999999";
    NumberOfJoined("2345678", "4999999999");
    assert "2345678" + "4999999999" == "23456784999999999";
  }

  lemma SmallTens()
    ensures IntPow10(3) == 1_000 && IntPow10(6) == 1_000_000 && IntPow10(10) == 10_000_000_000
  {
    assert IntPow10(6) == 1_000 * IntPow10(3);
    assert IntPow10(8) == 100 * IntPow10(6);
  }

  lemma NumberOfSeven()
    ensures NumberOf("2345678") == 2_345_678 && NumberOf("4") == 4
  {
    NumberOfThree();
    assert "2345"[..3] == "234" && "23456"[..4] == "2345" && "234567"[..5] == "23456" && "2345678"[..6] == "234567";
    assert NumberOf("2345") == 2_345;
    assert NumberOf("23456") == 23_456;
    assert NumberOf("234567") == 234_567;
  }

  lemma NumberOfThree()
    ensures NumberOf("234") == 234 && NumberOf("4") == 4
  {
    assert "2"[..0] == "" && "23"[..1] == "2" && "234"[..2] == "23" && "4"[..0] == "";
    assert NumberOf("2") == 2;
    assert NumberOf("23") == 23;
  }

  lemma NumberOfNines()
    ensures NumberOf("999") == 999
  {
    assert "9"[..0] == "" && "99"[..1] == "9" && "999"[..2] == "99";
    assert NumberOf("9") == 9;
    assert NumberOf("99") == 99;
  }

  lemma SoundExample(i: nat)
    requires i < |CANDLES|
    ensures Violation(CANDLES[i], i * MINUTE, (i + 1) * MINUTE) == None
  {
    hide Decimal.Value, ValidTime;
    ValidTimeIsRange(0);
    PriceValues();
  }

  lemma ExampleSources()
    ensures SourceDecimal(ONE) && SourceDecimal(PEAK) && SourceDecimal(SETTINGS.zoneWidthAtr)
  {
    hide IntPow10;
    TenToSeventeen();
    NextPower(17);
    IntPow10Grow(18, 1024);
  }

  lemma ZoneIndices(candles: seq<Candle>, settings: LevelSettings, result: LevelsResult, i: nat, wire: WireZone)
    requires IsLevels(candles, settings, result) && i < |result.zones| && IsMappedZone(result.zones[i], wire)
    ensures UnsignedIndices(wire)
  {
    hide IsDetected, PriceOrder, ZonesOf, Wilder, Divided, Touches, Decimal.Value, Decimal.Mul, Decimal.Add, Formatted;
    var points, spacing := result.extrema, settings.minTouchSeparationBars;
    var kept := ZonesOf(SpotsOf(points), result.maximumZoneWidth.Value(), spacing, settings.minTouches);
    var order := PriceOrder(SpotsOf(points));
    assert ZoneOfSpan(candles, points, order, kept[i], result.referenceClose, spacing, result.zones[i]);
  }

  /** The request is accepted and answered, and the checker refuses the answer because of its only zone. */
  method RefusedRequest() returns (answer: Answer, broken: Option<nat>)
    ensures answer.Delivered? && |answer.levels.zones| == 1 && broken == Some(0)
  {
    hide *;
    ghost var result;
    ExampleAccepted();
    ExampleSources();
    ExampleSettings();
    answer, result := AnswerLevels(SELECTION, CANDLES, 0, SETTINGS, TEXTS);
    var view := ResultView(TEXTS, Some(answer.levels.extrema), answer.levels.zones, LocalMethod, Close, 2);
    ExampleOverprinted(result.value);
    ZonesMapped(result.value, TEXTS, answer.levels);
    ZoneIndices(CANDLES, SETTINGS, result.value, 0, view.zones[0]);
    assert AcceptableZone(view, view.zones[0]) <==> !Overprinted(result.value.zones[0]);
    broken := ValidateZones(view);
  }

  lemma ExampleSettings()
    ensures SETTINGS.Validate(|CANDLES|) == None && SourceMethod(SETTINGS.extrema.algorithm)
    ensures SELECTION.candleCount < 0x1_0000_0000
  {
    hide Decimal.Value;
    PriceValues();
  }

  lemma ZonesMapped(result: LevelsResult, texts: seq<SourceCandle>, levels: WireLevels)
    requires IsMappedLevels(result, SETTINGS.extrema.source, texts, levels) && |result.zones| == 1
    ensures |levels.zones| == 1 && IsMappedZone(result.zones[0], levels.zones[0])
    ensures MethodNameOf(SETTINGS.extrema.algorithm) == LocalMethod
    ensures SETTINGS.extrema.source == Close && SETTINGS.minTouches == 2
  {
    hide IsMappedZone, IsMappedPoint, Formatted;
  }
}
