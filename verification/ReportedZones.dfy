/** What a levels answer says, in reported numbers and candle fields only. */
module ReportedZones {
  import opened Powers
  import opened Decimals
  import opened Rounding
  import opened Division
  import opened Market
  import opened TrueRanges
  import opened AtrSequences
  import opened Detection
  import opened Sorting
  import opened Zones
  import opened Levels

  /** The evidence beside the zones: the last ATR, its multiple as the width, and the last close. */
  lemma ReportedWidth(candles: seq<Candle>, settings: LevelSettings, result: LevelsResult)
    requires IsLevels(candles, settings, result)
    ensures |candles| > settings.atrPeriod >= 1
    ensures result.atr.candleIndex == |candles| - 1
    ensures result.atr.valueTime == candles[|candles| - 1].closeTime
    ensures result.atr.value.Value() == Atr(Bars(candles), settings.atrPeriod, |candles| - 1)
    ensures result.maximumZoneWidth.Value() == Times(result.atr.value.Value(), settings.zoneWidthAtr.Value())
    ensures result.referenceClose == candles[|candles| - 1].close
    ensures IsDetected(candles, settings.extrema, result.extrema)
  {
    hide IsDetected, AreZones, Wilder, Atr, Times, Decimal.Value;
    WilderIsAtr(candles, settings.atrPeriod, |candles| - 1);
  }

  /** The group of a zone and its completely determined fields. */
  lemma ZoneGroup(candles: seq<Candle>, settings: LevelSettings, result: LevelsResult, i: nat) returns (g: Span)
    requires IsLevels(candles, settings, result) && i < |result.zones|
    ensures
      var spots, width := SpotsOf(result.extrema), result.maximumZoneWidth.Value();
      var order := PriceOrder(spots);
      && width >= 0.0
      && References(order, |spots|)
      && g in Groups(PricesAt(spots, order), width, 0)
      && SpanWithin(g, |order|)
      && IsZone(candles, result.extrema, order[g.start..g.end], result.referenceClose, settings.minTouchSeparationBars,
                result.zones[i])
      && |Touches(spots, order[g.start..g.end], settings.minTouchSeparationBars)| >= settings.minTouches
      && g == ZonesOf(spots, width, settings.minTouchSeparationBars, settings.minTouches)[i]
  {
    hide IsDetected, PriceOrder, Groups, Touches, Wilder, Divided, Kept, Decimal.Value, Decimal.Mul, Decimal.Add,
      RoleOf;
    var points, width := result.extrema, result.maximumZoneWidth.Value();
    var spacing, minTouches := settings.minTouchSeparationBars, settings.minTouches;
    var spots := SpotsOf(points);
    var order := PriceOrder(spots);
    PriceOrderAscends(spots);
    var prices := PricesAt(spots, order);
    var kept := ZonesOf(spots, width, spacing, minTouches);
    g := kept[i];
    assert ZoneOfSpan(candles, points, order, g, result.referenceClose, spacing, result.zones[i]);
    GroupsSpaced(prices, width, 0);
    assert kept == Kept(spots, order, Groups(prices, width, 0), spacing, minTouches);
    assert g in kept;
    KeptFrom(spots, order, Groups(prices, width, 0), spacing, minTouches, g);
  }

  /** The last close decides the role. */
  lemma ZoneRoles(candles: seq<Candle>, settings: LevelSettings, result: LevelsResult, i: nat)
    requires IsLevels(candles, settings, result) && i < |result.zones| && candles != []
    ensures
      var zone, close := result.zones[i], candles[|candles| - 1].close.Value();
      && (zone.role == Support <==> close > zone.upper.Value())
      && (zone.role == Resistance <==> close < zone.lower.Value())
      && (zone.role == AtPrice <==> zone.lower.Value() <= close <= zone.upper.Value())
  {
    hide IsDetected, PriceOrder, Groups, Touches, Wilder, Divided, ZonesOf, Decimal.Value, Decimal.Mul, Decimal.Add;
    var g := ZoneGroup(candles, settings, result, i);
    ReportedWidth(candles, settings, result);
    RepresentativeInside(candles, settings, result, i);
  }

  /** A zone holds exactly the extrema priced from its lower bound to the width above it, each once, in price order. */
  lemma ZoneMembers(candles: seq<Candle>, settings: LevelSettings, result: LevelsResult, i: nat)
    requires IsLevels(candles, settings, result) && i < |result.zones|
    ensures
      var zone, points, members := result.zones[i], result.extrema, result.zones[i].extremumIndices;
      var lower, width := zone.lower.Value(), result.maximumZoneWidth.Value();
      && members != []
      && (forall a :: 0 <= a < |members| ==> 0 <= members[a] < |points|)
      && (forall a, b :: 0 <= a < b < |members| ==>
            members[a] != members[b] && points[members[a]].price.Value() <= points[members[b]].price.Value())
      && (forall j :: 0 <= j < |points| ==> (j in members <==> lower <= points[j].price.Value() <= lower + width))
      && zone.lower == points[members[0]].price
      && zone.upper == points[members[|members| - 1]].price
  {
    hide IsDetected, PriceOrder, Groups, Touches, Wilder, Divided, ZonesOf, Decimal.Value, Decimal.Mul, Decimal.Add,
      RoleOf, TiedWith, Sorted, Before;
    var g := ZoneGroup(candles, settings, result, i);
    var points, width := result.extrema, result.maximumZoneWidth.Value();
    var spots := SpotsOf(points);
    var order := PriceOrder(spots);
    PriceOrderAscends(spots);
    var prices := PricesAt(spots, order);
    GroupMembers(spots, width, g);
    var group := order[g.start..g.end];
    forall a, b | 0 <= a < b < |group|
      ensures points[group[a]].price.Value() <= points[group[b]].price.Value()
    {
      assert prices[g.start + a] <= prices[g.start + b];
    }
  }

  /** Equal prices are ordered by candle, and on one candle the HIGH comes first. */
  lemma ZoneTies(candles: seq<Candle>, settings: LevelSettings, result: LevelsResult, i: nat, a: nat, b: nat)
    requires IsLevels(candles, settings, result) && i < |result.zones|
    requires a < b < |result.zones[i].extremumIndices|
    ensures
      var points, members := result.extrema, result.zones[i].extremumIndices;
      && 0 <= members[a] < |points| && 0 <= members[b] < |points|
      && var p, q := points[members[a]], points[members[b]];
      p.price.Value() == q.price.Value() ==>
        p.candleIndex < q.candleIndex || (p.candleIndex == q.candleIndex && (p.kind == High || q.kind == Low))
  {
    hide IsDetected, PriceOrder, Groups, Touches, Wilder, Divided, ZonesOf, Decimal.Value, Decimal.Mul, Decimal.Add,
      RoleOf, TiedWith;
    var g := ZoneGroup(candles, settings, result, i);
    var spots := SpotsOf(result.extrema);
    var order := PriceOrder(spots);
    PriceOrderPermutes(spots);
    assert !Before(spots)(order[g.start + b], order[g.start + a]);
  }

  /** A group of the price order: no reference twice, and exactly the references whose price it takes. */
  lemma GroupMembers(spots: seq<Spot>, width: real, g: Span)
    requires width >= 0.0 && References(PriceOrder(spots), |spots|)
    requires g in Groups(PricesAt(spots, PriceOrder(spots)), width, 0)
    ensures SpanWithin(g, |PriceOrder(spots)|)
    ensures
      var order, lower := PriceOrder(spots), spots[PriceOrder(spots)[g.start]].price;
      var group := order[g.start..g.end];
      && (forall a, b :: 0 <= a < b < |group| ==> group[a] != group[b])
      && (forall j :: 0 <= j < |spots| ==> (j in group <==> lower <= spots[j].price <= lower + width))
  {
    hide PriceOrder, Groups, TiedWith, Sorted, Before, Ascending, WellSpaced, NarrowSpan;
    var order := PriceOrder(spots);
    var prices := PricesAt(spots, order);
    PriceOrderAscends(spots);
    PriceOrderPermutes(spots);
    OnceEach(order, |spots|);
    GroupsSpaced(prices, width, 0);
    GroupNarrow(prices, width, g);
    var group := order[g.start..g.end];
    forall a, b | 0 <= a < b < |group|
      ensures group[a] != group[b]
    {
      assert order[g.start + a] != order[g.start + b];
    }
    forall j | 0 <= j < |spots|
      ensures j in group <==> spots[order[g.start]].price <= spots[j].price <= spots[order[g.start]].price + width
    {
      assert j in order;
      var k :| 0 <= k < |order| && order[k] == j;
      GroupTakes(prices, width, g, k);
      if g.start <= k < g.end {
        assert group[k - g.start] == j;
      }
      if j in group {
        var m :| 0 <= m < |group| && group[m] == j;
        assert order[g.start + m] == j;
      }
    }
  }

  /**
   Touches are candles of member extrema. The first is the earliest of them, each next one the earliest at least the
   spacing after its predecessor, and none is left after the last. The count reaches the minimum, and the times are
   those of the first and the last touch.
   */
  lemma ZoneTouches(candles: seq<Candle>, settings: LevelSettings, result: LevelsResult, i: nat)
    requires IsLevels(candles, settings, result) && i < |result.zones| && settings.minTouchSeparationBars >= 1
    ensures
      var zone, points, members := result.zones[i], result.extrema, result.zones[i].extremumIndices;
      var touches, spacing := zone.acceptedCandleIndices, settings.minTouchSeparationBars;
      && zone.touchCount == |touches| >= settings.minTouches
      && |touches| > 0
      && (forall a :: 0 <= a < |touches| ==> 0 <= touches[a] < |candles|)
      && (forall a :: 0 <= a < |touches| ==>
            exists j :: 0 <= j < |points| && j in members && points[j].candleIndex == touches[a])
      && (forall a, b :: 0 <= a < b < |touches| ==> touches[b] >= touches[a] + spacing)
      && (forall j :: 0 <= j < |points| && j in members ==>
            touches[0] <= points[j].candleIndex < touches[|touches| - 1] + spacing)
      && (forall a, b, j :: 0 <= a < b == a + 1 < |touches| && 0 <= j < |points| && j in members ==>
            points[j].candleIndex < touches[a] + spacing || points[j].candleIndex >= touches[b])
      && zone.firstTouchTime == candles[touches[0]].openTime
      && zone.lastTouchTime == candles[touches[|touches| - 1]].openTime
  {
    hide IsLevels, PriceOrder, Groups, IsZone, Touches, ZonesOf, Decimal.Value;
    var g := ZoneGroup(candles, settings, result, i);
    var group := PriceOrder(SpotsOf(result.extrema))[g.start..g.end];
    TouchFields(candles, result.extrema, group, result.referenceClose, settings.minTouchSeparationBars,
                result.zones[i]);
    GroupTouches(result.extrema, group, settings.minTouchSeparationBars);
  }

  lemma TouchFields(candles: seq<Candle>, points: seq<Extremum>, group: seq<int>, close: Decimal, spacing: nat,
                    zone: PriceZone)
    requires IsZone(candles, points, group, close, spacing, zone)
    ensures group != [] && forall i :: 0 <= i < |group| ==> 0 <= group[i] < |points|
    ensures zone.extremumIndices == group
    ensures zone.acceptedCandleIndices == Touches(SpotsOf(points), group, spacing)
    ensures zone.touchCount == |zone.acceptedCandleIndices| > 0
    ensures forall a :: 0 <= a < zone.touchCount ==> 0 <= zone.acceptedCandleIndices[a] < |candles|
    ensures zone.firstTouchTime == candles[zone.acceptedCandleIndices[0]].openTime
    ensures zone.lastTouchTime == candles[zone.acceptedCandleIndices[zone.touchCount - 1]].openTime
  {
    hide Divided, Touches, RoleOf, Decimal.Value, Decimal.Add;
  }

  lemma GroupTouches(points: seq<Extremum>, group: seq<int>, spacing: nat)
    requires group != [] && spacing >= 1 && forall i :: 0 <= i < |group| ==> 0 <= group[i] < |points|
    ensures
      var touches := Touches(SpotsOf(points), group, spacing);
      && touches != []
      && (forall a :: 0 <= a < |touches| ==>
            exists j :: 0 <= j < |points| && j in group && points[j].candleIndex == touches[a])
      && (forall a, b :: 0 <= a < b < |touches| ==> touches[b] >= touches[a] + spacing)
      && (forall j :: 0 <= j < |points| && j in group ==>
            touches[0] <= points[j].candleIndex < touches[|touches| - 1] + spacing)
      && (forall a, b, j :: 0 <= a < b == a + 1 < |touches| && 0 <= j < |points| && j in group ==>
            points[j].candleIndex < touches[a] + spacing || points[j].candleIndex >= touches[b])
  {
    hide Touches, Decimal.Value, Reached;
    var spots := SpotsOf(points);
    var touches, members := Touches(spots, group, spacing), CandlesAt(spots, group);
    TouchesFacts(spots, group, spacing);
    forall a | 0 <= a < |touches|
      ensures exists j :: 0 <= j < |points| && j in group && points[j].candleIndex == touches[a]
    {
      assert touches[a] in members;
      var m :| 0 <= m < |group| && members[m] == touches[a];
      assert group[m] in group && points[group[m]].candleIndex == touches[a];
    }
    forall j | 0 <= j < |points| && j in group
      ensures Reached(touches, spacing, points[j].candleIndex)
    {
      var m :| 0 <= m < |group| && group[m] == j;
      TouchReaches(spots, group, spacing, m);
    }
    forall j | 0 <= j < |points| && j in group
      ensures touches[0] <= points[j].candleIndex < touches[|touches| - 1] + spacing
      ensures forall a, b :: 0 <= a < b == a + 1 < |touches| ==>
        points[j].candleIndex < touches[a] + spacing || points[j].candleIndex >= touches[b]
    {
      ReachedBetween(touches, spacing, points[j].candleIndex);
    }
  }

  lemma TouchReaches(spots: seq<Spot>, group: seq<int>, spacing: nat, m: nat)
    requires m < |group| && spacing >= 1 && forall i :: 0 <= i < |group| ==> 0 <= group[i] < |spots|
    ensures Reached(Touches(spots, group, spacing), spacing, spots[group[m]].candle)
  {
    hide Accepted, WeakOrder, TiedWith, MergeSorted, Sorted, Reached;
    var s := CandlesAt(spots, group);
    var sorted := MergeSorted(IntLess(), s);
    IntLessOrder(s);
    SameMembers(sorted, s);
    assert s[m] in s && s[m] in sorted;
    var k :| 0 <= k < |sorted| && sorted[k] == s[m];
    AcceptedReach(sorted, |sorted|, spacing, k);
  }

  /** Being in reach of some touch, in terms of the touches around. */
  lemma ReachedBetween(touches: seq<int>, spacing: nat, c: int)
    requires touches != [] && spacing >= 1 && Spread(touches, spacing) && Reached(touches, spacing, c)
    ensures touches[0] <= c < touches[|touches| - 1] + spacing
    ensures forall a, b :: 0 <= a < b == a + 1 < |touches| ==> c < touches[a] + spacing || c >= touches[b]
  {
    var i := ReachOf(touches, spacing, c);
    assert i > 0 ==> touches[i] - touches[0] >= spacing;
    assert i < |touches| - 1 ==> touches[|touches| - 1] - touches[i] >= spacing;
    forall a, b | 0 <= a < b == a + 1 < |touches|
      ensures c < touches[a] + spacing || c >= touches[b]
    {
      if a < i {
        assert b < i ==> touches[i] - touches[b] >= spacing;
      } else {
        assert i < a ==> touches[a] - touches[i] >= spacing;
      }
    }
  }

  /** The representative price is the middle of the bounds, rounded to 16 significant digits. */
  lemma ZoneMidpoint(candles: seq<Candle>, settings: LevelSettings, result: LevelsResult, i: nat)
    requires IsLevels(candles, settings, result) && i < |result.zones|
    ensures
      var zone := result.zones[i];
      zone.representative.Value() == Sig(16, (zone.lower.Value() + zone.upper.Value()) / 2.0)
  {
    hide IsDetected, PriceOrder, Groups, Touches, Wilder, Divided, ZonesOf, Decimal.Value, Decimal.Mul, Decimal.Add,
      RoleOf, Sig, Midpoint;
    var g := ZoneGroup(candles, settings, result, i);
    var group := PriceOrder(SpotsOf(result.extrema))[g.start..g.end];
    RepresentativeIsMidpoint(candles, result.extrema, group, result.referenceClose, settings.minTouchSeparationBars,
                             result.zones[i]);
    MidpointIsRounded(result.zones[i].lower.Value(), result.zones[i].upper.Value());
  }

  // ---- which zones there are ----

  /** A candle of some extremum priced from lower to the width above it. */
  ghost predicate CandleInReach(points: seq<Extremum>, lower: real, width: real, candle: int) {
    exists j :: 0 <= j < |points|
      && lower <= points[j].price.Value() <= lower + width && points[j].candleIndex == candle
  }

  ghost predicate EnoughTouches(points: seq<Extremum>, lower: real, width: real, spacing: nat, chosen: seq<int>) {
    && (forall m, n :: 0 <= m < n < |chosen| ==> chosen[n] - chosen[m] >= spacing)
    && (forall m :: 0 <= m < |chosen| ==> CandleInReach(points, lower, width, chosen[m]))
  }

  lemma SeparatedInReach(points: seq<Extremum>, group: seq<int>, lower: real, width: real, spacing: nat,
                         chosen: seq<int>)
    requires forall i :: 0 <= i < |group| ==> 0 <= group[i] < |points|
    requires forall j :: 0 <= j < |points| ==> (j in group <==> lower <= points[j].price.Value() <= lower + width)
    ensures Separated(CandlesAt(SpotsOf(points), group), spacing, chosen)
            <==> EnoughTouches(points, lower, width, spacing, chosen)
  {
    hide Decimal.Value;
    var candles := CandlesAt(SpotsOf(points), group);
    forall m | 0 <= m < |chosen|
      ensures chosen[m] in candles <==> CandleInReach(points, lower, width, chosen[m])
    {
      if chosen[m] in candles {
        var k :| 0 <= k < |candles| && candles[k] == chosen[m];
        assert group[k] in group && 0 <= group[k] < |points|;
        assert points[group[k]].candleIndex == chosen[m];
      }
      if CandleInReach(points, lower, width, chosen[m]) {
        var j :| 0 <= j < |points| && lower <= points[j].price.Value() <= lower + width
                 && points[j].candleIndex == chosen[m];
        var k :| 0 <= k < |group| && group[k] == j;
        assert candles[k] == chosen[m];
      }
    }
  }

  /** The prices at which the groups start. */
  ghost function Anchors(prices: seq<real>, groups: seq<Span>): (anchors: seq<real>)
    requires InBounds(groups, |prices|)
    ensures |anchors| == |groups|
    ensures forall i :: 0 <= i < |groups| ==> SpanWithin(groups[i], |prices|) && anchors[i] == prices[groups[i].start]
  {
    seq(|groups|, i requires 0 <= i < |groups| => assert SpanWithin(groups[i], |prices|); prices[groups[i].start])
  }

  /** The sorted prices of a result and their groups. */
  lemma ResultGroups(candles: seq<Candle>, settings: LevelSettings, result: LevelsResult)
    returns (prices: seq<real>, groups: seq<Span>)
    requires IsLevels(candles, settings, result)
    ensures
      var spots, width := SpotsOf(result.extrema), result.maximumZoneWidth.Value();
      && width >= 0.0 && References(PriceOrder(spots), |spots|)
      && prices == PricesAt(spots, PriceOrder(spots)) && Ascending(prices)
      && groups == Groups(prices, width, 0) && WellSpaced(prices, width, groups)
  {
    hide IsDetected, PriceOrder, Groups, AreZones, Wilder, Decimal.Value, Decimal.Mul, WellSpaced;
    var spots := SpotsOf(result.extrema);
    PriceOrderAscends(spots);
    prices := PricesAt(spots, PriceOrder(spots));
    GroupsSpaced(prices, result.maximumZoneWidth.Value(), 0);
    groups := Groups(prices, result.maximumZoneWidth.Value(), 0);
  }

  /** A group has a zone exactly when enough separated candles lie in its reach. */
  lemma GroupKept(candles: seq<Candle>, settings: LevelSettings, result: LevelsResult, g: Span, lower: real)
    requires IsLevels(candles, settings, result) && settings.minTouchSeparationBars >= 1
    requires
      var spots, width := SpotsOf(result.extrema), result.maximumZoneWidth.Value();
      && width >= 0.0 && References(PriceOrder(spots), |spots|)
      && g in Groups(PricesAt(spots, PriceOrder(spots)), width, 0)
      && SpanWithin(g, |spots|)
      && lower == spots[PriceOrder(spots)[g.start]].price
    ensures
      var kept := ZonesOf(SpotsOf(result.extrema), result.maximumZoneWidth.Value(), settings.minTouchSeparationBars,
                          settings.minTouches);
      g in kept
      <==> exists chosen: seq<int> ::
             && |chosen| == settings.minTouches
             && EnoughTouches(result.extrema, lower, result.maximumZoneWidth.Value(), settings.minTouchSeparationBars,
                              chosen)
  {
    hide IsDetected, PriceOrder, Groups, AreZones, Wilder, Touches, Kept, EnoughTouches, Separated, Decimal.Value,
      Decimal.Mul, WellSpaced;
    var points, width, spacing := result.extrema, result.maximumZoneWidth.Value(), settings.minTouchSeparationBars;
    var spots := SpotsOf(points);
    var order := PriceOrder(spots);
    var prices := PricesAt(spots, order);
    PriceOrderAscends(spots);
    GroupsSpaced(prices, width, 0);
    SpacedInBounds(prices, width, Groups(prices, width, 0));
    KeptFrom(spots, order, Groups(prices, width, 0), spacing, settings.minTouches, g);
    GroupMembers(spots, width, g);
    var group := order[g.start..g.end];
    GroupSurvives(spots, group, spacing, settings.minTouches);
    forall chosen: seq<int>
      ensures Separated(CandlesAt(spots, group), spacing, chosen)
              == EnoughTouches(points, lower, width, spacing, chosen)
    {
      SeparatedInReach(points, group, lower, width, spacing, chosen);
    }
  }

  lemma SpacedInBounds(prices: seq<real>, width: real, groups: seq<Span>)
    requires WellSpaced(prices, width, groups)
    ensures InBounds(groups, |prices|)
  {
  }

  /** The zone of a kept group starts at the group's anchor. */
  lemma ZoneStarts(candles: seq<Candle>, settings: LevelSettings, result: LevelsResult, i: nat)
    requires IsLevels(candles, settings, result)
    ensures
      var spots, width := SpotsOf(result.extrema), result.maximumZoneWidth.Value();
      && width >= 0.0 && References(PriceOrder(spots), |spots|)
      && var kept := ZonesOf(spots, width, settings.minTouchSeparationBars, settings.minTouches);
      && |kept| == |result.zones|
      && (i < |kept| ==> SpanWithin(kept[i], |spots|)
                         && result.zones[i].lower.Value() == spots[PriceOrder(spots)[kept[i].start]].price)
  {
    hide IsDetected, PriceOrder, Groups, Wilder, Touches, Divided, ZonesOf, RoleOf, Decimal.Value, Decimal.Mul,
      Decimal.Add;
    PriceOrderPermutes(SpotsOf(result.extrema));
    if i < |result.zones| {
      var g := ZoneGroup(candles, settings, result, i);
    }
  }

  /** The prices at which the groups of some points start. */
  ghost function AnchorsOf(points: seq<Extremum>, width: real): (anchors: seq<real>)
    requires width >= 0.0
  {
    var spots := SpotsOf(points);
    PriceOrderAscends(spots);
    var prices := PricesAt(spots, PriceOrder(spots));
    GroupsSpaced(prices, width, 0);
    SpacedInBounds(prices, width, Groups(prices, width, 0));
    Anchors(prices, Groups(prices, width, 0))
  }

  /**
   The anchors are the lowest price, then always the lowest price more than the width above the anchor before, until no
   price is left.
   */
  lemma AnchorsMean(points: seq<Extremum>, width: real)
    requires width >= 0.0
    ensures
      var anchors := AnchorsOf(points, width);
      && (points != [] ==> anchors != [])
      && (forall a :: 0 <= a < |anchors| ==> PriceOccurs(points, anchors[a]))
      && (forall a, b :: 0 <= a < b < |anchors| ==> anchors[b] > anchors[a] + width)
      && (forall j :: 0 <= j < |points| ==>
            anchors[0] <= points[j].price.Value() <= anchors[|anchors| - 1] + width)
      && (forall a, b, j :: 0 <= a < b == a + 1 < |anchors| && 0 <= j < |points| ==>
            points[j].price.Value() <= anchors[a] + width || points[j].price.Value() >= anchors[b])
  {
    hide PriceOrder, Groups, WellSpaced, Ascending, Covered, PriceOccurs, Decimal.Value;
    var spots := SpotsOf(points);
    PriceOrderAscends(spots);
    var prices := PricesAt(spots, PriceOrder(spots));
    GroupsSpaced(prices, width, 0);
    AnchorsSpread(points, prices, width, Groups(prices, width, 0));
    var anchors := AnchorsOf(points, width);
    if points != [] {
      CoveredBetween(anchors, width, points[0].price.Value());
    }
    forall j | 0 <= j < |points|
      ensures anchors != []
      ensures anchors[0] <= points[j].price.Value() <= anchors[|anchors| - 1] + width
      ensures forall a, b :: 0 <= a < b == a + 1 < |anchors| ==>
        points[j].price.Value() <= anchors[a] + width || points[j].price.Value() >= anchors[b]
    {
      CoveredBetween(anchors, width, points[j].price.Value());
    }
  }

  /**
   Every zone starts at an anchor, and an anchor has a zone exactly when enough separated candles carry extrema priced
   from the anchor to the width above it.
   */
  lemma ZonesComplete(candles: seq<Candle>, settings: LevelSettings, result: LevelsResult)
    requires IsLevels(candles, settings, result) && settings.minTouchSeparationBars >= 1
    ensures result.maximumZoneWidth.Value() >= 0.0
    ensures forall i :: 0 <= i < |result.zones| ==>
      result.zones[i].lower.Value() in AnchorsOf(result.extrema, result.maximumZoneWidth.Value())
    ensures
      var points, width, spacing := result.extrema, result.maximumZoneWidth.Value(), settings.minTouchSeparationBars;
      forall anchor :: anchor in AnchorsOf(points, width) ==>
        ((exists i :: 0 <= i < |result.zones| && result.zones[i].lower.Value() == anchor)
         <==> exists chosen: seq<int> ::
                |chosen| == settings.minTouches && EnoughTouches(points, anchor, width, spacing, chosen))
  {
    hide IsLevels, PriceOrder, Groups, WellSpaced, Ascending, ZonesOf, EnoughTouches, Decimal.Value;
    var prices, groups := ResultGroups(candles, settings, result);
    var points, width, spacing := result.extrema, result.maximumZoneWidth.Value(), settings.minTouchSeparationBars;
    SpacedInBounds(prices, width, groups);
    var anchors := AnchorsOf(points, width);
    assert anchors == Anchors(prices, groups);
    forall i | 0 <= i < |result.zones|
      ensures result.zones[i].lower.Value() in anchors
    {
      ZoneAnchor(candles, settings, result, prices, groups, i);
    }
    forall anchor | anchor in anchors
      ensures (exists i :: 0 <= i < |result.zones| && result.zones[i].lower.Value() == anchor)
              <==> exists chosen: seq<int> ::
                     |chosen| == settings.minTouches && EnoughTouches(points, anchor, width, spacing, chosen)
    {
      var a :| 0 <= a < |anchors| && anchors[a] == anchor;
      AnchorKept(candles, settings, result, prices, groups, a);
    }
  }

  ghost predicate PriceOccurs(points: seq<Extremum>, price: real) {
    exists j :: 0 <= j < |points| && points[j].price.Value() == price
  }

  /** Being covered by some anchor, in terms of the anchors around. */
  lemma CoveredBetween(anchors: seq<real>, width: real, price: real)
    requires width >= 0.0 && Covered(anchors, width, price)
    requires forall a, b :: 0 <= a < b < |anchors| ==> anchors[b] > anchors[a] + width
    ensures anchors != [] && anchors[0] <= price <= anchors[|anchors| - 1] + width
    ensures forall a, b :: 0 <= a < b == a + 1 < |anchors| ==> price <= anchors[a] + width || price >= anchors[b]
  {
    var i := CoverOf(anchors, width, price);
    assert i > 0 ==> anchors[i] > anchors[0] + width;
    assert i < |anchors| - 1 ==> anchors[|anchors| - 1] > anchors[i] + width;
    forall a, b | 0 <= a < b == a + 1 < |anchors|
      ensures price <= anchors[a] + width || price >= anchors[b]
    {
      if a < i {
        assert b < i ==> anchors[i] > anchors[b] + width;
      } else {
        assert i < a ==> anchors[a] > anchors[i] + width;
      }
    }
  }

  lemma AnchorsSpread(points: seq<Extremum>, prices: seq<real>, width: real, groups: seq<Span>)
    requires width >= 0.0 && References(PriceOrder(SpotsOf(points)), |points|)
    requires prices == PricesAt(SpotsOf(points), PriceOrder(SpotsOf(points))) && Ascending(prices)
    requires groups == Groups(prices, width, 0) && WellSpaced(prices, width, groups)
    ensures InBounds(groups, |prices|)
    ensures
      var anchors := Anchors(prices, groups);
      && (forall a :: 0 <= a < |anchors| ==> PriceOccurs(points, anchors[a]))
      && (forall a, b :: 0 <= a < b < |anchors| ==> anchors[b] > anchors[a] + width)
      && (forall j :: 0 <= j < |points| ==> Covered(anchors, width, points[j].price.Value()))
  {
    hide PriceOrder, Groups, Ascending, Decimal.Value;
    var spots := SpotsOf(points);
    var order, anchors := PriceOrder(spots), Anchors(prices, groups);
    forall a | 0 <= a < |anchors|
      ensures PriceOccurs(points, anchors[a])
    {
      assert points[order[groups[a].start]].price.Value() == anchors[a];
    }
    forall j | 0 <= j < |points|
      ensures Covered(anchors, width, points[j].price.Value())
    {
      PriceOrderPermutes(spots);
      OnceEach(order, |spots|);
      assert j in order;
      var k :| 0 <= k < |order| && order[k] == j;
      var a := GroupOf(prices, width, 0, k);
      assert NarrowSpan(prices, width, groups[a]);
      assert Covers(anchors, width, points[j].price.Value(), a);
    }
  }

  /** Every position lies in some group. */
  lemma {:induction false} GroupOf(prices: seq<real>, width: real, start: nat, k: nat) returns (a: nat)
    requires start <= k < |prices|
    ensures a < |Groups(prices, width, start)|
    ensures Groups(prices, width, start)[a].start <= k < Groups(prices, width, start)[a].end
    decreases |prices| - start
  {
    hide GroupEnd;
    var end := GroupEnd(prices, prices[start] + width, start + 1);
    if k < end {
      a := 0;
    } else {
      a := GroupOf(prices, width, end, k);
      a := a + 1;
    }
  }

  lemma ZoneAnchor(candles: seq<Candle>, settings: LevelSettings, result: LevelsResult, prices: seq<real>,
                   groups: seq<Span>, i: nat)
    requires IsLevels(candles, settings, result) && i < |result.zones|
    requires References(PriceOrder(SpotsOf(result.extrema)), |SpotsOf(result.extrema)|)
    requires prices == PricesAt(SpotsOf(result.extrema), PriceOrder(SpotsOf(result.extrema)))
    requires groups == Groups(prices, result.maximumZoneWidth.Value(), 0) && InBounds(groups, |prices|)
    ensures result.zones[i].lower.Value() in Anchors(prices, groups)
  {
    hide IsLevels, PriceOrder, Groups, ZonesOf, IsZone, Decimal.Value;
    var g := ZoneGroup(candles, settings, result, i);
    ZoneStarts(candles, settings, result, i);
    var a :| 0 <= a < |groups| && groups[a] == g;
    assert Anchors(prices, groups)[a] == result.zones[i].lower.Value();
  }

  lemma AnchorKept(candles: seq<Candle>, settings: LevelSettings, result: LevelsResult, prices: seq<real>,
                   groups: seq<Span>, a: nat)
    requires IsLevels(candles, settings, result) && settings.minTouchSeparationBars >= 1
    requires References(PriceOrder(SpotsOf(result.extrema)), |SpotsOf(result.extrema)|)
    requires prices == PricesAt(SpotsOf(result.extrema), PriceOrder(SpotsOf(result.extrema)))
    requires groups == Groups(prices, result.maximumZoneWidth.Value(), 0) && InBounds(groups, |prices|)
    requires a < |groups| && result.maximumZoneWidth.Value() >= 0.0
    ensures
      var points, width, spacing := result.extrema, result.maximumZoneWidth.Value(), settings.minTouchSeparationBars;
      var anchor := Anchors(prices, groups)[a];
      (exists i :: 0 <= i < |result.zones| && result.zones[i].lower.Value() == anchor)
      <==> exists chosen: seq<int> ::
             |chosen| == settings.minTouches && EnoughTouches(points, anchor, width, spacing, chosen)
  {
    hide IsLevels, PriceOrder, Groups, ZonesOf, EnoughTouches, Decimal.Value;
    AnchorIn(prices, groups, a);
    GroupKept(candles, settings, result, groups[a], Anchors(prices, groups)[a]);
    KeptIsZone(candles, settings, result, groups[a]);
  }

  lemma AnchorIn(prices: seq<real>, groups: seq<Span>, a: nat)
    requires InBounds(groups, |prices|) && a < |groups|
    ensures SpanWithin(groups[a], |prices|) && groups[a] in groups
    ensures Anchors(prices, groups)[a] == prices[groups[a].start]
  {
    assert SpanWithin(groups[a], |prices|);
  }

  /** A group is kept exactly when some zone starts at its anchor. */
  lemma KeptIsZone(candles: seq<Candle>, settings: LevelSettings, result: LevelsResult, g: Span)
    requires IsLevels(candles, settings, result)
    requires
      var spots, width := SpotsOf(result.extrema), result.maximumZoneWidth.Value();
      && width >= 0.0 && References(PriceOrder(spots), |spots|)
      && g in Groups(PricesAt(spots, PriceOrder(spots)), width, 0)
      && SpanWithin(g, |spots|)
    ensures
      var spots := SpotsOf(result.extrema);
      var kept := ZonesOf(spots, result.maximumZoneWidth.Value(), settings.minTouchSeparationBars, settings.minTouches);
      g in kept
      <==> exists i :: 0 <= i < |result.zones|
             && result.zones[i].lower.Value() == spots[PriceOrder(spots)[g.start]].price
  {
    hide IsLevels, PriceOrder, Groups, ZonesOf, IsZone, Touches, Decimal.Value;
    var spots, width := SpotsOf(result.extrema), result.maximumZoneWidth.Value();
    var kept := ZonesOf(spots, width, settings.minTouchSeparationBars, settings.minTouches);
    ZoneStarts(candles, settings, result, |kept|);
    PriceOrderAscends(spots);
    if g in kept {
      var i :| 0 <= i < |kept| && kept[i] == g;
      ZoneStarts(candles, settings, result, i);
      assert result.zones[i].lower.Value() == spots[PriceOrder(spots)[g.start]].price;
    }
    forall i | 0 <= i < |result.zones| && result.zones[i].lower.Value() == spots[PriceOrder(spots)[g.start]].price
      ensures g in kept
    {
      ZoneStarts(candles, settings, result, i);
      var h := ZoneGroup(candles, settings, result, i);
      GroupsSpaced(PricesAt(spots, PriceOrder(spots)), width, 0);
      SameAnchor(PricesAt(spots, PriceOrder(spots)), width, g, h);
      assert kept[i] == h;
    }
  }

  /** Different groups start at different prices. */
  lemma SameAnchor(prices: seq<real>, width: real, g: Span, h: Span)
    requires width >= 0.0 && g in Groups(prices, width, 0) && h in Groups(prices, width, 0)
    requires Ascending(prices) && g.start < |prices| && h.start < |prices| && prices[g.start] == prices[h.start]
    ensures g == h
  {
    hide Groups, Ascending;
    GroupsSpaced(prices, width, 0);
    var groups := Groups(prices, width, 0);
    var i :| 0 <= i < |groups| && groups[i] == g;
    var j :| 0 <= j < |groups| && groups[j] == h;
    assert Apart(prices, width, groups);
  }
}
