/** The turning points of a bar history for each of the three methods, on plain numbers. */
module Extrema {
  import opened Powers
  import opened Decimals
  import opened Rounding
  import opened Results
  import opened Market
  import opened TrueRanges
  import opened Swings

  // ---- thresholds ----

  ghost function PercentThreshold(price: real, pct: real): (t: real) {
    Sig(16, Over(Times(price, pct), 100.0))
  }

  ghost function TickOf(bars: seq<Bar>, settings: ExtremaSettings, i: nat): (t: Tick)
    requires i < |bars|
  {
    var high, low := Price(bars[i], settings.source, High), Price(bars[i], settings.source, Low);
    match settings.algorithm
    case LocalExtrema(_) => Tick(high, low, 0.0, 0.0)
    case PercentReversal(pct) =>
      Tick(high, low, PercentThreshold(high, pct.Value()), PercentThreshold(low, pct.Value()))
    case AtrReversal(period, multiplier) =>
      var t := if 1 <= period <= i then Times(Atr(bars, period, i), multiplier.Value()) else 0.0;
      Tick(high, low, t, t)
  }

  ghost function Ticks(bars: seq<Bar>, settings: ExtremaSettings): (ticks: seq<Tick>)
    ensures |ticks| == |bars|
    ensures forall i :: 0 <= i < |ticks| ==> ticks[i] == TickOf(bars, settings, i)
  {
    seq(|bars|, i requires 0 <= i < |bars| => TickOf(bars, settings, i))
  }

  /** Detection starts where the first threshold exists. */
  function StartOf(algorithm: Method): (start: nat) {
    if algorithm.AtrReversal? then algorithm.atrPeriod else 0
  }

  // ---- neighbouring candles ----

  ghost function LeadPrice(bars: seq<Bar>, source: PriceSource, kind: Kind, i: nat): (p: real)
    requires i < |bars|
  {
    if kind == High then Price(bars[i], source, High) else -Price(bars[i], source, Low)
  }

  /** Strictly more extreme than every other candle within span on both sides. */
  ghost predicate IsPivot(bars: seq<Bar>, source: PriceSource, span: nat, kind: Kind, i: nat)
    requires span <= i < |bars| - span
  {
    forall j :: i - span <= j <= i + span && j != i ==>
      LeadPrice(bars, source, kind, j) < LeadPrice(bars, source, kind, i)
  }

  ghost function PivotsAt(bars: seq<Bar>, source: PriceSource, span: nat, i: nat): (turns: seq<Turn>)
    requires span <= i < |bars| - span
  {
    (if IsPivot(bars, source, span, High, i) then [Turn(High, i, i + span)] else [])
    + (if IsPivot(bars, source, span, Low, i) then [Turn(Low, i, i + span)] else [])
  }

  /** Pivots of the candles before m, in candle order with the high first. */
  ghost function Pivots(bars: seq<Bar>, source: PriceSource, span: nat, m: nat): (turns: seq<Turn>)
    requires m <= |bars| - span || m <= span
  {
    if m <= span then [] else Pivots(bars, source, span, m - 1) + PivotsAt(bars, source, span, m - 1)
  }

  lemma PivotsAtMember(bars: seq<Bar>, source: PriceSource, span: nat, i: nat, t: Turn)
    requires span <= i < |bars| - span
    ensures t in PivotsAt(bars, source, span, i)
            <==> t.index == i && t.confirmation == i + span && IsPivot(bars, source, span, t.kind, i)
  {
    hide IsPivot;
    var high := if IsPivot(bars, source, span, High, i) then [Turn(High, i, i + span)] else [];
    var low := if IsPivot(bars, source, span, Low, i) then [Turn(Low, i, i + span)] else [];
    assert PivotsAt(bars, source, span, i) == high + low;
    assert t in high <==> IsPivot(bars, source, span, High, i) && t == Turn(High, i, i + span);
    assert t in low <==> IsPivot(bars, source, span, Low, i) && t == Turn(Low, i, i + span);
    assert t in high + low <==> t in high || t in low;
    match t.kind
    case High =>
    case Low =>
  }

  /** Exactly the pivots are found. */
  lemma {:induction false} PivotFound(bars: seq<Bar>, source: PriceSource, span: nat, m: nat, t: Turn)
    requires m <= |bars| - span || m <= span
    ensures t in Pivots(bars, source, span, m)
            <==> span <= t.index < m && t.confirmation == t.index + span && IsPivot(bars, source, span, t.kind, t.index)
  {
    hide IsPivot, PivotsAt;
    if m <= span {
    } else {
      PivotFound(bars, source, span, m - 1, t);
      PivotsAtMember(bars, source, span, m - 1, t);
    }
  }

  lemma PivotBeats(bars: seq<Bar>, source: PriceSource, span: nat, kind: Kind, i: nat, j: nat)
    requires span <= i < |bars| - span && i - span <= j <= i + span && j != i
    requires IsPivot(bars, source, span, kind, i)
    ensures LeadPrice(bars, source, kind, j) < LeadPrice(bars, source, kind, i)
  {
  }

  /** Two pivots of one kind exclude each other from their windows. */
  lemma PivotsApart(bars: seq<Bar>, source: PriceSource, span: nat, kind: Kind, i: nat, j: nat)
    requires span <= i < j < |bars| - span
    requires IsPivot(bars, source, span, kind, i) && IsPivot(bars, source, span, kind, j)
    ensures j - i > span
  {
    hide LeadPrice, IsPivot;
    if j - i <= span {
      PivotBeats(bars, source, span, kind, i, j);
      PivotBeats(bars, source, span, kind, j, i);
    }
  }

  /** In candle order, the high first on one candle, and two of one kind more than span apart. */
  lemma {:induction false} PivotsOrdered(bars: seq<Bar>, source: PriceSource, span: nat, m: nat, a: nat, b: nat)
    requires m <= |bars| - span || m <= span
    requires a < b < |Pivots(bars, source, span, m)|
    ensures var ts := Pivots(bars, source, span, m);
      && (ts[a].index < ts[b].index || (ts[a].index == ts[b].index && ts[a].kind == High && ts[b].kind == Low))
      && (ts[a].kind == ts[b].kind ==> ts[b].index - ts[a].index > span)
  {
    hide IsPivot, PivotsAt;
    var earlier := Pivots(bars, source, span, m - 1);
    var latest := PivotsAt(bars, source, span, m - 1);
    var s, t := Pivots(bars, source, span, m)[a], Pivots(bars, source, span, m)[b];
    if b < |earlier| {
      PivotsOrdered(bars, source, span, m - 1, a, b);
    } else {
      assert t == latest[b - |earlier|] && t in latest;
      PivotsAtMember(bars, source, span, m - 1, t);
      if a < |earlier| {
        assert s == earlier[a] && s in earlier;
        PivotFound(bars, source, span, m - 1, s);
        if s.kind == t.kind {
          PivotsApart(bars, source, span, s.kind, s.index, t.index);
        }
      } else {
        PairAtOneCandle(bars, source, span, m - 1);
      }
    }
  }

  lemma PairAtOneCandle(bars: seq<Bar>, source: PriceSource, span: nat, i: nat)
    requires span <= i < |bars| - span
    ensures var ts := PivotsAt(bars, source, span, i);
      |ts| <= 2 && (|ts| == 2 ==> ts[0] == Turn(High, i, i + span) && ts[1] == Turn(Low, i, i + span))
  {
    hide IsPivot;
  }

  // ---- all methods ----

  ghost predicate Applicable(settings: ExtremaSettings, count: nat) {
    match settings.algorithm
    case LocalExtrema(span) => 1 <= span && 2 * span + 1 <= count
    case PercentReversal(pct) => 0.0 < pct.Value() < 100.0 && 2 <= count
    case AtrReversal(period, multiplier) => 1 <= period && multiplier.Value() > 0.0 && period + 2 <= count
  }

  lemma ValidIsApplicable(settings: ExtremaSettings, count: nat)
    ensures settings.Validate(count) == None <==> Applicable(settings, count)
  {
    hide Times, Pow10;
  }

  ghost function Turns(bars: seq<Bar>, settings: ExtremaSettings): (turns: seq<Turn>)
    requires Applicable(settings, |bars|)
  {
    if settings.algorithm.LocalExtrema?
    then Pivots(bars, settings.source, settings.algorithm.pivotSpan, |bars| - settings.algorithm.pivotSpan)
    else Run(Ticks(bars, settings), StartOf(settings.algorithm), |bars|).turns
  }

  /** Both candles of every turn exist, and confirmation comes later. */
  lemma TurnWithin(bars: seq<Bar>, settings: ExtremaSettings, k: nat)
    requires Applicable(settings, |bars|) && k < |Turns(bars, settings)|
    ensures Turns(bars, settings)[k].index < Turns(bars, settings)[k].confirmation < |bars|
  {
    hide Run, IsPivot, Pivots;
    var turns := Turns(bars, settings);
    if settings.algorithm.LocalExtrema? {
      var span := settings.algorithm.pivotSpan;
      assert turns[k] in turns;
      PivotFound(bars, settings.source, span, |bars| - span, turns[k]);
    } else {
      TurnsAlternate(Ticks(bars, settings), StartOf(settings.algorithm), |bars|, k);
    }
  }

  /** Percentage thresholds of positive prices are positive, so they never block a confirmation. */
  lemma PercentThresholdPositive(price: real, pct: real)
    requires price > 0.0 && pct > 0.0
    ensures PercentThreshold(price, pct) > 0.0
  {
    hide Times, Over, Sig;
    TimesUnits(pct);
    TimesOrder(0.0, price, pct);
    var n := Times(price, pct);
    OverTimes(n, 100.0);
    TimesUnits(100.0);
    TimesOrder(0.0, Over(n, 100.0), 100.0);
    SigSign(16, Over(n, 100.0));
  }

  // ---- appending candles ----

  lemma TicksPrefix(bars: seq<Bar>, m: nat, settings: ExtremaSettings)
    requires m <= |bars|
    ensures Ticks(bars[..m], settings) == Ticks(bars, settings)[..m]
  {
    hide Atr, Times, PercentThreshold;
    forall i | 0 <= i < m
      ensures Ticks(bars[..m], settings)[i] == Ticks(bars, settings)[i]
    {
      if settings.algorithm.AtrReversal? && 1 <= settings.algorithm.atrPeriod <= i {
        AtrPrefix(bars, m, settings.algorithm.atrPeriod, i);
      }
    }
  }

  lemma {:induction false} PivotsPrefix(bars: seq<Bar>, n: nat, source: PriceSource, span: nat, m: nat)
    requires n <= |bars| && (m <= n - span || m <= span)
    ensures Pivots(bars[..n], source, span, m) == Pivots(bars, source, span, m)
  {
    hide IsPivot;
    if m <= span {
    } else {
      PivotsPrefix(bars, n, source, span, m - 1);
      PivotPrefix(bars, n, source, span, High, m - 1);
      PivotPrefix(bars, n, source, span, Low, m - 1);
    }
  }

  lemma PivotPrefix(bars: seq<Bar>, n: nat, source: PriceSource, span: nat, kind: Kind, i: nat)
    requires n <= |bars| && span <= i < n - span
    ensures IsPivot(bars[..n], source, span, kind, i) == IsPivot(bars, source, span, kind, i)
  {
    forall j | i - span <= j <= i + span
      ensures LeadPrice(bars[..n], source, kind, j) == LeadPrice(bars, source, kind, j)
    {
    }
  }

  lemma {:induction false} PivotsAppend(bars: seq<Bar>, source: PriceSource, span: nat, m: nat, n: nat)
    requires m <= n && (n <= |bars| - span || n <= span)
    ensures Pivots(bars, source, span, m) <= Pivots(bars, source, span, n)
    decreases n
  {
    if m == n || n <= span {
    } else {
      PivotsAppend(bars, source, span, m, n - 1);
    }
  }

  /** The points of a valid prefix are a prefix of the points, whatever the method. */
  lemma TurnsAppend(bars: seq<Bar>, m: nat, settings: ExtremaSettings)
    requires m <= |bars| && Applicable(settings, m)
    ensures Applicable(settings, |bars|)
    ensures Turns(bars[..m], settings) <= Turns(bars, settings)
  {
    hide Run, Pivots, Ticks;
    if settings.algorithm.LocalExtrema? {
      var span := settings.algorithm.pivotSpan;
      PivotsPrefix(bars, m, settings.source, span, m - span);
      PivotsAppend(bars, settings.source, span, m - span, |bars| - span);
    } else {
      TicksPrefix(bars, m, settings);
      RunAppends(Ticks(bars, settings), StartOf(settings.algorithm), m, |bars|);
    }
  }

  // ---- reflecting prices ----

  ghost function OfKind(turns: seq<Turn>, kind: Kind): (r: seq<Turn>) {
    if turns == [] then []
    else OfKind(turns[..|turns| - 1], kind)
         + (if turns[|turns| - 1].kind == kind then [turns[|turns| - 1]] else [])
  }

  lemma {:induction false} OfKindConcat(a: seq<Turn>, b: seq<Turn>, kind: Kind)
    ensures OfKind(a + b, kind) == OfKind(a, kind) + OfKind(b, kind)
  {
    if b == [] {
      assert a + b == a;
    } else {
      OfKindConcat(a, b[..|b| - 1], kind);
      assert (a + b)[..|a + b| - 1] == a + b[..|b| - 1];
    }
  }

  lemma {:induction false} OfKindFlipped(turns: seq<Turn>, kind: Kind)
    ensures OfKind(FlipTurns(turns), kind) == FlipTurns(OfKind(turns, Opposite(kind)))
  {
    if turns == [] {
    } else {
      var front := turns[..|turns| - 1];
      OfKindFlipped(front, kind);
      assert FlipTurns(turns)[..|turns| - 1] == FlipTurns(front);
    }
  }

  lemma TicksReflected(k: real, bars: seq<Bar>, settings: ExtremaSettings)
    requires settings.algorithm.AtrReversal?
    ensures Mirrored(k, Ticks(bars, settings), Ticks(Reflect(k, bars), settings))
  {
    hide Atr, Times;
    forall i | 0 <= i < |bars|
      ensures var t := Ticks(bars, settings)[i];
        Ticks(Reflect(k, bars), settings)[i] == Tick(k - t.low, k - t.high, t.lowThreshold, t.highThreshold)
    {
      if 1 <= settings.algorithm.atrPeriod <= i {
        AtrReflected(k, bars, settings.algorithm.atrPeriod, i);
      }
    }
  }

  /** ATR reversal: the same candles and confirmations, kinds exchanged, on reflected prices. */
  lemma TurnsReflected(k: real, bars: seq<Bar>, settings: ExtremaSettings)
    requires settings.algorithm.AtrReversal? && Applicable(settings, |bars|)
    ensures Turns(Reflect(k, bars), settings) == FlipTurns(Turns(bars, settings))
  {
    hide Run, Ticks;
    TicksReflected(k, bars, settings);
    RunMirrored(k, Ticks(bars, settings), Ticks(Reflect(k, bars), settings), StartOf(settings.algorithm), |bars|);
  }

  lemma PivotReflected(k: real, bars: seq<Bar>, source: PriceSource, span: nat, kind: Kind, i: nat)
    requires span <= i < |bars| - span
    ensures IsPivot(Reflect(k, bars), source, span, kind, i) == IsPivot(bars, source, span, Opposite(kind), i)
  {
    forall j | i - span <= j <= i + span
      ensures LeadPrice(Reflect(k, bars), source, kind, j)
              == LeadPrice(bars, source, Opposite(kind), j) + (if kind == High then k else -k)
    {
    }
  }

  lemma {:induction false} PivotsReflected(k: real, bars: seq<Bar>, source: PriceSource, span: nat, m: nat, kind: Kind)
    requires m <= |bars| - span || m <= span
    ensures OfKind(Pivots(Reflect(k, bars), source, span, m), kind)
            == FlipTurns(OfKind(Pivots(bars, source, span, m), Opposite(kind)))
  {
    hide IsPivot, PivotsAt, OfKind;
    OfKindNone(kind);
    OfKindNone(Opposite(kind));
    if m > span {
      var i := m - 1;
      PivotsReflected(k, bars, source, span, i, kind);
      OfKindConcat(Pivots(Reflect(k, bars), source, span, i), PivotsAt(Reflect(k, bars), source, span, i), kind);
      OfKindConcat(Pivots(bars, source, span, i), PivotsAt(bars, source, span, i), Opposite(kind));
      OfKindAt(Reflect(k, bars), source, span, i, kind);
      OfKindAt(bars, source, span, i, Opposite(kind));
      PivotReflected(k, bars, source, span, kind, i);
    } else {
      assert FlipTurns([]) == [];
    }
  }

  lemma OfKindNone(kind: Kind)
    ensures OfKind([], kind) == []
  {
  }

  lemma OfKindAt(bars: seq<Bar>, source: PriceSource, span: nat, i: nat, kind: Kind)
    requires span <= i < |bars| - span
    ensures OfKind(PivotsAt(bars, source, span, i), kind)
            == if IsPivot(bars, source, span, kind, i) then [Turn(kind, i, i + span)] else []
  {
    hide IsPivot;
    OfKindConcat(if IsPivot(bars, source, span, High, i) then [Turn(High, i, i + span)] else [],
                 if IsPivot(bars, source, span, Low, i) then [Turn(Low, i, i + span)] else [], kind);
    assert forall t: Turn :: OfKind([t], kind) == if t.kind == kind then [t] else [];
  }

  /** Both methods without a price-proportional threshold: the highs of the mirror are the lows. */
  lemma KindsReflected(k: real, bars: seq<Bar>, settings: ExtremaSettings, kind: Kind)
    requires !settings.algorithm.PercentReversal? && Applicable(settings, |bars|)
    ensures OfKind(Turns(Reflect(k, bars), settings), kind)
            == FlipTurns(OfKind(Turns(bars, settings), Opposite(kind)))
  {
    hide Run, Pivots, OfKind, Ticks;
    if settings.algorithm.LocalExtrema? {
      PivotsReflected(k, bars, settings.source, settings.algorithm.pivotSpan, |bars| - settings.algorithm.pivotSpan,
                      kind);
    } else {
      TurnsReflected(k, bars, settings);
      OfKindFlipped(Turns(bars, settings), kind);
    }
  }

  // ---- shifting the decimal point of every price ----

  lemma PercentShifted(price: real, pct: real, k: int)
    ensures PercentThreshold(Times(price, Pow10(k)), pct) == Times(PercentThreshold(price, pct), Pow10(k))
  {
    hide Times, Over, Sig, Pow10;
    TimesAssociates(price, Pow10(k), pct);
    TimesCommutes(Pow10(k), pct);
    TimesAssociates(price, pct, Pow10(k));
    OverShifted(Times(price, pct), 100.0, k);
    SigScale(16, Over(Times(price, pct), 100.0), k);
  }

  lemma TicksShifted(k: int, bars: seq<Bar>, settings: ExtremaSettings)
    ensures Rescaled(Pow10(k), Ticks(bars, settings), Ticks(Shift10(k, bars), settings))
  {
    forall i | 0 <= i < |bars|
      ensures var t := Ticks(bars, settings)[i];
        Ticks(Shift10(k, bars), settings)[i]
        == Tick(Times(t.high, Pow10(k)), Times(t.low, Pow10(k)), Times(t.highThreshold, Pow10(k)),
                Times(t.lowThreshold, Pow10(k)))
    {
      hide Atr, Times, PercentThreshold, Pow10, Decimal.Value;
      TimesUnits(Pow10(k));
      match settings.algorithm
      case LocalExtrema(_) =>
      case PercentReversal(pct) =>
        PercentShifted(Price(bars[i], settings.source, High), pct.Value(), k);
        PercentShifted(Price(bars[i], settings.source, Low), pct.Value(), k);
      case AtrReversal(period, multiplier) =>
        if 1 <= period <= i {
          var atr := Atr(bars, period, i);
          AtrShifted(k, bars, period, i);
          TimesAssociates(atr, Pow10(k), multiplier.Value());
          TimesCommutes(Pow10(k), multiplier.Value());
          TimesAssociates(atr, multiplier.Value(), Pow10(k));
        }
    }
  }

  lemma {:induction false} PivotsShifted(k: int, bars: seq<Bar>, source: PriceSource, span: nat, m: nat)
    requires m <= |bars| - span || m <= span
    ensures Pivots(Shift10(k, bars), source, span, m) == Pivots(bars, source, span, m)
  {
    hide IsPivot;
    if m <= span {
    } else {
      PivotsShifted(k, bars, source, span, m - 1);
      PivotShifted(k, bars, source, span, High, m - 1);
      PivotShifted(k, bars, source, span, Low, m - 1);
    }
  }

  lemma PivotShifted(k: int, bars: seq<Bar>, source: PriceSource, span: nat, kind: Kind, i: nat)
    requires span <= i < |bars| - span
    ensures IsPivot(Shift10(k, bars), source, span, kind, i) == IsPivot(bars, source, span, kind, i)
  {
    hide Times, Pow10;
    forall j | i - span <= j <= i + span
      ensures LeadPrice(Shift10(k, bars), source, kind, j) < LeadPrice(Shift10(k, bars), source, kind, i)
              <==> LeadPrice(bars, source, kind, j) < LeadPrice(bars, source, kind, i)
    {
      TimesOrder(Price(bars[j], source, kind), Price(bars[i], source, kind), Pow10(k));
      TimesOrder(Price(bars[i], source, kind), Price(bars[j], source, kind), Pow10(k));
    }
  }

  /** The same candles, confirmations and kinds after every price is multiplied by 10^k. */
  lemma TurnsShifted(k: int, bars: seq<Bar>, settings: ExtremaSettings)
    requires Applicable(settings, |bars|)
    ensures Turns(Shift10(k, bars), settings) == Turns(bars, settings)
  {
    hide Run, Pivots, Ticks, Pow10, Times;
    if settings.algorithm.LocalExtrema? {
      PivotsShifted(k, bars, settings.source, settings.algorithm.pivotSpan, |bars| - settings.algorithm.pivotSpan);
    } else {
      TicksShifted(k, bars, settings);
      RunRescaled(Pow10(k), Ticks(bars, settings), Ticks(Shift10(k, bars), settings), StartOf(settings.algorithm),
                  |bars|);
    }
  }
}
