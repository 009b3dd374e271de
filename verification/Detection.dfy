/** The loops over exact decimals that find extrema, with their evidence and their division errors. */
module Detection {
  import opened Powers
  import opened Decimals
  import opened Rounding
  import opened Results
  import opened Division
  import opened Market
  import opened TrueRanges
  import opened AtrSequences
  import opened Swings
  import opened Extrema

  datatype Evidence = Evidence(threshold: Decimal, confirmationPrice: Decimal, candidateAtr: Option<Decimal>)

  datatype Extremum = Extremum(
    kind: Kind, candleIndex: nat, time: Time, price: Decimal,
    confirmationIndex: nat, confirmationTime: Time, reversal: Option<Evidence>)

  function Selected(c: Candle, source: PriceSource, kind: Kind): (p: Decimal)
    ensures p.Value() == Price(BarOf(c), source, kind)
  {
    if kind == High then SelectedHigh(c, source) else SelectedLow(c, source)
  }

  // ---- what a point must carry ----

  /** The evidence of a candidate, determined by its candle alone. */
  ghost predicate IsEvidence(candles: seq<Candle>, algorithm: Method, index: nat, price: Decimal, e: Evidence)
    requires index < |candles|
  {
    match algorithm
    case LocalExtrema(_) => false
    case PercentReversal(pct) => Divided(price.Mul(pct), HUNDRED) == Ok(e.threshold) && e.candidateAtr == None
    case AtrReversal(period, multiplier) =>
      && 1 <= period <= index
      && e.candidateAtr.Some?
      && Wilder(candles, period, index) == Ok(e.candidateAtr.value)
      && e.threshold == e.candidateAtr.value.Mul(multiplier)
  }

  ghost predicate IsPoint(candles: seq<Candle>, settings: ExtremaSettings, t: Turn, p: Extremum) {
    && t.index < |candles| && t.confirmation < |candles|
    && p.kind == t.kind
    && p.candleIndex == t.index
    && p.time == candles[t.index].openTime
    && p.price == Selected(candles[t.index], settings.source, t.kind)
    && p.confirmationIndex == t.confirmation
    && p.confirmationTime == candles[t.confirmation].closeTime
    && (if settings.algorithm.LocalExtrema? then p.reversal == None
        else
          && p.reversal.Some?
          && p.reversal.value.confirmationPrice == Selected(candles[t.confirmation], settings.source, Opposite(t.kind))
          && IsEvidence(candles, settings.algorithm, t.index, p.price, p.reversal.value))
  }

  ghost predicate ArePoints(candles: seq<Candle>, settings: ExtremaSettings, turns: seq<Turn>, points: seq<Extremum>) {
    && |points| == |turns|
    && forall k :: 0 <= k < |turns| ==> IsPoint(candles, settings, turns[k], points[k])
  }

  /** The complete, uniquely determined answer. */
  ghost predicate IsDetected(candles: seq<Candle>, settings: ExtremaSettings, points: seq<Extremum>) {
    && Applicable(settings, |candles|)
    && ArePoints(candles, settings, Turns(Bars(candles), settings), points)
  }

  lemma SamePoint(candles: seq<Candle>, settings: ExtremaSettings, t: Turn, p: Extremum, q: Extremum)
    requires IsPoint(candles, settings, t, p) && IsPoint(candles, settings, t, q)
    ensures p == q
  {
    hide Divided, Wilder, Decimal.Mul;
  }

  /** Two complete answers are the same list, evidence included. */
  lemma DetectedUnique(candles: seq<Candle>, settings: ExtremaSettings, points: seq<Extremum>, others: seq<Extremum>)
    requires IsDetected(candles, settings, points) && IsDetected(candles, settings, others)
    ensures points == others
  {
    hide IsPoint, Turns;
    var turns := Turns(Bars(candles), settings);
    forall k | 0 <= k < |points|
      ensures points[k] == others[k]
    {
      SamePoint(candles, settings, turns[k], points[k], others[k]);
    }
  }

  lemma PointPrefix(candles: seq<Candle>, m: nat, settings: ExtremaSettings, t: Turn, p: Extremum)
    requires m <= |candles| && IsPoint(candles[..m], settings, t, p)
    ensures IsPoint(candles, settings, t, p)
  {
    hide Divided, Wilder, Decimal.Mul;
    if settings.algorithm.AtrReversal? && 1 <= settings.algorithm.atrPeriod <= t.index {
      WilderPrefix(candles, m, settings.algorithm.atrPeriod, t.index);
    }
  }

  /** Points found on a prefix of the candles reappear unchanged at the head of the longer answer. */
  lemma DetectedAppend(candles: seq<Candle>, m: nat, settings: ExtremaSettings, before: seq<Extremum>,
                       after: seq<Extremum>)
    requires m <= |candles|
    requires IsDetected(candles[..m], settings, before) && IsDetected(candles, settings, after)
    ensures before <= after
  {
    hide IsPoint, Turns, Applicable;
    assert Bars(candles[..m]) == Bars(candles)[..m];
    TurnsAppend(Bars(candles), m, settings);
    var turns := Turns(Bars(candles), settings);
    forall k | 0 <= k < |before|
      ensures before[k] == after[k]
    {
      PointPrefix(candles, m, settings, turns[k], before[k]);
      SamePoint(candles, settings, turns[k], before[k], after[k]);
    }
  }

  // ---- neighbouring candles ----

  function ConfirmedPoint(candles: seq<Candle>, kind: Kind, index: nat, confirmation: nat,
                          price: Decimal): (p: Extremum)
    requires index < |candles| && confirmation < |candles|
  {
    Extremum(kind, index, candles[index].openTime, price, confirmation, candles[confirmation].closeTime, None)
  }

  /** Window comparisons with an early exit once neither kind is possible. */
  method WindowPivots(candles: seq<Candle>, source: PriceSource, span: nat, i: nat) returns (isHigh: bool, isLow: bool)
    requires span <= i < |candles| - span
    ensures isHigh <==> IsPivot(Bars(candles), source, span, High, i)
    ensures isLow <==> IsPivot(Bars(candles), source, span, Low, i)
  {
    hide Times, Pow10, Decimal.Value, Decimal.LessThan;
    var high, low := SelectedHigh(candles[i], source), SelectedLow(candles[i], source);
    ghost var bars := Bars(candles);
    isHigh, isLow := true, true;
    var j := i - span;
    while j <= i + span
      invariant i - span <= j <= i + span + 1
      invariant isHigh <==> forall m :: i - span <= m < j && m != i ==>
        LeadPrice(bars, source, High, m) < LeadPrice(bars, source, High, i)
      invariant isLow <==> forall m :: i - span <= m < j && m != i ==>
        LeadPrice(bars, source, Low, m) < LeadPrice(bars, source, Low, i)
      decreases i + span + 1 - j
    {
      if j == i {
        j := j + 1;
        continue;
      }
      var neighborHigh, neighborLow := SelectedHigh(candles[j], source), SelectedLow(candles[j], source);
      assert neighborHigh.LessThan(high) <==> LeadPrice(bars, source, High, j) < LeadPrice(bars, source, High, i);
      assert low.LessThan(neighborLow) <==> LeadPrice(bars, source, Low, j) < LeadPrice(bars, source, Low, i);
      isHigh := isHigh && neighborHigh.LessThan(high);
      isLow := isLow && low.LessThan(neighborLow);
      if !isHigh && !isLow {
        break;
      }
      j := j + 1;
    }
  }

  method FindLocalExtrema(candles: seq<Candle>, source: PriceSource, span: nat) returns (points: seq<Extremum>)
    requires 1 <= span && 2 * span + 1 <= |candles|
    ensures IsDetected(candles, ExtremaSettings(source, LocalExtrema(span)), points)
  {
    hide *;
    ghost var settings := ExtremaSettings(source, LocalExtrema(span));
    ghost var bars := Bars(candles);
    NoPivots(candles, settings, span);
    points := [];
    var i := span;
    while i < |candles| - span
      invariant span <= i <= |candles| - span
      invariant ArePoints(candles, settings, Pivots(bars, source, span, i), points)
    {
      var isHigh, isLow := WindowPivots(candles, source, span, i);
      ghost var before := points;
      PivotPoints(candles, source, span, i, before);
      if isHigh {
        points := points + [ConfirmedPoint(candles, High, i, i + span, SelectedHigh(candles[i], source))];
      }
      if isLow {
        points := points + [ConfirmedPoint(candles, Low, i, i + span, SelectedLow(candles[i], source))];
      }
      assert points == before
        + (if isHigh then [ConfirmedPoint(candles, High, i, i + span, SelectedHigh(candles[i], source))] else [])
        + (if isLow then [ConfirmedPoint(candles, Low, i, i + span, SelectedLow(candles[i], source))] else []);
      i := i + 1;
    }
    LocalDetected(candles, source, span, points);
  }

  lemma LocalDetected(candles: seq<Candle>, source: PriceSource, span: nat, points: seq<Extremum>)
    requires 1 <= span && 2 * span + 1 <= |candles|
    requires ArePoints(candles, ExtremaSettings(source, LocalExtrema(span)),
                       Pivots(Bars(candles), source, span, |candles| - span), points)
    ensures IsDetected(candles, ExtremaSettings(source, LocalExtrema(span)), points)
  {
    hide ArePoints, Pivots;
  }

  lemma NoPivots(candles: seq<Candle>, settings: ExtremaSettings, span: nat)
    requires 2 * span + 1 <= |candles|
    ensures ArePoints(candles, settings, Pivots(Bars(candles), settings.source, span, span), [])
  {
  }

  /** What the points of candle i add to the list. */
  lemma PivotPoints(candles: seq<Candle>, source: PriceSource, span: nat, i: nat, points: seq<Extremum>)
    requires span <= i < |candles| - span
    requires ArePoints(candles, ExtremaSettings(source, LocalExtrema(span)), Pivots(Bars(candles), source, span, i),
                       points)
    ensures
      var bars := Bars(candles);
      var high := ConfirmedPoint(candles, High, i, i + span, SelectedHigh(candles[i], source));
      var low := ConfirmedPoint(candles, Low, i, i + span, SelectedLow(candles[i], source));
      ArePoints(candles, ExtremaSettings(source, LocalExtrema(span)), Pivots(bars, source, span, i + 1),
                points + (if IsPivot(bars, source, span, High, i) then [high] else [])
                       + (if IsPivot(bars, source, span, Low, i) then [low] else []))
  {
    hide IsPivot, Decimal.Value, Divided, Wilder;
    var settings := ExtremaSettings(source, LocalExtrema(span));
    var high := ConfirmedPoint(candles, High, i, i + span, SelectedHigh(candles[i], source));
    var low := ConfirmedPoint(candles, Low, i, i + span, SelectedLow(candles[i], source));
    assert IsPoint(candles, settings, Turn(High, i, i + span), high);
    assert IsPoint(candles, settings, Turn(Low, i, i + span), low);
    hide IsPoint;
  }

  // ---- reversals ----

  datatype Candidate = Candidate(index: nat, price: Decimal, evidence: Evidence)

  /** The evidence of a complete ATR sequence is available wherever detection reads it. */
  ghost predicate SequenceReady(candles: seq<Candle>, algorithm: Method, sequence: Option<AtrSequence>) {
    algorithm.AtrReversal? ==>
      1 <= algorithm.atrPeriod < |candles| && sequence.Some? && IsSequence(sequence.value, candles, algorithm.atrPeriod)
  }

  /** A candidate with its threshold frozen from its own candle. */
  method NewCandidate(candles: seq<Candle>, settings: ExtremaSettings, sequence: Option<AtrSequence>, ghost kind: Kind,
                      index: nat, price: Decimal)
    returns (r: Result<Candidate>)
    requires !settings.algorithm.LocalExtrema? && SequenceReady(candles, settings.algorithm, sequence)
    requires StartOf(settings.algorithm) <= index < |candles|
    requires price == Selected(candles[index], settings.source, kind)
    ensures r.Ok? ==> IsCandidate(candles, settings, kind, r.value) && r.value.index == index
    ensures r.Err? <==> ThresholdFails(candles, settings, kind, index)
    ensures r.Err? ==> r.error == DIVISION_OVERFLOW
  {
    hide Divided, Wilder, Decimal.Mul, Selected;
    match settings.algorithm {
      case LocalExtrema(_) =>
        assert false;
      case PercentReversal(pct) =>
        var threshold := Divide(price.Mul(pct), HUNDRED);
        if threshold.Err? {
          HundredthFails(price.Mul(pct));
          return Err(threshold.error);
        }
        return Ok(Candidate(index, price, Evidence(threshold.value, ZERO, None)));
      case AtrReversal(period, multiplier) =>
        var atr := sequence.value.At(index);
        SequenceValue(sequence.value, candles, period, index);
        return Ok(Candidate(index, price, Evidence(atr.Mul(multiplier), ZERO, Some(atr))));
    }
  }

  ghost predicate IsCandidate(candles: seq<Candle>, settings: ExtremaSettings, kind: Kind, c: Candidate) {
    && c.index < |candles|
    && c.price == Selected(candles[c.index], settings.source, kind)
    && IsEvidence(candles, settings.algorithm, c.index, c.price, c.evidence)
  }

  /** A candidate's decimals are the numbers of its tick. */
  lemma CandidateTick(candles: seq<Candle>, settings: ExtremaSettings, kind: Kind, c: Candidate)
    requires IsCandidate(candles, settings, kind, c)
    ensures c.index < |candles|
    ensures var t := Ticks(Bars(candles), settings)[c.index];
      && c.evidence.threshold.Value() == Threshold(t, kind)
      && c.price.Value() == if kind == High then t.high else t.low
  {
    hide Divided, Wilder, Atr, Sig, Over, Times, Pow10;
    match settings.algorithm
    case PercentReversal(pct) =>
      DividedIsRounded(c.price.Mul(pct), HUNDRED);
    case AtrReversal(period, multiplier) =>
      WilderIsAtr(candles, period, c.index);
  }

  /** A candidate of this kind at candle i would have no threshold: its division leaves the scale range. */
  ghost predicate ThresholdFails(candles: seq<Candle>, settings: ExtremaSettings, kind: Kind, i: nat)
    requires i < |candles|
  {
    && settings.algorithm.PercentReversal?
    && Divided(Selected(candles[i], settings.source, kind).Mul(settings.algorithm.reversalPct), HUNDRED).Err?
  }

  lemma HundredthFails(n: Decimal)
    requires Divided(n, HUNDRED).Err?
    ensures Divided(n, HUNDRED) == Err(DIVISION_OVERFLOW)
  {
    hide ScalesFit;
  }

  /** Candle i becomes the live candidate of this kind. */
  ghost predicate Starts(ticks: seq<Tick>, start: nat, kind: Kind, i: nat)
    requires start <= i < |ticks|
  {
    var scan := Run(ticks, start, i + 1);
    i == if kind == High then scan.high else scan.low
  }

  /** Some candle that becomes a live candidate has no threshold. */
  ghost predicate CandidateFails(candles: seq<Candle>, settings: ExtremaSettings) {
    exists kind, i: nat :: StartOf(settings.algorithm) <= i < |candles|
      && Starts(Ticks(Bars(candles), settings), StartOf(settings.algorithm), kind, i)
      && ThresholdFails(candles, settings, kind, i)
  }

  predicate Reaches(from: Decimal, to: Decimal, threshold: Decimal)
    ensures Reaches(from, to, threshold)
            <==> threshold.Value() > 0.0 && from.Value() - to.Value() >= threshold.Value()
  {
    threshold.IsPositive() && threshold.AtMost(from.Sub(to))
  }

  /** One detection pass: update both live candidates, test both, then turn. */
  method FindReversals(candles: seq<Candle>, settings: ExtremaSettings, sequence: Option<AtrSequence>)
    returns (r: Result<seq<Extremum>>)
    requires !settings.algorithm.LocalExtrema? && Applicable(settings, |candles|)
    requires SequenceReady(candles, settings.algorithm, sequence)
    ensures r.Ok? ==>
      ArePoints(candles, settings, Run(Ticks(Bars(candles), settings), StartOf(settings.algorithm), |candles|).turns,
                r.value)
    ensures r.Err? <==> CandidateFails(candles, settings)
    ensures r.Err? ==> r.error == DIVISION_OVERFLOW
  {
    hide *;
    StartFits(candles, settings);
    ghost var ticks := Ticks(Bars(candles), settings);
    var start := if settings.algorithm.AtrReversal? then settings.algorithm.atrPeriod else 0;
    var source := settings.source;
    var highPrice, lowPrice := Selected(candles[start], source, High), Selected(candles[start], source, Low);
    FirstStarts(ticks, start);
    var created := NewCandidate(candles, settings, sequence, High, start, highPrice);
    if created.Err? {
      FailsAt(candles, settings, High, start);
      return Err(created.error);
    }
    var high := created.value;
    created := NewCandidate(candles, settings, sequence, Low, start, lowPrice);
    if created.Err? {
      FailsAt(candles, settings, Low, start);
      return Err(created.error);
    }
    var low := created.value;
    var searching: Option<Kind> := None;
    var points: seq<Extremum> := [];
    ghost var scan := Run(ticks, start, start + 1);
    RunStart(ticks, start);
    NoPoints(candles, settings);
    NoneFailsAt(candles, settings, start, high, low);
    var i := start + 1;
    while i < |candles|
      invariant start < i <= |candles|
      invariant scan == Run(ticks, start, i)
      invariant searching == scan.searching && high.index == scan.high && low.index == scan.low
      invariant IsCandidate(candles, settings, High, high) && IsCandidate(candles, settings, Low, low)
      invariant ArePoints(candles, settings, scan.turns, points)
      invariant NoneFailsBefore(candles, settings, i)
    {
      highPrice, lowPrice := Selected(candles[i], source, High), Selected(candles[i], source, Low);
      CandidateTick(candles, settings, High, high);
      CandidateTick(candles, settings, Low, low);
      TickPrices(candles, settings, i);
      ghost var raised := searching != Some(Low) && ticks[i].high >= ticks[high.index].high;
      ghost var lowered := searching != Some(High) && ticks[i].low <= ticks[low.index].low;
      CandidateMoves(ticks, start, i, scan);
      if searching != Some(Low) && high.price.AtMost(highPrice) {
        created := NewCandidate(candles, settings, sequence, High, i, highPrice);
        if created.Err? {
          FailsAt(candles, settings, High, i);
          return Err(created.error);
        }
        high := created.value;
      }
      if searching != Some(High) && lowPrice.AtMost(low.price) {
        created := NewCandidate(candles, settings, sequence, Low, i, lowPrice);
        if created.Err? {
          FailsAt(candles, settings, Low, i);
          return Err(created.error);
        }
        low := created.value;
      }
      assert high.index == (if raised then i else scan.high) && low.index == (if lowered then i else scan.low);
      CandidateTick(candles, settings, High, high);
      CandidateTick(candles, settings, Low, low);
      var confirmHigh := searching != Some(Low) && high.index < i
                         && Reaches(high.price, lowPrice, high.evidence.threshold);
      var confirmLow := searching != Some(High) && low.index < i
                        && Reaches(highPrice, low.price, low.evidence.threshold);
      ConfirmMeans(ticks, high.index, low.index, i);
      StepMeans(ticks, start, i, scan);
      ghost var before := scan;
      scan := Run(ticks, start, i + 1);
      if confirmHigh == confirmLow {
        NoneFailsAt(candles, settings, i, high, low);
        i := i + 1;
        continue;
      }
      var candidate, kind, confirmationPrice := high, High, lowPrice;
      if confirmLow {
        candidate, kind, confirmationPrice := low, Low, highPrice;
      }
      var evidence := candidate.evidence.(confirmationPrice := confirmationPrice);
      var point := ConfirmedPoint(candles, kind, candidate.index, i, candidate.price).(reversal := Some(evidence));
      AddPoint(candles, settings, before.turns, points, Turn(kind, candidate.index, i), point, candidate);
      points := points + [point];
      if confirmHigh {
        searching := Some(Low);
        created := NewCandidate(candles, settings, sequence, Low, i, lowPrice);
        if created.Err? {
          CandidateStarts(ticks, start, Low, i);
          FailsAt(candles, settings, Low, i);
          return Err(created.error);
        }
        low := created.value;
      } else {
        searching := Some(High);
        created := NewCandidate(candles, settings, sequence, High, i, highPrice);
        if created.Err? {
          CandidateStarts(ticks, start, High, i);
          FailsAt(candles, settings, High, i);
          return Err(created.error);
        }
        high := created.value;
      }
      NoneFailsAt(candles, settings, i, high, low);
      i := i + 1;
    }
    NoneFails(candles, settings);
    return Ok(points);
  }

  /** Reversal points alternate, interleave with their confirmations, and keep the frozen distance. */
  lemma PointsAlternate(candles: seq<Candle>, settings: ExtremaSettings, points: seq<Extremum>, k: nat)
    requires IsDetected(candles, settings, points) && !settings.algorithm.LocalExtrema? && k < |points|
    ensures var p := points[k];
      && p.reversal.Some?
      && p.reversal.value.threshold.Value() > 0.0
      && StartOf(settings.algorithm) <= p.candleIndex < p.confirmationIndex < |candles|
      && Abs(p.price.Value() - p.reversal.value.confirmationPrice.Value()) >= p.reversal.value.threshold.Value()
      && (k + 1 < |points| ==>
            var q := points[k + 1];
            && q.kind == Opposite(p.kind)
            && p.confirmationIndex <= q.candleIndex
            && Abs(p.price.Value() - q.price.Value()) >= p.reversal.value.threshold.Value())
  {
    hide Run, Divided, Wilder, Ticks, Decimal.Value, Decimal.Mul, Selected;
    var ticks, start, n := Ticks(Bars(candles), settings), StartOf(settings.algorithm), |candles|;
    var turns := Run(ticks, start, n).turns;
    TurnsAlternate(ticks, start, n, k);
    RunDescribes(ticks, start, n);
    assert IsTurn(ticks, start, n, turns, k);
    PointNumbers(candles, settings, turns[k], points[k]);
    if k + 1 < |points| {
      PointNumbers(candles, settings, turns[k + 1], points[k + 1]);
    }
  }

  /** The decimals of a reversal point are the numbers of its ticks. */
  lemma PointNumbers(candles: seq<Candle>, settings: ExtremaSettings, t: Turn, p: Extremum)
    requires !settings.algorithm.LocalExtrema? && IsPoint(candles, settings, t, p)
    ensures p.reversal.Some? && p.candleIndex == t.index && p.confirmationIndex == t.confirmation && p.kind == t.kind
    ensures var ticks := Ticks(Bars(candles), settings);
      && p.reversal.value.threshold.Value() == Threshold(ticks[t.index], t.kind)
      && p.price.Value() == (if t.kind == High then Lead(ticks[t.index], High) else -Lead(ticks[t.index], Low))
      && p.reversal.value.confirmationPrice.Value()
         == (if t.kind == High then -Lead(ticks[t.confirmation], Low) else Lead(ticks[t.confirmation], High))
  {
    hide Divided, Wilder, Decimal.Value, Decimal.Mul, Atr, PercentThreshold, Selected;
    CandidateTick(candles, settings, t.kind, Candidate(t.index, p.price, p.reversal.value));
    TickPrices(candles, settings, t.confirmation);
  }

  lemma FailsAt(candles: seq<Candle>, settings: ExtremaSettings, kind: Kind, i: nat)
    requires StartOf(settings.algorithm) <= i < |candles| && ThresholdFails(candles, settings, kind, i)
    requires Starts(Ticks(Bars(candles), settings), StartOf(settings.algorithm), kind, i)
    ensures CandidateFails(candles, settings)
  {
    hide ThresholdFails, Starts;
  }

  ghost predicate NoneFailsBefore(candles: seq<Candle>, settings: ExtremaSettings, n: nat)
    requires n <= |candles|
  {
    forall kind, i :: StartOf(settings.algorithm) <= i < n
      && Starts(Ticks(Bars(candles), settings), StartOf(settings.algorithm), kind, i)
      ==> !ThresholdFails(candles, settings, kind, i)
  }

  /** Both live candidates after candle i have a threshold, so no candidate that started at i lacks one. */
  lemma NoneFailsAt(candles: seq<Candle>, settings: ExtremaSettings, i: nat, high: Candidate, low: Candidate)
    requires StartOf(settings.algorithm) <= i < |candles|
    requires i == StartOf(settings.algorithm) || NoneFailsBefore(candles, settings, i)
    requires IsCandidate(candles, settings, High, high) && IsCandidate(candles, settings, Low, low)
    requires Run(Ticks(Bars(candles), settings), StartOf(settings.algorithm), i + 1).high == high.index
    requires Run(Ticks(Bars(candles), settings), StartOf(settings.algorithm), i + 1).low == low.index
    ensures NoneFailsBefore(candles, settings, i + 1)
  {
    hide Run, ThresholdFails, IsCandidate;
    CandidateHasThreshold(candles, settings, High, high);
    CandidateHasThreshold(candles, settings, Low, low);
    forall kind | Starts(Ticks(Bars(candles), settings), StartOf(settings.algorithm), kind, i)
      ensures !ThresholdFails(candles, settings, kind, i)
    {
      match kind
      case High =>
      case Low =>
    }
  }

  lemma NoneFails(candles: seq<Candle>, settings: ExtremaSettings)
    requires NoneFailsBefore(candles, settings, |candles|)
    ensures !CandidateFails(candles, settings)
  {
    hide ThresholdFails, Starts;
  }

  lemma CandidateHasThreshold(candles: seq<Candle>, settings: ExtremaSettings, kind: Kind, c: Candidate)
    requires IsCandidate(candles, settings, kind, c)
    ensures c.index < |candles| && !ThresholdFails(candles, settings, kind, c.index)
  {
    hide Divided, Wilder, Decimal.Mul, Selected;
  }

  lemma FirstStarts(ticks: seq<Tick>, start: nat)
    requires start < |ticks|
    ensures Starts(ticks, start, High, start) && Starts(ticks, start, Low, start)
  {
  }

  /** A candle that takes over the extreme price is a live candidate, whatever the rest of the step does. */
  lemma CandidateMoves(ticks: seq<Tick>, start: nat, i: nat, scan: Scan)
    requires start < i < |ticks| && scan == Run(ticks, start, i)
    ensures scan.high < i && scan.low < i
    ensures scan.searching != Some(Low) && ticks[i].high >= ticks[scan.high].high ==> Starts(ticks, start, High, i)
    ensures scan.searching != Some(High) && ticks[i].low <= ticks[scan.low].low ==> Starts(ticks, start, Low, i)
  {
  }

  lemma CandidateStarts(ticks: seq<Tick>, start: nat, kind: Kind, i: nat)
    requires start <= i < |ticks|
    requires i == if kind == High then Run(ticks, start, i + 1).high else Run(ticks, start, i + 1).low
    ensures Starts(ticks, start, kind, i)
  {
    hide Run;
  }

  lemma StartFits(candles: seq<Candle>, settings: ExtremaSettings)
    requires !settings.algorithm.LocalExtrema? && Applicable(settings, |candles|)
    ensures StartOf(settings.algorithm) == (if settings.algorithm.AtrReversal? then settings.algorithm.atrPeriod else 0)
    ensures StartOf(settings.algorithm) + 1 < |candles|
  {
  }

  lemma RunStart(ticks: seq<Tick>, start: nat)
    requires start < |ticks|
    ensures Run(ticks, start, start + 1) == Scan(None, start, start, [])
  {
  }

  lemma NoPoints(candles: seq<Candle>, settings: ExtremaSettings)
    ensures ArePoints(candles, settings, [], [])
  {
  }

  lemma TickPrices(candles: seq<Candle>, settings: ExtremaSettings, i: nat)
    requires i < |candles|
    ensures var t := Ticks(Bars(candles), settings)[i];
      && t.high == Selected(candles[i], settings.source, High).Value()
      && t.low == Selected(candles[i], settings.source, Low).Value()
  {
    hide Atr, PercentThreshold, Times, Decimal.Value;
  }

  lemma ConfirmMeans(ticks: seq<Tick>, high: nat, low: nat, i: nat)
    requires high < |ticks| && low < |ticks| && i < |ticks|
    ensures ConfirmsHigh(ticks, high, i)
            <==> high < i && Threshold(ticks[high], High) > 0.0
                 && ticks[high].high - ticks[i].low >= Threshold(ticks[high], High)
    ensures ConfirmsLow(ticks, low, i)
            <==> low < i && Threshold(ticks[low], Low) > 0.0
                 && ticks[i].high - ticks[low].low >= Threshold(ticks[low], Low)
  {
  }

  /** One more candle of the run, spelled out. */
  lemma StepMeans(ticks: seq<Tick>, start: nat, i: nat, scan: Scan)
    requires start < i < |ticks| && scan == Run(ticks, start, i)
    ensures scan.high < i && scan.low < i
    ensures
      var next := Run(ticks, start, i + 1);
      var high := if scan.searching != Some(Low) && ticks[i].high >= ticks[scan.high].high then i else scan.high;
      var low := if scan.searching != Some(High) && ticks[i].low <= ticks[scan.low].low then i else scan.low;
      var confirmHigh := scan.searching != Some(Low) && ConfirmsHigh(ticks, high, i);
      var confirmLow := scan.searching != Some(High) && ConfirmsLow(ticks, low, i);
      if confirmHigh == confirmLow then next == Scan(scan.searching, high, low, scan.turns)
      else if confirmHigh then next == Scan(Some(Low), high, i, scan.turns + [Turn(High, high, i)])
      else next == Scan(Some(High), i, low, scan.turns + [Turn(Low, low, i)])
  {
    hide ConfirmsHigh, ConfirmsLow;
  }

  lemma AddPoint(candles: seq<Candle>, settings: ExtremaSettings, turns: seq<Turn>, points: seq<Extremum>, t: Turn,
                 point: Extremum, candidate: Candidate)
    requires !settings.algorithm.LocalExtrema? && ArePoints(candles, settings, turns, points)
    requires t.confirmation < |candles| && t.index == candidate.index
    requires IsCandidate(candles, settings, t.kind, candidate)
    requires point == ConfirmedPoint(candles, t.kind, t.index, t.confirmation, candidate.price).(
      reversal := Some(candidate.evidence.(
        confirmationPrice := Selected(candles[t.confirmation], settings.source, Opposite(t.kind)))))
    ensures ArePoints(candles, settings, turns + [t], points + [point])
  {
    hide Divided, Wilder, Decimal.Mul, Selected;
    assert IsPoint(candles, settings, t, point);
    hide IsPoint;
  }

  // ---- detection ----

  ghost predicate DetectionFails(candles: seq<Candle>, settings: ExtremaSettings, error: ValidationError) {
    || settings.Validate(|candles|) == Some(error)
    || (CandidateFails(candles, settings) && error == DIVISION_OVERFLOW)
    || (settings.algorithm.AtrReversal? && 1 <= settings.algorithm.atrPeriod < |candles|
        && Wilder(candles, settings.algorithm.atrPeriod, |candles| - 1) == Err(error))
  }

  /** Every threshold that detection reads can be computed. */
  ghost predicate ThresholdsExist(candles: seq<Candle>, settings: ExtremaSettings)
    requires Applicable(settings, |candles|)
  {
    match settings.algorithm
    case LocalExtrema(_) => true
    case PercentReversal(_) => !CandidateFails(candles, settings)
    case AtrReversal(period, _) => Wilder(candles, period, |candles| - 1).Ok?
  }

  lemma OnlyPercentFails(candles: seq<Candle>, settings: ExtremaSettings)
    requires CandidateFails(candles, settings)
    ensures settings.algorithm.PercentReversal?
  {
    hide Starts;
  }

  /** A supplied sequence belongs to these candles and is reused only for a matching period. */
  method DetectExtremaWith(candles: seq<Candle>, settings: ExtremaSettings, supplied: Option<AtrSequence>)
    returns (r: Result<seq<Extremum>>)
    requires supplied.Some? ==> IsSequence(supplied.value, candles, supplied.value.period)
    ensures r.Ok? ==> IsDetected(candles, settings, r.value)
    ensures r.Err? ==> DetectionFails(candles, settings, r.error)
    ensures settings.Validate(|candles|).Some? ==> r == Err(settings.Validate(|candles|).value)
    ensures settings.Validate(|candles|) == None ==>
      Applicable(settings, |candles|) && (r.Ok? <==> ThresholdsExist(candles, settings))
  {
    hide Wilder, Divided, ExtremaSettings.Validate, Pivots, Run, Selected, ArePoints, CandidateFails;
    ValidIsApplicable(settings, |candles|);
    var invalid := settings.Validate(|candles|);
    if invalid.Some? {
      return Err(invalid.value);
    }
    var sequence := supplied;
    match settings.algorithm {
      case LocalExtrema(span) =>
        var points := FindLocalExtrema(candles, settings.source, span);
        return Ok(points);
      case AtrReversal(period, _) =>
        if sequence.None? || sequence.value.period != period {
          var values := CalculateAtrSequence(candles, period);
          if values.Err? {
            return Err(values.error);
          }
          sequence := Some(values.value);
        }
        SequenceValue(sequence.value, candles, period, |candles| - 1);
      case PercentReversal(_) =>
    }
    r := FindReversals(candles, settings, sequence);
    if r.Err? {
      OnlyPercentFails(candles, settings);
    }
  }

  method DetectExtrema(candles: seq<Candle>, settings: ExtremaSettings) returns (r: Result<seq<Extremum>>)
    ensures r.Ok? ==> IsDetected(candles, settings, r.value)
    ensures r.Err? ==> DetectionFails(candles, settings, r.error)
    ensures settings.Validate(|candles|).Some? ==> r == Err(settings.Validate(|candles|).value)
    ensures settings.Validate(|candles|) == None ==>
      Applicable(settings, |candles|) && (r.Ok? <==> ThresholdsExist(candles, settings))
  {
    r := DetectExtremaWith(candles, settings, None);
  }

  // ---- what the reported points say about the candles ----

  /** The price source decides which price of a candle each kind is compared and reported with. */
  lemma SelectedPrices(c: Candle)
    ensures Selected(c, Close, High) == c.close && Selected(c, Close, Low) == c.close
    ensures Selected(c, HighLow, High) == c.high && Selected(c, HighLow, Low) == c.low
  {
  }

  /** A reported point names its two candles with their times, and the price of its kind on the first of them. */
  lemma ReportedPoint(candles: seq<Candle>, settings: ExtremaSettings, points: seq<Extremum>, k: nat)
    requires IsDetected(candles, settings, points) && k < |points|
    ensures var p := points[k];
      && p.candleIndex < p.confirmationIndex < |candles|
      && p.time == candles[p.candleIndex].openTime
      && p.confirmationTime == candles[p.confirmationIndex].closeTime
      && (settings.source == Close ==> p.price == candles[p.candleIndex].close)
      && (settings.source == HighLow && p.kind == High ==> p.price == candles[p.candleIndex].high)
      && (settings.source == HighLow && p.kind == Low ==> p.price == candles[p.candleIndex].low)
      && (p.reversal == None <==> settings.algorithm.LocalExtrema?)
  {
    hide Turns, Applicable, Divided, Wilder, Decimal.Mul, Decimal.Value;
    var turns := Turns(Bars(candles), settings);
    TurnWithin(Bars(candles), settings, k);
    assert IsPoint(candles, settings, turns[k], points[k]);
  }

  /** The evidence of a reversal: the opposite price of the confirmation candle, and the threshold of the method. */
  lemma ReportedEvidence(candles: seq<Candle>, settings: ExtremaSettings, points: seq<Extremum>, k: nat)
    requires IsDetected(candles, settings, points) && k < |points| && !settings.algorithm.LocalExtrema?
    ensures points[k].reversal.Some? && points[k].confirmationIndex < |candles|
    ensures var p, e, c := points[k], points[k].reversal.value, candles[points[k].confirmationIndex];
      && (settings.source == Close ==> e.confirmationPrice == c.close)
      && (settings.source == HighLow && p.kind == High ==> e.confirmationPrice == c.low)
      && (settings.source == HighLow && p.kind == Low ==> e.confirmationPrice == c.high)
    ensures var p, e := points[k], points[k].reversal.value;
      && (settings.algorithm.PercentReversal? ==>
            && e.candidateAtr == None
            && e.threshold.Value()
               == Sig(16, Over(Times(p.price.Value(), settings.algorithm.reversalPct.Value()), 100.0)))
      && (settings.algorithm.AtrReversal? ==>
            && 1 <= settings.algorithm.atrPeriod <= p.candleIndex < |candles|
            && e.candidateAtr.Some?
            && e.candidateAtr.value.Value() == Atr(Bars(candles), settings.algorithm.atrPeriod, p.candleIndex)
            && e.threshold.Value() == Times(e.candidateAtr.value.Value(), settings.algorithm.atrMultiplier.Value()))
  {
    hide Turns, Applicable, Divided, Wilder, Times, Pow10, Over, Sig, Atr;
    var turns, p := Turns(Bars(candles), settings), points[k];
    assert IsPoint(candles, settings, turns[k], p);
    if settings.algorithm.PercentReversal? {
      DividedIsRounded(p.price.Mul(settings.algorithm.reversalPct), HUNDRED);
    } else {
      WilderIsAtr(candles, settings.algorithm.atrPeriod, p.candleIndex);
    }
  }

  /**
   A candle is reported by the local method exactly when its price is strictly beyond the prices of all other candles of
   its window, and then the last candle of the window confirms it.
   */
  lemma LocalPointMeans(candles: seq<Candle>, settings: ExtremaSettings, points: seq<Extremum>, kind: Kind, i: nat)
    requires IsDetected(candles, settings, points) && settings.algorithm.LocalExtrema?
    ensures
      var span, source := settings.algorithm.pivotSpan, settings.source;
      (exists k :: 0 <= k < |points| && points[k].kind == kind && points[k].candleIndex == i)
      <==>
      && span <= i < |candles| - span
      && (kind == High ==> forall j :: i - span <= j <= i + span && j != i ==>
            Selected(candles[j], source, High).Value() < Selected(candles[i], source, High).Value())
      && (kind == Low ==> forall j :: i - span <= j <= i + span && j != i ==>
            Selected(candles[j], source, Low).Value() > Selected(candles[i], source, Low).Value())
    ensures forall k :: 0 <= k < |points| ==>
      points[k].confirmationIndex == points[k].candleIndex + settings.algorithm.pivotSpan
    ensures forall k, m :: 0 <= k < m < |points| ==>
      || points[k].candleIndex < points[m].candleIndex
      || (points[k].candleIndex == points[m].candleIndex && points[k].kind == High && points[m].kind == Low)
  {
    hide IsPoint, Pivots, IsPivot, Selected, Decimal.Value;
    var bars, span, source := Bars(candles), settings.algorithm.pivotSpan, settings.source;
    var m := |bars| - span;
    var turns := Pivots(bars, source, span, m);
    forall k | 0 <= k < |points|
      ensures points[k].kind == turns[k].kind && points[k].candleIndex == turns[k].index
      ensures points[k].confirmationIndex == points[k].candleIndex + span
    {
      PointOfTurn(candles, settings, turns[k], points[k]);
      assert turns[k] in turns;
      PivotFound(bars, source, span, m, turns[k]);
    }
    forall a, b | 0 <= a < b < |points|
      ensures || turns[a].index < turns[b].index
              || (turns[a].index == turns[b].index && turns[a].kind == High && turns[b].kind == Low)
    {
      PivotsOrdered(bars, source, span, m, a, b);
    }
    PivotFound(bars, source, span, m, Turn(kind, i, i + span));
    if exists k :: 0 <= k < |points| && points[k].kind == kind && points[k].candleIndex == i {
      var k :| 0 <= k < |points| && points[k].kind == kind && points[k].candleIndex == i;
      assert turns[k] in turns;
      PivotFound(bars, source, span, m, turns[k]);
    }
    if Turn(kind, i, i + span) in turns {
      var k :| 0 <= k < |turns| && turns[k] == Turn(kind, i, i + span);
      assert points[k].kind == kind && points[k].candleIndex == i;
    }
    if span <= i < |candles| - span {
      PivotMeans(candles, source, span, kind, i);
    }
  }

  lemma PointOfTurn(candles: seq<Candle>, settings: ExtremaSettings, t: Turn, p: Extremum)
    requires IsPoint(candles, settings, t, p)
    ensures p.kind == t.kind && p.candleIndex == t.index && p.confirmationIndex == t.confirmation
  {
  }

  lemma PivotMeans(candles: seq<Candle>, source: PriceSource, span: nat, kind: Kind, i: nat)
    requires span <= i < |candles| - span
    ensures IsPivot(Bars(candles), source, span, kind, i) <==>
      && (kind == High ==> forall j :: i - span <= j <= i + span && j != i ==>
            Selected(candles[j], source, High).Value() < Selected(candles[i], source, High).Value())
      && (kind == Low ==> forall j :: i - span <= j <= i + span && j != i ==>
            Selected(candles[j], source, Low).Value() > Selected(candles[i], source, Low).Value())
  {
    hide Decimal.Value, IsPivot, Selected;
    var bars := Bars(candles);
    forall j | 0 <= j < |candles|
      ensures LeadPrice(bars, source, High, j) == Selected(candles[j], source, High).Value()
      ensures LeadPrice(bars, source, Low, j) == -Selected(candles[j], source, Low).Value()
    {
    }
    PivotWindow(bars, source, span, kind, i);
  }

  lemma PivotWindow(bars: seq<Bar>, source: PriceSource, span: nat, kind: Kind, i: nat)
    requires span <= i < |bars| - span
    ensures IsPivot(bars, source, span, kind, i) <==>
      forall j :: i - span <= j <= i + span && j != i ==>
        LeadPrice(bars, source, kind, j) < LeadPrice(bars, source, kind, i)
  {
  }

  /** The numbers that the reversal pass compares at candle i. */
  lemma TickMeans(candles: seq<Candle>, settings: ExtremaSettings, i: nat)
    requires i < |candles|
    ensures var t := Ticks(Bars(candles), settings)[i];
      && t.high == Selected(candles[i], settings.source, High).Value()
      && t.low == Selected(candles[i], settings.source, Low).Value()
      && (settings.algorithm.PercentReversal? ==>
            var pct := settings.algorithm.reversalPct.Value();
            && t.highThreshold == Sig(16, Over(Times(t.high, pct), 100.0))
            && t.lowThreshold == Sig(16, Over(Times(t.low, pct), 100.0)))
      && (settings.algorithm.AtrReversal? && 1 <= settings.algorithm.atrPeriod <= i ==>
            && t.highThreshold == t.lowThreshold
            && t.lowThreshold == Times(Atr(Bars(candles), settings.algorithm.atrPeriod, i),
                                       settings.algorithm.atrMultiplier.Value()))
  {
    hide Atr, Sig, Over, Times, Decimal.Value;
  }

  /** The points of a reversal method are the turns of its ticks, read from the first candle that has a threshold. */
  lemma ReversalPoints(candles: seq<Candle>, settings: ExtremaSettings, points: seq<Extremum>)
    requires IsDetected(candles, settings, points) && !settings.algorithm.LocalExtrema?
    ensures
      var start := if settings.algorithm.AtrReversal? then settings.algorithm.atrPeriod else 0;
      && start < |candles|
      && var turns := Run(Ticks(Bars(candles), settings), start, |candles|).turns;
      && |points| == |turns|
      && forall k :: 0 <= k < |points| ==>
           turns[k] == Turn(points[k].kind, points[k].candleIndex, points[k].confirmationIndex)
  {
    hide Run, Ticks, IsPoint;
    var turns := Turns(Bars(candles), settings);
    forall k | 0 <= k < |points|
      ensures turns[k] == Turn(points[k].kind, points[k].candleIndex, points[k].confirmationIndex)
    {
      PointOfTurn(candles, settings, turns[k], points[k]);
    }
  }

  // ---- two histories that correspond, point by point ----

  lemma PointPrice(candles: seq<Candle>, settings: ExtremaSettings, t: Turn, p: Extremum)
    requires IsPoint(candles, settings, t, p)
    ensures p.kind == t.kind && p.price.Value() == Price(Bars(candles)[t.index], settings.source, t.kind)
  {
    hide Decimal.Value;
  }

  /** The numbers of a reversal point, besides its price. */
  lemma EvidenceNumbers(candles: seq<Candle>, settings: ExtremaSettings, t: Turn, p: Extremum)
    requires !settings.algorithm.LocalExtrema? && IsPoint(candles, settings, t, p)
    ensures p.reversal.Some? && t.index < |candles| && t.confirmation < |candles|
    ensures var e, bars := p.reversal.value, Bars(candles);
      && e.threshold.Value() == Threshold(Ticks(bars, settings)[t.index], t.kind)
      && e.confirmationPrice.Value() == Price(bars[t.confirmation], settings.source, Opposite(t.kind))
      && (e.candidateAtr.Some? <==> settings.algorithm.AtrReversal?)
      && (settings.algorithm.AtrReversal? ==>
            && 1 <= settings.algorithm.atrPeriod <= t.index
            && e.candidateAtr.value.Value() == Atr(bars, settings.algorithm.atrPeriod, t.index))
  {
    hide Divided, Wilder, Decimal.Value, Decimal.Mul, Atr, Threshold, TickOf;
    CandidateTick(candles, settings, t.kind, Candidate(t.index, p.price, p.reversal.value));
    if settings.algorithm.AtrReversal? {
      WilderIsAtr(candles, settings.algorithm.atrPeriod, t.index);
    }
  }

  /** The same candles and kind, every price and range multiplied by 10^k. */
  ghost predicate IsShiftedPoint(k: int, p: Extremum, q: Extremum) {
    && q.kind == p.kind && q.candleIndex == p.candleIndex && q.confirmationIndex == p.confirmationIndex
    && q.price.Value() == Times(p.price.Value(), Pow10(k))
    && (p.reversal.Some? <==> q.reversal.Some?)
    && (p.reversal.Some? ==>
          var e, f := p.reversal.value, q.reversal.value;
          && f.threshold.Value() == Times(e.threshold.Value(), Pow10(k))
          && f.confirmationPrice.Value() == Times(e.confirmationPrice.Value(), Pow10(k))
          && (e.candidateAtr.Some? <==> f.candidateAtr.Some?)
          && (e.candidateAtr.Some? ==>
                f.candidateAtr.value.Value() == Times(e.candidateAtr.value.Value(), Pow10(k))))
  }

  /** Opposite kinds on the same candles; prices reflected, thresholds and ranges unchanged. */
  ghost predicate IsReflectedPoint(k: real, p: Extremum, q: Extremum) {
    && q.kind == Opposite(p.kind) && q.candleIndex == p.candleIndex && q.confirmationIndex == p.confirmationIndex
    && q.price.Value() == k - p.price.Value()
    && (p.reversal.Some? <==> q.reversal.Some?)
    && (p.reversal.Some? ==>
          var e, f := p.reversal.value, q.reversal.value;
          && f.threshold.Value() == e.threshold.Value()
          && f.confirmationPrice.Value() == k - e.confirmationPrice.Value()
          && (e.candidateAtr.Some? <==> f.candidateAtr.Some?)
          && (e.candidateAtr.Some? ==> f.candidateAtr.value.Value() == e.candidateAtr.value.Value()))
  }

  lemma PointShifted(k: int, candles: seq<Candle>, others: seq<Candle>, settings: ExtremaSettings, t: Turn,
                     p: Extremum, q: Extremum)
    requires Bars(others) == Shift10(k, Bars(candles))
    requires IsPoint(candles, settings, t, p) && IsPoint(others, settings, t, q)
    ensures IsShiftedPoint(k, p, q)
  {
    hide Divided, Wilder, Decimal.Value, Decimal.Mul, Atr, TickOf, Times, Pow10, IsEvidence, Selected;
    PointPrice(candles, settings, t, p);
    PointPrice(others, settings, t, q);
    if !settings.algorithm.LocalExtrema? {
      EvidenceNumbers(candles, settings, t, p);
      EvidenceNumbers(others, settings, t, q);
      TicksShifted(k, Bars(candles), settings);
      if settings.algorithm.AtrReversal? {
        AtrShifted(k, Bars(candles), settings.algorithm.atrPeriod, t.index);
      }
    }
  }

  /** Moving the decimal point of every price moves it in every reported number and changes nothing else. */
  lemma DetectedShifted(k: int, candles: seq<Candle>, others: seq<Candle>, settings: ExtremaSettings,
                        points: seq<Extremum>, moved: seq<Extremum>)
    requires Bars(others) == Shift10(k, Bars(candles))
    requires IsDetected(candles, settings, points) && IsDetected(others, settings, moved)
    ensures |moved| == |points|
    ensures forall i :: 0 <= i < |points| ==> IsShiftedPoint(k, points[i], moved[i])
  {
    hide IsPoint, Turns, Applicable, IsShiftedPoint;
    TurnsShifted(k, Bars(candles), settings);
    var turns := Turns(Bars(candles), settings);
    forall i | 0 <= i < |points|
      ensures IsShiftedPoint(k, points[i], moved[i])
    {
      PointShifted(k, candles, others, settings, turns[i], points[i], moved[i]);
    }
  }

  lemma PointReflected(k: real, candles: seq<Candle>, others: seq<Candle>, settings: ExtremaSettings, t: Turn,
                       p: Extremum, q: Extremum)
    requires Bars(others) == Reflect(k, Bars(candles)) && !settings.algorithm.PercentReversal?
    requires IsPoint(candles, settings, t, p) && IsPoint(others, settings, FlipTurn(t), q)
    ensures IsReflectedPoint(k, p, q)
  {
    hide Divided, Wilder, Decimal.Value, Decimal.Mul, Atr, TickOf, IsEvidence, Selected;
    PointPrice(candles, settings, t, p);
    PointPrice(others, settings, FlipTurn(t), q);
    if settings.algorithm.AtrReversal? {
      EvidenceNumbers(candles, settings, t, p);
      EvidenceNumbers(others, settings, FlipTurn(t), q);
      TicksReflected(k, Bars(candles), settings);
      AtrReflected(k, Bars(candles), settings.algorithm.atrPeriod, t.index);
    }
  }

  /** ATR reversal on reflected prices reports the mirror image of every point, in the same order. */
  lemma DetectedReflected(k: real, candles: seq<Candle>, others: seq<Candle>, settings: ExtremaSettings,
                          points: seq<Extremum>, mirrored: seq<Extremum>)
    requires Bars(others) == Reflect(k, Bars(candles)) && settings.algorithm.AtrReversal?
    requires IsDetected(candles, settings, points) && IsDetected(others, settings, mirrored)
    ensures |mirrored| == |points|
    ensures forall i :: 0 <= i < |points| ==> IsReflectedPoint(k, points[i], mirrored[i])
  {
    hide IsPoint, Turns, IsReflectedPoint;
    TurnsReflected(k, Bars(candles), settings);
    var turns := Turns(Bars(candles), settings);
    forall i | 0 <= i < |points|
      ensures IsReflectedPoint(k, points[i], mirrored[i])
    {
      PointReflected(k, candles, others, settings, turns[i], points[i], mirrored[i]);
    }
  }

  /** Local extrema of reflected prices: every point has its mirror image among the points of the mirror. */
  lemma LocalReflected(k: real, candles: seq<Candle>, others: seq<Candle>, settings: ExtremaSettings,
                       points: seq<Extremum>, mirrored: seq<Extremum>, i: nat)
    returns (j: nat)
    requires Bars(others) == Reflect(k, Bars(candles)) && settings.algorithm.LocalExtrema?
    requires IsDetected(candles, settings, points) && IsDetected(others, settings, mirrored) && i < |points|
    ensures j < |mirrored| && IsReflectedPoint(k, points[i], mirrored[j])
  {
    hide IsPoint, Pivots, IsPivot, IsReflectedPoint;
    var bars, source, span := Bars(candles), settings.source, settings.algorithm.pivotSpan;
    var m := |bars| - span;
    var turns, others' := Pivots(bars, source, span, m), Pivots(Reflect(k, bars), source, span, m);
    var t := turns[i];
    assert t in turns;
    PivotFound(bars, source, span, m, t);
    PivotReflected(k, bars, source, span, Opposite(t.kind), t.index);
    PivotFound(Reflect(k, bars), source, span, m, FlipTurn(t));
    j :| 0 <= j < |others'| && others'[j] == FlipTurn(t);
    PointReflected(k, candles, others, settings, t, points[i], mirrored[j]);
  }
}
