/**
 The swing-reversal state machine on plain numbers: its steps, an independent description of what it
 finds, and how its result behaves under appending, reflection and rescaling.
 */
module Swings {
  import opened Powers
  import opened Results
  import opened Market

  /** Selected prices of one candle, and the threshold frozen into a candidate that starts there. */
  datatype Tick = Tick(high: real, low: real, highThreshold: real, lowThreshold: real)

  datatype Turn = Turn(kind: Kind, index: nat, confirmation: nat)

  /** No search direction means that the first direction is still unknown. */
  datatype Scan = Scan(searching: Option<Kind>, high: nat, low: nat, turns: seq<Turn>)

  // ---- the state machine ----

  ghost predicate ScanWithin(scan: Scan, n: nat) {
    scan.high < n && scan.low < n
  }

  ghost predicate ConfirmsHigh(ticks: seq<Tick>, a: nat, i: nat)
    requires a < |ticks| && i < |ticks|
  {
    a < i && ticks[a].highThreshold > 0.0 && ticks[a].high - ticks[i].low >= ticks[a].highThreshold
  }

  ghost predicate ConfirmsLow(ticks: seq<Tick>, a: nat, i: nat)
    requires a < |ticks| && i < |ticks|
  {
    a < i && ticks[a].lowThreshold > 0.0 && ticks[i].high - ticks[a].low >= ticks[a].lowThreshold
  }

  ghost function Step(ticks: seq<Tick>, scan: Scan, i: nat): (next: Scan)
    requires i < |ticks| && ScanWithin(scan, i)
    ensures ScanWithin(next, i + 1)
  {
    var high := if scan.searching != Some(Low) && ticks[i].high >= ticks[scan.high].high then i else scan.high;
    var low := if scan.searching != Some(High) && ticks[i].low <= ticks[scan.low].low then i else scan.low;
    var confirmHigh := scan.searching != Some(Low) && ConfirmsHigh(ticks, high, i);
    var confirmLow := scan.searching != Some(High) && ConfirmsLow(ticks, low, i);
    if confirmHigh == confirmLow then Scan(scan.searching, high, low, scan.turns)
    else if confirmHigh then Scan(Some(Low), high, i, scan.turns + [Turn(High, high, i)])
    else Scan(Some(High), i, low, scan.turns + [Turn(Low, low, i)])
  }

  /** The state after the candles start .. n-1. */
  ghost function Run(ticks: seq<Tick>, start: nat, n: nat): (scan: Scan)
    requires start < n <= |ticks|
    ensures ScanWithin(scan, n)
  {
    if n == start + 1 then Scan(None, start, start, []) else Step(ticks, Run(ticks, start, n - 1), n - 1)
  }

  // ---- what a turn is, without the state machine ----

  /** Larger is more extreme, for highs and for lows alike. */
  ghost function Lead(t: Tick, kind: Kind): (p: real) {
    if kind == High then t.high else -t.low
  }

  ghost function Threshold(t: Tick, kind: Kind): (p: real) {
    if kind == High then t.highThreshold else t.lowThreshold
  }

  /** a is the last index that attains the most extreme price of the window w .. i. */
  ghost predicate LastPeak(ticks: seq<Tick>, kind: Kind, w: nat, i: nat, a: nat)
    requires i < |ticks|
  {
    && w <= a <= i
    && (forall j :: w <= j <= i ==> Lead(ticks[j], kind) <= Lead(ticks[a], kind))
    && (forall j :: a < j <= i ==> Lead(ticks[j], kind) < Lead(ticks[a], kind))
  }

  ghost function Peak(ticks: seq<Tick>, kind: Kind, w: nat, i: nat): (a: nat)
    requires w <= i < |ticks|
    ensures LastPeak(ticks, kind, w, i, a)
  {
    if i == w then w
    else
      var a := Peak(ticks, kind, w, i - 1);
      if Lead(ticks[i], kind) >= Lead(ticks[a], kind) then i else a
  }

  lemma PeakUnique(ticks: seq<Tick>, kind: Kind, w: nat, i: nat, a: nat)
    requires w <= i < |ticks| && LastPeak(ticks, kind, w, i, a)
    ensures a == Peak(ticks, kind, w, i)
  {
    var b := Peak(ticks, kind, w, i);
    assert Lead(ticks[a], kind) == Lead(ticks[b], kind);
  }

  /** A strictly earlier candidate with a positive threshold that the move has reached. */
  ghost predicate Confirms(ticks: seq<Tick>, kind: Kind, a: nat, i: nat)
    requires a < |ticks| && i < |ticks|
  {
    && a < i
    && Threshold(ticks[a], kind) > 0.0
    && Lead(ticks[a], kind) + Lead(ticks[i], Opposite(kind)) >= Threshold(ticks[a], kind)
  }

  ghost predicate Qualifies(ticks: seq<Tick>, kind: Kind, w: nat, i: nat)
    requires w <= i < |ticks|
  {
    Confirms(ticks, kind, Peak(ticks, kind, w, i), i)
  }

  /** The window of turn k opens where the previous turn was confirmed. */
  ghost function WindowStart(turns: seq<Turn>, start: nat, k: nat): (w: nat)
    requires k <= |turns|
  {
    if k == 0 then start else turns[k - 1].confirmation
  }

  /** Candle i cannot confirm turn k: nothing qualifies, or the first direction is ambiguous. */
  ghost predicate Silent(ticks: seq<Tick>, start: nat, turns: seq<Turn>, k: nat, i: nat)
    requires k <= |turns| && WindowStart(turns, start, k) <= i < |ticks|
  {
    var w := WindowStart(turns, start, k);
    if k == 0 then Qualifies(ticks, High, w, i) == Qualifies(ticks, Low, w, i)
    else !Qualifies(ticks, Opposite(turns[k - 1].kind), w, i)
  }

  ghost predicate SilentUntil(ticks: seq<Tick>, start: nat, turns: seq<Turn>, k: nat, n: nat)
    requires k <= |turns| && n <= |ticks|
  {
    forall i :: WindowStart(turns, start, k) < i < n ==> Silent(ticks, start, turns, k, i)
  }

  ghost predicate IsTurn(ticks: seq<Tick>, start: nat, n: nat, turns: seq<Turn>, k: nat)
    requires k < |turns| && n <= |ticks|
  {
    var w, t := WindowStart(turns, start, k), turns[k];
    && w < t.confirmation < n
    && LastPeak(ticks, t.kind, w, t.confirmation, t.index)
    && Confirms(ticks, t.kind, t.index, t.confirmation)
    && (if k == 0 then !Qualifies(ticks, Opposite(t.kind), w, t.confirmation)
        else t.kind == Opposite(turns[k - 1].kind))
    && SilentUntil(ticks, start, turns, k, t.confirmation)
  }

  /** The complete description of the turns of the candles start .. n-1. */
  ghost predicate Describes(ticks: seq<Tick>, start: nat, n: nat, turns: seq<Turn>)
    requires n <= |ticks|
  {
    && (forall k :: 0 <= k < |turns| ==> IsTurn(ticks, start, n, turns, k))
    && SilentUntil(ticks, start, turns, |turns|, n)
  }

  // ---- the state machine finds exactly the described turns ----

  ghost predicate StateFits(ticks: seq<Tick>, start: nat, n: nat, scan: Scan)
    requires start < n <= |ticks| && ScanWithin(scan, n)
  {
    var w := WindowStart(scan.turns, start, |scan.turns|);
    && w < n
    && (if scan.turns == [] then scan.searching == None
        else scan.searching == Some(Opposite(scan.turns[|scan.turns| - 1].kind)))
    && (scan.searching != Some(Low) ==> scan.high == Peak(ticks, High, w, n - 1))
    && (scan.searching != Some(High) ==> scan.low == Peak(ticks, Low, w, n - 1))
  }

  lemma TurnsGrow(ticks: seq<Tick>, start: nat, n: nat, turns: seq<Turn>, more: seq<Turn>, k: nat)
    requires k < |turns| && turns <= more && n + 1 <= |ticks|
    requires IsTurn(ticks, start, n, turns, k)
    ensures IsTurn(ticks, start, n + 1, more, k)
  {
    hide Peak, Lead, Threshold, Confirms, Qualifies, LastPeak;
    assert forall i :: WindowStart(turns, start, k) < i < turns[k].confirmation ==>
      Silent(ticks, start, turns, k, i) == Silent(ticks, start, more, k, i);
  }

  /** One step keeps the description complete for one more candle. */
  lemma StepDescribes(ticks: seq<Tick>, start: nat, n: nat, scan: Scan)
    requires start < n < |ticks| && ScanWithin(scan, n)
    requires Describes(ticks, start, n, scan.turns) && StateFits(ticks, start, n, scan)
    ensures Describes(ticks, start, n + 1, Step(ticks, scan, n).turns)
    ensures StateFits(ticks, start, n + 1, Step(ticks, scan, n))
  {
    hide Step, Peak, Lead, Threshold, Confirms, Qualifies, LastPeak, IsTurn, SilentUntil;
    var next, m := Step(ticks, scan, n), n + 1;
    StepQualifies(ticks, start, n, scan);
    forall k | 0 <= k < |scan.turns|
      ensures IsTurn(ticks, start, m, next.turns, k)
    {
      TurnsGrow(ticks, start, n, scan.turns, next.turns, k);
    }
    if next.turns == scan.turns {
      StepQuiet(ticks, start, n, scan);
    } else {
      StepTurns(ticks, start, n, scan);
    }
  }

  lemma StepQualifies(ticks: seq<Tick>, start: nat, n: nat, scan: Scan)
    requires start < n < |ticks| && ScanWithin(scan, n) && StateFits(ticks, start, n, scan)
    ensures var next := Step(ticks, scan, n);
      var w := WindowStart(scan.turns, start, |scan.turns|);
      var high := scan.searching != Some(Low) && Qualifies(ticks, High, w, n);
      var low := scan.searching != Some(High) && Qualifies(ticks, Low, w, n);
      if high == low then
        && next.turns == scan.turns && next.searching == scan.searching
        && (scan.searching != Some(Low) ==> next.high == Peak(ticks, High, w, n))
        && (scan.searching != Some(High) ==> next.low == Peak(ticks, Low, w, n))
      else
        var kind := if high then High else Low;
        && next.turns == scan.turns + [Turn(kind, Peak(ticks, kind, w, n), n)]
        && next.searching == Some(Opposite(kind))
        && (kind == High ==> next.low == n) && (kind == Low ==> next.high == n)
  {
  }

  lemma StepQuiet(ticks: seq<Tick>, start: nat, n: nat, scan: Scan)
    requires start < n < |ticks| && ScanWithin(scan, n) && Step(ticks, scan, n).turns == scan.turns
    requires SilentUntil(ticks, start, scan.turns, |scan.turns|, n) && StateFits(ticks, start, n, scan)
    ensures SilentUntil(ticks, start, scan.turns, |scan.turns|, n + 1)
    ensures StateFits(ticks, start, n + 1, Step(ticks, scan, n))
  {
    StepQualifies(ticks, start, n, scan);
    hide Step, Peak, Lead, Threshold, Confirms, Qualifies, LastPeak;
    assert Silent(ticks, start, scan.turns, |scan.turns|, n);
  }

  lemma StepTurns(ticks: seq<Tick>, start: nat, n: nat, scan: Scan)
    requires start < n < |ticks| && ScanWithin(scan, n) && Step(ticks, scan, n).turns != scan.turns
    requires SilentUntil(ticks, start, scan.turns, |scan.turns|, n) && StateFits(ticks, start, n, scan)
    ensures var next := Step(ticks, scan, n);
      && |next.turns| == |scan.turns| + 1
      && scan.turns <= next.turns
      && IsTurn(ticks, start, n + 1, next.turns, |scan.turns|)
      && SilentUntil(ticks, start, next.turns, |next.turns|, n + 1)
      && StateFits(ticks, start, n + 1, next)
  {
    StepQualifies(ticks, start, n, scan);
    var k, next := |scan.turns|, Step(ticks, scan, n);
    var kind := next.turns[k].kind;
    PeakAtEnd(ticks, Opposite(kind), n);
    hide Step, Peak, Lead, Threshold, LastPeak, Confirms;
    assert SilentUntil(ticks, start, next.turns, k, n) by {
      assert forall i :: WindowStart(scan.turns, start, k) < i < n ==>
        Silent(ticks, start, scan.turns, k, i) == Silent(ticks, start, next.turns, k, i);
    }
  }

  lemma PeakAtEnd(ticks: seq<Tick>, kind: Kind, n: nat)
    requires n < |ticks|
    ensures Peak(ticks, kind, n, n) == n
  {
  }

  lemma {:induction false} RunDescribes(ticks: seq<Tick>, start: nat, n: nat)
    requires start < n <= |ticks|
    ensures Describes(ticks, start, n, Run(ticks, start, n).turns)
    ensures StateFits(ticks, start, n, Run(ticks, start, n))
  {
    hide Step, Lead, Threshold, Confirms, Qualifies, LastPeak;
    if n == start + 1 {
    } else {
      RunDescribes(ticks, start, n - 1);
      StepDescribes(ticks, start, n - 1, Run(ticks, start, n - 1));
    }
  }

  /** Two descriptions that agree so far agree on the next turn and on whether there is one. */
  lemma SameTurn(ticks: seq<Tick>, start: nat, n: nat, turns: seq<Turn>, others: seq<Turn>, k: nat)
    requires n <= |ticks| && Describes(ticks, start, n, turns) && Describes(ticks, start, n, others)
    requires k < |turns| && k <= |others| && turns[..k] == others[..k]
    ensures k < |others| && turns[k] == others[k]
  {
    hide Peak, Lead, Threshold, Confirms, LastPeak;
    var w, t := WindowStart(turns, start, k), turns[k];
    assert k > 0 ==> turns[k - 1] == turns[..k][k - 1] == others[..k][k - 1] == others[k - 1];
    assert IsTurn(ticks, start, n, turns, k);
    PeakUnique(ticks, t.kind, w, t.confirmation, t.index);
    assert Qualifies(ticks, t.kind, w, t.confirmation);
    assert !Silent(ticks, start, others, k, t.confirmation);
    if k < |others| {
      var u := others[k];
      assert IsTurn(ticks, start, n, others, k);
      PeakUnique(ticks, u.kind, w, u.confirmation, u.index);
      assert !Silent(ticks, start, turns, k, u.confirmation);
      assert t.confirmation == u.confirmation;
    }
  }

  lemma {:induction false} SamePrefix(ticks: seq<Tick>, start: nat, n: nat, turns: seq<Turn>, others: seq<Turn>, k: nat)
    requires n <= |ticks| && Describes(ticks, start, n, turns) && Describes(ticks, start, n, others)
    requires k <= |turns|
    ensures k <= |others| && turns[..k] == others[..k]
  {
    hide Describes;
    if k == 0 {
    } else {
      SamePrefix(ticks, start, n, turns, others, k - 1);
      SameTurn(ticks, start, n, turns, others, k - 1);
      assert turns[..k] == turns[..k - 1] + [turns[k - 1]];
      assert others[..k] == others[..k - 1] + [others[k - 1]];
    }
  }

  /** The detector returns the described turns, and nothing else fits the description. */
  lemma RunIsDescribed(ticks: seq<Tick>, start: nat, n: nat, turns: seq<Turn>)
    requires start < n <= |ticks|
    ensures turns == Run(ticks, start, n).turns <==> Describes(ticks, start, n, turns)
  {
    hide Describes, Run;
    var found := Run(ticks, start, n).turns;
    RunDescribes(ticks, start, n);
    if Describes(ticks, start, n, turns) {
      SamePrefix(ticks, start, n, turns, found, |turns|);
      SamePrefix(ticks, start, n, found, turns, |found|);
    }
  }

  // ---- consequences ----

  /** Kinds alternate, indices interleave, and neighbouring prices differ by the earlier threshold. */
  lemma TurnsAlternate(ticks: seq<Tick>, start: nat, n: nat, k: nat)
    requires start < n <= |ticks| && k < |Run(ticks, start, n).turns|
    ensures var t := Run(ticks, start, n).turns[k];
      && start <= t.index < t.confirmation < n
      && Threshold(ticks[t.index], t.kind) > 0.0
      && (k + 1 < |Run(ticks, start, n).turns| ==>
            var u := Run(ticks, start, n).turns[k + 1];
            && u.kind == Opposite(t.kind)
            && t.confirmation <= u.index < n
            && Lead(ticks[t.index], t.kind) + Lead(ticks[u.index], u.kind) >= Threshold(ticks[t.index], t.kind))
  {
    hide Run, Step, Lead, Threshold, Qualifies;
    RunDescribes(ticks, start, n);
    WindowsAfterStart(ticks, start, n, Run(ticks, start, n).turns, k);
    var turns := Run(ticks, start, n).turns;
    assert IsTurn(ticks, start, n, turns, k);
    if k + 1 < |turns| {
      assert IsTurn(ticks, start, n, turns, k + 1);
    }
  }

  lemma {:induction false} WindowsAfterStart(ticks: seq<Tick>, start: nat, n: nat, turns: seq<Turn>, k: nat)
    requires n <= |ticks| && Describes(ticks, start, n, turns) && k <= |turns|
    ensures start <= WindowStart(turns, start, k)
  {
    hide Lead, Threshold, Confirms, Qualifies, LastPeak;
    if k == 0 {
    } else {
      WindowsAfterStart(ticks, start, n, turns, k - 1);
      assert IsTurn(ticks, start, n, turns, k - 1);
    }
  }

  // ---- the same in prices ----

  /** A HIGH is the last maximum since the previous confirmation, and a later low lies its threshold below it. */
  lemma TurnMeans(ticks: seq<Tick>, start: nat, n: nat, k: nat)
    requires start < n <= |ticks| && k < |Run(ticks, start, n).turns|
    ensures
      var turns := Run(ticks, start, n).turns;
      var t, w := turns[k], if k == 0 then start else turns[k - 1].confirmation;
      && start <= w <= t.index < t.confirmation < n
      && (k > 0 ==> t.kind != turns[k - 1].kind)
      && (t.kind == High ==>
            && (forall j :: w <= j <= t.confirmation ==> ticks[j].high <= ticks[t.index].high)
            && (forall j :: t.index < j <= t.confirmation ==> ticks[j].high < ticks[t.index].high)
            && ticks[t.index].highThreshold > 0.0
            && ticks[t.index].high - ticks[t.confirmation].low >= ticks[t.index].highThreshold)
      && (t.kind == Low ==>
            && (forall j :: w <= j <= t.confirmation ==> ticks[j].low >= ticks[t.index].low)
            && (forall j :: t.index < j <= t.confirmation ==> ticks[j].low > ticks[t.index].low)
            && ticks[t.index].lowThreshold > 0.0
            && ticks[t.confirmation].high - ticks[t.index].low >= ticks[t.index].lowThreshold)
  {
    hide Run, Step, Peak, Qualifies;
    RunDescribes(ticks, start, n);
    var turns := Run(ticks, start, n).turns;
    WindowsAfterStart(ticks, start, n, turns, k);
    assert IsTurn(ticks, start, n, turns, k);
    var t, w := turns[k], WindowStart(turns, start, k);
    forall j | w <= j <= t.confirmation
      ensures Lead(ticks[j], t.kind) <= Lead(ticks[t.index], t.kind)
      ensures t.index < j ==> Lead(ticks[j], t.kind) < Lead(ticks[t.index], t.kind)
    {
    }
  }

  /** Index of the last maximum (minimum) of the candles w .. i. */
  ghost predicate LastExtreme(ticks: seq<Tick>, kind: Kind, w: nat, i: nat, b: nat)
    requires i < |ticks|
    ensures LastExtreme(ticks, kind, w, i, b) <==>
      && w <= b <= i
      && (kind == High ==>
            && (forall j :: w <= j <= i ==> ticks[j].high <= ticks[b].high)
            && (forall j :: b < j <= i ==> ticks[j].high < ticks[b].high))
      && (kind == Low ==>
            && (forall j :: w <= j <= i ==> ticks[j].low >= ticks[b].low)
            && (forall j :: b < j <= i ==> ticks[j].low > ticks[b].low))
  {
    LastPeak(ticks, kind, w, i, b)
  }

  /** Candle i lies far enough from the earlier candidate b. */
  ghost predicate Reversed(ticks: seq<Tick>, kind: Kind, b: nat, i: nat)
    requires b < |ticks| && i < |ticks|
    ensures kind == High ==>
      (Reversed(ticks, kind, b, i)
       <==> b < i && ticks[b].highThreshold > 0.0 && ticks[b].high - ticks[i].low >= ticks[b].highThreshold)
    ensures kind == Low ==>
      (Reversed(ticks, kind, b, i)
       <==> b < i && ticks[b].lowThreshold > 0.0 && ticks[i].high - ticks[b].low >= ticks[b].lowThreshold)
  {
    Confirms(ticks, kind, b, i)
  }

  /**
   Between two confirmations, and after the last one, no candle reverses far enough from the extreme sought: high and
   low stand for the extremes of the window that ends at candle i. Before the first point either both directions reverse
   or neither, and the first point is confirmed by exactly one.
   */
  lemma NothingEarlier(ticks: seq<Tick>, start: nat, n: nat, k: nat, i: nat, high: nat, low: nat)
    requires start < n <= |ticks| && k <= |Run(ticks, start, n).turns|
    requires
      var turns := Run(ticks, start, n).turns;
      var w := if k == 0 then start else turns[k - 1].confirmation;
      && w < i < n && (k < |turns| ==> i <= turns[k].confirmation)
      && LastExtreme(ticks, High, w, i, high) && LastExtreme(ticks, Low, w, i, low)
    ensures
      var turns := Run(ticks, start, n).turns;
      var up, down := Reversed(ticks, Low, low, i), Reversed(ticks, High, high, i);
      if k < |turns| && i == turns[k].confirmation then
        if k == 0 then up != down && (down <==> turns[0].kind == High)
        else turns[k].kind == High ==> down
      else if k == 0 then up == down
      else if turns[k - 1].kind == Low then !down
      else !up
  {
    hide Run, Step, Peak, LastPeak, LastExtreme, Lead, Threshold, Confirms;
    RunDescribes(ticks, start, n);
    var turns := Run(ticks, start, n).turns;
    var w := WindowStart(turns, start, k);
    ExtremeIsPeak(ticks, High, w, i, high);
    ExtremeIsPeak(ticks, Low, w, i, low);
    if k < |turns| {
      assert IsTurn(ticks, start, n, turns, k);
      ConfirmationQualifies(ticks, turns[k].kind, w, turns[k].confirmation, turns[k].index);
    }
    if k == |turns| || i < turns[k].confirmation {
      assert Silent(ticks, start, turns, k, i);
    }
  }

  lemma ExtremeIsPeak(ticks: seq<Tick>, kind: Kind, w: nat, i: nat, b: nat)
    requires w <= i < |ticks| && LastExtreme(ticks, kind, w, i, b)
    ensures Peak(ticks, kind, w, i) == b
    ensures Reversed(ticks, kind, b, i) <==> Qualifies(ticks, kind, w, i)
  {
    hide Confirms, Peak, LastPeak, Lead;
    PeakUnique(ticks, kind, w, i, b);
  }

  lemma ConfirmationQualifies(ticks: seq<Tick>, kind: Kind, w: nat, i: nat, b: nat)
    requires w <= i < |ticks| && LastPeak(ticks, kind, w, i, b) && Confirms(ticks, kind, b, i)
    ensures Qualifies(ticks, kind, w, i)
  {
    hide Confirms, Peak, LastPeak, Lead;
    PeakUnique(ticks, kind, w, i, b);
  }

  lemma {:induction false} RunReadsPrefix(ticks: seq<Tick>, m: nat, start: nat, n: nat)
    requires start < n <= m <= |ticks|
    ensures Run(ticks[..m], start, n) == Run(ticks, start, n)
  {
    hide Step;
    if n == start + 1 {
    } else {
      RunReadsPrefix(ticks, m, start, n - 1);
      StepReadsPrefix(ticks, m, Run(ticks, start, n - 1), n - 1);
    }
  }

  lemma StepReadsPrefix(ticks: seq<Tick>, m: nat, scan: Scan, i: nat)
    requires i < m <= |ticks| && ScanWithin(scan, i)
    ensures Step(ticks[..m], scan, i) == Step(ticks, scan, i)
  {
  }

  /** Appending candles keeps every confirmed turn. */
  lemma {:induction false} RunAppends(ticks: seq<Tick>, start: nat, m: nat, n: nat)
    requires start < m <= n <= |ticks|
    ensures Run(ticks[..m], start, m).turns <= Run(ticks, start, n).turns
    decreases n
  {
    if m == n {
      RunReadsPrefix(ticks, m, start, m);
    } else {
      RunAppends(ticks, start, m, n - 1);
    }
  }

  ghost predicate Mirrored(k: real, ticks: seq<Tick>, others: seq<Tick>) {
    && |ticks| == |others|
    && forall i :: 0 <= i < |ticks| ==>
         others[i] == Tick(k - ticks[i].low, k - ticks[i].high, ticks[i].lowThreshold, ticks[i].highThreshold)
  }

  ghost function FlipTurn(t: Turn): (r: Turn) {
    t.(kind := Opposite(t.kind))
  }

  ghost function FlipTurns(turns: seq<Turn>): (r: seq<Turn>)
    ensures |r| == |turns|
    ensures forall i :: 0 <= i < |r| ==> r[i] == FlipTurn(turns[i])
  {
    seq(|turns|, i requires 0 <= i < |turns| => FlipTurn(turns[i]))
  }

  ghost function FlipScan(scan: Scan): (r: Scan) {
    Scan(if scan.searching == None then None else Some(Opposite(scan.searching.value)), scan.low, scan.high,
         FlipTurns(scan.turns))
  }

  /** Reflected prices give the same candles and confirmations with the kinds exchanged. */
  lemma {:induction false} RunMirrored(k: real, ticks: seq<Tick>, others: seq<Tick>, start: nat, n: nat)
    requires |ticks| == |others| && Mirrored(k, ticks, others) && start < n <= |ticks|
    ensures Run(others, start, n) == FlipScan(Run(ticks, start, n))
  {
    hide Step, Mirrored;
    if n > start + 1 {
      RunMirrored(k, ticks, others, start, n - 1);
      StepMirrored(k, ticks, others, Run(ticks, start, n - 1), n - 1);
    } else {
      assert FlipTurns([]) == [];
    }
  }

  lemma StepMirrored(k: real, ticks: seq<Tick>, others: seq<Tick>, scan: Scan, i: nat)
    requires Mirrored(k, ticks, others) && i < |ticks| && ScanWithin(scan, i)
    ensures Step(others, FlipScan(scan), i) == FlipScan(Step(ticks, scan, i))
  {
    var next := Step(ticks, scan, i);
    if |next.turns| > |scan.turns| {
      assert FlipTurns(next.turns) == FlipTurns(scan.turns) + [FlipTurn(next.turns[|scan.turns|])];
    }
  }

  ghost predicate Rescaled(p: real, ticks: seq<Tick>, others: seq<Tick>) {
    && |ticks| == |others|
    && forall i :: 0 <= i < |ticks| ==>
         others[i] == Tick(Times(ticks[i].high, p), Times(ticks[i].low, p),
                           Times(ticks[i].highThreshold, p), Times(ticks[i].lowThreshold, p))
  }

  /** Prices and thresholds multiplied by one positive factor give the same turns. */
  lemma {:induction false} RunRescaled(p: real, ticks: seq<Tick>, others: seq<Tick>, start: nat, n: nat)
    requires p > 0.0 && Rescaled(p, ticks, others) && start < n <= |ticks|
    ensures Run(others, start, n) == Run(ticks, start, n)
  {
    hide Step;
    if n == start + 1 {
    } else {
      RunRescaled(p, ticks, others, start, n - 1);
      StepRescaled(p, ticks, others, Run(ticks, start, n - 1), n - 1);
    }
  }

  lemma StepRescaled(p: real, ticks: seq<Tick>, others: seq<Tick>, scan: Scan, i: nat)
    requires p > 0.0 && Rescaled(p, ticks, others) && i < |ticks| && ScanWithin(scan, i)
    ensures Step(others, scan, i) == Step(ticks, scan, i)
  {
    hide Times, ConfirmsHigh, ConfirmsLow;
    TimesOrder(ticks[scan.high].high, ticks[i].high, p);
    TimesOrder(ticks[i].low, ticks[scan.low].low, p);
    ConfirmsRescaled(p, ticks, others, scan.high, i);
    ConfirmsRescaled(p, ticks, others, scan.low, i);
    ConfirmsRescaled(p, ticks, others, i, i);
  }

  lemma ConfirmsRescaled(p: real, ticks: seq<Tick>, others: seq<Tick>, a: nat, i: nat)
    requires p > 0.0 && Rescaled(p, ticks, others) && a < |ticks| && i < |ticks|
    ensures ConfirmsHigh(others, a, i) == ConfirmsHigh(ticks, a, i)
    ensures ConfirmsLow(others, a, i) == ConfirmsLow(ticks, a, i)
  {
    hide Times;
    TimesUnits(p);
    TimesDistributes(ticks[a].high, ticks[i].low, p);
    TimesDistributes(ticks[i].high, ticks[a].low, p);
    TimesOrder(0.0, ticks[a].highThreshold, p);
    TimesOrder(0.0, ticks[a].lowThreshold, p);
    TimesOrder(ticks[a].highThreshold, ticks[a].high - ticks[i].low, p);
    TimesOrder(ticks[a].lowThreshold, ticks[i].high - ticks[a].low, p);
  }
}
