/** Candles, price sources and settings, and the plain-number view every calculation depends on. */
module Market {
  import opened Powers
  import opened Decimals
  import opened Results

  /** Nanoseconds since the Unix epoch. */
  type Time = int

  datatype Candle = Candle(
    openTime: Time, closeTime: Time,
    open: Decimal, high: Decimal, low: Decimal, close: Decimal,
    volume: Decimal, turnover: Decimal, tradesCount: Option<int>, fetchedAt: Time)

  datatype Instrument = Instrument(exchange: string, market: string, symbol: string) {
    function Validate(): (r: Option<ValidationError>)
      ensures r == None <==>
        && (exchange == "binance" || exchange == "bybit")
        && (market == "spot" || market == "linear")
        && 1 <= Utf8Length(symbol) <= 128
        && forall c :: c in symbol ==> !IsBlank(c)
    {
      if exchange != "binance" && exchange != "bybit" then Some(Invalid("exchange", "unsupported exchange"))
      else if market != "spot" && market != "linear" then Some(Invalid("market", "unsupported market"))
      else if !(1 <= Utf8Length(symbol) <= 128) then Some(Invalid("symbol", "must contain 1 to 128 UTF-8 bytes"))
      else if exists i :: 0 <= i < |symbol| && IsBlank(symbol[i])
      then Some(Invalid("symbol", "must not contain whitespace or control characters"))
      else None
    }
  }

  /** Bytes in the UTF-8 encoding of a text. */
  function Utf8Length(text: string): (bytes: nat) {
    if text == "" then 0
    else
      var c := text[0] as int;
      (if c < 0x80 then 1 else if c < 0x800 then 2 else if c < 0x1_0000 then 3 else 4) + Utf8Length(text[1..])
  }

  /** Unicode white space and control characters. */
  predicate IsBlank(c: char) {
    var code := c as int;
    || code <= 0x20 || 0x7f <= code <= 0xa0
    || code == 0x1680 || 0x2000 <= code <= 0x200a || code == 0x2028 || code == 0x2029
    || code == 0x202f || code == 0x205f || code == 0x3000
  }

  datatype PriceSource = Close | HighLow

  datatype Kind = High | Low

  function Opposite(kind: Kind): (other: Kind)
    ensures other != kind
  {
    if kind == High then Low else High
  }

  /** The numbers a calculation reads from one candle. */
  datatype Bar = Bar(high: real, low: real, close: real)

  ghost function BarOf(c: Candle): (b: Bar) {
    Bar(c.high.Value(), c.low.Value(), c.close.Value())
  }

  ghost function Bars(candles: seq<Candle>): (bars: seq<Bar>)
    ensures |bars| == |candles|
    ensures forall i :: 0 <= i < |bars| ==> bars[i] == BarOf(candles[i])
  {
    seq(|candles|, i requires 0 <= i < |candles| => BarOf(candles[i]))
  }

  /** What series construction guarantees about every candle. */
  ghost predicate SoundBar(b: Bar) {
    0.0 < b.low <= b.close <= b.high
  }

  ghost predicate SoundBars(bars: seq<Bar>) {
    forall i :: 0 <= i < |bars| ==> SoundBar(bars[i])
  }

  // ---- the selected price of each kind ----

  function SelectedHigh(c: Candle, source: PriceSource): (p: Decimal) {
    if source == Close then c.close else c.high
  }

  function SelectedLow(c: Candle, source: PriceSource): (p: Decimal) {
    if source == Close then c.close else c.low
  }

  ghost function Price(b: Bar, source: PriceSource, kind: Kind): (p: real) {
    if source == Close then b.close else if kind == High then b.high else b.low
  }

  // ---- two transformations of a whole history ----

  /** Every price p becomes k - p, so highs and lows change places. */
  ghost function Reflect(k: real, bars: seq<Bar>): (r: seq<Bar>)
    ensures |r| == |bars|
    ensures forall i :: 0 <= i < |r| ==> r[i] == Bar(k - bars[i].low, k - bars[i].high, k - bars[i].close)
  {
    seq(|bars|, i requires 0 <= i < |bars| => Bar(k - bars[i].low, k - bars[i].high, k - bars[i].close))
  }

  /** Every price p becomes p * 10^k. */
  ghost function Shift10(k: int, bars: seq<Bar>): (r: seq<Bar>)
    ensures |r| == |bars|
    ensures forall i :: 0 <= i < |r| ==> r[i] == ShiftBar(k, bars[i])
  {
    seq(|bars|, i requires 0 <= i < |bars| => ShiftBar(k, bars[i]))
  }

  ghost function ShiftBar(k: int, b: Bar): (r: Bar) {
    Bar(Times(b.high, Pow10(k)), Times(b.low, Pow10(k)), Times(b.close, Pow10(k)))
  }

  /** Moving the decimal point of a decimal multiplies its value by 10^k. */
  function MovePoint(k: int, d: Decimal): (r: Decimal)
    ensures r.Value() == Times(d.Value(), Pow10(k))
  {
    Pow10Add(d.exponent, k);
    TimesAssociates(d.coefficient as real, Pow10(d.exponent), Pow10(k));
    Decimal(d.coefficient, d.exponent + k)
  }

  function MovePoints(k: int, candles: seq<Candle>): (r: seq<Candle>)
    ensures |r| == |candles|
    ensures Bars(r) == Shift10(k, Bars(candles))
  {
    var moved := seq(|candles|, i requires 0 <= i < |candles| =>
      candles[i].(open := MovePoint(k, candles[i].open), high := MovePoint(k, candles[i].high),
                  low := MovePoint(k, candles[i].low), close := MovePoint(k, candles[i].close)));
    BarsMoved(k, candles, moved);
    moved
  }

  lemma BarsMoved(k: int, candles: seq<Candle>, moved: seq<Candle>)
    requires |moved| == |candles|
    requires forall i :: 0 <= i < |candles| ==>
      && moved[i].high == MovePoint(k, candles[i].high)
      && moved[i].low == MovePoint(k, candles[i].low)
      && moved[i].close == MovePoint(k, candles[i].close)
    ensures Bars(moved) == Shift10(k, Bars(candles))
  {
    hide MovePoint, Decimal.Value, Times, Pow10;
    forall i | 0 <= i < |candles|
      ensures Bars(moved)[i] == ShiftBar(k, Bars(candles)[i])
    {
    }
  }

  // ---- settings ----

  const TOO_FEW := Invalid("candle_count", "insufficient candles for settings")

  function MinimumCount(count: nat, minimum: nat): (r: Option<ValidationError>) {
    if count < minimum then Some(TOO_FEW) else None
  }

  function ValidateAtr(period: nat, count: nat): (r: Option<ValidationError>)
    ensures r == None <==> 1 <= period < count
  {
    if period == 0 then Some(Invalid("period", "must be positive")) else MinimumCount(count, period + 1)
  }

  const HUNDRED := FromInt(100)

  datatype Method =
    | LocalExtrema(pivotSpan: nat)
    | PercentReversal(reversalPct: Decimal)
    | AtrReversal(atrPeriod: nat, atrMultiplier: Decimal)

  datatype ExtremaSettings = ExtremaSettings(source: PriceSource, algorithm: Method) {
    /** Every method has its own condition on its numbers and its own least history. */
    function Validate(count: nat): (r: Option<ValidationError>)
      ensures algorithm.LocalExtrema? ==>
        (r == None <==> algorithm.pivotSpan > 0 && count >= 2 * algorithm.pivotSpan + 1)
      ensures algorithm.PercentReversal? ==>
        (r == None <==> 0.0 < algorithm.reversalPct.Value() < 100.0 && count >= 2)
      ensures algorithm.AtrReversal? ==>
        (r == None <==> algorithm.atrPeriod > 0 && algorithm.atrMultiplier.Value() > 0.0
                        && count >= algorithm.atrPeriod + 2)
    {
      match algorithm
      case LocalExtrema(span) =>
        if span == 0 then Some(Invalid("pivot_span", "must be positive")) else MinimumCount(count, 2 * span + 1)
      case PercentReversal(pct) =>
        if !pct.IsPositive() || HUNDRED.AtMost(pct)
        then Some(Invalid("reversal_pct", "must be greater than zero and less than 100"))
        else MinimumCount(count, 2)
      case AtrReversal(period, multiplier) =>
        if period == 0 then Some(Invalid("atr_period", "must be positive"))
        else if !multiplier.IsPositive() then Some(Invalid("atr_multiplier", "must be positive"))
        else MinimumCount(count, period + 2)
    }
  }

  datatype LevelSettings = LevelSettings(
    extrema: ExtremaSettings, atrPeriod: nat, zoneWidthAtr: Decimal, minTouches: nat, minTouchSeparationBars: nat)
  {
    function Validate(count: nat): (r: Option<ValidationError>)
      ensures r == None <==>
        && extrema.Validate(count) == None
        && 0 < atrPeriod < count && zoneWidthAtr.Value() > 0.0
        && minTouches >= 2 && minTouchSeparationBars > 0
    {
      var invalid := extrema.Validate(count);
      if invalid != None then invalid
      else if atrPeriod == 0 then Some(Invalid("atr_period", "must be positive"))
      else if count < atrPeriod + 1 then Some(TOO_FEW)
      else if !zoneWidthAtr.IsPositive() then Some(Invalid("zone_width_atr", "must be positive"))
      else if minTouches < 2 then Some(Invalid("min_touches", "must be at least 2"))
      else if minTouchSeparationBars == 0 then Some(Invalid("min_touch_separation_bars", "must be positive"))
      else None
    }
  }

  datatype TrendSettings = TrendSettings(extrema: ExtremaSettings, equalityTolerancePct: Decimal) {
    function Validate(count: nat): (r: Option<ValidationError>)
      ensures r == None <==> extrema.Validate(count) == None && equalityTolerancePct.Value() >= 0.0
    {
      var invalid := extrema.Validate(count);
      if invalid != None then invalid
      else if equalityTolerancePct.IsNegative() then Some(Invalid("equality_tolerance_pct", "must be nonnegative"))
      else None
    }
  }

  // ---- which rule a rejected setting breaks ----

  lemma ExtremaErrors(settings: ExtremaSettings, count: nat)
    ensures settings.algorithm.LocalExtrema? ==>
      var span := settings.algorithm.pivotSpan;
      && (settings.Validate(count) == Some(Invalid("pivot_span", "must be positive")) <==> span == 0)
      && (settings.Validate(count) == Some(Invalid("candle_count", "insufficient candles for settings"))
          <==> span > 0 && count < 2 * span + 1)
    ensures settings.algorithm.PercentReversal? ==>
      var pct := settings.algorithm.reversalPct.Value();
      && (settings.Validate(count)
          == Some(Invalid("reversal_pct", "must be greater than zero and less than 100"))
          <==> pct <= 0.0 || pct >= 100.0)
      && (settings.Validate(count) == Some(Invalid("candle_count", "insufficient candles for settings"))
          <==> 0.0 < pct < 100.0 && count < 2)
    ensures settings.algorithm.AtrReversal? ==>
      var period, factor := settings.algorithm.atrPeriod, settings.algorithm.atrMultiplier.Value();
      && (settings.Validate(count) == Some(Invalid("atr_period", "must be positive")) <==> period == 0)
      && (settings.Validate(count) == Some(Invalid("atr_multiplier", "must be positive"))
          <==> period > 0 && factor <= 0.0)
      && (settings.Validate(count) == Some(Invalid("candle_count", "insufficient candles for settings"))
          <==> period > 0 && factor > 0.0 && count < period + 2)
  {
    hide Decimal.Value;
  }

  lemma LevelErrors(settings: LevelSettings, count: nat)
    requires settings.extrema.Validate(count) == None
    ensures settings.Validate(count) == Some(Invalid("atr_period", "must be positive")) <==> settings.atrPeriod == 0
    ensures settings.Validate(count) == Some(Invalid("candle_count", "insufficient candles for settings"))
            <==> 0 < settings.atrPeriod && count < settings.atrPeriod + 1
    ensures settings.Validate(count) == Some(Invalid("zone_width_atr", "must be positive"))
            <==> 0 < settings.atrPeriod < count && settings.zoneWidthAtr.Value() <= 0.0
    ensures settings.Validate(count) == Some(Invalid("min_touches", "must be at least 2"))
            <==> 0 < settings.atrPeriod < count && settings.zoneWidthAtr.Value() > 0.0 && settings.minTouches < 2
    ensures settings.Validate(count) == Some(Invalid("min_touch_separation_bars", "must be positive"))
            <==> 0 < settings.atrPeriod < count && settings.zoneWidthAtr.Value() > 0.0 && settings.minTouches >= 2
                 && settings.minTouchSeparationBars == 0
  {
    hide Decimal.Value, ExtremaSettings.Validate;
  }

  /** Extrema settings are checked first. */
  lemma FirstErrors(levels: LevelSettings, trend: TrendSettings, count: nat)
    ensures levels.extrema.Validate(count).Some? ==> levels.Validate(count) == levels.extrema.Validate(count)
    ensures trend.extrema.Validate(count).Some? ==> trend.Validate(count) == trend.extrema.Validate(count)
    ensures trend.extrema.Validate(count) == None && trend.equalityTolerancePct.Value() < 0.0 ==>
      trend.Validate(count) == Some(Invalid("equality_tolerance_pct", "must be nonnegative"))
  {
    hide Decimal.Value, ExtremaSettings.Validate;
  }

  lemma InstrumentErrors(i: Instrument)
    ensures i.exchange != "binance" && i.exchange != "bybit" ==>
      i.Validate() == Some(Invalid("exchange", "unsupported exchange"))
    ensures (i.exchange == "binance" || i.exchange == "bybit") && i.market != "spot" && i.market != "linear" ==>
      i.Validate() == Some(Invalid("market", "unsupported market"))
  {
  }

  /** The byte count of a text is the sum over its characters, by the size of their codes. */
  lemma {:induction false} Utf8LengthJoined(a: string, b: string)
    ensures Utf8Length(a + b) == Utf8Length(a) + Utf8Length(b)
  {
    if a == "" {
      assert a + b == b;
    } else {
      assert (a + b)[1..] == a[1..] + b;
      Utf8LengthJoined(a[1..], b);
    }
  }

  lemma Utf8LengthOfOne(c: char)
    ensures c as int <= 0x7f <==> Utf8Length([c]) == 1
    ensures 0x80 <= c as int <= 0x7ff <==> Utf8Length([c]) == 2
    ensures 0x800 <= c as int <= 0xffff <==> Utf8Length([c]) == 3
    ensures 0x1_0000 <= c as int <==> Utf8Length([c]) == 4
  {
    assert [c][1..] == "";
  }

  /** White space and control characters beyond ASCII. */
  lemma BlankCharacters(c: char)
    ensures
      c in {'\t', '\n', '\r', ' ', '\U{7f}', '\U{85}', '\U{a0}', '\U{1680}', '\U{2000}', '\U{200a}', '\U{2028}',
            '\U{2029}', '\U{202f}', '\U{205f}', '\U{3000}'}
      ==> IsBlank(c)
    ensures c in {'\U{a1}', '\U{e9}', '\U{200b}', '\U{2030}', '\U{20ac}', '\U{3001}', '\U{1f600}'} ==> !IsBlank(c)
  {
  }

  /** Texts of printable ASCII characters have one byte per character and nothing blank in them. */
  lemma {:induction false} PlainSymbol(text: string)
    requires forall c :: c in text ==> '!' <= c <= '~'
    ensures Utf8Length(text) == |text| && forall c :: c in text ==> !IsBlank(c)
  {
    if text == "" {
    } else {
      assert text[0] in text && forall c :: c in text[1..] ==> c in text;
      PlainSymbol(text[1..]);
    }
  }
}
