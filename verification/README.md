# Market Analyzer calculations, verified

A Dafny model of the calculation engine of Market Analyzer: exact decimals with a hand-written 16-digit division,
Wilder ATR, three extremum detectors, support and resistance zones, trend classification, calendar slots, candle
series, and the release checker that reads results back.

Prices are decimals (`Decimals.Decimal`: coefficient and exponent). The loops, mutable candidates, sort buffer and
`PriceStructure` fields of the program are methods and a class here; each is proved against a specification on plain
numbers (`Market.Bar`), and the theorems about whole histories are lemmas about those specifications. What an answer
says is stated once more without them, in candle fields, reported numbers and literal constants (`Reported...`,
`...Means`, `...Errors` and the calendar laws), so that a specification and its program cannot be wrong together.

| module | content |
|---|---|
| `Powers`, `Decimals`, `Rounding`, `Division` | powers of ten, exact decimals, rounding to significant digits, `Divide`, `FormatNumber` |
| `Market`, `TrueRanges`, `AtrSequences` | candles and settings, ATR on plain numbers, the ATR loop and NATR |
| `Swings`, `Extrema`, `Detection` | the reversal state machine, all methods on plain numbers, the detection loops |
| `Sorting`, `Zones`, `Levels`, `ReportedZones` | stable merge sort, grouping and touches, the zone builder, what its answers say |
| `Trend` | the online price structure and the ordered rules |
| `Calendar`, `Series` | slots, `Floor`, `Shift`, ranges, accepted candle lists, planning |
| `DoubleRounding`, `Reporting` | printed prices, the wire form, the checker |
| `ScaleSafety` | why the scale errors of division and output are unreachable for accepted source data |
| `Parsing`, `Delivery`, `Overprinting` | decimal texts, from accepted candles to a checked answer, and a concrete request whose answer is refused |

Where the code falls short of what its documentation or its checker expects, the model follows the code:

- `docs/calculations/atr-natr.md:78` says that period one makes the ATR equal to the true range. The code divides by
  one and rounds to 16 digits, so this holds exactly for ranges of at most 16 significant digits
  (`TrueRanges.PeriodOne`, counterexample `AtrSequences.PeriodOneDiffers`).
- The rounded midpoint of a zone can lie outside the zone; `Levels.RepresentativeInside` says exactly when.
- The checker expects the printed midpoint of a zone between its printed bounds. Rounding to 16 and then to 8 digits
  can lift it over the upper bound; `Reporting.ZoneAccepted` gives the exact condition and
  `Overprinting.RefusedRequest` a complete request whose answer is refused.

`hide` statements keep function bodies out of proofs that do not need them; products and quotients of variables go
through `Powers.Times` and `Powers.Over` for the same reason.

## Model

| member | source | states |
|---|---|---|
| `Powers.DigitsBounds` | internal/domain/decimal.go:24 | the length of a coefficient's decimal text brackets it between two powers of ten |
| `Powers.Magnitude` | internal/domain/decimal.go:32-35 | every positive number has a decimal magnitude m with 10^m <= x < 10^(m+1) |
| `Powers.MagnitudeUnique` | internal/domain/decimal.go:32-35 | that magnitude is unique, so floor(log10 x) is well defined |
| `Decimals.Decimal.Add` | internal/domain/decimal_test.go:92-95 | addition is exact on values, whatever the exponents |
| `Decimals.Decimal.Mul` | internal/domain/decimal_test.go:92-95 | multiplication is exact on values |
| `Decimals.Decimal.LessThan` | internal/domain/decimal_test.go:100-112 | comparison is by value, not by representation |
| `Rounding.SigHalfUnit` | internal/domain/decimal.go:37-44 | the rounded value is within half a unit in the last kept place, and ties go away from zero |
| `Rounding.SigDecade` | internal/domain/decimal.go:32-44 | rounding stays inside the decade, the carry to the next power of ten included |
| `Rounding.SigMonotone` | internal/domain/decimal.go:13-45 | rounding is monotone over all signs and across power-of-ten boundaries |
| `Rounding.SigRepresentable` | internal/domain/decimal.go:12-45 | every rounded value is a decimal of at most s significant digits |
| `Rounding.SigFixed` | internal/domain/decimal.go:12-45 | a value is unchanged by rounding if and only if it has at most s significant digits |
| `Rounding.SigIdempotent` | internal/domain/decimal.go:12-45 | rounding twice is rounding once |
| `Rounding.SigNearest` | docs/api.md:121-130 | correct rounding: no decimal of s significant digits is closer to the exact value |
| `Rounding.SigRelativeError` | internal/domain/decimal.go:37-44 | the relative error is at most half of 10^(1-s) |
| `Rounding.SigScale` | internal/domain/decimal.go:22-44 | rounding commutes with shifting the decimal point |
| `Rounding.SixteenDigits` | internal/domain/decimal.go:32-44 | digit by digit: an integer of 16 digits (or the carry) at the place that leaves 16 digits, at most half a unit away |
| `Division.MagnitudeFromDigits` | internal/domain/decimal.go:22-35 | text lengths and one comparison of rescaled coefficients give exactly floor(log10 of the quotient) |
| `Division.Divide` | internal/domain/decimal.go:13-45 | the in-place rescaling computes the specified division: both error cases and the rounded quotient |
| `Division.DividedIsRounded` | internal/domain/decimal.go:37-44 | a successful division is the quotient correctly rounded to 16 significant digits |
| `Division.DividedZero` | internal/domain/decimal.go:14-20 | the error for a zero denominator and the answer for a zero numerator |
| `Division.DividedOverflows` | internal/domain/decimal.go:37-42 | otherwise division fails exactly when one of four numbers, computed from the exponents and the decade of the quotient, leaves the open 32-bit range |
| `Division.DividedIgnoresRepresentation` | internal/domain/decimal.go:13-45 | operands of equal value give the identical answer, coefficient and exponent or error, if and only if the scale test treats both representations alike |
| `Division.RepresentationMatters` | internal/domain/decimal.go:37-42 | the condition can fail: one written with 2^31 - 1 decimal places overflows as a divisor, one written as 1 does not |
| `Division.DividedMonotone` | internal/domain/decimal.go:13-45 | for a positive divisor the quotient is monotone in the numerator |
| `Division.DividedExact` | internal/domain/decimal.go:12-45 | multiplying back recovers the numerator if and only if the quotient has at most 16 digits |
| `Division.DividedFits` | internal/domain/decimal.go:37-42 | moderate exponents and text lengths never raise the scale error |
| `Division.FormatNumber` | internal/domain/decimal.go:59-71 | the printed number is the value rounded to 8 significant digits; the scale error is exact |
| `Division.FormattedIsRounded` | internal/domain/decimal.go:59-71 | whenever a text exists, it denotes the value rounded to 8 significant digits |
| `Division.FormattedOverflows` | internal/domain/decimal.go:60-68 | printing a nonzero value fails exactly when one of two numbers leaves the open 32-bit range |
| `Market.ValidateAtr` | internal/domain/settings.go:7-13 | ATR settings are accepted if and only if the period is positive and smaller than the candle count |
| `Market.ExtremaSettings.Validate` | internal/domain/settings.go:53-87 | for each method, extrema settings are accepted if and only if its numbers and the candle count meet the stated conditions |
| `Market.LevelSettings.Validate` | internal/domain/settings.go:114-140 | level settings are accepted if and only if all stated conditions hold |
| `Market.TrendSettings.Validate` | internal/domain/settings.go:94-104 | trend settings are accepted if and only if the extrema settings are and the tolerance is nonnegative |
| `Market.ExtremaErrors` | internal/domain/settings.go:53-87 | which rule each rejected extrema setting is reported with |
| `Market.LevelErrors` | internal/domain/settings.go:119-137 | which rule each rejected level setting is reported with, in order |
| `Market.Instrument.Validate` | internal/domain/instrument.go:22-77 | an instrument is accepted if and only if exchange, market and symbol meet the stated conditions |
| `TrueRanges.AtrWithin` | internal/domain/atr.go:46-64 | every ATR value lies between the rounded smallest and the rounded largest true range consumed so far |
| `TrueRanges.AtrError` | internal/domain/atr.go:33-65 | the deviation from the exact unrounded recurrence is at most period * 5e-16 * max(top, round16(top)), for any history length |
| `TrueRanges.AtrPrefix` | internal/domain/atr.go:38-65 | later candles never change an earlier value |
| `TrueRanges.AtrReflected` | internal/domain/atr.go:43-64 | reflecting all prices leaves every ATR unchanged |
| `TrueRanges.AtrShifted` | internal/domain/atr.go:43-64 | multiplying all prices by 10^k multiplies every ATR by 10^k, rounding included |
| `TrueRanges.PeriodOne` | docs/calculations/atr-natr.md:78 | with period one the ATR equals the true range if and only if that range has at most 16 significant digits |
| `TrueRanges.TrueRangeIsGreatest` | internal/domain/atr.go:43-45 | the true range is at least each of its three distances and equals one of them |
| `TrueRanges.TrueRangeIsSpan` | docs/calculations/atr-natr.md:17-30 | the true range is the span of the candle once the previous close is added |
| `TrueRanges.AtrSeed` | docs/calculations/atr-natr.md:32-38 | the first ATR is the rounded mean of the first ranges |
| `TrueRanges.AtrStep` | docs/calculations/atr-natr.md:40-44 | period times the unrounded next value is (period - 1) times the previous value plus the new range |
| `TrueRanges.ExactAtrIsWeightedMean` | docs/calculations/atr-natr.md:32-44 | the unrounded recurrence is the mean of all true ranges with weights that fade by (period - 1) / period |
| `AtrSequences.PeriodOneDiffers` | docs/calculations/atr-natr.md:78 | a concrete 18-digit true range that differs from its period-one ATR |
| `AtrSequences.RangeOfCandles` | internal/domain/atr.go:43-45 | on candle fields: the range used by the loop is the greater of high and previous close minus the lesser of low and previous close |
| `AtrSequences.PeriodOneIsSpan` | docs/calculations/atr-natr.md:78 | on candle fields: with period one the answer is that span, rounded to 16 digits |
| `AtrSequences.CalculateAtrSequence` | internal/domain/atr.go:24-72 | the loop returns the complete sequence, the settings error, or the first division error of the recurrence |
| `AtrSequences.WilderIsAtr` | internal/domain/atr.go:46-64 | without an error the decimal recurrence has exactly the values of the rounded plain-number recurrence |
| `AtrSequences.WilderErrorStays` | internal/domain/atr.go:59-62 | the first division error is the outcome for every longer history |
| `AtrSequences.WilderPrefix` | internal/domain/atr.go:38-65 | an extended history repeats every earlier value and every earlier error |
| `AtrSequences.SequenceValue` | internal/domain/atr.go:15-17 | indexing a complete sequence anywhere from the period on yields the recurrence value at that candle |
| `AtrSequences.LatestIsAtr` | internal/domain/atr.go:19-22 | the latest value is the recurrence value of the last candle, with its index and closing time |
| `AtrSequences.CalculateAtr` | internal/domain/atr.go:74-81 | the result is the value at the last candle with its closing time; it exists if and only if the period fits and the recurrence does not fail; settings errors are named |
| `AtrSequences.CalculateNatr` | internal/domain/atr.go:83-100 | NATR is 100 ATR over the same candle's close, rounded to 16 digits, and exists if and only if both divisions do |
| `AtrSequences.NatrShifted` | internal/domain/atr.go:89-93 | NATR does not depend on the order of magnitude of the prices |
| `Swings.Peak` | docs/calculations/extrema.md:67-76 | the running candidate of a window is its last most extreme index |
| `Swings.PeakUnique` | docs/calculations/extrema.md:67-76 | only one index fits that description |
| `Swings.RunDescribes` | internal/domain/extrema.go:133-183 | invariant of every run: all turns so far fit the independent description, and the live candidates are the window peaks |
| `Swings.RunIsDescribed` | internal/domain/extrema.go:116-190 | the state machine returns a list of turns if and only if the list fits the description (last peaks, first qualifying confirmations, ambiguity rule, silent tail) |
| `Swings.TurnsAlternate` | internal/domain/extrema.go:155-178 | kinds alternate, candidate < confirmation <= next candidate, thresholds are positive, neighbouring prices differ by at least the earlier threshold |
| `Swings.TurnMeans` | docs/calculations/extrema.md:52-82 | in prices: each HIGH is the last maximum since the previous confirmation, each LOW the last minimum, and the confirming move reaches the positive frozen threshold |
| `Swings.NothingEarlier` | docs/calculations/extrema.md:67-82 | in prices: before a confirmation and after the last one nothing reverses far enough, and before the first point both directions do or neither |
| `Swings.RunAppends` | docs/calculations/extrema.md:119-120 | appending candles keeps every confirmed turn |
| `Swings.RunMirrored` | internal/domain/extrema.go:133-183 | reflected prices give the same candles and confirmations with kinds exchanged, at every run length |
| `Swings.RunRescaled` | internal/domain/extrema.go:133-183 | prices and thresholds multiplied by one positive factor give the same turns |
| `Extrema.ValidIsApplicable` | internal/domain/settings.go:53-87 | settings pass validation if and only if each method's stated conditions hold |
| `Extrema.PivotFound` | internal/domain/extrema.go:53-82 | a point is reported if and only if it is a strict extreme of its whole window |
| `Extrema.PivotsOrdered` | docs/calculations/extrema.md:31-43 | points come in candle order, the high first on one candle, and two of one kind are more than pivot_span apart |
| `Extrema.TurnWithin` | internal/domain/extrema.go:48-51 | both candles of every turn exist and the confirmation is later, for all methods |
| `Extrema.PercentThresholdPositive` | internal/domain/extrema.go:100-106 | percentage thresholds of positive prices are positive, so the positivity test never blocks the percent method |
| `Extrema.TurnsAppend` | docs/calculations/extrema.md:119-120 | for all three methods the turns of a valid prefix are a prefix of the turns |
| `Extrema.TurnsReflected` | internal/domain/extrema.go:116-190 | mirror duality of ATR reversal on whole histories, for both price sources |
| `Extrema.KindsReflected` | internal/domain/extrema.go:53-190 | for local and ATR methods the highs of the mirrored history are the lows of the history |
| `Extrema.TurnsShifted` | internal/domain/extrema.go:53-190 | all methods find the same turns after every price is multiplied by 10^k |
| `Detection.WindowPivots` | internal/domain/extrema.go:56-73 | the window scan with its early exit decides both kinds exactly |
| `Detection.FindLocalExtrema` | internal/domain/extrema.go:53-89 | the scan returns exactly the pivots, with their times and prices |
| `Detection.NewCandidate` | internal/domain/extrema.go:97-114 | a candidate's threshold and ATR evidence are those of its own candle; it fails if and only if its own percentage division overflows |
| `Detection.Reaches` | internal/domain/extrema.go:155-156 | a move confirms if and only if the threshold is positive and the distance reaches it |
| `Detection.FindReversals` | internal/domain/extrema.go:116-190 | the mutable candidates and flags refine the state machine, and every point carries its complete evidence; the pass fails if and only if some candle that becomes a live candidate has no threshold |
| `Detection.PointsAlternate` | internal/domain/extrema.go:155-178 | on reported decimals: alternating kinds, interleaved confirmations, distances of at least the strictly positive frozen threshold |
| `Detection.DetectedUnique` | internal/domain/extrema.go:14-38 | a complete answer is unique, evidence included |
| `Detection.DetectedAppend` | docs/calculations/extrema.md:119-120 | points found on a prefix reappear unchanged at the head of the longer answer |
| `Detection.DetectExtremaWith` | internal/domain/extrema.go:13-38 | with or without a supplied ATR sequence the answer is the complete one, and with valid settings it exists if and only if every threshold that is read can be computed |
| `Detection.DetectExtrema` | internal/domain/extrema.go:9-11 | a fresh detection returns the complete answer under the same exact condition |
| `Detection.SelectedPrices` | docs/calculations/extrema.md:12-21 | which price of a candle each source selects for each kind |
| `Detection.ReportedPoint` | internal/domain/extrema.go:40-51 | a reported point names two candles with their times and, by source and kind, the high, low or close of the first |
| `Detection.ReportedEvidence` | internal/domain/extrema.go:97-114 | the confirmation price is the low of the confirming candle for a HIGH, the high for a LOW, the close under CLOSE; the threshold is the percentage of the price or the multiple of the candidate's ATR |
| `Detection.LocalPointMeans` | docs/calculations/extrema.md:23-43 | a candle is reported if and only if its selected price is strictly beyond all others in its window, confirmed by the last candle of the window, in order |
| `Detection.TickMeans` | internal/domain/extrema.go:97-114 | the prices and thresholds that the reversal pass compares at every candle |
| `Detection.ReversalPoints` | internal/domain/extrema.go:116-120 | reversal points are the turns of those ticks, from the first candle that has a threshold |
| `Detection.DetectedShifted` | internal/domain/extrema.go:97-114 | on reported points of all methods: 10^k in every price moves every price, threshold and ATR by 10^k and nothing else |
| `Detection.DetectedReflected` | internal/domain/extrema.go:116-190 | on reported ATR-reversal points: reflected prices give the mirror image of every point, thresholds and ATR unchanged, in the same order |
| `Detection.LocalReflected` | internal/domain/extrema.go:53-89 | on reported local extrema: every point has its mirror image among the points of the reflected history |
| `Sorting.SortIndices` | internal/domain/levels.go:154-202 | the in-place merge sort leaves a stable sorted permutation for every strict weak order |
| `Sorting.MergeRange` | internal/domain/levels.go:157-199 | one recursive call sorts its range through the shared buffer and leaves the rest untouched |
| `Sorting.MergeHalves` | internal/domain/levels.go:175-188 | the merge loop writes the merge of the two halves |
| `Sorting.CopyBack` | internal/domain/levels.go:190-196 | copying back changes only the merged range |
| `Sorting.MergeSortedIsStable` | internal/domain/levels.go:154-202 | merge sort yields a sorted permutation in which tied elements keep their order |
| `Sorting.SortPlaces` | internal/domain/levels.go:154-202 | element by element: every place is used once, nothing comes before something smaller, ties keep their order |
| `Zones.BeforeIsWeakOrder` | internal/domain/levels.go:54-65 | the price/candle/kind comparator is a strict weak order on all references |
| `Zones.PriceOrderPermutes` | internal/domain/levels.go:45-68 | every reference occurs exactly once after sorting |
| `Zones.GroupsPartition` | internal/domain/levels.go:70-98 | the groups partition the sorted references into consecutive non-empty runs |
| `Zones.GroupsSpaced` | docs/calculations/levels.md:30-44 | no group is wider than the maximum, and each anchor lies more than the width above every earlier anchor |
| `Zones.GroupTakes` | docs/calculations/levels.md:30-44 | a group takes exactly the prices from its anchor to the width above it |
| `Zones.GroupsFewest` | docs/calculations/levels.md:30-44 | no family of intervals of that width covers all extremum prices with fewer members |
| `Zones.AcceptedSpread` | docs/calculations/levels.md:46-57 | accepted touches keep the required distance |
| `Zones.AcceptedIsMaximum` | internal/domain/levels.go:136-145 | no choice of sufficiently separated candles of the group is larger than the accepted one |
| `Zones.GroupSurvives` | internal/domain/levels.go:93-95 | a group is kept if and only if min_touches of its candles are pairwise far enough apart |
| `Zones.ZonesAscend` | internal/domain/levels.go:114-120 | zones are disjoint and ascending, and roles read supports, at most one at the price, resistances |
| `Zones.ZonesShifted` | internal/domain/levels.go:40-105 | grouping and touches do not change when prices and width are multiplied by 10^k |
| `Zones.MidpointInside` | internal/domain/levels.go:108-115 | the rounded midpoint lies between the bounds if and only if some decimal of at most 16 significant digits does |
| `Zones.MidpointWithin` | internal/domain/levels.go:108-115 | the midpoint always lies between the 16-digit rounded bounds, and between the bounds when one of them has at most 16 digits |
| `Levels.AcceptTouches` | internal/domain/levels.go:136-145 | the touch loop computes the greedy selection, and its subtraction never goes negative |
| `Levels.ZoneFromGroup` | internal/domain/levels.go:107-151 | the zone of a group: bounds, midpoint, role, references, touches, times; the only error is the midpoint division |
| `Levels.BuildZones` | internal/domain/levels.go:40-105 | sorting, grouping and filtering return exactly the kept groups' zones in price order |
| `Levels.CalculateLevels` | internal/domain/levels.go:9-37 | the complete levels answer; every failure is a settings, ATR, detection or midpoint failure |
| `Levels.LevelsExtremaAreDetected` | internal/domain/levels.go:18-26 | the reported extrema equal a fresh detection, whether or not the ATR sequence was reused |
| `Levels.LevelsAscend` | docs/calculations/levels.md:30-44 | on the reported zones: width at most the maximum, disjoint, ascending, roles in order |
| `Levels.RepresentativeInside` | internal/domain/levels.go:108-115 | on every produced zone: the representative price lies in the zone if and only if some 16-digit decimal does |
| `Levels.LevelsShifted` | internal/domain/levels.go:9-37 | end to end: histories that differ by 10^k give the same extrema, references, touches and roles, and all prices, thresholds and ATR values shifted by 10^k |
| `ReportedZones.ReportedWidth` | docs/calculations/levels.md:20-28 | the reported ATR, width and close are those of the last candle |
| `ReportedZones.ZoneRoles` | docs/calculations/levels.md:72-82 | support if and only if the last close is above the upper bound, resistance if and only if below the lower bound, at price if and only if inside or on the bounds |
| `ReportedZones.ZoneMembers` | docs/calculations/levels.md:30-44 | a zone holds exactly the extrema priced from its lower bound to the width above it, each once, in price order; its bounds are the first and last of these prices |
| `ReportedZones.ZoneTies` | internal/domain/levels.go:54-65 | equal prices are ordered by candle, and on one candle the HIGH comes first |
| `ReportedZones.ZoneTouches` | docs/calculations/levels.md:46-60 | touches are candles of members, each next one the earliest at least the spacing later, none left after the last; count and times are theirs |
| `ReportedZones.ZoneMidpoint` | internal/domain/levels.go:108-115 | the representative price is half the sum of the bounds, rounded to 16 digits |
| `ReportedZones.AnchorsMean` | docs/calculations/levels.md:34-44 | anchors are the lowest price, then always the lowest price more than the width above the anchor before, until no price is left |
| `ReportedZones.ZonesComplete` | docs/calculations/levels.md:46-60 | every zone starts at an anchor, and an anchor has a zone if and only if min_touches separated candles carry extrema in its reach |
| `Trend.PriceStructure.constructor` | internal/domain/trend.go:26-33 | a new structure summarises no prices |
| `Trend.PriceStructure.Add` | internal/domain/trend.go:35-49 | each addition keeps the summary exact: count, last, extremes, rising, falling over all prices so far |
| `Trend.DirectionsExclude` | docs/calculations/trend.md:25-37 | from two prices on, rising and falling exclude each other |
| `Trend.ClassifiedReflected` | internal/domain/trend.go:86-107 | reflecting both structures about the close exchanges UP and DOWN and keeps every other verdict and reason |
| `Trend.TrendReflected` | internal/domain/trend.go:9-114 | end to end for local and ATR methods: the mirrored history gets the mirrored verdict |
| `Trend.TrendShifted` | internal/domain/trend.go:57-107 | end to end for all methods: the verdict does not change when prices are multiplied by 10^k |
| `Trend.SelectedExtremes` | internal/domain/trend.go:63-71 | the scan finds the exact selected price range |
| `Trend.Decide` | docs/calculations/trend.md:39-63 | the ordered rules over the two summaries give the specified verdict |
| `Trend.ClassifyTrend` | internal/domain/trend.go:52-114 | the online classification equals the verdict defined on the whole history |
| `Trend.CalculateTrend` | internal/domain/trend.go:9-24 | detection and classification together return the verdict, or a stated failure |
| `Trend.VerdictMeans` | docs/calculations/trend.md:39-66 | each of the seven verdicts holds if and only if its rule is the first that applies to the candles and the reported points |
| `Trend.FlatMeans` | docs/calculations/trend.md:43-44 | flat: no selected high exceeds any selected low by more than the tolerance |
| `Trend.TwiceMeans` | docs/calculations/trend.md:45-47 | enough structure: two reported points of the kind |
| `Trend.StepsMean` | docs/calculations/trend.md:25-34 | rising (falling): every reported point lies more than the tolerance above (below) the previous one of its kind |
| `Trend.LevelMeans` | docs/calculations/trend.md:54-57 | level: no two reported prices of the kind differ by more than the tolerance |
| `Trend.LastMeans` | docs/calculations/trend.md:48-53 | broken: the last close is beyond the last LOW or HIGH by more than the tolerance |
| `Trend.InsideMeans` | docs/calculations/trend.md:59-64 | inside: the last close is within the tolerance of some LOW from above and of some HIGH from below |
| `Trend.ReportedTolerance` | docs/calculations/trend.md:15-23 | the tolerance is the percentage of the last close, rounded to 16 digits |
| `Calendar.MonthStep` | internal/domain/calendar.go:74-76 | consecutive month starts differ by the Gregorian month length |
| `Calendar.MonthStartIsCivil` | internal/domain/calendar.go:74-76 | every month start equals the closed formula for Gregorian day numbers |
| `Calendar.MonthFrom` | internal/domain/calendar.go:74-76 | every day lies in exactly the found month |
| `Calendar.ValidTimeIsRange` | internal/domain/calendar.go:54-61 | the year test never rejects more than the timestamp test |
| `Calendar.FloorFinds` | internal/domain/calendar.go:63-89 | Floor succeeds exactly from the first boundary on and returns the last boundary at or before the time, for all 13 intervals |
| `Calendar.FloorGalois` | internal/domain/calendar.go:63-89 | a boundary is at or before t if and only if it is at or before Floor(t) |
| `Calendar.FloorMonotone` | internal/domain/calendar.go:63-89 | Floor is monotone |
| `Calendar.FloorIdempotent` | internal/domain/calendar.go:63-89 | Floor is idempotent |
| `Calendar.SlotsFit` | internal/domain/calendar.go:113-117 | for every 64-bit slot count the guard holds if and only if the moved second stays in the supported span |
| `Calendar.MovedBy` | internal/domain/calendar.go:119 | after the guard the 64-bit sum does not wrap |
| `Calendar.ShiftedMonth` | internal/domain/calendar.go:102-110 | month arithmetic succeeds if and only if the target month is supported, returns that month, and never leaves 64 bits |
| `Calendar.ShiftMoves` | internal/domain/calendar.go:92-120 | Shift succeeds if and only if the target boundary lies in the supported span, and returns that boundary |
| `Calendar.ShiftNeedsBoundary` | internal/domain/calendar.go:92-100 | only boundaries of the supported span can be shifted |
| `Calendar.ShiftComposes` | internal/domain/calendar.go:92-120 | shifts compose additively and are undone by the opposite shift |
| `Calendar.RangeFinds` | internal/domain/calendar.go:134-158 | Range succeeds if and only if the instrument and interval are valid and enough whole slots end by `to`, and returns the last ones |
| `Calendar.ShiftLength` | internal/domain/calendar.go:19-50 | for the twelve fixed intervals a shift moves by the number of slots times the length that the interval names |
| `Calendar.FloorOnCalendar` | internal/domain/calendar.go:63-89 | weeks start on Mondays, other fixed slots at multiples of their length, and the time lies in the slot that starts there |
| `Calendar.FloorOfMonth` | internal/domain/calendar.go:74-76 | months start on their first day and contain the time |
| `Calendar.ShiftOfMonth` | internal/domain/calendar.go:102-110 | a monthly shift goes from the first of a month to the first of the month that many months away |
| `Calendar.FloorSucceeds` | internal/domain/calendar.go:63-89 | Floor succeeds if and only if the time is in 1970 to 9999, the interval is one of the thirteen, and a week does not start before the first Monday |
| `Calendar.FloorErrors` | internal/domain/calendar.go:63-89 | which error a failed Floor reports |
| `Calendar.ShiftErrors` | internal/domain/calendar.go:92-120 | which error a failed Shift reports |
| `Calendar.RangeErrors` | internal/domain/calendar.go:134-145 | which error a rejected selection reports |
| `Calendar.RangeLength` | internal/domain/calendar.go:147-157 | a planned range ends at the floor of the request and is exactly candle_count slots long |
| `Series.NewCandleSeries` | internal/domain/series.go:31-84 | a list is accepted if and only if every candle fills its slot; every rejection is the first failed check, and the shift inside the loop cannot fail |
| `Series.RejectionMeans` | internal/domain/series.go:36-76 | the first failed check decides the error; a broken candle is named with its field and rule, and all candles before it fit |
| `Series.SoundCandle` | internal/domain/series.go:86-133 | a candle without a violation has the slot's times and positive, ordered prices |
| `Series.NoViolation` | internal/domain/series.go:86-133 | a candle breaks no rule if and only if times, prices, amounts and counts all meet their conditions |
| `Series.ViolationNames` | internal/domain/series.go:86-133 | a named field breaks the named rule |
| `Series.SeriesTiles` | internal/domain/series.go:59-83 | candle i opens at Shift(From, i) and closes at Shift(From, i+1), the last close is To, and To is not after the request |
| `Series.SeriesSound` | internal/domain/series.go:86-133 | every bar of an accepted series is sound, as NATR and the checker theorems ask |
| `Series.Prepare` | internal/application/analyzer.go:180-227 | the checks run in the stated order and every outcome is determined, series errors included; success implies an accepted series whose range ends by the closed-candle boundary |
| `Series.PreparedCandlesClosed` | internal/application/analyzer.go:202-209 | every prepared candle had closed both by the requested time and by the evaluation time |
| `DoubleRounding.TwoStagesAtLeastOne` | internal/transport/grpc/response.go:179-191 | rounding a positive number to 16 and then 8 digits never ends below rounding it to 8 digits |
| `DoubleRounding.PrintedMidpoint` | internal/releasevalidation/runner.go:440-446 | the printed midpoint exceeds the printed upper bound if and only if the upper bound is below a midpoint that is an 8-digit tie; it is never below the printed lower bound |
| `Reporting.MapExtrema` | internal/transport/grpc/response.go:143-177 | every point is mapped with source text copied by index and formatted evidence; failures are exact |
| `Reporting.MapZone` | internal/transport/grpc/response.go:179-209 | a zone maps if and only if its three prices have a text; otherwise the error is the output scale overflow |
| `Reporting.MapLevels` | internal/transport/grpc/response.go:90-119 | a levels result maps to all its extrema, zones, ATR and width, and fails only when one of its numbers has no text or a reference is outside |
| `Reporting.MappedPointMeans` | internal/transport/grpc/response.go:143-177 | kinds, indices, times and source texts by source and kind, and evidence rounded to 8 digits |
| `Reporting.MappedZoneMeans` | internal/transport/grpc/response.go:179-209 | prices rounded to 8 digits, each role to its own wire role, references unchanged |
| `Reporting.MappedLevelsMeans` | internal/transport/grpc/response.go:90-119 | all points and zones in order, ATR and width rounded to 8 digits, the reference close as text |
| `Reporting.ValidateExtrema` | internal/releasevalidation/runner.go:367-433 | the checker returns none if all extrema meet the demands, else the first one that does not |
| `Reporting.ExtremumDemands` | internal/releasevalidation/runner.go:368-429 | the demands on an extremum, by source, kind and method |
| `Reporting.ValidateZone` | internal/releasevalidation/runner.go:436-470 | one zone passes if and only if all demands hold |
| `Reporting.ZoneDemands` | internal/releasevalidation/runner.go:436-470 | the demands on a zone, one by one |
| `Reporting.ValidateZones` | internal/releasevalidation/runner.go:435-473 | the checker returns none if all zones meet the demands, else the first one that does not |
| `Reporting.ExtremaAccepted` | internal/releasevalidation/runner.go:367-433 | every detected extremum, mapped to the wire, is accepted, for all methods and price sources |
| `Reporting.ZoneAccepted` | internal/releasevalidation/runner.go:435-473 | a produced zone is refused if and only if its upper bound is below a midpoint that is an 8-digit tie |
| `Reporting.ShortPricesAccepted` | internal/domain/levels.go:108-115 | zones with a 16-digit decimal between their bounds never meet that condition |
| `Reporting.LevelsReferenceAccepted` | internal/releasevalidation/runner.go:475-481 | the ATR evidence of a levels answer passes the reference check |
| `ScaleSafety.WilderSucceeds` | internal/domain/atr.go:59-62 | for any accepted history and period no smoothing division raises the scale error, because smoothing loses less than two decimal places in five candles |
| `ScaleSafety.NatrSucceeds` | internal/domain/atr.go:89-93 | neither does the NATR division |
| `ScaleSafety.PercentSucceeds` | internal/domain/extrema.go:100-106 | neither do percentage thresholds |
| `ScaleSafety.MidpointsSucceed` | internal/domain/levels.go:109-112 | neither do zone midpoints |
| `ScaleSafety.DetectionFailsOnlyOnSettings` | internal/domain/extrema.go:14-38 | for accepted source data a failed detection is always a rejected setting |
| `ScaleSafety.LevelsAlwaysSucceed` | internal/domain/levels.go:9-37 | for accepted source data and valid settings no step of the levels calculation can fail |
| `ScaleSafety.TrendAlwaysSucceeds` | internal/domain/trend.go:9-24 | nor can any step of the trend calculation |
| `ScaleSafety.AtrPrints` | internal/domain/decimal.go:59-71 | every ATR value of an accepted history has a text, and so has its product with a positive factor (threshold, zone width) |
| `ScaleSafety.PercentPrints` | internal/domain/decimal.go:59-71 | so has every percentage threshold and tolerance |
| `ScaleSafety.MidpointPrints` | internal/domain/decimal.go:59-71 | so has the middle of any two source prices |
| `Parsing.ParsedFraction` | internal/application/analyzer.go:314-325 | digits around a point denote the whole number plus the fraction in units of the last place |
| `Parsing.ParsedSign` | internal/application/analyzer.go:13 | a sign in front negates the value or leaves it |
| `Parsing.ParsedDigits` | internal/application/analyzer.go:315-317 | a parsed number has at most 1024 digits and at most 1024 decimal places |
| `Parsing.RefusedTexts` | internal/application/analyzer.go:13 | only digits and one point between digits are accepted |
| `Delivery.ParsedSeriesSound` | internal/application/source.go:11-42 | an accepted series of parsed candles meets the hypotheses of the scale and checker theorems |
| `Delivery.ExtremaPrinted` | internal/transport/grpc/response.go:155-171 | no reported extremum of any method lacks a text |
| `Delivery.LevelsPrinted` | internal/transport/grpc/response.go:96-112 | neither do the ATR, the zone width and the three prices of any zone |
| `Delivery.TolerancePrinted` | internal/transport/grpc/response.go:75-78 | nor does the tolerance of a trend answer |
| `Delivery.LevelsMap` | internal/transport/grpc/response.go:90-119 | mapping a levels result over an accepted series never fails |
| `Delivery.LevelsPass` | internal/releasevalidation/runner.go:367-481 | of a mapped levels result the checker accepts the reference, every extremum, and every zone that is not overprinted |
| `Delivery.WireRoles` | internal/transport/grpc/response.go:193-196 | the role that arrives is the position of the last close relative to the zone's bounds |
| `Delivery.WirePrices` | internal/transport/grpc/response.go:211-229 | every wire price and confirmation price parses to the reported decimal |
| `Delivery.AnswerLevels` | internal/application/analyzer.go:136-157 | calculation and mapping together answer every request over an accepted series with valid settings; roles and prices arrive as calculated, and the checker's verdict on every part is known exactly |
| `Overprinting.ExampleOverprinted` | internal/releasevalidation/runner.go:440-446 | the levels of five concrete candles have exactly one zone, its midpoint lies outside it, and it is overprinted |
| `Overprinting.RefusedRequest` | internal/releasevalidation/runner.go:435-473 | a valid request over those candles is accepted and answered, and the checker refuses the answer because of that zone |

## Left out

- Market.ExtremaSettings: an unsupported price source and a missing method cannot be expressed, so their two error branches have no counterpart.
- Calendar.RangeFinds: symbols are texts of Unicode characters, so a symbol that is not valid UTF-8 cannot be expressed.
- Series.Prepare: the clock, the reader, the parsing of the loaded candles and the settings check are parameters; timeouts and error kinds are dropped.
- Reporting.ValidateExtrema: missing messages and unparsable numbers cannot be expressed; derived numbers travel as the decimal their text denotes, source prices as opaque text.
- TrueRanges.AtrReflected: the reflection may use any constant; positivity of the reflected prices is not needed for the statement.
- Delivery.AnswerLevels: response metadata and settings echoes are not part of the mapped answer.
- The decimal library's own digit algorithms: `DivRound`, `Round`, `Add`, `Mul`, `Cmp` are modelled by their value contracts, and its panic on exponents beyond 32 bits is not modelled.
- Context cancellation inside loops and the error-wrapping layers.
- Parsing.ParseDecimal: error texts of the parser are not modelled, only which texts are accepted and what they denote.
- Decimal printing, `FormatPercentage`, response assembly, algorithm identifiers, settings parsing.
- Aliasing of candle slices: a series holds values, so copying on input and output has no visible effect.
- The checks of metadata and candle payloads in the release checker, load and metrics validation.
- gRPC, HTTP, process, metrics and market-data client code, active instruments, market statistics.
