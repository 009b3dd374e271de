/** Calendar slots of the supported intervals: fixed lengths, Monday weeks and Gregorian months. */
module Calendar {
  import opened Results
  import opened Market

  newtype int64 = x: int | -0x8000_0000_0000_0000 <= x < 0x8000_0000_0000_0000

  const NANOS: int := 1_000_000_000
  const DAY: int := 86_400
  const MAX_TIMESTAMP: int64 := 253_402_300_799
  const LAST_MONTH: int := (9999 - 1970) * 12 + 11

  const BAD_TIME := "must be between the Unix epoch and year 9999"
  const UNSUPPORTED := Invalid("interval", "unsupported interval")
  const UNALIGNED := Invalid("range", "boundary must be aligned")
  const MONTHS_OUTSIDE := Invalid("range", "calendar shift is outside supported timestamps")
  const SLOTS_OUTSIDE := Invalid("range", "slot shift is outside supported timestamps")

  // ---- the Gregorian calendar ----

  predicate IsLeap(year: int) {
    year % 4 == 0 && (year % 100 != 0 || year % 400 == 0)
  }

  /** Days from 1 January 1970 to 1 January of the year. */
  function DaysBeforeYear(year: int): (days: int) {
    365 * (year - 1970) + (year - 1) / 4 - (year - 1) / 100 + (year - 1) / 400 - 477
  }

  function MonthLength(year: int, month: nat): (days: int)
    requires month < 12
    ensures 28 <= days <= 31
  {
    if month == 1 then (if IsLeap(year) then 29 else 28)
    else if month == 3 || month == 5 || month == 8 || month == 10 then 30
    else 31
  }

  function DaysBeforeMonth(year: int, month: nat): (days: int)
    requires month <= 12
  {
    if month == 0 then 0 else DaysBeforeMonth(year, month - 1) + MonthLength(year, month - 1)
  }

  /** Days from the epoch to the first day of the month, months counted from January 1970. */
  function MonthStart(m: nat): (days: int) {
    DaysBeforeYear(1970 + m / 12) + DaysBeforeMonth(1970 + m / 12, m % 12)
  }

  lemma YearLength(year: int)
    ensures DaysBeforeYear(year + 1) == DaysBeforeYear(year) + (if IsLeap(year) then 366 else 365)
  {
    FourYears(year);
    Century(year);
    FourCenturies(year);
  }

  lemma FourYears(n: int)
    ensures n / 4 == (n - 1) / 4 + (if n % 4 == 0 then 1 else 0)
  {
  }

  lemma Century(n: int)
    ensures n / 100 == (n - 1) / 100 + (if n % 100 == 0 then 1 else 0)
    ensures n % 100 == 0 ==> n % 4 == 0
  {
  }

  lemma FourCenturies(n: int)
    ensures n / 400 == (n - 1) / 400 + (if n % 400 == 0 then 1 else 0)
    ensures n % 400 == 0 ==> n % 100 == 0
  {
  }

  lemma TwelveMonths(year: int)
    ensures DaysBeforeMonth(year, 12) == if IsLeap(year) then 366 else 365
  {
    hide IsLeap;
    assert DaysBeforeMonth(year, 1) == 31;
    assert DaysBeforeMonth(year, 2) == if IsLeap(year) then 60 else 59;
    assert DaysBeforeMonth(year, 4) == DaysBeforeMonth(year, 2) + 61;
    assert DaysBeforeMonth(year, 6) == DaysBeforeMonth(year, 4) + 61;
    assert DaysBeforeMonth(year, 8) == DaysBeforeMonth(year, 6) + 62;
    assert DaysBeforeMonth(year, 10) == DaysBeforeMonth(year, 8) + 61;
  }

  /** Consecutive month starts differ by the length of the month. */
  lemma MonthStep(m: nat)
    ensures MonthStart(m + 1) == MonthStart(m) + MonthLength(1970 + m / 12, m % 12)
  {
    hide IsLeap;
    var year, month := 1970 + m / 12, m % 12;
    if month == 11 {
      assert (m + 1) / 12 == m / 12 + 1 && (m + 1) % 12 == 0;
      YearLength(year);
      TwelveMonths(year);
    } else {
      assert (m + 1) / 12 == m / 12 && (m + 1) % 12 == month + 1;
    }
  }

  /** The closed formula for the day number of the first of a month, with years that start in March. */
  lemma MonthStartIsCivil(m: nat)
    ensures
      var year, month := 1970 + m / 12, m % 12 + 1;
      var y := if month <= 2 then year - 1 else year;
      var fromMarch := if month <= 2 then month + 9 else month - 3;
      MonthStart(m) == 365 * y + y / 4 - y / 100 + y / 400 + (153 * fromMarch + 2) / 5 - 719_468
  {
    hide DaysBeforeMonth, IsLeap;
    LeapDays(1970 + m / 12);
    MonthSums(1970 + m / 12);
    MarchSums(m % 12);
  }

  lemma LeapDays(year: int)
    ensures year / 4 - year / 100 + year / 400
            == (year - 1) / 4 - (year - 1) / 100 + (year - 1) / 400 + (if IsLeap(year) then 1 else 0)
  {
    FourYears(year);
    Century(year);
    FourCenturies(year);
  }

  /** The lengths of the months from March on follow one linear formula. */
  lemma MarchSums(month: nat)
    requires month < 12
    ensures
      var days := (153 * (if month < 2 then month + 10 else month - 2) + 2) / 5;
      && (month == 0 ==> days == 306) && (month == 1 ==> days == 337) && (month == 2 ==> days == 0)
      && (month == 3 ==> days == 31) && (month == 4 ==> days == 61) && (month == 5 ==> days == 92)
      && (month == 6 ==> days == 122) && (month == 7 ==> days == 153) && (month == 8 ==> days == 184)
      && (month == 9 ==> days == 214) && (month == 10 ==> days == 245) && (month == 11 ==> days == 275)
  {
  }

  lemma MonthSums(year: int)
    ensures
      var leap := if IsLeap(year) then 1 else 0;
      && DaysBeforeMonth(year, 0) == 0 && DaysBeforeMonth(year, 1) == 31
      && DaysBeforeMonth(year, 2) == 59 + leap && DaysBeforeMonth(year, 3) == 90 + leap
      && DaysBeforeMonth(year, 4) == 120 + leap && DaysBeforeMonth(year, 5) == 151 + leap
      && DaysBeforeMonth(year, 6) == 181 + leap && DaysBeforeMonth(year, 7) == 212 + leap
      && DaysBeforeMonth(year, 8) == 243 + leap && DaysBeforeMonth(year, 9) == 273 + leap
      && DaysBeforeMonth(year, 10) == 304 + leap && DaysBeforeMonth(year, 11) == 334 + leap
  {
    hide IsLeap;
    assert DaysBeforeMonth(year, 2) == DaysBeforeMonth(year, 1) + MonthLength(year, 1);
    assert DaysBeforeMonth(year, 4) == DaysBeforeMonth(year, 3) + 30;
    assert DaysBeforeMonth(year, 6) == DaysBeforeMonth(year, 5) + 30;
    assert DaysBeforeMonth(year, 8) == DaysBeforeMonth(year, 7) + 31;
    assert DaysBeforeMonth(year, 10) == DaysBeforeMonth(year, 9) + 31;
  }

  lemma {:induction false} MonthsAscend(a: nat, b: nat)
    requires a < b
    ensures MonthStart(a) + 28 <= MonthStart(b)
    decreases b - a
  {
    hide MonthStart, MonthLength;
    MonthStep(b - 1);
    if a == b - 1 {
    } else {
      MonthsAscend(a, b - 1);
    }
  }

  lemma FirstAndLastYear()
    ensures DaysBeforeYear(1970) == 0 && DaysBeforeYear(10_000) == 2_932_897
  {
  }

  lemma MonthEnds()
    ensures MonthStart(0) == 0
    ensures (MonthStart(LAST_MONTH + 1)) * DAY == MAX_TIMESTAMP as int + 1
  {
    hide DaysBeforeYear;
    assert LAST_MONTH + 1 == 96_360;
    FirstAndLastYear();
  }

  /** The month that contains a day. */
  function MonthFrom(day: nat, m: nat): (r: nat)
    requires MonthStart(m) <= day
    ensures MonthStart(r) <= day < MonthStart(r + 1)
    decreases day - MonthStart(m)
  {
    MonthStep(m);
    if day < MonthStart(m + 1) then m else MonthFrom(day, m + 1)
  }

  function MonthOf(day: nat): (m: nat)
    ensures MonthStart(m) <= day < MonthStart(m + 1)
  {
    MonthFrom(day, 0)
  }

  // ---- supported times ----

  function Unix(t: Time): (seconds: int)
    ensures seconds * NANOS <= t < (seconds + 1) * NANOS
  {
    t / NANOS
  }

  function MonthAt(t: Time): (m: nat)
    requires Unix(t) >= 0
  {
    MonthOf(Unix(t) / DAY)
  }

  function YearOf(t: Time): (year: int)
    requires Unix(t) >= 0
  {
    1970 + MonthAt(t) / 12
  }

  predicate ValidTime(t: Time) {
    0 <= Unix(t) && 1970 <= YearOf(t) <= 9999 && Unix(t) <= MAX_TIMESTAMP as int
  }

  lemma DayBelow(seconds: int, days: int)
    requires 0 <= seconds
    ensures seconds / DAY < days <==> seconds < days * DAY
  {
  }

  /** The year test never rejects more than the timestamp test. */
  lemma ValidTimeIsRange(t: Time)
    ensures ValidTime(t) <==> 0 <= Unix(t) <= MAX_TIMESTAMP as int
  {
    hide MonthStart, MonthOf;
    if 0 <= Unix(t) <= MAX_TIMESTAMP as int {
      var m := MonthAt(t);
      MonthEnds();
      DayBelow(Unix(t), MonthStart(LAST_MONTH + 1));
      if LAST_MONTH < m {
        if LAST_MONTH + 1 < m {
          MonthsAscend(LAST_MONTH + 1, m);
        }
      }
    }
  }

  // ---- slots ----

  datatype Slots = Slots(seconds: int64, anchor: int64)

  function Slot(interval: string): (r: Option<Slots>) {
    if interval == "1m" then Some(Slots(60, 0))
    else if interval == "3m" then Some(Slots(180, 0))
    else if interval == "5m" then Some(Slots(300, 0))
    else if interval == "15m" then Some(Slots(900, 0))
    else if interval == "30m" then Some(Slots(1_800, 0))
    else if interval == "1h" then Some(Slots(3_600, 0))
    else if interval == "2h" then Some(Slots(7_200, 0))
    else if interval == "4h" then Some(Slots(14_400, 0))
    else if interval == "6h" then Some(Slots(21_600, 0))
    else if interval == "12h" then Some(Slots(43_200, 0))
    else if interval == "1d" then Some(Slots(86_400, 0))
    else if interval == "1w" then Some(Slots(604_800, 345_600))
    else if interval == "1M" then Some(Slots(0, 0))
    else None
  }

  predicate Monthly(interval: string) {
    interval == "1M"
  }

  lemma SlotShape(interval: string)
    requires Slot(interval).Some?
    ensures var s := Slot(interval).value;
      if Monthly(interval) then s == Slots(0, 0) else 0 <= s.anchor < s.seconds <= 604_800
  {
  }

  /** Boundary number k of the interval, counted from the first one at or after the epoch. */
  function Boundary(interval: string, k: nat): (t: Time)
    requires Slot(interval).Some?
  {
    NANOS * (if Monthly(interval) then MonthStart(k) * DAY
             else Slot(interval).value.anchor as int + k * Slot(interval).value.seconds as int)
  }

  lemma BoundaryAscends(interval: string, a: nat, b: nat)
    requires Slot(interval).Some? && a < b
    ensures Boundary(interval, a) < Boundary(interval, b)
  {
    hide Slot, MonthStart;
    SlotShape(interval);
    if Monthly(interval) {
      MonthsAscend(a, b);
    } else {
      SlotsAscend(a, b, Slot(interval).value.seconds as int);
    }
  }

  lemma SlotsAscend(a: int, b: int, seconds: int)
    requires a < b && seconds > 0
    ensures a * seconds < b * seconds
  {
  }

  lemma BoundaryOrder(interval: string, a: nat, b: nat)
    requires Slot(interval).Some?
    ensures Boundary(interval, a) <= Boundary(interval, b) <==> a <= b
    ensures Boundary(interval, a) == Boundary(interval, b) <==> a == b
  {
    hide Boundary, Slot;
    if a < b {
      BoundaryAscends(interval, a, b);
    } else if b < a {
      BoundaryAscends(interval, b, a);
    }
  }

  // ---- Floor ----

  /** Remainder with the sign of the dividend. */
  function Remainder(a: int64, b: int64): (r: int64)
    requires b > 0 && a > -0x8000_0000_0000_0000
    ensures r as int == if a >= 0 then a as int % b as int else -((-(a as int)) % b as int)
  {
    if a >= 0 then a % b else -((-a) % b)
  }

  function Floor(interval: string, t: Time): (r: Result<Time>) {
    if !ValidTime(t) then Err(Invalid("time", BAD_TIME))
    else if Slot(interval) == None then Err(UNSUPPORTED)
    else if Monthly(interval) then Ok(NANOS * (MonthStart(MonthAt(t)) * DAY))
    else
      SlotShape(interval);
      var s := Slot(interval).value;
      var unix := Unix(t) as int64;
      var remainder := Remainder(unix - s.anchor, s.seconds);
      var offset := if remainder < 0 then remainder + s.seconds else remainder;
      var result := NANOS * (unix as int - offset as int);
      if ValidTime(result) then Ok(result) else Err(Invalid("range", BAD_TIME))
  }

  /** The number of the last boundary at or before t. */
  ghost predicate IsFloorIndex(interval: string, t: Time, k: nat)
    requires Slot(interval).Some?
  {
    Boundary(interval, k) <= t < Boundary(interval, k + 1)
  }

  lemma RemainderIsModulo(a: int, b: int, r: int)
    requires b > 0 && r == if a >= 0 then a % b else -((-a) % b)
    ensures (if r < 0 then r + b else r) == a % b
  {
    if a < 0 {
      var q, m := (-a) / b, (-a) % b;
      assert -a == q * b + m;
      ModuloUnique(a, b, if m == 0 then -q else -q - 1, if m == 0 then 0 else b - m);
    }
  }

  lemma ModuloUnique(a: int, b: int, q: int, m: int)
    requires b > 0 && a == q * b + m && 0 <= m < b
    ensures a / b == q && a % b == m
  {
    var p, n := a / b, a % b;
    assert a == p * b + n && 0 <= n < b;
    if q < p {
      SlotsAtMost(q + 1, p, b);
      NextSlot(q, b);
    } else if p < q {
      SlotsAtMost(p + 1, q, b);
      NextSlot(p, b);
    }
  }

  lemma FixedFloor(interval: string, t: Time, k: int)
    requires Slot(interval).Some? && !Monthly(interval) && ValidTime(t)
    requires k == (Unix(t) - Slot(interval).value.anchor as int) / Slot(interval).value.seconds as int
    ensures Floor(interval, t) == (if k >= 0 then Ok(Boundary(interval, k)) else Err(Invalid("range", BAD_TIME)))
    ensures k >= 0 ==> IsFloorIndex(interval, t, k)
    ensures k < 0 ==> t < Boundary(interval, 0)
  {
    hide Slot, MonthStart, MonthOf, ValidTime;
    SlotShape(interval);
    ValidTimeIsRange(t);
    var s := Slot(interval).value;
    var seconds, a := s.seconds as int, Unix(t) - s.anchor as int;
    var m := a % seconds;
    DivisionParts(a, seconds, k, m);
    RemainderIsModulo(a, seconds, Remainder((Unix(t) as int64) - s.anchor, s.seconds) as int);
    var result := NANOS * (Unix(t) - m);
    ValidTimeIsRange(result);
    UnixOfSeconds(Unix(t) - m);
    hide Unix, Remainder;
    NextSlot(k, seconds);
    if k < 0 {
      NegativeSlots(k, seconds);
    } else {
      NonnegativeSlots(k, seconds);
    }
  }

  lemma DivisionParts(a: int, b: int, q: int, m: int)
    requires b > 0 && q == a / b && m == a % b
    ensures a == q * b + m && 0 <= m < b
  {
  }

  lemma UnixOfSeconds(seconds: int)
    ensures Unix(NANOS * seconds) == seconds
  {
  }

  lemma NextSlot(k: int, seconds: int)
    ensures (k + 1) * seconds == k * seconds + seconds
  {
  }

  lemma NegativeSlots(k: int, seconds: int)
    requires k < 0 && seconds > 0
    ensures k * seconds <= -seconds
  {
  }

  lemma NonnegativeSlots(k: int, seconds: int)
    requires k >= 0 && seconds > 0
    ensures k * seconds >= 0
  {
  }

  lemma MonthYear(t: Time)
    requires ValidTime(t)
    ensures 0 <= Unix(t) && MonthAt(t) <= LAST_MONTH
    ensures MonthStart(MonthAt(t)) <= Unix(t) / DAY < MonthStart(MonthAt(t) + 1)
  {
    hide MonthStart, MonthOf;
  }

  lemma MonthFloor(t: Time)
    requires ValidTime(t)
    ensures Slot("1M").Some?
    ensures Floor("1M", t) == Ok(Boundary("1M", MonthAt(t))) && IsFloorIndex("1M", t, MonthAt(t))
    ensures MonthAt(t) <= LAST_MONTH
  {
    hide MonthStart, MonthOf, ValidTime;
    ValidTimeIsRange(t);
    MonthYear(t);
    var m := MonthAt(t);
    DayBelow(Unix(t), MonthStart(m + 1));
    DayBelow(Unix(t), MonthStart(m));
  }

  /** Floor succeeds exactly from the first boundary on, and returns the last boundary at or before t. */
  lemma FloorFinds(interval: string, t: Time) returns (k: nat)
    ensures Floor(interval, t).Ok?
            <==> ValidTime(t) && Slot(interval).Some? && Boundary(interval, 0) <= t
    ensures Floor(interval, t).Ok? ==>
      && Slot(interval).Some?
      && IsFloorIndex(interval, t, k)
      && Floor(interval, t).value == Boundary(interval, k)
  {
    k := 0;
    if ValidTime(t) && Slot(interval).Some? {
      if Monthly(interval) {
        MonthFloor(t);
        k := MonthAt(t);
        FirstMonth(t);
      } else {
        SlotShape(interval);
        var q := (Unix(t) - Slot(interval).value.anchor as int) / Slot(interval).value.seconds as int;
        hide Slot, Floor, Boundary, ValidTime, MonthStart;
        FixedFloor(interval, t, q);
        if q >= 0 {
          k := q;
          BoundaryOrder(interval, 0, k);
        }
      }
    }
  }

  lemma FirstMonth(t: Time)
    requires ValidTime(t)
    ensures Slot("1M").Some? && Boundary("1M", 0) <= t
  {
    MonthEnds();
  }

  /** b <= t exactly when b <= Floor(t), for every boundary b. */
  lemma FloorGalois(interval: string, t: Time, k: nat)
    requires Floor(interval, t).Ok?
    ensures Slot(interval).Some?
    ensures Boundary(interval, k) <= t <==> Boundary(interval, k) <= Floor(interval, t).value
  {
    hide Floor, Boundary, Slot;
    var f := FloorFinds(interval, t);
    BoundaryOrder(interval, k, f);
    BoundaryOrder(interval, k, f + 1);
    BoundaryOrder(interval, f + 1, k);
  }

  lemma FloorMonotone(interval: string, t: Time, u: Time)
    requires t <= u && Floor(interval, t).Ok? && Floor(interval, u).Ok?
    ensures Floor(interval, t).value <= Floor(interval, u).value
  {
    hide Floor, Boundary, Slot;
    var k := FloorFinds(interval, t);
    FloorGalois(interval, u, k);
  }

  lemma BoundaryValid(interval: string, k: nat, t: Time)
    requires Slot(interval).Some? && ValidTime(t) && Boundary(interval, k) <= t
    ensures ValidTime(Boundary(interval, k))
  {
    hide MonthStart, MonthOf, Slot, ValidTime;
    SlotShape(interval);
    ValidTimeIsRange(t);
    ValidTimeIsRange(Boundary(interval, k));
    if Monthly(interval) {
      MonthEnds();
      if k > 0 {
        MonthsAscend(0, k);
      }
    } else {
      NonnegativeSlots(k, Slot(interval).value.seconds as int);
    }
  }

  lemma FloorIdempotent(interval: string, t: Time)
    requires Floor(interval, t).Ok?
    ensures Floor(interval, Floor(interval, t).value) == Floor(interval, t)
  {
    hide Floor, Boundary, Slot, ValidTime;
    var k := FloorFinds(interval, t);
    var b := Boundary(interval, k);
    BoundaryValid(interval, k, t);
    BoundaryOrder(interval, 0, k);
    var j := FloorFinds(interval, b);
    BoundaryOrder(interval, j, k);
    BoundaryOrder(interval, j + 1, k);
    BoundaryOrder(interval, k, j + 1);
  }

  // ---- Shift ----

  /** The guard is exact: the moved month stays inside the span, and no 64-bit step overflows. */
  function ShiftedMonth(month: int64, slots: int64): (r: Result<int64>)
    requires 0 <= month as int <= LAST_MONTH
    ensures r.Ok? <==> 0 <= month as int + slots as int <= LAST_MONTH
    ensures r.Ok? ==> r.value as int == month as int + slots as int
    ensures r.Err? ==> r.error == MONTHS_OUTSIDE
  {
    var last: int64 := LAST_MONTH as int64;
    if slots < -month || slots > last - month then Err(MONTHS_OUTSIDE) else Ok(month + slots)
  }

  /** The guard is exact: the moved second stays inside the span. */
  predicate SlotsFit(unix: int64, seconds: int64, slots: int64)
    requires 0 <= unix <= MAX_TIMESTAMP && 0 < seconds <= 604_800
    ensures SlotsFit(unix, seconds, slots)
            <==> 0 <= unix as int + slots as int * seconds as int <= MAX_TIMESTAMP as int
  {
    var back, ahead := unix / seconds, (MAX_TIMESTAMP - unix) / seconds;
    GuardIsExact(unix as int, seconds as int, slots as int, back as int, ahead as int);
    !(slots < -back || slots > ahead)
  }

  function MovedBy(unix: int64, seconds: int64, slots: int64): (r: int64)
    requires 0 <= unix <= MAX_TIMESTAMP
    requires 0 <= unix as int + slots as int * seconds as int <= MAX_TIMESTAMP as int
    ensures r as int == unix as int + slots as int * seconds as int
  {
    unix + slots * seconds
  }

  function ShiftedSlot(unix: int64, seconds: int64, slots: int64): (r: Result<int64>)
    requires 0 <= unix <= MAX_TIMESTAMP && 0 < seconds <= 604_800
  {
    if !SlotsFit(unix, seconds, slots) then Err(SLOTS_OUTSIDE) else Ok(MovedBy(unix, seconds, slots))
  }

  /** Moves an aligned boundary by calendar slots; every intermediate value fits 64 bits. */
  function Shift(interval: string, boundary: Time, slots: int64): (r: Result<Time>) {
    var floor := Floor(interval, boundary);
    if floor.Err? then floor
    else if floor.value != boundary then Err(UNALIGNED)
    else if Monthly(interval) then
      ShiftedMonthFits(interval, boundary);
      var month := ShiftedMonth(MonthAt(boundary) as int64, slots);
      if month.Err? then Err(month.error) else Ok(NANOS * (MonthStart(month.value as int) * DAY))
    else
      ShiftedSlotFits(interval, boundary);
      var unix := ShiftedSlot(Unix(boundary) as int64, Slot(interval).value.seconds, slots);
      if unix.Err? then Err(unix.error) else Ok(NANOS * unix.value as int)
  }

  lemma ShiftedMonthFits(interval: string, boundary: Time)
    requires Floor(interval, boundary).Ok? && Monthly(interval)
    ensures Slot(interval).Some? && 0 <= Unix(boundary) && MonthAt(boundary) <= LAST_MONTH
  {
    MonthFloor(boundary);
  }

  lemma ShiftedSlotFits(interval: string, boundary: Time)
    requires Floor(interval, boundary).Ok? && !Monthly(interval)
    ensures Slot(interval).Some? && 0 < Slot(interval).value.seconds <= 604_800
    ensures 0 <= Unix(boundary) <= MAX_TIMESTAMP as int
  {
    hide ValidTime, Slot;
    var k := FloorFinds(interval, boundary);
    ValidTimeIsRange(boundary);
    SlotShape(interval);
  }

  lemma QuotientBound(n: int, d: int, seconds: int)
    requires seconds > 0
    ensures n <= d / seconds <==> n * seconds <= d
  {
    var q, m := d / seconds, d % seconds;
    assert d == q * seconds + m;
    if n <= q {
      SlotsAtMost(n, q, seconds);
    } else {
      SlotsAtMost(q + 1, n, seconds);
      NextSlot(q, seconds);
    }
  }

  lemma SlotsAtMost(a: int, b: int, seconds: int)
    requires a <= b && seconds > 0
    ensures a * seconds <= b * seconds
  {
  }

  lemma GuardIsExact(unix: int, seconds: int, slots: int, back: int, ahead: int)
    requires seconds > 0 && back == unix / seconds && ahead == (MAX_TIMESTAMP as int - unix) / seconds
    ensures -back <= slots <= ahead
            <==> 0 <= unix + slots * seconds <= MAX_TIMESTAMP as int
  {
    QuotientBound(slots, MAX_TIMESTAMP as int - unix, seconds);
    QuotientBound(-slots, unix, seconds);
    assert (-slots) * seconds == -(slots * seconds);
  }

  /** The boundaries of the supported time span. */
  ghost predicate InSpan(interval: string, k: int) {
    Slot(interval).Some? && 0 <= k && Boundary(interval, k) <= NANOS * MAX_TIMESTAMP as int
  }

  lemma InSpanFloors(interval: string, k: int)
    requires InSpan(interval, k)
    ensures Floor(interval, Boundary(interval, k)) == Ok(Boundary(interval, k))
    ensures ValidTime(Boundary(interval, k))
  {
    hide Floor, Boundary, Slot, ValidTime;
    ValidTimeIsRange(NANOS * MAX_TIMESTAMP as int);
    BoundaryValid(interval, k, NANOS * MAX_TIMESTAMP as int);
    BoundaryOrder(interval, 0, k);
    var j := FloorFinds(interval, Boundary(interval, k));
    BoundaryOrder(interval, j, k);
    BoundaryOrder(interval, k, j + 1);
    BoundaryOrder(interval, j + 1, k);
  }

  lemma MonthSpan(k: int)
    requires k >= 0
    ensures InSpan("1M", k) <==> k <= LAST_MONTH
  {
    hide MonthStart;
    MonthEnds();
    if k <= LAST_MONTH {
      MonthsAscend(k, LAST_MONTH + 1);
    } else if k > LAST_MONTH + 1 {
      MonthsAscend(LAST_MONTH + 1, k);
    }
  }

  lemma MonthAtBoundary(k: int)
    requires InSpan("1M", k)
    ensures Unix(Boundary("1M", k)) >= 0 && MonthAt(Boundary("1M", k)) == k
  {
    InSpanFloors("1M", k);
    MonthFloor(Boundary("1M", k));
    BoundaryOrder("1M", MonthAt(Boundary("1M", k)), k);
  }

  lemma ShiftMonths(k: int, slots: int64)
    requires InSpan("1M", k)
    ensures Shift("1M", Boundary("1M", k), slots)
            == if InSpan("1M", k + slots as int) then Ok(Boundary("1M", k + slots as int)) else Err(MONTHS_OUTSIDE)
  {
    hide MonthStart, MonthOf, Floor, ValidTime;
    InSpanFloors("1M", k);
    MonthAtBoundary(k);
    MonthSpan(k);
    if k + slots as int >= 0 {
      MonthSpan(k + slots as int);
    }
  }

  lemma SlotNumber(interval: string, k: int)
    requires Slot(interval).Some? && !Monthly(interval) && k >= 0
    ensures Slot(interval).value.seconds > 0
    ensures Unix(Boundary(interval, k)) == Slot(interval).value.anchor as int + k * Slot(interval).value.seconds as int
    ensures Unix(Boundary(interval, k)) / Slot(interval).value.seconds as int == k
  {
    hide Slot;
    SlotShape(interval);
    var s := Slot(interval).value;
    ModuloUnique(Unix(Boundary(interval, k)), s.seconds as int, k, s.anchor as int);
  }

  lemma ShiftSlots(interval: string, k: int, slots: int64)
    requires InSpan(interval, k) && !Monthly(interval)
    ensures Shift(interval, Boundary(interval, k), slots)
            == if InSpan(interval, k + slots as int) then Ok(Boundary(interval, k + slots as int))
               else Err(SLOTS_OUTSIDE)
  {
    hide Slot, Floor, ValidTime, MonthStart;
    InSpanFloors(interval, k);
    SlotShape(interval);
    ShiftedSlotFits(interval, Boundary(interval, k));
    SlotNumber(interval, k);
    SlotsAdd(k, slots as int, Slot(interval).value.seconds as int);
    if k + slots as int < 0 {
      NegativeSlots(k + slots as int, Slot(interval).value.seconds as int);
    } else {
      NonnegativeSlots(k + slots as int, Slot(interval).value.seconds as int);
    }
  }

  lemma SlotsAdd(a: int, b: int, seconds: int)
    ensures (a + b) * seconds == a * seconds + b * seconds
  {
  }

  /** Shift succeeds exactly when the target boundary lies in the supported span, and returns it. */
  lemma ShiftMoves(interval: string, k: int, slots: int64)
    requires InSpan(interval, k)
    ensures Shift(interval, Boundary(interval, k), slots).Ok? <==> InSpan(interval, k + slots as int)
    ensures InSpan(interval, k + slots as int) ==>
      Shift(interval, Boundary(interval, k), slots) == Ok(Boundary(interval, k + slots as int))
  {
    hide Shift, InSpan, Boundary;
    if Monthly(interval) {
      ShiftMonths(k, slots);
    } else {
      ShiftSlots(interval, k, slots);
    }
  }

  /** Anything but a boundary of the supported span is refused. */
  lemma ShiftNeedsBoundary(interval: string, t: Time, slots: int64) returns (k: nat)
    requires Shift(interval, t, slots).Ok?
    ensures InSpan(interval, k) && Slot(interval).Some? && t == Boundary(interval, k)
  {
    hide Floor, MonthStart, Slot, Boundary, ValidTime;
    k := FloorFinds(interval, t);
    BoundaryWithin(interval, k, t);
  }

  /** Two shifts are one shift by the sum, and the opposite shift returns to the start. */
  lemma ShiftComposes(interval: string, t: Time, a: int64, b: int64)
    requires Shift(interval, t, a).Ok? && -0x8000_0000_0000_0000 <= a as int + b as int < 0x8000_0000_0000_0000
    ensures Shift(interval, Shift(interval, t, a).value, b).Ok? <==> Shift(interval, t, a + b).Ok?
    ensures Shift(interval, t, a + b).Ok? ==>
      Shift(interval, Shift(interval, t, a).value, b) == Shift(interval, t, a + b)
    ensures a > -0x8000_0000_0000_0000 ==> Shift(interval, Shift(interval, t, a).value, -a) == Ok(t)
  {
    hide Shift, InSpan, Boundary;
    var k := ShiftNeedsBoundary(interval, t, a);
    ShiftMoves(interval, k, a);
    ShiftMoves(interval, k + a as int, b);
    ShiftMoves(interval, k, a + b);
    if a > -0x8000_0000_0000_0000 {
      ShiftMoves(interval, k + a as int, -a);
    }
  }

  // ---- selections ----

  datatype CandleRange = CandleRange(from: Time, to: Time)

  datatype CandleSelection = CandleSelection(instrument: Instrument, interval: string, to: Time, candleCount: nat)

  /** The closed range of a selection: candleCount slots ending at the last boundary not after `to`. */
  function RangeOf(s: CandleSelection): (r: Result<CandleRange>)
    requires s.candleCount < 0x1_0000_0000
  {
    if s.instrument.Validate().Some? then Err(s.instrument.Validate().value)
    else if Slot(s.interval) == None then Err(UNSUPPORTED)
    else if s.candleCount == 0 then Err(Invalid("candle_count", "must be positive"))
    else if !ValidTime(s.to) then Err(Invalid("to", BAD_TIME))
    else
      var end := Floor(s.interval, s.to);
      if end.Err? then Err(end.error)
      else
        var start := Shift(s.interval, end.value, -(s.candleCount as int64));
        if start.Err? then Err(start.error) else Ok(CandleRange(start.value, end.value))
  }

  /** Range succeeds for a valid instrument exactly when enough whole slots lie between the first boundary and `to`. */
  lemma RangeFinds(s: CandleSelection) returns (k: nat)
    requires s.candleCount < 0x1_0000_0000
    ensures RangeOf(s).Ok? ==>
      && InSpan(s.interval, k) && InSpan(s.interval, k + s.candleCount) && s.candleCount > 0
      && RangeOf(s).value == CandleRange(Boundary(s.interval, k), Boundary(s.interval, k + s.candleCount))
      && IsFloorIndex(s.interval, s.to, k + s.candleCount)
    ensures RangeOf(s).Ok? <==>
      && s.instrument.Validate() == None && Slot(s.interval).Some? && s.candleCount > 0 && ValidTime(s.to)
      && Boundary(s.interval, s.candleCount) <= s.to
  {
    hide Floor, Shift, Boundary, Slot, ValidTime, Instrument.Validate;
    k := 0;
    if Slot(s.interval).Some? && s.candleCount > 0 && ValidTime(s.to) {
      var end := FloorFinds(s.interval, s.to);
      BoundaryOrder(s.interval, 0, s.candleCount);
      if Floor(s.interval, s.to).Ok? {
        ValidTimeIsRange(s.to);
        BoundaryWithin(s.interval, end, s.to);
        ShiftMoves(s.interval, end, -(s.candleCount as int64));
        BoundaryOrder(s.interval, s.candleCount, end);
        BoundaryOrder(s.interval, s.candleCount, end + 1);
        BoundaryOrder(s.interval, end + 1, s.candleCount);
        if s.candleCount <= end {
          k := end - s.candleCount;
          BoundaryOrder(s.interval, k, end);
          BoundaryWithin(s.interval, k, s.to);
        }
      }
    }
  }

  lemma BoundaryWithin(interval: string, k: nat, t: Time)
    requires Slot(interval).Some? && ValidTime(t) && Boundary(interval, k) <= t
    ensures InSpan(interval, k)
  {
    hide Slot, Boundary, ValidTime;
    BoundaryValid(interval, k, t);
    ValidTimeIsRange(t);
    ValidTimeIsRange(Boundary(interval, k));
    WholeSeconds(interval, k);
  }

  lemma WholeSeconds(interval: string, k: nat)
    requires Slot(interval).Some?
    ensures Boundary(interval, k) == NANOS * Unix(Boundary(interval, k))
  {
    hide Slot, MonthStart;
  }

  // ---- in calendar terms ----

  /** The intervals of a fixed length: minutes, hours, days and weeks. */
  ghost predicate Lasts(interval: string, seconds: int)
    ensures Lasts(interval, seconds) <==>
      || (interval == "1m" && seconds == 60)
      || (interval == "3m" && seconds == 3 * 60)
      || (interval == "5m" && seconds == 5 * 60)
      || (interval == "15m" && seconds == 15 * 60)
      || (interval == "30m" && seconds == 30 * 60)
      || (interval == "1h" && seconds == 60 * 60)
      || (interval == "2h" && seconds == 2 * 60 * 60)
      || (interval == "4h" && seconds == 4 * 60 * 60)
      || (interval == "6h" && seconds == 6 * 60 * 60)
      || (interval == "12h" && seconds == 12 * 60 * 60)
      || (interval == "1d" && seconds == 24 * 60 * 60)
      || (interval == "1w" && seconds == 7 * 24 * 60 * 60)
  {
    Slot(interval).Some? && interval != "1M" && Slot(interval).value.seconds as int == seconds
  }

  lemma OnlyTheseIntervals(interval: string)
    ensures Slot(interval).Some? <==> interval == "1M" || exists seconds :: Lasts(interval, seconds)
  {
    if Slot(interval).Some? && interval != "1M" {
      assert Lasts(interval, Slot(interval).value.seconds as int);
    }
  }

  lemma FixedBoundary(interval: string, seconds: int, k: nat)
    requires Lasts(interval, seconds)
    ensures Slot(interval).Some? && !Monthly(interval) && seconds > 0
    ensures Boundary(interval, k) == 1_000_000_000 * ((if interval == "1w" then 345_600 else 0) + k * seconds)
  {
  }

  /** Shifting moves a fixed interval by its length per slot. */
  lemma ShiftLength(interval: string, seconds: int, t: Time, slots: int64)
    requires Lasts(interval, seconds) && Shift(interval, t, slots).Ok?
    ensures Shift(interval, t, slots).value == t + slots as int * seconds * 1_000_000_000
  {
    hide Shift, Slot, Boundary, Lasts, InSpan;
    var k := ShiftNeedsBoundary(interval, t, slots);
    ShiftMoves(interval, k, slots);
    SpanIndex(interval, k + slots as int);
    FixedBoundary(interval, seconds, k);
    FixedBoundary(interval, seconds, k + slots as int);
    SlotsAdd(k, slots as int, seconds);
  }

  lemma SpanIndex(interval: string, k: int)
    requires InSpan(interval, k)
    ensures k >= 0
  {
    hide Slot, Boundary;
  }

  /** Days count from Thursday 1 January 1970; weeks start on Monday, other fixed slots at multiples of their length. */
  lemma FloorOnCalendar(interval: string, seconds: int, t: Time)
    requires Lasts(interval, seconds) && Floor(interval, t).Ok?
    ensures
      var floor := Floor(interval, t).value;
      && floor <= t < floor + seconds * 1_000_000_000
      && (interval == "1w" ==>
            floor % (24 * 60 * 60 * 1_000_000_000) == 0 && floor / (24 * 60 * 60 * 1_000_000_000) % 7 == 4)
      && (interval != "1w" ==> exists n: nat :: floor == n * (seconds * 1_000_000_000))
  {
    hide Floor, Slot, Boundary, Lasts;
    var k := FloorFinds(interval, t);
    FixedBoundary(interval, seconds, k);
    FixedBoundary(interval, seconds, k + 1);
    NextSlot(k, seconds);
    if interval == "1w" {
      assert seconds == 604_800;
      MondayOf(k);
    } else {
      Regrouped(k, seconds);
      assert Floor(interval, t).value == k * (seconds * 1_000_000_000);
    }
  }

  lemma Regrouped(k: int, seconds: int)
    ensures 1_000_000_000 * (k * seconds) == k * (seconds * 1_000_000_000)
  {
  }

  lemma MondayOf(k: nat)
    ensures
      var monday := 1_000_000_000 * (345_600 + k * 604_800);
      monday % (24 * 60 * 60 * 1_000_000_000) == 0 && monday / (24 * 60 * 60 * 1_000_000_000) % 7 == 4
  {
    var day := 24 * 60 * 60 * 1_000_000_000;
    assert 1_000_000_000 * (345_600 + k * 604_800) == (4 + 7 * k) * day;
  }

  /** Months start on their first day. */
  lemma FloorOfMonth(t: Time) returns (m: nat)
    requires Floor("1M", t).Ok?
    ensures Floor("1M", t).value == MonthStart(m) * 86_400 * 1_000_000_000 <= t
    ensures t < MonthStart(m + 1) * 86_400 * 1_000_000_000
  {
    hide Floor, Slot, MonthStart;
    m := FloorFinds("1M", t);
  }

  /** Shifting by months moves from the first of one month to the first of another. */
  lemma ShiftOfMonth(t: Time, slots: int64) returns (m: nat)
    requires Shift("1M", t, slots).Ok?
    ensures m + slots as int >= 0
    ensures t == MonthStart(m) * 86_400 * 1_000_000_000
    ensures Shift("1M", t, slots).value == MonthStart(m + slots as int) * 86_400 * 1_000_000_000
  {
    hide Shift, Slot, MonthStart, InSpan;
    m := ShiftNeedsBoundary("1M", t, slots);
    ShiftMoves("1M", m, slots);
    SpanIndex("1M", m + slots as int);
    MonthlySlot();
  }

  lemma MonthlySlot()
    ensures Slot("1M").Some?
  {
  }

  /** Floor fails only outside 1970 .. 9999, for unknown intervals, and before the first Monday. */
  lemma FloorSucceeds(interval: string, t: Time)
    ensures Floor(interval, t).Ok?
            <==> && 0 <= t < 253_402_300_800 * 1_000_000_000
                 && (interval == "1M" || exists seconds :: Lasts(interval, seconds))
                 && (interval == "1w" ==> t >= 4 * 24 * 60 * 60 * 1_000_000_000)
  {
    hide Floor, Slot, Boundary, ValidTime, Lasts, MonthStart;
    var k := FloorFinds(interval, t);
    OnlyTheseIntervals(interval);
    ValidTimeIsRange(t);
    if interval == "1M" {
      FirstBoundaryOfMonths();
    } else if Slot(interval).Some? {
      var seconds :| Lasts(interval, seconds);
      FixedBoundary(interval, seconds, 0);
    }
  }

  lemma FirstBoundaryOfMonths()
    ensures Slot("1M").Some? && Boundary("1M", 0) == 0
  {
    MonthEnds();
  }

  /** Which error a failed Floor reports. */
  lemma FloorErrors(interval: string, t: Time)
    ensures !(0 <= t < 253_402_300_800 * 1_000_000_000) ==>
      Floor(interval, t) == Err(Invalid("time", "must be between the Unix epoch and year 9999"))
    ensures 0 <= t < 253_402_300_800 * 1_000_000_000 && Slot(interval) == None ==>
      Floor(interval, t) == Err(Invalid("interval", "unsupported interval"))
    ensures 0 <= t < 4 * 24 * 60 * 60 * 1_000_000_000 ==>
      Floor("1w", t) == Err(Invalid("range", "must be between the Unix epoch and year 9999"))
  {
    hide Slot, Boundary, ValidTime, MonthStart, MonthOf;
    ValidTimeIsRange(t);
    if 0 <= t < 4 * 24 * 60 * 60 * 1_000_000_000 {
      WeekSlot();
      BeforeMonday(Unix(t));
      FixedFloor("1w", t, -1);
    }
  }

  lemma WeekSlot()
    ensures Slot("1w") == Some(Slots(604_800, 345_600))
  {
  }

  lemma BeforeMonday(seconds: int)
    requires 0 <= seconds < 345_600
    ensures (seconds - 345_600) / 604_800 == -1
  {
  }

  /** Which error a failed Shift reports. */
  lemma ShiftErrors(interval: string, t: Time, slots: int64)
    requires Shift(interval, t, slots).Err?
    ensures Floor(interval, t).Err? ==> Shift(interval, t, slots) == Err(Floor(interval, t).error)
    ensures Floor(interval, t).Ok? && Floor(interval, t).value != t ==>
      Shift(interval, t, slots) == Err(Invalid("range", "boundary must be aligned"))
    ensures Floor(interval, t) == Ok(t) ==>
      Shift(interval, t, slots)
      == Err(Invalid("range", if interval == "1M" then "calendar shift is outside supported timestamps"
                              else "slot shift is outside supported timestamps"))
  {
    hide Floor, Slot, MonthStart, MonthOf, ValidTime;
  }

  /** Which error a failed range reports. */
  lemma RangeErrors(s: CandleSelection)
    requires s.candleCount < 0x1_0000_0000
    ensures s.instrument.Validate().Some? ==> RangeOf(s) == Err(s.instrument.Validate().value)
    ensures s.instrument.Validate() == None && Slot(s.interval) == None ==>
      RangeOf(s) == Err(Invalid("interval", "unsupported interval"))
    ensures s.instrument.Validate() == None && Slot(s.interval).Some? && s.candleCount == 0 ==>
      RangeOf(s) == Err(Invalid("candle_count", "must be positive"))
    ensures
      && s.instrument.Validate() == None && Slot(s.interval).Some? && s.candleCount > 0
      && !(0 <= s.to < 253_402_300_800 * 1_000_000_000)
      ==> RangeOf(s) == Err(Invalid("to", "must be between the Unix epoch and year 9999"))
  {
    hide Floor, Shift, Slot, ValidTime, Instrument.Validate;
    ValidTimeIsRange(s.to);
  }

  /** A planned range ends at the floor of the request and is as long as its number of slots. */
  lemma RangeLength(s: CandleSelection, seconds: int)
    requires s.candleCount < 0x1_0000_0000 && RangeOf(s).Ok? && Lasts(s.interval, seconds)
    ensures Floor(s.interval, s.to) == Ok(RangeOf(s).value.to)
    ensures RangeOf(s).value.to - RangeOf(s).value.from == s.candleCount * seconds * 1_000_000_000
  {
    hide Floor, Shift, Slot, Lasts, ValidTime, Instrument.Validate;
    var end := Floor(s.interval, s.to).value;
    ShiftLength(s.interval, seconds, end, -(s.candleCount as int64));
    NegatedProduct(s.candleCount, seconds);
  }

  lemma NegatedProduct(a: int, b: int)
    ensures -a * b == -(a * b)
  {
  }
}
