/**
 Rounding to s significant decimal digits, ties away from zero, as a function of the value alone.
 Divide rounds every quotient with s = 16 and FormatNumber rounds its text with s = 8.
 */
module Rounding {
  import opened Powers
  import opened Decimals

  /** Nearest integer, ties away from zero. */
  function RoundHalfAway(x: real): (n: int) {
    if x >= 0.0 then (x + 0.5).Floor else -((0.5 - x).Floor)
  }

  lemma RoundError(x: real)
    ensures -0.5 <= RoundHalfAway(x) as real - x <= 0.5
    ensures x >= 0.0 ==> RoundHalfAway(x) as real - x > -0.5 && RoundHalfAway(x) >= 0
    ensures x <= 0.0 ==> RoundHalfAway(x) as real - x < 0.5 && RoundHalfAway(x) <= 0
  {
  }

  lemma RoundOfInteger(n: int)
    ensures RoundHalfAway(n as real) == n
  {
  }

  lemma RoundMonotone(x: real, y: real)
    requires x <= y
    ensures RoundHalfAway(x) <= RoundHalfAway(y)
  {
  }

  /** Nearest multiple of u, ties away from zero. */
  function RoundTo(x: real, u: real): (r: real)
    requires u > 0.0
  {
    Times(RoundHalfAway(Over(x, u)) as real, u)
  }

  /** The exponent of the last of s significant digits of x. */
  ghost function LastPlace(s: nat, x: real): (k: int)
    requires x != 0.0
  {
    Magnitude(Abs(x)) + 1 - s
  }

  ghost function Unit(s: nat, x: real): (u: real)
    requires x != 0.0
    ensures u > 0.0
  {
    Pow10(LastPlace(s, x))
  }

  /** x rounded to s significant digits. */
  ghost function Sig(s: nat, x: real): (r: real) {
    if x == 0.0 then 0.0 else RoundTo(x, Unit(s, x))
  }

  ghost predicate FewDigits(s: nat, d: Decimal) {
    -IntPow10(s) < d.coefficient < IntPow10(s)
  }

  /** x is a decimal with at most s significant digits. */
  ghost predicate Representable(s: nat, x: real) {
    exists d: Decimal :: FewDigits(s, d) && d.Value() == x
  }

  // ---- the grid of multiples of one unit ----

  lemma RoundToMultiple(x: real, q: real, u: real)
    requires u > 0.0 && x == Times(q, u)
    ensures RoundTo(x, u) == Times(RoundHalfAway(q) as real, u)
  {
    hide Times, Over;
    OverUnique(q, x, u);
  }

  /** A distance counted in steps of u. */
  lemma Steps(n: real, q: real, u: real, d: real)
    requires u > 0.0
    ensures n - q <= d <==> Times(n, u) - Times(q, u) <= Times(d, u)
    ensures n - q < d <==> Times(n, u) - Times(q, u) < Times(d, u)
  {
    hide Times;
    TimesDistributes(n, q, u);
    TimesOrder(n - q, d, u);
  }

  /** Rounding on a grid moves by at most half a step, and never a full half step towards zero. */
  lemma GridError(x: real, u: real)
    requires u > 0.0
    ensures Abs(RoundTo(x, u) - x) <= u / 2.0
    ensures Abs(RoundTo(x, u)) - Abs(x) > -u / 2.0
  {
    hide Times, Over, RoundHalfAway;
    var q := Over(x, u);
    OverTimes(x, u);
    TimesUnits(u);
    RoundError(q);
    var n := RoundHalfAway(q) as real;
    Steps(n, q, u, 0.5);
    Steps(q, n, u, 0.5);
    TimesOrder(q, 0.0, u);
    TimesOrder(0.0, q, u);
    TimesOrder(n, 0.0, u);
    TimesOrder(0.0, n, u);
  }

  /** No other multiple of the step is closer. */
  lemma GridNearest(x: real, c: int, u: real)
    requires u > 0.0
    ensures Abs(RoundTo(x, u) - x) <= Abs(Times(c as real, u) - x)
  {
    hide Times, Over, RoundHalfAway;
    var q := Over(x, u);
    GridError(x, u);
    OverTimes(x, u);
    TimesUnits(u);
    RoundError(q);
    if c != RoundHalfAway(q) {
      assert c as real - q >= 0.5 || q - c as real >= 0.5;
      Steps(c as real, q, u, 0.5);
      Steps(q, c as real, u, 0.5);
    }
  }

  lemma GridMonotone(x: real, y: real, u: real)
    requires u > 0.0 && x <= y
    ensures RoundTo(x, u) <= RoundTo(y, u)
  {
    hide Times, Over, RoundHalfAway;
    OverTimes(x, u);
    OverTimes(y, u);
    TimesOrder(Over(x, u), Over(y, u), u);
    RoundMonotone(Over(x, u), Over(y, u));
    TimesOrder(RoundHalfAway(Over(x, u)) as real, RoundHalfAway(Over(y, u)) as real, u);
  }

  lemma GridFixed(c: int, u: real)
    requires u > 0.0
    ensures RoundTo(Times(c as real, u), u) == Times(c as real, u)
  {
    hide Times, Over, RoundTo, RoundHalfAway;
    RoundOfInteger(c);
    RoundToMultiple(Times(c as real, u), c as real, u);
  }

  lemma GridNegated(x: real, u: real)
    requires u > 0.0
    ensures RoundTo(-x, u) == -RoundTo(x, u)
  {
    hide Times, Over, RoundTo;
    var q := Over(x, u);
    OverTimes(x, u);
    TimesNegated(q, u);
    RoundToMultiple(x, q, u);
    RoundToMultiple(-x, -q, u);
    assert RoundHalfAway(-q) == -RoundHalfAway(q);
    TimesNegated(RoundHalfAway(q) as real, u);
  }

  lemma GridScale(x: real, u: real, p: real)
    requires u > 0.0 && p > 0.0 && Times(u, p) > 0.0
    ensures RoundTo(Times(x, p), Times(u, p)) == Times(RoundTo(x, u), p)
  {
    hide Times, Over, RoundTo, RoundHalfAway;
    var q := Over(x, u);
    OverTimes(x, u);
    TimesAssociates(q, u, p);
    RoundToMultiple(x, q, u);
    RoundToMultiple(Times(x, p), q, Times(u, p));
    TimesAssociates(RoundHalfAway(q) as real, u, p);
  }

  // ---- rounding to significant digits ----

  lemma SigNegated(s: nat, x: real)
    ensures Sig(s, -x) == -Sig(s, x)
  {
    hide RoundTo, Magnitude, Pow10;
    if x != 0.0 {
      assert Abs(-x) == Abs(x);
      GridNegated(x, Unit(s, x));
    }
  }

  /** A positive number rounds inside its own decade, the carry to the next power of ten included. */
  lemma SigDecade(s: nat, x: real)
    requires s >= 1 && x > 0.0
    ensures Pow10(Magnitude(x)) <= Sig(s, x) <= Pow10(Magnitude(x) + 1)
  {
    hide Pow10, Times, Magnitude, IntPow10, RoundTo;
    var m, k := Magnitude(x), LastPlace(s, x);
    PowerOnGrid(k, s - 1);
    PowerOnGrid(k, s);
    assert k + (s - 1) == m && k + s == m + 1;
    GridFixed(IntPow10(s - 1), Pow10(k));
    GridFixed(IntPow10(s), Pow10(k));
    GridMonotone(Pow10(m), x, Pow10(k));
    GridMonotone(x, Pow10(m + 1), Pow10(k));
  }

  /** Half a unit in the last place, ties away from zero. */
  lemma SigHalfUnit(s: nat, x: real)
    requires x != 0.0
    ensures Abs(Sig(s, x) - x) <= Unit(s, x) / 2.0
    ensures Abs(Sig(s, x)) - Abs(x) > -Unit(s, x) / 2.0
  {
    hide Pow10, Magnitude, RoundTo;
    GridError(x, Unit(s, x));
  }

  lemma SigSign(s: nat, x: real)
    requires s >= 1
    ensures x > 0.0 <==> Sig(s, x) > 0.0
    ensures x == 0.0 <==> Sig(s, x) == 0.0
  {
    hide RoundTo, Pow10, Magnitude;
    if x > 0.0 {
      SigDecade(s, x);
    } else if x < 0.0 {
      SigDecade(s, -x);
      SigNegated(s, x);
    }
  }

  lemma SigMonotonePositive(s: nat, x: real, y: real)
    requires s >= 1 && 0.0 < x <= y
    ensures Sig(s, x) <= Sig(s, y)
  {
    hide Pow10, Magnitude, RoundTo;
    MagnitudeMonotone(x, y);
    if Magnitude(x) == Magnitude(y) {
      GridMonotone(x, y, Unit(s, x));
    } else {
      SigDecade(s, x);
      SigDecade(s, y);
      Pow10Order(Magnitude(x) + 1, Magnitude(y));
    }
  }

  lemma SigMonotone(s: nat, x: real, y: real)
    requires s >= 1 && x <= y
    ensures Sig(s, x) <= Sig(s, y)
  {
    hide Sig;
    SigSign(s, x);
    SigSign(s, y);
    if x > 0.0 {
      SigMonotonePositive(s, x, y);
    } else if y < 0.0 {
      SigMonotonePositive(s, -y, -x);
      SigNegated(s, x);
      SigNegated(s, y);
    }
  }

  // ---- representable numbers are exactly the fixed points, and the closest of them is returned ----

  lemma SigRepresentable(s: nat, x: real)
    requires s >= 1
    ensures Representable(s, Sig(s, x))
  {
    hide Pow10, Times, Magnitude, IntPow10, RoundHalfAway, Over;
    var d := if x == 0.0 then ZERO else Decimal(RoundHalfAway(Over(x, Unit(s, x))), LastPlace(s, x));
    SignOfValue(ZERO);
    assert d.Value() == Sig(s, x);
    if x != 0.0 {
      CoefficientBound(s, x, d);
    }
    CarryIsRepresentable(s, d);
  }

  lemma CoefficientBound(s: nat, x: real, d: Decimal)
    requires s >= 1 && x != 0.0 && d.Value() == Sig(s, x) && d.exponent == LastPlace(s, x)
    ensures -IntPow10(s) <= d.coefficient <= IntPow10(s)
  {
    hide Sig, Pow10, Times, Magnitude, IntPow10;
    var t, n, u := IntPow10(s) as real, d.coefficient as real, Unit(s, x);
    SigDecade(s, Abs(x));
    SigNegated(s, x);
    PowerOnGrid(LastPlace(s, x), s);
    TimesNegated(t, u);
    TimesOrder(n, t, u);
    TimesOrder(-t, n, u);
  }

  /** A coefficient of exactly 10^s is one digit s places further left. */
  lemma CarryIsRepresentable(s: nat, d: Decimal)
    requires s >= 1 && -IntPow10(s) <= d.coefficient <= IntPow10(s)
    ensures Representable(s, d.Value())
  {
    hide Pow10, Times, IntPow10;
    if FewDigits(s, d) {
    } else {
      var one := if d.coefficient > 0 then 1 else -1;
      var carried := Decimal(one, d.exponent + s);
      PowerOnGrid(d.exponent, s);
      TimesUnits(Pow10(carried.exponent));
      TimesNegated(IntPow10(s) as real, Pow10(d.exponent));
      IntPow10Grows(s);
      assert FewDigits(s, carried) && carried.Value() == d.Value();
    }
  }

  lemma IntPow10Grows(s: nat)
    requires s >= 1
    ensures IntPow10(s) >= 10
  {
  }

  lemma MagnitudeBelow(s: nat, d: Decimal)
    requires FewDigits(s, d)
    ensures Abs(d.Value()) < Pow10(s + d.exponent)
  {
    hide Pow10, Times, IntPow10;
    var t, c, p := IntPow10(s) as real, d.coefficient as real, Pow10(d.exponent);
    PowerOnGrid(d.exponent, s);
    TimesOrder(c, t, p);
    TimesOrder(-t, c, p);
    TimesNegated(t, p);
  }

  /** A decimal of at most s digits is a multiple of every s-digit unit of its own decade or below. */
  lemma OnGrid(s: nat, d: Decimal, k: int) returns (c: int)
    requires FewDigits(s, d)
    requires Abs(d.Value()) >= Pow10(k + s - 1)
    ensures Times(c as real, Pow10(k)) == d.Value()
  {
    hide Pow10, Times, IntPow10;
    MagnitudeBelow(s, d);
    Pow10Order(s + d.exponent, k + s - 1);
    c := d.CoefficientAt(k);
  }

  lemma SigFixed(s: nat, x: real)
    requires s >= 1
    ensures Sig(s, x) == x <==> Representable(s, x)
  {
    hide Pow10, Times, Magnitude, IntPow10, RoundTo;
    SigRepresentable(s, x);
    if x != 0.0 && Representable(s, x) {
      var d: Decimal :| FewDigits(s, d) && d.Value() == x;
      var k := LastPlace(s, x);
      assert k + s - 1 == Magnitude(Abs(x));
      var c := OnGrid(s, d, k);
      GridFixed(c, Pow10(k));
    }
  }

  lemma PowerFixed(s: nat, k: int)
    requires s >= 1
    ensures Sig(s, Pow10(k)) == Pow10(k)
  {
    hide Sig, Pow10, IntPow10, Times;
    var d := Decimal(1, k);
    TimesUnits(Pow10(k));
    IntPow10Grows(s);
    assert FewDigits(s, d) && d.Value() == Pow10(k);
    SigFixed(s, Pow10(k));
  }

  lemma SigIdempotent(s: nat, x: real)
    requires s >= 1
    ensures Sig(s, Sig(s, x)) == Sig(s, x)
  {
    hide Sig;
    SigRepresentable(s, x);
    SigFixed(s, Sig(s, x));
  }

  lemma NegatedRepresentable(s: nat, y: real)
    requires Representable(s, y)
    ensures Representable(s, -y)
  {
    hide Pow10, Times, IntPow10;
    var d: Decimal :| FewDigits(s, d) && d.Value() == y;
    assert FewDigits(s, d.Neg()) && d.Neg().Value() == -y;
  }

  lemma SigNearestPositive(s: nat, x: real, y: real)
    requires s >= 1 && x > 0.0 && Representable(s, y)
    ensures Abs(Sig(s, x) - x) <= Abs(y - x)
  {
    hide Pow10, Times, Magnitude, IntPow10, RoundTo;
    var m, k := Magnitude(x), LastPlace(s, x);
    PowerOnGrid(k, s - 1);
    PowerOnGrid(k, s);
    assert k + (s - 1) == m && k + s == m + 1;
    if y < Pow10(m) {
      GridNearest(x, IntPow10(s - 1), Pow10(k));
    } else if y > Pow10(m + 1) {
      GridNearest(x, IntPow10(s), Pow10(k));
    } else {
      var d: Decimal :| FewDigits(s, d) && d.Value() == y;
      var c := OnGrid(s, d, k);
      GridNearest(x, c, Pow10(k));
    }
  }

  /** Correct rounding: no decimal of s significant digits is closer to x than Sig(s, x). */
  lemma SigNearest(s: nat, x: real, y: real)
    requires s >= 1 && Representable(s, y)
    ensures Abs(Sig(s, x) - x) <= Abs(y - x)
  {
    hide Sig, Representable;
    if x > 0.0 {
      SigNearestPositive(s, x, y);
    } else if x < 0.0 {
      NegatedRepresentable(s, y);
      SigNearestPositive(s, -x, -y);
      SigNegated(s, x);
    } else {
      SigSign(s, x);
    }
  }

  /** The relative error is at most half of 10^(1-s). */
  lemma SigRelativeError(s: nat, x: real)
    requires s >= 1
    ensures Times(2.0 * IntPow10(s - 1) as real, Abs(Sig(s, x) - x)) <= Abs(x)
  {
    hide Pow10, Times, Magnitude, IntPow10, RoundTo;
    var n, e := IntPow10(s - 1) as real, Abs(Sig(s, x) - x);
    TimesCommutes(2.0 * n, e);
    if x == 0.0 {
      TimesUnits(2.0 * n);
    } else {
      var k := LastPlace(s, x);
      SigHalfUnit(s, x);
      PowerOnGrid(k, s - 1);
      assert k + (s - 1) == Magnitude(Abs(x));
      HalfUnitTimes(e, Pow10(k), n);
    }
  }

  lemma HalfUnitTimes(e: real, u: real, n: real)
    requires e <= u / 2.0 && n > 0.0
    ensures Times(e, 2.0 * n) <= Times(n, u)
  {
    TimesOrder(e, u / 2.0, 2.0 * n);
  }

  /**
   The rounded value of a positive number in digits: an integer of 16 digits (or 10^16, the carry) at the place that
   leaves 16 digits, at most half a unit of that place away, and never a full half unit below.
   */
  lemma SixteenDigits(x: real) returns (c: int, k: int)
    requires x > 0.0
    ensures Pow10(k + 15) <= x < Pow10(k + 16)
    ensures 1_000_000_000_000_000 <= c <= 10_000_000_000_000_000
    ensures Sig(16, x) == Times(c as real, Pow10(k))
    ensures -Pow10(k) / 2.0 < Sig(16, x) - x <= Pow10(k) / 2.0
  {
    hide Pow10, Times, Magnitude, IntPow10, RoundHalfAway, Over;
    c, k := RoundHalfAway(Over(x, Unit(16, x))), LastPlace(16, x);
    SigHalfUnit(16, x);
    SigDecade(16, x);
    SmallPowers();
    PowerOnGrid(k, 15);
    PowerOnGrid(k, 16);
    TimesOrder(IntPow10(15) as real, c as real, Pow10(k));
    TimesOrder(c as real, IntPow10(16) as real, Pow10(k));
  }

  lemma SmallPowers()
    ensures IntPow10(8) == 100_000_000
    ensures IntPow10(15) == 1_000_000_000_000_000 && IntPow10(16) == 10_000_000_000_000_000
  {
    assert IntPow10(2) == 100;
    assert IntPow10(4) == 10_000;
    assert IntPow10(6) == 1_000_000;
    assert IntPow10(8) == 100_000_000;
    assert IntPow10(10) == 10_000_000_000;
    assert IntPow10(12) == 1_000_000_000_000;
    assert IntPow10(14) == 100_000_000_000_000;
  }

  /** Shifting the decimal point commutes with rounding. */
  lemma SigScale(s: nat, x: real, k: int)
    ensures Sig(s, Times(x, Pow10(k))) == Times(Sig(s, x), Pow10(k))
  {
    hide Pow10, Times, Magnitude, RoundTo;
    var y, p := Times(x, Pow10(k)), Pow10(k);
    TimesUnits(p);
    TimesOrder(0.0, x, p);
    TimesOrder(x, 0.0, p);
    if x != 0.0 {
      TimesNegated(x, p);
      assert Abs(y) == Times(Abs(x), p);
      MagnitudeScale(Abs(x), k);
      Pow10Add(LastPlace(s, x), k);
      assert LastPlace(s, y) == LastPlace(s, x) + k;
      GridScale(x, Unit(s, x), p);
    }
  }

  // ---- a concrete number ----

  lemma UnitBelowTen(x: real)
    requires 1.0 <= x < 10.0
    ensures Unit(16, x) == 0.000000000000001 && Unit(8, x) == 0.0000001
  {
    hide Magnitude;
    Pow10Zero();
    Pow10Step(0);
    MagnitudeUnique(x, 0);
    PowerOnGrid(-15, 15);
    PowerOnGrid(-7, 7);
    assert IntPow10(2) == 100;
    assert IntPow10(4) == 10_000;
    assert IntPow10(6) == 1_000_000;
    assert IntPow10(7) == 10_000_000;
    assert IntPow10(9) == 1_000_000_000;
    assert IntPow10(11) == 100_000_000_000;
    assert IntPow10(13) == 10_000_000_000_000;
  }

  lemma EighteenDigitsRound()
    ensures Sig(16, 1.23456784999999999) == 1.23456785
  {
    hide Magnitude, Pow10;
    UnitBelowTen(1.23456784999999999);
    RoundToMultiple(1.23456784999999999, 1234567849999999.99, 0.000000000000001);
  }
}
