/** Rounding to 16 digits and then to 8: when the order of a price and a rounded midpoint can flip. */
module DoubleRounding {
  import opened Powers
  import opened Decimals
  import opened Rounding

  /** m lies exactly halfway between two neighbouring 8-digit decimals (positive ties go up). */
  ghost predicate IsTie(m: real)
    requires m != 0.0
  {
    Sig(8, m) - m == Unit(8, m) / 2.0
  }

  /** A point halfway below an 8-digit grid point has at most 16 digits, so 16-digit rounding keeps it. */
  lemma HalfwayFixed(n: int, k: int)
    requires -100_000_000 <= n <= 100_000_000
    ensures Sig(16, Times(n as real, Pow10(k)) - Pow10(k) / 2.0) == Times(n as real, Pow10(k)) - Pow10(k) / 2.0
  {
    hide Sig, Pow10, Times, IntPow10;
    var d := Decimal(10 * n - 5, k - 1);
    var p := Pow10(k - 1);
    Pow10Step(k - 1);
    HalfwayProduct(n, p, Pow10(k));
    SmallPowers();
    assert FewDigits(16, d);
    SigFixed(16, d.Value());
  }

  lemma HalfwayProduct(n: int, p: real, q: real)
    requires q == 10.0 * p
    ensures Times((10 * n - 5) as real, p) == Times(n as real, q) - q / 2.0
  {
    var x := n as real;
    assert (10 * n - 5) as real == 10.0 * x - 5.0;
    assert (10.0 * x - 5.0) * p == 10.0 * (x * p) - 5.0 * p;
    assert x * (10.0 * p) == 10.0 * (x * p);
  }

  /** From halfway below a grid point on, rounding reaches that point. */
  lemma ReachesGrid(z: real, n: int, k: int)
    requires z > 0.0 && k == LastPlace(8, z)
    ensures z >= Times(n as real, Pow10(k)) - Pow10(k) / 2.0 ==> Sig(8, z) >= Times(n as real, Pow10(k))
    ensures z < Times(n as real, Pow10(k)) - Pow10(k) / 2.0 ==> Sig(8, z) < Times(n as real, Pow10(k))
  {
    hide Pow10, Times, Over, Magnitude;
    var u, x := Pow10(k), n as real;
    var q := Over(z, u);
    OverTimes(z, u);
    TimesUnits(u);
    TimesOrder(0.0, q, u);
    Steps(x, q, u, 0.5);
    Steps(q, x, u, -0.5);
    TimesNegated(0.5, u);
    TimesOrder(x, RoundHalfAway(q) as real, u);
    TimesOrder(RoundHalfAway(q) as real, x, u);
    assert q >= x - 0.5 <==> RoundHalfAway(q) >= n;
  }

  lemma GridPoint(m: real) returns (n: int)
    requires m > 0.0
    ensures Sig(8, m) == Times(n as real, Unit(8, m)) && 0 <= n <= 100_000_000
  {
    hide Pow10, Times, Magnitude, IntPow10, RoundHalfAway;
    n := RoundHalfAway(Over(m, Unit(8, m)));
    var d := Decimal(n, LastPlace(8, m));
    assert d.Value() == Sig(8, m);
    CoefficientBound(8, m, d);
    SmallPowers();
    SigSign(8, m);
    SignOfValue(d);
  }

  /** Rounding in two stages never ends below rounding once. */
  lemma TwoStagesAtLeastOne(x: real)
    requires x > 0.0
    ensures Sig(8, x) <= Sig(8, Sig(16, x))
  {
    hide Sig, Pow10, Magnitude, Times;
    var k, m := LastPlace(8, x), Sig(16, x);
    SigDecade(8, x);
    SigDecade(16, x);
    var n := GridPoint(x);
    ReachesGrid(x, n, k);
    HalfwayFixed(n, k);
    ReachesFromBelow(x, n, k);
    SigMonotone(16, Times(n as real, Pow10(k)) - Pow10(k) / 2.0, x);
    if m < Pow10(Magnitude(x) + 1) {
      MagnitudeUnique(m, Magnitude(x));
      ReachesGrid(m, n, k);
    } else {
      PowerFixed(8, Magnitude(x) + 1);
      SigMonotone(8, Pow10(Magnitude(x) + 1), m);
    }
  }

  /** A number is never less than halfway below what it rounds to. */
  lemma ReachesFromBelow(x: real, n: int, k: int)
    requires x > 0.0 && k == LastPlace(8, x) && Sig(8, x) == Times(n as real, Pow10(k))
    ensures x >= Times(n as real, Pow10(k)) - Pow10(k) / 2.0
  {
    hide Sig, Pow10, Magnitude, Times;
    SigHalfUnit(8, x);
  }

  /** A tie above u makes its text jump past the text of u. */
  lemma TieJumps(u: real, m: real)
    requires 0.0 < u < m && IsTie(m)
    ensures Sig(8, u) < Sig(8, m)
  {
    hide Sig, Pow10, Magnitude, Times;
    var n := GridPoint(m);
    MagnitudeMonotone(u, m);
    if Magnitude(u) == Magnitude(m) {
      ReachesGrid(u, n, LastPlace(8, u));
    } else {
      SigDecade(8, u);
      Pow10Order(Magnitude(u) + 1, Magnitude(m));
    }
  }

  /** Without a tie, a price between the exact value and its 16-digit rounding rounds at least as high. */
  lemma NoTieKeepsOrder(x: real, u: real, m: real)
    requires 0.0 < x <= u < m && m == Sig(16, x) && !IsTie(m)
    ensures Sig(8, m) <= Sig(8, u)
  {
    hide Sig, Pow10, Magnitude, Times;
    MagnitudeMonotone(u, m);
    if Magnitude(u) == Magnitude(m) {
      var k := LastPlace(8, m);
      var n := GridPoint(m);
      ReachesFromBelow(m, n, k);
      HalfwayFixed(n, k);
      if u < Times(n as real, Pow10(k)) - Pow10(k) / 2.0 {
        SigMonotone(16, x, Times(n as real, Pow10(k)) - Pow10(k) / 2.0);
      } else {
        ReachesGrid(u, n, k);
      }
    } else {
      CarryKeepsOrder(x, u, m);
    }
  }

  /** The remaining case: the 16-digit rounding carried to a power of ten. */
  lemma CarryKeepsOrder(x: real, u: real, m: real)
    requires 0.0 < x <= u < m && m == Sig(16, x) && Magnitude(u) < Magnitude(m)
    ensures Sig(8, m) <= Sig(8, u)
  {
    hide Sig, Pow10, Magnitude, Times, IntPow10;
    var e := Magnitude(u) + 1;
    Pow10Order(e, Magnitude(m));
    PowerFixed(16, e);
    SigMonotone(16, x, Pow10(e));
    assert m == Pow10(e);
    PowerFixed(8, e);
    var k := LastPlace(8, u);
    PowerOnGrid(k, 8);
    SmallPowers();
    assert k + 8 == e;
    HalfwayFixed(100_000_000, k);
    if u < Pow10(e) - Pow10(k) / 2.0 {
      SigMonotone(16, x, Pow10(e) - Pow10(k) / 2.0);
    } else {
      ReachesGrid(u, 100_000_000, k);
    }
  }

  /**
   The printed midpoint lies between the printed bounds exactly unless the upper bound is below a midpoint that is a
   tie; it never falls below the printed lower bound.
   */
  lemma PrintedMidpoint(lower: real, upper: real, middle: real, m: real)
    requires 0.0 < lower <= middle <= upper && m == Sig(16, middle)
    ensures m > 0.0
    ensures Sig(8, lower) <= Sig(8, upper)
    ensures Sig(8, lower) <= Sig(8, m)
    ensures Sig(8, m) <= Sig(8, upper) <==> !(upper < m && IsTie(m))
  {
    hide Sig, IsTie;
    SigSign(16, middle);
    SigMonotone(8, lower, upper);
    SigMonotone(8, lower, middle);
    TwoStagesAtLeastOne(middle);
    if m <= upper {
      SigMonotone(8, m, upper);
    } else if IsTie(m) {
      TieJumps(upper, m);
    } else {
      NoTieKeepsOrder(middle, upper, m);
    }
  }

  /** 1.23456784999999999 prints as 1.2345678, but its 16-digit rounding 1.23456785 prints as 1.2345679. */
  lemma PrintedMidpointExample()
    ensures var x := 1.23456784999999999;
      && x < Sig(16, x) && Sig(16, x) == 1.23456785
      && IsTie(Sig(16, x)) && Sig(8, x) < Sig(8, Sig(16, x))
  {
    var x, y := 1.23456784999999999, 1.23456785;
    hide Magnitude, Pow10;
    EighteenDigitsRound();
    UnitBelowTen(y);
    RoundToMultiple(y, 12345678.5, 0.0000001);
    hide Sig;
    TieJumps(x, y);
  }
}
