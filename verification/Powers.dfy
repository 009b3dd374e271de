/** Products, powers of ten with any integer exponent, and the decimal magnitude of a positive real. */
module Powers {

  function Abs(x: real): (r: real)
    ensures r >= 0.0 && (r == x || r == -x)
  {
    if x < 0.0 then -x else x
  }

  /** a * b under a name: proofs hide the body and use the laws below, so that they stay linear. */
  function Times(a: real, b: real): real {
    a * b
  }

  /** a / b under a name. */
  function Over(a: real, b: real): real
    requires b != 0.0
  {
    a / b
  }

  lemma OverTimes(a: real, b: real)
    requires b != 0.0
    ensures Times(Over(a, b), b) == a
  {
  }

  lemma OverUnique(q: real, a: real, b: real)
    requires b != 0.0 && a == Times(q, b)
    ensures Over(a, b) == q
  {
    assert (a / b - q) * b == 0.0;
  }

  lemma TimesOrder(a: real, b: real, c: real)
    requires c > 0.0
    ensures a <= b <==> Times(a, c) <= Times(b, c)
    ensures a < b <==> Times(a, c) < Times(b, c)
  {
    assert (b - a) * c == b * c - a * c;
  }

  lemma TimesAssociates(a: real, b: real, c: real)
    ensures Times(Times(a, b), c) == Times(a, Times(b, c))
  {
  }

  lemma TimesCommutes(a: real, b: real)
    ensures Times(a, b) == Times(b, a)
  {
  }

  lemma TimesDistributes(a: real, b: real, c: real)
    ensures Times(a + b, c) == Times(a, c) + Times(b, c)
    ensures Times(a - b, c) == Times(a, c) - Times(b, c)
  {
  }

  lemma TimesUnits(a: real)
    ensures Times(0.0, a) == 0.0 && Times(1.0, a) == a && Times(0.5, a) == a / 2.0
    ensures Times(10.0, a) == 10.0 * a && Times(-1.0, a) == -a
  {
  }

  lemma TimesNegated(a: real, b: real)
    ensures Times(-a, b) == -Times(a, b)
  {
  }

  lemma TimesIntegers(a: int, b: int)
    ensures Times(a as real, b as real) == (a * b) as real
  {
  }

  lemma TimesRegroups(a: real, b: real, p: real, q: real)
    ensures Times(Times(a, b), Times(p, q)) == Times(Times(a, p), Times(b, q))
  {
  }

  function Pow10(k: int): (p: real)
    ensures p > 0.0
    decreases if k < 0 then -k else k
  {
    if k == 0 then 1.0
    else if k > 0 then 10.0 * Pow10(k - 1)
    else Pow10(k + 1) / 10.0
  }

  lemma Pow10Zero()
    ensures Pow10(0) == 1.0
  {
  }

  lemma Pow10Step(k: int)
    ensures Pow10(k + 1) == 10.0 * Pow10(k)
  {
  }

  lemma {:induction false} Pow10Add(a: int, b: int)
    ensures Pow10(a + b) == Times(Pow10(a), Pow10(b))
    decreases if b < 0 then -b else b
  {
    hide Pow10, Times;
    var p := Pow10(a);
    Pow10Zero();
    TimesUnits(p);
    TimesCommutes(1.0, p);
    if b > 0 {
      Pow10Add(a, b - 1);
      Pow10Step(a + b - 1);
      Pow10Step(b - 1);
      TimesTen(p, Pow10(b - 1));
    } else if b < 0 {
      Pow10Add(a, b + 1);
      Pow10Step(a + b);
      Pow10Step(b);
      TimesTen(p, Pow10(b));
    }
  }

  lemma TimesTen(p: real, q: real)
    ensures Times(p, 10.0 * q) == 10.0 * Times(p, q)
  {
  }

  lemma Pow10Inverse(k: int)
    ensures Times(Pow10(k), Pow10(-k)) == 1.0
  {
    Pow10Add(k, -k);
    Pow10Zero();
  }

  lemma {:induction false} Pow10Strict(a: int, b: int)
    requires a < b
    ensures 10.0 * Pow10(a) <= Pow10(b)
    decreases b - a
  {
    Pow10Step(b - 1);
    if a == b - 1 {
    } else {
      Pow10Strict(a, b - 1);
    }
  }

  /** The exponent order is the value order. */
  lemma Pow10Order(a: int, b: int)
    ensures a <= b <==> Pow10(a) <= Pow10(b)
  {
    if a < b {
      Pow10Strict(a, b);
    } else if b < a {
      Pow10Strict(b, a);
    }
  }

  function IntPow10(n: nat): (p: int)
    ensures p >= 1
  {
    if n == 0 then 1 else 10 * IntPow10(n - 1)
  }

  lemma {:induction false} IntPow10IsPow10(n: nat)
    ensures IntPow10(n) as real == Pow10(n)
  {
    if n == 0 {
    } else {
      IntPow10IsPow10(n - 1);
    }
  }

  lemma {:induction false} IntPow10Grow(s: nat, t: nat)
    requires s <= t
    ensures IntPow10(s) <= IntPow10(t)
    decreases t
  {
    if s == t {
    } else {
      IntPow10Grow(s, t - 1);
    }
  }

  lemma PowerOnGrid(k: int, n: nat)
    ensures Times(IntPow10(n) as real, Pow10(k)) == Pow10(k + n)
  {
    hide Pow10, Times, IntPow10;
    IntPow10IsPow10(n);
    Pow10Add(n, k);
  }

  /** The length of the base-ten text of a nonnegative integer. */
  function Digits(n: nat): (d: nat)
    ensures d >= 1
  {
    if n < 10 then 1 else 1 + Digits(n / 10)
  }

  lemma {:induction false} DigitsBounds(n: nat)
    requires n > 0
    ensures IntPow10(Digits(n) - 1) <= n < IntPow10(Digits(n))
  {
    if n >= 10 {
      DigitsBounds(n / 10);
    } else {
      assert IntPow10(1) == 10 * IntPow10(0);
    }
  }

  /** m is floor(log10 x). */
  ghost predicate IsMagnitude(x: real, m: int) {
    Pow10(m) <= x < Pow10(m + 1)
  }

  ghost function Magnitude(x: real): (m: int)
    requires x > 0.0
    ensures IsMagnitude(x, m)
    decreases x < 1.0, if x < 1.0 then (1.0 / x).Floor else x.Floor
  {
    if x >= 10.0 then
      var m := Magnitude(x / 10.0);
      Pow10Step(m);
      Pow10Step(m + 1);
      m + 1
    else if x < 1.0 then
      ReciprocalShrinks(x);
      var m := Magnitude(10.0 * x);
      Pow10Step(m - 1);
      Pow10Step(m);
      m - 1
    else
      assert Pow10(1) == 10.0 * Pow10(0);
      0
  }

  lemma ReciprocalShrinks(x: real)
    requires 0.0 < x < 1.0
    ensures 10.0 * x < 1.0 ==> 0 <= (1.0 / (10.0 * x)).Floor < (1.0 / x).Floor
    ensures 0 <= (1.0 / x).Floor
  {
    var r := 1.0 / x;
    assert r * x == 1.0;
    assert r > 1.0;
    var q := 1.0 / (10.0 * x);
    assert q * (10.0 * x) == 1.0;
    assert (10.0 * q - r) * x == 0.0;
    assert 10.0 * q == r;
  }

  lemma MagnitudeUnique(x: real, m: int)
    requires x > 0.0 && IsMagnitude(x, m)
    ensures Magnitude(x) == m
  {
    hide Magnitude, Pow10;
    var n := Magnitude(x);
    if n < m {
      Pow10Order(n + 1, m);
    } else if m < n {
      Pow10Order(m + 1, n);
    }
  }

  lemma MagnitudeMonotone(x: real, y: real)
    requires 0.0 < x <= y
    ensures Magnitude(x) <= Magnitude(y)
  {
    hide Magnitude, Pow10;
    if Magnitude(y) < Magnitude(x) {
      Pow10Order(Magnitude(y) + 1, Magnitude(x));
    }
  }

  lemma MagnitudeScale(x: real, k: int)
    requires x > 0.0
    ensures Times(x, Pow10(k)) > 0.0
    ensures Magnitude(Times(x, Pow10(k))) == Magnitude(x) + k
  {
    hide Pow10, Times, Magnitude;
    var m, p := Magnitude(x), Pow10(k);
    TimesUnits(p);
    TimesOrder(0.0, x, p);
    Pow10Add(m, k);
    Pow10Add(m + 1, k);
    TimesOrder(Pow10(m), x, p);
    TimesOrder(x, Pow10(m + 1), p);
    MagnitudeUnique(Times(x, p), m + k);
  }
}
