/** Exact decimals: an integer coefficient scaled by a power of ten, compared by value. */
module Decimals {
  import opened Powers

  datatype Decimal = Decimal(coefficient: int, exponent: int) {
    function Value(): real {
      Times(coefficient as real, Pow10(exponent))
    }

    predicate IsZero() {
      coefficient == 0
    }

    predicate IsPositive()
      ensures IsPositive() <==> Value() > 0.0
    {
      SignOfValue(this);
      coefficient > 0
    }

    predicate IsNegative()
      ensures IsNegative() <==> Value() < 0.0
    {
      SignOfValue(this);
      coefficient < 0
    }

    /** The coefficient of the same value at a smaller or equal exponent. */
    function CoefficientAt(e: int): (c: int)
      requires e <= exponent
      ensures Decimal(c, e).Value() == Value()
    {
      RescaleKeepsValue(this, e);
      coefficient * IntPow10(exponent - e)
    }

    function Add(other: Decimal): (r: Decimal)
      ensures r.Value() == Value() + other.Value()
    {
      var e := if exponent <= other.exponent then exponent else other.exponent;
      SumAtOneExponent(CoefficientAt(e), other.CoefficientAt(e), e);
      Decimal(CoefficientAt(e) + other.CoefficientAt(e), e)
    }

    function Neg(): (r: Decimal)
      ensures r.Value() == -Value()
    {
      TimesNegated(coefficient as real, Pow10(exponent));
      Decimal(-coefficient, exponent)
    }

    function Sub(other: Decimal): (r: Decimal)
      ensures r.Value() == Value() - other.Value()
    {
      Add(other.Neg())
    }

    function Magnified(): (r: Decimal)
      ensures r.Value() == Abs(Value())
    {
      SignOfValue(this);
      if coefficient < 0 then Neg() else this
    }

    function Mul(other: Decimal): (r: Decimal)
      ensures r.Value() == Times(Value(), other.Value())
    {
      ProductOfValues(this, other);
      Decimal(coefficient * other.coefficient, exponent + other.exponent)
    }

    predicate LessThan(other: Decimal)
      ensures LessThan(other) <==> Value() < other.Value()
    {
      Sub(other).IsNegative()
    }

    predicate AtMost(other: Decimal)
      ensures AtMost(other) <==> Value() <= other.Value()
    {
      !other.LessThan(this)
    }
  }

  function FromInt(n: int): (r: Decimal)
    ensures r.Value() == n as real
  {
    Decimal(n, 0)
  }

  const ZERO := FromInt(0)

  function Max(a: Decimal, b: Decimal): (r: Decimal)
    ensures r == a || r == b
    ensures r.Value() >= a.Value() && r.Value() >= b.Value()
  {
    if a.LessThan(b) then b else a
  }

  function Min(a: Decimal, b: Decimal): (r: Decimal)
    ensures r == a || r == b
    ensures r.Value() <= a.Value() && r.Value() <= b.Value()
  {
    if b.LessThan(a) then b else a
  }

  lemma SignOfValue(d: Decimal)
    ensures d.IsZero() <==> d.Value() == 0.0
    ensures d.coefficient > 0 <==> d.Value() > 0.0
    ensures d.coefficient < 0 <==> d.Value() < 0.0
  {
    hide Pow10, Times;
    TimesUnits(Pow10(d.exponent));
    TimesOrder(0.0, d.coefficient as real, Pow10(d.exponent));
    TimesOrder(d.coefficient as real, 0.0, Pow10(d.exponent));
  }

  lemma RescaleKeepsValue(d: Decimal, e: int)
    requires e <= d.exponent
    ensures Decimal(d.coefficient * IntPow10(d.exponent - e), e).Value() == d.Value()
  {
    hide Pow10, Times, IntPow10;
    var n := d.exponent - e;
    PowerOnGrid(e, n);
    TimesIntegers(d.coefficient, IntPow10(n));
    TimesAssociates(d.coefficient as real, IntPow10(n) as real, Pow10(e));
  }

  lemma SumAtOneExponent(a: int, b: int, e: int)
    ensures Decimal(a + b, e).Value() == Decimal(a, e).Value() + Decimal(b, e).Value()
  {
    hide Pow10, Times;
    TimesDistributes(a as real, b as real, Pow10(e));
  }

  lemma ProductOfValues(a: Decimal, b: Decimal)
    ensures Decimal(a.coefficient * b.coefficient, a.exponent + b.exponent).Value() == Times(a.Value(), b.Value())
  {
    hide Pow10, Times;
    Pow10Add(a.exponent, b.exponent);
    TimesIntegers(a.coefficient, b.coefficient);
    TimesRegroups(a.coefficient as real, b.coefficient as real, Pow10(a.exponent), Pow10(b.exponent));
  }
}
