/** Division of dual balanced ternary numbers (the Div operator). */
module TernaryQuotient {
  import opened Results
  import opened Digits
  import opened Ternary
  import opened TernaryValue
  import opened TernaryArith
  import opened TernaryProduct
  import opened TernaryDivision

  /** div: both operands are multiplied by the conjugate of the divisor, which makes the
      divisor's value real (1/5/9 digits); the 1/5/9 half of the dividend is divided as it
      is, the 3/5/7 half after a turn by rotate7, and the second quotient is turned back by
      rotate3 before the two are added. The first linear_divide that fails decides the
      error. */
  function Div(a: Dbt, b: Dbt): Result<Dbt>
  {
    var n := Norm(b);
    var q1 := LinearDivide(LinearPart(a, b), n);
    if q1.Err? then q1
    else
      var q2 := LinearDivide(CrossPart(a, b), n);
      if q2.Err? then q2 else Ok(Sum(q1.value, Rotated3(q2.value)))
  }

  method DivImpl(a: Dbt, b: Dbt) returns (r: Result<Dbt>)
    ensures r == Div(a, b)
  {
    var cj := ConjugatedImpl(b);
    var a2 := ProductImpl(a, cj);
    var b2 := ProductImpl(b, cj);
    var halves := SplitYxImpl(a2);
    var q1 := LinearDivideImpl(halves.1, b2);
    if q1.Err? {
      return q1;
    }
    var ax := Rotated7Impl(halves.0);
    var q2 := LinearDivideImpl(ax, b2);
    if q2.Err? {
      return q2;
    }
    var turned := Rotated3Impl(q2.value);
    var sum := SumImpl(q1.value, turned);
    r := Ok(sum);
  }

  /** The divisor after multiplication by its conjugate. */
  function Norm(b: Dbt): Dbt
  {
    Product(b, Conjugated(b))
  }

  /** The two dividends div hands to linear_divide. */
  function LinearPart(a: Dbt, b: Dbt): Dbt
  {
    SplitYxNumber(Product(a, Conjugated(b))).1
  }

  function CrossPart(a: Dbt, b: Dbt): Dbt
  {
    Rotated7(SplitYxNumber(Product(a, Conjugated(b))).0)
  }

  /** What the two linear divisions of div leave: the first remainder plus the second one
      turned back by rotate3. */
  function DivRemainder(a: Dbt, b: Dbt): Complex
  {
    var n := Norm(b);
    Plus(Value(LinearRemainder(LinearPart(a, b), n)),
         Times(Complex(1.0, 0.0), Value(LinearRemainder(CrossPart(a, b), n))))
  }

  // ---------------------------------------------------------------------------------------
  // Digit-level facts the proofs use
  // ---------------------------------------------------------------------------------------

  /** The digits with no x component are exactly 1, 5 and 9. */
  lemma LinearDigitIffReal(d: Digit)
    ensures X(d) == 0 <==> IsLinearDigit(d)
  {
  }

  /** rotate7 turns the 3/5/7 digits into 1/5/9 digits. */
  lemma CrossRotatedLinear(x: Dbt)
    requires IsCross(x)
    ensures IsLinear(Rotated7(x))
  {
  }

  /** A number whose value has no x component is 1/5/9-only. */
  lemma RealValueLinear(x: Dbt)
    requires Value(x).x == 0.0
    ensures IsLinear(x)
  {
    ZeroValue(Zero);
    AxisValueUnique(x, Zero, AxisX);
    forall i | 0 <= i < |x.integral| ensures IsLinearDigit(x.integral[i]) {
      assert Coord(DigitAt(x, i), AxisX) == Coord(DigitAt(Zero, i), AxisX);
      LinearDigitIffReal(x.integral[i]);
    }
    forall j | 0 <= j < |x.fractional| ensures IsLinearDigit(x.fractional[j]) {
      assert Coord(DigitAt(x, -1 - j), AxisX) == Coord(DigitAt(Zero, -1 - j), AxisX);
      LinearDigitIffReal(x.fractional[j]);
    }
  }

  /** Both dividends are 1/5/9-only, whatever the operands. */
  lemma PartsLinear(a: Dbt, b: Dbt)
    ensures IsLinear(LinearPart(a, b)) && IsLinear(CrossPart(a, b))
  {
    SplitYxDigits(Product(a, Conjugated(b)));
    CrossRotatedLinear(SplitYxNumber(Product(a, Conjugated(b))).0);
  }

  /** The values of the two dividends: the y and the x component of a times conj(b). */
  lemma PartsValue(a: Dbt, b: Dbt)
    requires NoAnomaly(a, Conjugated(b))
    ensures Value(LinearPart(a, b)) == Complex(0.0, Times(Value(a), Conj(Value(b))).y)
    ensures Value(CrossPart(a, b)) == Complex(0.0, Times(Value(a), Conj(Value(b))).x)
  {
    var a2 := Product(a, Conjugated(b));
    ProductValue(a, Conjugated(b));
    ConjugatedLaws(b);
    SplitYxLinearValue(a2);
    CrossTurnValue(a2);
  }

  /** Turning the 3/5/7 half of c by rotate7 moves the x part of c's value onto the y axis. */
  lemma CrossTurnValue(c: Dbt)
    ensures Value(Rotated7(SplitYxNumber(c).0)) == Complex(0.0, Value(c).x)
  {
    SplitYxCrossValue(c);
    Rotated7Value(SplitYxNumber(c).0);
    TurnReal(Value(c).x);
  }

  /** i times a value on the x axis. */
  lemma TurnReal(v: real)
    ensures Times(Complex(-1.0, 0.0), Complex(v, 0.0)) == Complex(0.0, v)
  {
  }

  /** Without the anomalous table entry, b conj(b) has the value |b|^2: a real number,
      so its digits are 1/5/9 only, and zero only for a zero b. */
  lemma NormValue(b: Dbt)
    requires NoAnomaly(b, Conjugated(b))
    ensures Value(Norm(b)) == Times(Value(b), Conj(Value(b)))
    ensures Value(Norm(b)).x == 0.0
  {
    ProductValue(b, Conjugated(b));
    ConjugatedLaws(b);
    TimesConjReal(Value(b));
  }

  lemma NormLinear(b: Dbt)
    requires NoAnomaly(b, Conjugated(b))
    ensures IsLinear(Norm(b))
  {
    NormValue(b);
    RealValueLinear(Norm(b));
  }

  lemma NormNonzero(b: Dbt)
    requires NoAnomaly(b, Conjugated(b)) && !IsZero(b)
    ensures !IsZero(Norm(b))
  {
    NormValue(b);
    ZeroValue(b);
    TimesConjNonzero(Value(b));
    ZeroValue(Norm(b));
  }

  /** v conj(v) = |v|^2 has no x component ... */
  lemma TimesConjReal(v: Complex)
    ensures Times(v, Conj(v)).x == 0.0
  {
  }

  /** ... and is zero only for v = 0. */
  lemma TimesConjNonzero(v: Complex)
    requires v != Complex(0.0, 0.0)
    ensures Times(v, Conj(v)) != Complex(0.0, 0.0)
  {
    assert Times(v, Conj(v)).y == v.x * v.x + v.y * v.y;
    NormPositive(v);
  }

  /** A number with value zero conjugates to a number with value zero. */
  lemma ConjugatedZero(b: Dbt)
    requires IsZero(b)
    ensures IsZero(Conjugated(b)) && !HasDigit(Conjugated(b), Dbt1) && !HasDigit(b, Dbt8)
  {
    var c := Conjugated(b);
    assert AllFive(c.integral) && AllFive(c.fractional);
    FiveOnly(c.integral, Dbt1);
    FiveOnly(c.fractional, Dbt1);
    FiveOnly(b.integral, Dbt8);
    FiveOnly(b.fractional, Dbt8);
  }

  lemma FiveOnly(s: seq<Digit>, d: Digit)
    requires AllFive(s) && d != Dbt5
    ensures d !in s
  {
  }

  lemma ZeroConj(u: Complex, v: Complex)
    requires v == Complex(0.0, 0.0)
    ensures Times(u, Conj(v)) == Complex(0.0, 0.0)
  {
    assert Conj(v) == Origin;
    TimesOrigin(u);
  }

  /** For a zero divisor both dividends are zero. */
  lemma PartsZero(a: Dbt, b: Dbt)
    requires IsZero(b)
    ensures IsZero(LinearPart(a, b)) && IsZero(CrossPart(a, b))
  {
    ConjugatedZero(b);
    ZeroValue(b);
    PartsValue(a, b);
    ZeroConj(Value(a), Value(b));
    ZeroValue(LinearPart(a, b));
    ZeroValue(CrossPart(a, b));
  }

  // ---------------------------------------------------------------------------------------
  // Properties of div
  // ---------------------------------------------------------------------------------------

  /** div fails only with linear_divide's zero-divisor or non-1/5/9-divisor error: the
      dividends it builds are always 1/5/9-only. */
  lemma DivErrors(a: Dbt, b: Dbt)
    ensures Div(a, b).Err? ==> Div(a, b).error == ZeroDivisor || Div(a, b).error == NotLinearDivisor
    ensures Div(a, b).Err? ==> !IsLinear(Norm(b)) || IsZero(Norm(b))
  {
    PartsLinear(a, b);
    LinearDivideCases(LinearPart(a, b), Norm(b));
    LinearDivideCases(CrossPart(a, b), Norm(b));
  }

  /** A zero divisor gives a zero quotient, not an error. */
  lemma DivByZero(a: Dbt, b: Dbt)
    requires IsZero(b)
    ensures Div(a, b).Ok? && IsZero(Div(a, b).value)
  {
    PartsZero(a, b);
    var y, x, n := LinearPart(a, b), CrossPart(a, b), Norm(b);
    LinearDivideCases(y, n);
    LinearDivideCases(x, n);
    var q := Sum(y, Rotated3(x));
    assert Div(a, b) == Ok(q);
    ZeroValue(y);
    ZeroValue(x);
    SumValue(y, Rotated3(x));
    Rotated3Value(x);
    ZeroCombination(Value(y), Value(x), Value(q));
    ZeroValue(q);
  }

  /** When b conj(b) avoids the anomalous table entry, div always succeeds. */
  lemma DivSucceeds(a: Dbt, b: Dbt)
    requires NoAnomaly(b, Conjugated(b))
    ensures Div(a, b).Ok?
  {
    if IsZero(b) {
      DivByZero(a, b);
    } else {
      NormLinear(b);
      NormNonzero(b);
      PartsLinear(a, b);
      LinearDivideCases(LinearPart(a, b), Norm(b));
      LinearDivideCases(CrossPart(a, b), Norm(b));
    }
  }

  lemma NormPositive(v: Complex)
    requires v != Complex(0.0, 0.0)
    ensures v.x * v.x + v.y * v.y > 0.0
  {
    if v.x != 0.0 {
      assert v.x * v.x > 0.0;
    } else {
      assert v.y * v.y > 0.0;
    }
  }

  /** Division with remainder: without anomalous table entries, the quotient times
      b conj(b) is a conj(b) less what the two linear divisions leave. */
  lemma DivValue(a: Dbt, b: Dbt)
    requires Div(a, b).Ok? && NoAnomaly(a, Conjugated(b)) && NoAnomaly(b, Conjugated(b))
    ensures Times(Value(Div(a, b).value), Value(Norm(b)))
         == Minus(Times(Value(a), Conj(Value(b))), DivRemainder(a, b))
  {
    var y, x, n := LinearPart(a, b), CrossPart(a, b), Norm(b);
    var q1, q2 := LinearDivide(y, n).value, LinearDivide(x, n).value;
    PartsValue(a, b);
    LinearDivideValue(y, n);
    LinearDivideValue(x, n);
    SumValue(q1, Rotated3(q2));
    Rotated3Value(q2);
    DivCombine(Times(Value(a), Conj(Value(b))), Value(y), Value(x), Value(n),
      Value(q1), Value(LinearRemainder(y, n)), Value(q2), Value(LinearRemainder(x, n)),
      Value(Div(a, b).value));
  }

  lemma DivCombine(a2: Complex, yv: Complex, xv: Complex, n: Complex, q1: Complex, r1: Complex,
                   q2: Complex, r2: Complex, q: Complex)
    requires yv == Complex(0.0, a2.y) && xv == Complex(0.0, a2.x)
    requires yv == Plus(r1, Times(q1, n)) && xv == Plus(r2, Times(q2, n))
    requires q == Plus(q1, Times(Complex(1.0, 0.0), q2))
    ensures Times(q, n) == Minus(a2, Plus(r1, Times(Complex(1.0, 0.0), r2)))
  {
  }

  /** When both linear divisions leave nothing and no anomalous table entry is met, div is
      exact: quotient times divisor is the dividend. */
  lemma DivExact(a: Dbt, b: Dbt)
    requires Div(a, b).Ok? && NoAnomaly(a, Conjugated(b)) && NoAnomaly(b, Conjugated(b))
    requires !IsZero(b)
    requires IsZero(LinearRemainder(LinearPart(a, b), Norm(b)))
    requires IsZero(LinearRemainder(CrossPart(a, b), Norm(b)))
    ensures Times(Value(Div(a, b).value), Value(b)) == Value(a)
  {
    DivValue(a, b);
    var y, x, n := LinearPart(a, b), CrossPart(a, b), Norm(b);
    ZeroValue(LinearRemainder(y, n));
    ZeroValue(LinearRemainder(x, n));
    ZeroCombination(Value(LinearRemainder(y, n)), Value(LinearRemainder(x, n)), DivRemainder(a, b));
    NormValue(b);
    ZeroValue(b);
    ConjNonzero(Value(b));
    ExactCancel(Value(Div(a, b).value), Value(n), Value(b), Value(a), Conj(Value(b)), DivRemainder(a, b));
  }

  lemma ZeroCombination(r1: Complex, r2: Complex, rem: Complex)
    requires r1 == Complex(0.0, 0.0) && r2 == Complex(0.0, 0.0)
    requires rem == Plus(r1, Times(Complex(1.0, 0.0), r2))
    ensures rem == Complex(0.0, 0.0)
  {
  }

  lemma ConjNonzero(v: Complex)
    requires v != Complex(0.0, 0.0)
    ensures Conj(v) != Complex(0.0, 0.0)
  {
  }

  lemma ExactCancel(q: Complex, n: Complex, v: Complex, a: Complex, c: Complex, rem: Complex)
    requires c != Complex(0.0, 0.0) && rem == Complex(0.0, 0.0)
    requires n == Times(v, c) && Times(q, n) == Minus(Times(a, c), rem)
    ensures Times(q, v) == a
  {
    TimesLaws(q, v, c);
    TimesCancel(Times(q, v), a, c);
  }

  /** Multiplication by a nonzero value can be undone. */
  lemma TimesCancel(u: Complex, v: Complex, w: Complex)
    requires w != Complex(0.0, 0.0) && Times(u, w) == Times(v, w)
    ensures u == v
  {
    var d := Minus(u, v);
    assert d.x * w.y + d.y * w.x == 0.0;
    assert d.y * w.y - d.x * w.x == 0.0;
    assert d.x * (w.x * w.x + w.y * w.y) == w.y * (d.x * w.y + d.y * w.x) - w.x * (d.y * w.y - d.x * w.x);
    assert d.y * (w.x * w.x + w.y * w.y) == w.x * (d.x * w.y + d.y * w.x) + w.y * (d.y * w.y - d.x * w.x);
    NormPositive(w);
  }
}
