/** The leading digit, the 1/5/9 ordering, linear_divide and Div. */
module TernaryDivision {
  import opened Results
  import opened Digits
  import opened Ternary
  import opened TernaryValue
  import opened TernaryArith
  import opened TernaryProduct

  // ---------------------------------------------------------------------------------------
  // get_first_digit
  // ---------------------------------------------------------------------------------------

  /** The index of the first digit of s other than Dbt5, or |s| when there is none. */
  function FirstNonFive(s: seq<Digit>): (k: nat)
    ensures k <= |s|
    ensures forall i :: 0 <= i < k ==> s[i] == Dbt5
    ensures k < |s| ==> s[k] != Dbt5
  {
    if s == [] || s[0] != Dbt5 then 0 else 1 + FirstNonFive(s[1..])
  }

  /** get_first_digit: on the stripped number, the last integral digit and its index;
      failing that the first fractional digit other than Dbt5 and its position; (Dbt5, 0)
      for zero. */
  function FirstDigit(x: Dbt): (Digit, int)
  {
    var s := Strip(x);
    StripLaws(x);
    if s.integral != [] then (s.integral[|s.integral| - 1], |s.integral| - 1)
    else if s.fractional == [] then (Dbt5, 0)
    else
      var k := FirstNonFive(s.fractional);
      if k < |s.fractional| then (s.fractional[k], -1 - k) else assert false; (Dbt5, 0)
  }

  /** d is the digit at position p, it is not Dbt5, and every higher position holds Dbt5. */
  ghost predicate Leads(x: Dbt, d: Digit, p: int)
  {
    d != Dbt5 && DigitAt(x, p) == d && forall q :: q > p ==> DigitAt(x, q) == Dbt5
  }

  method GetFirstDigitImpl(x: Dbt) returns (d: Digit, p: int)
    ensures (d, p) == FirstDigit(x)
  {
    var a2 := StripImpl(x);
    if a2.integral != [] {
      return a2.integral[|a2.integral| - 1], |a2.integral| - 1;
    } else if a2.fractional == [] {
      return Dbt5, 0;
    }
    for idx := 0 to |a2.fractional|
      invariant forall i :: 0 <= i < idx ==> a2.fractional[i] == Dbt5
    {
      if a2.fractional[idx] != Dbt5 {
        assert FirstNonFive(a2.fractional) == idx;
        return a2.fractional[idx], -1 - idx;
      }
    }
    assert false;
  }

  /** get_first_digit returns (Dbt5, 0) exactly for zero, and otherwise the leading digit
      and its position. */
  lemma FirstDigitSpec(x: Dbt)
    ensures FirstDigit(x) == (Dbt5, 0) <==> IsZero(x)
    ensures !IsZero(x) ==> Leads(x, FirstDigit(x).0, FirstDigit(x).1)
  {
    var s := Strip(x);
    StripLaws(x);
    forall p ensures DigitAt(s, p) == DigitAt(x, p) {
      StripDigitAt(x, p);
    }
    if s.integral != [] {
      assert s.integral[|s.integral| - 1] != Dbt5;
      assert !IsZero(x);
      assert Leads(s, FirstDigit(x).0, FirstDigit(x).1);
    } else if s.fractional != [] {
      var k := FirstNonFive(s.fractional);
      assert k < |s.fractional|;
      forall q | q > -1 - k ensures DigitAt(s, q) == Dbt5 {
        if q < 0 {
          assert s.fractional[-1 - q] == Dbt5;
        }
      }
      assert !IsZero(x);
    }
  }

  /** The leading digit is unique. */
  lemma LeadsUnique(x: Dbt, d1: Digit, p1: int, d2: Digit, p2: int)
    requires Leads(x, d1, p1) && Leads(x, d2, p2)
    ensures d1 == d2 && p1 == p2
  {
  }

  /** The leading digit of a nonzero 1/5/9-only number is Dbt1 or Dbt9. */
  lemma FirstDigitLinear(x: Dbt)
    requires IsLinear(x) && !IsZero(x)
    ensures FirstDigit(x).0 == Dbt1 || FirstDigit(x).0 == Dbt9
  {
    FirstDigitSpec(x);
    var (d, p) := FirstDigit(x);
    if p >= 0 {
      assert x.integral[p] == d;
    } else {
      assert x.fractional[-1 - p] == d;
    }
  }

  // ---------------------------------------------------------------------------------------
  // is_linear_ternary and the ordering
  // ---------------------------------------------------------------------------------------

  method IsLinearImpl(x: Dbt) returns (b: bool)
    ensures b <==> IsLinear(x)
  {
    for i := 0 to |x.integral|
      invariant forall k :: 0 <= k < i ==> IsLinearDigit(x.integral[k])
    {
      var item := x.integral[i];
      if item != Dbt1 && item != Dbt5 && item != Dbt9 {
        return false;
      }
    }
    for j := 0 to |x.fractional|
      invariant forall k :: 0 <= k < j ==> IsLinearDigit(x.fractional[k])
    {
      var item := x.fractional[j];
      if item != Dbt1 && item != Dbt5 && item != Dbt9 {
        return false;
      }
    }
    return true;
  }

  /** linear_greater_than: the leading digit of a - b is Dbt1. */
  predicate LinearGreaterThan(a: Dbt, b: Dbt)
  {
    FirstDigit(Difference(a, b)).0 == Dbt1
  }

  /** linear_littler_than: the leading digit of a - b is Dbt9. */
  predicate LinearLittlerThan(a: Dbt, b: Dbt)
  {
    FirstDigit(Difference(a, b)).0 == Dbt9
  }

  /** Numbers with equal values have equal leading digits. */
  lemma FirstDigitSame(x: Dbt, y: Dbt)
    requires Value(x) == Value(y)
    ensures FirstDigit(x) == FirstDigit(y)
  {
    ValueIffSame(x, y);
  }

  /** Negation negates the leading digit and keeps its position. */
  lemma FirstDigitNegated(x: Dbt)
    ensures FirstDigit(Negated(x)) == (Neg(FirstDigit(x).0), FirstDigit(x).1)
  {
    FirstDigitSpec(x);
    FirstDigitSpec(Negated(x));
    var (d, p) := FirstDigit(x);
    forall q ensures DigitAt(Negated(x), q) == Neg(DigitAt(x, q)) {
      MapDigitAt(x, Neg, q);
    }
    forall e ensures Neg(e) == Dbt5 <==> e == Dbt5 {
      NegInvolution(e);
    }
    if !IsZero(x) {
      assert DigitAt(Negated(x), p) != Dbt5;
      assert Leads(Negated(x), Neg(d), p);
      var (e, r) := FirstDigit(Negated(x));
      LeadsUnique(Negated(x), e, r, Neg(d), p);
    }
  }

  lemma DifferenceSwap(a: Dbt, b: Dbt)
    ensures Value(Difference(b, a)) == Value(Negated(Difference(a, b)))
  {
    DifferenceValue(a, b);
    DifferenceValue(b, a);
    NegatedLaws(Difference(a, b));
  }

  /** a is above b exactly when b is below a; the two tests never hold together. */
  lemma LinearOrderAntisymmetric(a: Dbt, b: Dbt)
    ensures LinearGreaterThan(a, b) <==> LinearLittlerThan(b, a)
    ensures !(LinearGreaterThan(a, b) && LinearLittlerThan(a, b))
  {
    DifferenceSwap(a, b);
    FirstDigitSame(Difference(b, a), Negated(Difference(a, b)));
    FirstDigitNegated(Difference(a, b));
    NegInvolution(FirstDigit(Difference(a, b)).0);
  }

  /** On 1/5/9-only numbers exactly one of above, below and equal holds. */
  lemma LinearTrichotomy(a: Dbt, b: Dbt)
    requires IsLinear(a) && IsLinear(b)
    ensures Same(a, b) <==> !LinearGreaterThan(a, b) && !LinearLittlerThan(a, b)
  {
    var diff := Difference(a, b);
    DifferenceValue(a, b);
    ValueIffSame(a, b);
    ZeroValue(diff);
    FirstDigitSpec(diff);
    LinearClosed(a, b);
    if !IsZero(diff) {
      FirstDigitLinear(diff);
    }
  }

  /** Integral digits whose most significant coordinate c on axis a is nonzero: c times
      their value on a is at least 1, whatever the lower digits are. */
  lemma {:induction false} IntValLeadSign(s: seq<Digit>, a: Axis)
    requires s != [] && Coord(s[|s| - 1], a) != 0
    ensures Coord(s[|s| - 1], a) * IntVal(s, a) >= 1
  {
    CoordBounds(s[0]);
    CoordBounds(s[|s| - 1]);
    if |s| > 1 {
      IntValLeadSign(s[1..], a);
      assert s[1..][|s| - 2] == s[|s| - 1];
    }
  }

  /** Fractional digits whose first digit other than Dbt5 has a nonzero coordinate c on
      axis a: c times their value on a is positive. */
  lemma {:induction false} FracValLeadSign(s: seq<Digit>, k: nat, a: Axis)
    requires k < |s| && Coord(s[k], a) != 0
    requires forall i :: 0 <= i < k ==> s[i] == Dbt5
    ensures Coord(s[k], a) as real * FracVal(s, a) > 0.0
  {
    FracBound(s[1..], a);
    CoordBounds(s[k]);
    if k > 0 {
      FracValLeadSign(s[1..], k - 1, a);
    }
  }

  /** The leading digit gives the sign of the value on each axis: when its coordinate c on
      axis a is nonzero, c times the value on a is positive. */
  lemma LeadSign(x: Dbt, a: Axis)
    ensures Coord(FirstDigit(x).0, a) != 0 ==> Coord(FirstDigit(x).0, a) as real * AxisValue(x, a) > 0.0
  {
    var s := Strip(x);
    StripLaws(x);
    StripValue(x);
    var d := FirstDigit(x).0;
    CoordBounds(d);
    if Coord(d, a) != 0 {
      FracBound(s.fractional, a);
      if s.integral != [] {
        IntValLeadSign(s.integral, a);
      } else {
        FracValLeadSign(s.fractional, FirstNonFive(s.fractional), a);
      }
    }
  }

  /** On 1/5/9-only numbers the leading digit of a - b is Dbt1 exactly when a is the
      greater value, and Dbt9 exactly when it is the smaller. */
  lemma LinearSign(a: Dbt, b: Dbt)
    requires IsLinear(a) && IsLinear(b)
    ensures FirstDigit(Difference(a, b)).0 == Dbt1 <==> Value(a).y > Value(b).y
    ensures FirstDigit(Difference(a, b)).0 == Dbt9 <==> Value(a).y < Value(b).y
  {
    var diff := Difference(a, b);
    DifferenceValue(a, b);
    LinearClosed(a, b);
    ZeroValue(diff);
    FirstDigitSpec(diff);
    LeadSign(diff, AxisY);
    if !IsZero(diff) {
      FirstDigitLinear(diff);
    }
  }

  /** linear_greater_than compares values: a is above b exactly when its value is greater. */
  lemma LinearGreaterValue(a: Dbt, b: Dbt)
    requires IsLinear(a) && IsLinear(b)
    ensures LinearGreaterThan(a, b) <==> Value(a).y > Value(b).y
  {
    LinearSign(a, b);
  }

  /** linear_littler_than compares values: a is below b exactly when its value is smaller. */
  lemma LinearLittlerValue(a: Dbt, b: Dbt)
    requires IsLinear(a) && IsLinear(b)
    ensures LinearLittlerThan(a, b) <==> Value(a).y < Value(b).y
  {
    LinearSign(a, b);
  }

  // ---------------------------------------------------------------------------------------
  // linear_divide
  // ---------------------------------------------------------------------------------------

  /** DIV_PRECISION: linear_divide runs at most twice this many steps. */
  const DivPrecision: nat := 10

  /** The quotient digit guessed from the two leading digits: Dbt1 when they agree, Dbt9
      when they differ. Multiplying it by b's leading digit gives a's leading digit. */
  function Guess(a: Digit, b: Digit): (g: Digit)
    requires (a == Dbt1 || a == Dbt9) && (b == Dbt1 || b == Dbt9)
    ensures g == Dbt1 || g == Dbt9
  {
    if (a == Dbt1 && b == Dbt1) || (a == Dbt9 && b == Dbt9) then Dbt1 else Dbt9
  }

  /** The guess times the divisor's leading digit is the remainder's leading digit. */
  lemma GuessTimes(a: Digit, b: Digit)
    requires (a == Dbt1 || a == Dbt9) && (b == Dbt1 || b == Dbt9)
    ensures Mul(Guess(a, b), b) == (Dbt5, a)
  {
  }

  /** The quotient digit of one step, placed at the difference of the leading positions. */
  function NextDigit(rem: Dbt, other: Dbt): Dbt
    requires IsLinear(rem) && !IsZero(rem) && IsLinear(other) && !IsZero(other)
  {
    FirstDigitLinear(rem);
    FirstDigitLinear(other);
    GuessAt(FirstDigit(rem), FirstDigit(other))
  }

  /** The guess for the leading digits fa of the remainder and fb of the divisor, as a
      number: the guessed digit alone, at position fa.1 - fb.1. */
  function GuessAt(fa: (Digit, int), fb: (Digit, int)): Dbt
    requires (fa.0 == Dbt1 || fa.0 == Dbt9) && (fb.0 == Dbt1 || fb.0 == Dbt9)
  {
    AddAt(Zero, fa.1 - fb.1, Guess(fa.0, fb.0))
  }

  /** One step subtracts the quotient digit times the divisor from the remainder. */
  function NextRemainder(rem: Dbt, other: Dbt): Dbt
    requires IsLinear(rem) && !IsZero(rem) && IsLinear(other) && !IsZero(other)
  {
    Difference(rem, Product(NextDigit(rem, other), other))
  }

  /** The loop of linear_divide: (remainder, quotient) after at most `precision` steps. */
  function DivLoop(rem: Dbt, other: Dbt, result: Dbt, precision: nat): (Dbt, Dbt)
    requires IsLinear(rem) && IsLinear(other) && !IsZero(other)
    decreases precision
  {
    if IsZero(rem) || precision == 0 then (rem, result)
    else
      DivStepLinear(rem, other);
      DivLoop(NextRemainder(rem, other), other, Sum(result, NextDigit(rem, other)), precision - 1)
  }

  /** linear_divide: a zero dividend is returned as it is; otherwise a zero or non-1/5/9
      operand is an error (a panic in the source) and the quotient is what the loop
      accumulates in 2 DIV_PRECISION steps. */
  function LinearDivide(a: Dbt, b: Dbt): Result<Dbt>
  {
    if IsZero(a) then Ok(a)
    else if IsZero(b) then Err(ZeroDivisor)
    else if !IsLinear(a) then Err(NotLinearDividend)
    else if !IsLinear(b) then Err(NotLinearDivisor)
    else Ok(DivLoop(a, b, Zero, 2 * DivPrecision).1)
  }

  /** The remainder linear_divide leaves behind (the source drops it). */
  function LinearRemainder(a: Dbt, b: Dbt): Dbt
  {
    if IsZero(a) || IsZero(b) || !IsLinear(a) || !IsLinear(b) then a
    else DivLoop(a, b, Zero, 2 * DivPrecision).0
  }

  method LinearDivideImpl(a: Dbt, b: Dbt) returns (r: Result<Dbt>)
    ensures r == LinearDivide(a, b)
  {
    if IsZero(a) {
      return Ok(a);
    }
    if IsZero(b) {
      return Err(ZeroDivisor);
    }
    var linA := IsLinearImpl(a);
    if !linA {
      return Err(NotLinearDividend);
    }
    var linB := IsLinearImpl(b);
    if !linB {
      return Err(NotLinearDivisor);
    }
    var quotient := DivLoopImpl(a, b, 2 * DivPrecision);
    r := Ok(quotient);
  }

  /** The while loop of linear_divide, from a zero quotient and `steps` steps at most. */
  method DivLoopImpl(a: Dbt, b: Dbt, steps: nat) returns (result: Dbt)
    requires IsLinear(a) && IsLinear(b) && !IsZero(b)
    ensures result == DivLoop(a, b, Zero, steps).1
  {
    result := Zero;
    var reminder := a;
    var precision := steps;
    ghost var target := DivLoop(a, b, Zero, steps);
    while !IsZero(reminder) && precision > 0
      invariant IsLinear(reminder)
      invariant DivLoop(reminder, b, result, precision) == target
      decreases precision
    {
      var reminder2, result2 := DivStepImpl(reminder, b, result);
      var precision2: nat := precision - 1;
      DivLoopUnfold(reminder, b, result, precision, precision2);
      reminder, result, precision := reminder2, result2, precision2;
    }
    DivLoopDone(reminder, b, result, precision);
  }

  lemma DivLoopDone(rem: Dbt, other: Dbt, result: Dbt, precision: nat)
    requires IsLinear(rem) && IsLinear(other) && !IsZero(other)
    requires IsZero(rem) || precision == 0
    ensures DivLoop(rem, other, result, precision) == (rem, result)
  {
  }

  /** One turn of the loop: the state after the step continues the same run. */
  lemma DivLoopUnfold(rem: Dbt, other: Dbt, result: Dbt, precision: nat, precision2: nat)
    requires IsLinear(rem) && IsLinear(other) && !IsZero(other)
    requires !IsZero(rem) && precision == precision2 + 1
    ensures IsLinear(NextRemainder(rem, other))
    ensures DivLoop(rem, other, result, precision)
         == DivLoop(NextRemainder(rem, other), other, Sum(result, NextDigit(rem, other)), precision2)
  {
    DivStepLinear(rem, other);
  }

  /** The loop body of linear_divide: guess, multiply back, subtract, accumulate. */
  method DivStepImpl(reminder: Dbt, b: Dbt, result: Dbt) returns (reminder2: Dbt, result2: Dbt)
    requires IsLinear(reminder) && !IsZero(reminder) && IsLinear(b) && !IsZero(b)
    ensures reminder2 == NextRemainder(reminder, b)
    ensures result2 == Sum(result, NextDigit(reminder, b))
  {
    var aDigit, aIdx := GetFirstDigitImpl(reminder);
    var bDigit, bIdx := GetFirstDigitImpl(b);
    FirstDigitLinear(reminder);
    FirstDigitLinear(b);
    var tryPosition := aIdx - bIdx;
    var tryDigit: Digit;
    if (aDigit == Dbt1 && bDigit == Dbt1) || (aDigit == Dbt9 && bDigit == Dbt9) {
      tryDigit := Dbt1;
    } else if (aDigit == Dbt1 && bDigit == Dbt9) || (aDigit == Dbt9 && bDigit == Dbt1) {
      tryDigit := Dbt9;
    } else {
      assert false;
    }
    var v := AddAtImpl(Zero, tryPosition, tryDigit);
    assert v == GuessAt((aDigit, aIdx), (bDigit, bIdx));
    var step := ProductImpl(v, b);
    reminder2 := DifferenceImpl(reminder, step);
    result2 := SumImpl(result, v);
  }

  /** A 1/5/9-only number holds no Dbt8, so it never meets the anomalous table entry. */
  lemma LinearNoEight(x: Dbt)
    requires IsLinear(x)
    ensures !HasDigit(x, Dbt8)
  {
  }

  /** The quotient digit is the guess placed at ai - bi: 1/5/9-only, of that value. */
  lemma NextDigitLaws(rem: Dbt, other: Dbt)
    requires IsLinear(rem) && !IsZero(rem) && IsLinear(other) && !IsZero(other)
    ensures IsLinear(NextDigit(rem, other))
  {
    FirstDigitLinear(rem);
    FirstDigitLinear(other);
    GuessAtLaws(FirstDigit(rem), FirstDigit(other));
  }

  lemma GuessAtLaws(fa: (Digit, int), fb: (Digit, int))
    requires (fa.0 == Dbt1 || fa.0 == Dbt9) && (fb.0 == Dbt1 || fb.0 == Dbt9)
    ensures IsLinear(GuessAt(fa, fb))
    ensures Value(GuessAt(fa, fb)) == Place(Guess(fa.0, fb.0), fa.1 - fb.1)
  {
    SingleDigit(fa.1 - fb.1, Guess(fa.0, fb.0));
  }

  /** The number holding just the digit g at position k is 1/5/9-only when g is, and has
      the value of g at k. */
  lemma SingleDigit(k: int, g: Digit)
    ensures IsLinearDigit(g) ==> IsLinear(AddAt(Zero, k, g))
    ensures Value(AddAt(Zero, k, g)) == Place(g, k)
  {
    if IsLinearDigit(g) {
      AddAtLinear(Zero, k, g);
    }
    AddAtValue(Zero, k, g);
    PlusOrigin(Value(Zero), Place(g, k));
  }

  lemma PlusOrigin(z: Complex, p: Complex)
    requires z == Origin
    ensures Plus(z, p) == p
  {
  }

  /** One step keeps the remainder 1/5/9-only. */
  lemma DivStepLinear(rem: Dbt, other: Dbt)
    requires IsLinear(rem) && !IsZero(rem) && IsLinear(other) && !IsZero(other)
    ensures IsLinear(NextRemainder(rem, other))
  {
    NextDigitLaws(rem, other);
    ProductLinear(NextDigit(rem, other), other);
    LinearClosed(rem, Product(NextDigit(rem, other), other));
  }

  lemma DivAlgebra(r: Complex, q: Complex, v: Complex, o: Complex, step: Complex, r2: Complex, q2: Complex)
    requires step == Times(v, o) && r2 == Minus(r, step) && q2 == Plus(q, v)
    ensures Plus(r2, Times(q2, o)) == Plus(r, Times(q, o))
  {
    TimesPlus(o, q, v);
  }

  /** One step keeps value(rem) + value(result) value(other) and both parts 1/5/9-only. */
  lemma DivStepValue(rem: Dbt, other: Dbt, result: Dbt)
    requires IsLinear(rem) && !IsZero(rem) && IsLinear(other) && !IsZero(other) && IsLinear(result)
    ensures IsLinear(Sum(result, NextDigit(rem, other)))
    ensures Plus(Value(NextRemainder(rem, other)), Times(Value(Sum(result, NextDigit(rem, other))), Value(other)))
         == Plus(Value(rem), Times(Value(result), Value(other)))
  {
    var v := NextDigit(rem, other);
    var step := Product(v, other);
    NextDigitLaws(rem, other);
    LinearNoEight(v);
    ProductValue(v, other);
    DifferenceValue(rem, step);
    SumValue(result, v);
    LinearClosed(result, v);
    DivAlgebra(Value(rem), Value(result), Value(v), Value(other), Value(step),
      Value(NextRemainder(rem, other)), Value(Sum(result, v)));
  }

  /** The loop keeps value(rem) + value(result) value(other) and both parts 1/5/9-only. */
  lemma {:induction false} DivLoopLaws(rem: Dbt, other: Dbt, result: Dbt, precision: nat)
    requires IsLinear(rem) && IsLinear(other) && !IsZero(other) && IsLinear(result)
    ensures IsLinear(DivLoop(rem, other, result, precision).0)
    ensures IsLinear(DivLoop(rem, other, result, precision).1)
    ensures Plus(Value(DivLoop(rem, other, result, precision).0),
                 Times(Value(DivLoop(rem, other, result, precision).1), Value(other)))
         == Plus(Value(rem), Times(Value(result), Value(other)))
    decreases precision, 1
  {
    if !IsZero(rem) && precision > 0 {
      DivLoopStepLaws(rem, other, result, precision);
    }
  }

  lemma {:induction false} DivLoopStepLaws(rem: Dbt, other: Dbt, result: Dbt, precision: nat)
    requires IsLinear(rem) && IsLinear(other) && !IsZero(other) && IsLinear(result)
    requires !IsZero(rem) && precision > 0
    ensures IsLinear(DivLoop(rem, other, result, precision).0)
    ensures IsLinear(DivLoop(rem, other, result, precision).1)
    ensures Plus(Value(DivLoop(rem, other, result, precision).0),
                 Times(Value(DivLoop(rem, other, result, precision).1), Value(other)))
         == Plus(Value(rem), Times(Value(result), Value(other)))
    decreases precision, 0
  {
    var rem2, result2 := NextRemainder(rem, other), Sum(result, NextDigit(rem, other));
    var precision2: nat := precision - 1;
    DivLoopUnfold(rem, other, result, precision, precision2);
    DivStepValue(rem, other, result);
    DivLoopLaws(rem2, other, result2, precision2);
    var next := DivLoop(rem2, other, result2, precision2);
    InvariantChain(Value(rem), Value(result), Value(rem2), Value(result2), Value(next.0), Value(next.1), Value(other));
  }

  lemma InvariantChain(r0: Complex, q0: Complex, r1: Complex, q1: Complex, r2: Complex, q2: Complex, o: Complex)
    requires Plus(r2, Times(q2, o)) == Plus(r1, Times(q1, o))
    requires Plus(r1, Times(q1, o)) == Plus(r0, Times(q0, o))
    ensures Plus(r2, Times(q2, o)) == Plus(r0, Times(q0, o))
  {
  }

  /** linear_divide succeeds exactly when the dividend is zero or both operands are nonzero
      and 1/5/9-only; the errors are the source's three panics, in the source's order. */
  lemma LinearDivideCases(a: Dbt, b: Dbt)
    ensures LinearDivide(a, b).Ok? <==> IsZero(a) || (!IsZero(b) && IsLinear(a) && IsLinear(b))
    ensures IsZero(a) ==> LinearDivide(a, b) == Ok(a)
    ensures LinearDivide(a, b) == Err(ZeroDivisor) <==> !IsZero(a) && IsZero(b)
    ensures LinearDivide(a, b) == Err(NotLinearDividend) <==> !IsZero(a) && !IsZero(b) && !IsLinear(a)
    ensures LinearDivide(a, b) == Err(NotLinearDivisor)
        <==> !IsZero(a) && !IsZero(b) && IsLinear(a) && !IsLinear(b)
  {
  }

  /** A zero number is 1/5/9-only and has value zero. */
  lemma ZeroLinear(x: Dbt)
    requires IsZero(x)
    ensures IsLinear(x) && Value(x) == Origin
  {
    ZeroValue(x);
  }

  /** Division with remainder: quotient and remainder are 1/5/9-only and
      value(a) = value(remainder) + value(quotient) value(b). */
  lemma LinearDivideValue(a: Dbt, b: Dbt)
    requires LinearDivide(a, b).Ok?
    ensures IsLinear(LinearDivide(a, b).value) && IsLinear(LinearRemainder(a, b))
    ensures Value(a) == Plus(Value(LinearRemainder(a, b)), Times(Value(LinearDivide(a, b).value), Value(b)))
  {
    if IsZero(a) {
      ZeroLinear(a);
      TimesOrigin(Value(b));
    } else {
      ZeroLinear(Zero);
      DivLoopLaws(a, b, Zero, 2 * DivPrecision);
      TimesOrigin(Value(b));
    }
  }

  /** When nothing remains the quotient is exact. */
  lemma LinearDivideExact(a: Dbt, b: Dbt)
    requires LinearDivide(a, b).Ok? && IsZero(LinearRemainder(a, b))
    ensures Times(Value(LinearDivide(a, b).value), Value(b)) == Value(a)
  {
    LinearDivideValue(a, b);
    ZeroLinear(LinearRemainder(a, b));
  }
}
