/** The division tests, evaluated on values: each test divides two literal numbers with
    `/`. The lemmas below follow the two runs of linear_divide turn by turn through the value
    of the remainder, and compare the quotient with the expected one through its value. */
module TernaryDivisionTests {
  import opened Results
  import opened Digits
  import opened Ternary
  import opened TernaryValue
  import opened TernaryArith
  import opened TernaryProduct
  import opened TernaryShift
  import opened TernaryDivision
  import opened TernaryQuotient

  /** A number whose integral part ends in a nonzero digit leads with that digit. */
  lemma IntegralLead(x: Dbt)
    requires x.integral != [] && x.integral[|x.integral| - 1] != Dbt5
    ensures FirstDigit(x) == (x.integral[|x.integral| - 1], |x.integral| - 1)
  {
    var k := |x.integral| - 1;
    assert !AllFive(x.integral);
    FirstDigitSpec(x);
    assert Leads(x, x.integral[k], k);
    LeadsUnique(x, x.integral[k], k, FirstDigit(x).0, FirstDigit(x).1);
  }

  /** A number with no integral part leads with its first nonzero fractional digit. */
  lemma FractionalLead(x: Dbt, k: nat)
    requires x.integral == [] && k < |x.fractional| && x.fractional[k] != Dbt5
    requires AllFive(x.fractional[..k])
    ensures FirstDigit(x) == (x.fractional[k], -1 - k)
  {
    assert !AllFive(x.fractional);
    FirstDigitSpec(x);
    forall q | q > -1 - k ensures DigitAt(x, q) == Dbt5 {
      if q < 0 {
        assert x.fractional[..k][-1 - q] == x.fractional[-1 - q];
      }
    }
    assert Leads(x, x.fractional[k], -1 - k);
    LeadsUnique(x, x.fractional[k], -1 - k, FirstDigit(x).0, FirstDigit(x).1);
  }

  /** The quotient digit of a turn is the guess placed by the two leading digits. */
  lemma TurnDigit(rem: Dbt, other: Dbt, fa: (Digit, int), fb: (Digit, int))
    requires IsLinear(rem) && IsLinear(other)
    requires FirstDigit(rem) == fa && FirstDigit(other) == fb
    requires (fa.0 == Dbt1 || fa.0 == Dbt9) && (fb.0 == Dbt1 || fb.0 == Dbt9)
    ensures !IsZero(rem) && !IsZero(other)
    ensures Value(NextDigit(rem, other)) == Place(Guess(fa.0, fb.0), fa.1 - fb.1)
  {
    FirstDigitSpec(rem);
    FirstDigitSpec(other);
    GuessAtLaws(fa, fb);
  }

  /** A turn subtracts the quotient digit times the divisor from the remainder. */
  lemma TurnValue(rem: Dbt, other: Dbt)
    requires IsLinear(rem) && !IsZero(rem) && IsLinear(other) && !IsZero(other)
    ensures IsLinear(NextRemainder(rem, other))
    ensures Value(NextRemainder(rem, other)) == Minus(Value(rem), Times(Value(NextDigit(rem, other)), Value(other)))
  {
    var d := NextDigit(rem, other);
    NextDigitLaws(rem, other);
    LinearNoEight(d);
    ProductValue(d, other);
    DifferenceValue(rem, Product(d, other));
    DivStepLinear(rem, other);
  }

  /** One turn of the loop of linear_divide, on values: the remainder v loses g times the
      divisor w, g being the guess placed by the two leading digits. */
  lemma Turn(rem: Dbt, other: Dbt, fa: (Digit, int), fb: (Digit, int), v: real, w: real, g: real)
    requires IsLinear(rem) && IsLinear(other)
    requires FirstDigit(rem) == fa && FirstDigit(other) == fb
    requires (fa.0 == Dbt1 || fa.0 == Dbt9) && (fb.0 == Dbt1 || fb.0 == Dbt9)
    requires Value(rem) == Complex(0.0, v) && Value(other) == Complex(0.0, w)
    requires Place(Guess(fa.0, fb.0), fa.1 - fb.1) == Complex(0.0, g)
    ensures !IsZero(rem) && !IsZero(other)
    ensures IsLinear(NextRemainder(rem, other))
    ensures Value(NextRemainder(rem, other)) == Complex(0.0, v - g * w)
  {
    TurnDigit(rem, other, fa, fb);
    TurnValue(rem, other);
    TurnAlgebra(Value(rem), Value(NextDigit(rem, other)), Value(other), v, w, g);
  }

  /** The arithmetic of one turn, on real values. */
  lemma TurnAlgebra(u: Complex, d: Complex, o: Complex, v: real, w: real, g: real)
    requires u == Complex(0.0, v) && o == Complex(0.0, w) && d == Complex(0.0, g)
    ensures Minus(u, Times(d, o)) == Complex(0.0, v - g * w)
  {
  }

  /** Exactly divisible values: every run of linear_divide on numbers of these two values
      ends with a zero remainder. */
  ghost predicate ExactRun(v: real, w: real)
  {
    forall y: Dbt, n: Dbt {:trigger LinearRemainder(y, n)}
      | IsLinear(y) && IsLinear(n) && !IsZero(n) && Value(y) == Complex(0.0, v) && Value(n) == Complex(0.0, w)
      :: IsZero(LinearRemainder(y, n))
  }

  /** Every number of value v (real: y = v, x = 0) leads with the digit f.0 at position f.1. */
  ghost predicate LeadsWith(v: real, f: (Digit, int))
  {
    forall x: Dbt {:trigger FirstDigit(x)} | Value(x) == Complex(0.0, v) :: FirstDigit(x) == f
  }

  /** The leading digit of a value, read off one number of that value. */
  lemma LeadsFrom(lit: Dbt, v: real)
    requires Value(lit) == Complex(0.0, v)
    ensures LeadsWith(v, FirstDigit(lit))
  {
    forall x: Dbt | Value(x) == Complex(0.0, v) ensures FirstDigit(x) == FirstDigit(lit) {
      FirstDigitSame(x, lit);
    }
  }

  /** Leading digits move with the value: if v 3^n leads with d at p + n, v leads with d at p. */
  lemma LeadsShifted(v: real, u: real, d: Digit, p: int, n: int)
    requires LeadsWith(u, (d, p + n)) && d != Dbt5
    requires Shift(Complex(0.0, v), n) == Complex(0.0, u)
    ensures LeadsWith(v, (d, p))
  {
    forall x: Dbt | Value(x) == Complex(0.0, v) ensures FirstDigit(x) == (d, p) {
      var y := MoveBy(x, n);
      MoveByValue(x, n);
      assert FirstDigit(y) == (d, p + n);
      FirstDigitSpec(y);
      MoveByDigits(x, n);
      assert DigitAt(y, p + n) == DigitAt(x, p);
      forall q | q > p ensures DigitAt(x, q) == Dbt5 {
        assert DigitAt(y, q + n) == DigitAt(x, q);
      }
      assert Leads(x, d, p);
      assert !IsZero(x) by {
        if p >= 0 {
          assert p < |x.integral| && x.integral[p] != Dbt5;
        } else {
          assert -1 - p < |x.fractional| && x.fractional[-1 - p] != Dbt5;
        }
      }
      FirstDigitSpec(x);
      LeadsUnique(x, d, p, FirstDigit(x).0, FirstDigit(x).1);
    }
  }

  /** One place down: if 3 v leads with d at p + 1, v leads with d at p. */
  lemma LeadsDown(v: real, d: Digit, p: int)
    requires LeadsWith(3.0 * v, (d, p + 1)) && d != Dbt5
    ensures LeadsWith(v, (d, p))
  {
    LeadsShifted(v, 3.0 * v, d, p, 1);
  }

  /** Every run of the loop from a remainder of value v, with a divisor of value w and p turns
      left, ends with a zero remainder. */
  ghost predicate Finishes(v: real, w: real, p: nat)
  {
    forall rem: Dbt, other: Dbt, result: Dbt {:trigger DivLoop(rem, other, result, p)}
      | IsLinear(rem) && IsLinear(other) && !IsZero(other)
        && Value(rem) == Complex(0.0, v) && Value(other) == Complex(0.0, w)
      :: IsZero(DivLoop(rem, other, result, p).0)
  }

  /** A zero remainder stops the loop. */
  lemma FinishesZero(w: real, p: nat)
    ensures Finishes(0.0, w, p)
  {
    forall rem: Dbt, other: Dbt, result: Dbt
      | IsLinear(rem) && IsLinear(other) && !IsZero(other)
        && Value(rem) == Complex(0.0, 0.0) && Value(other) == Complex(0.0, w)
      ensures IsZero(DivLoop(rem, other, result, p).0)
    {
      ZeroValue(rem);
      DivLoopDone(rem, other, result, p);
    }
  }

  /** One turn: from v the loop moves to v - g w, g being the guess placed by the leading
      digits fa of v and fb of w. */
  lemma FinishesTurn(v: real, w: real, p: nat, fa: (Digit, int), fb: (Digit, int), k: int, g: real)
    requires p >= 1 && k == fa.1 - fb.1
    requires LeadsWith(v, fa) && LeadsWith(w, fb)
    requires (fa.0 == Dbt1 || fa.0 == Dbt9) && (fb.0 == Dbt1 || fb.0 == Dbt9)
    requires Place(Guess(fa.0, fb.0), k) == Complex(0.0, g)
    requires Finishes(v - g * w, w, p - 1)
    ensures Finishes(v, w, p)
  {
    forall rem: Dbt, other: Dbt, result: Dbt
      | IsLinear(rem) && IsLinear(other) && !IsZero(other)
        && Value(rem) == Complex(0.0, v) && Value(other) == Complex(0.0, w)
      ensures IsZero(DivLoop(rem, other, result, p).0)
    {
      Turn(rem, other, fa, fb, v, w, g);
      DivLoopUnfold(rem, other, result, p, p - 1);
      var rem2 := NextRemainder(rem, other);
      var result2 := Sum(result, NextDigit(rem, other));
      assert IsZero(DivLoop(rem2, other, result2, p - 1).0);
    }
  }

  /** A run that finishes within the precision of linear_divide is exact. */
  lemma ExactFrom(v: real, w: real)
    requires Finishes(v, w, 2 * DivPrecision)
    ensures ExactRun(v, w)
  {
    forall y: Dbt, n: Dbt
      | IsLinear(y) && IsLinear(n) && !IsZero(n) && Value(y) == Complex(0.0, v) && Value(n) == Complex(0.0, w)
      ensures IsZero(LinearRemainder(y, n))
    {
      if !IsZero(y) && !IsZero(n) {
        assert IsZero(DivLoop(y, n, Zero, 2 * DivPrecision).0);
      }
    }
  }

  /** A zero dividend is its own remainder. */
  lemma ExactZero(w: real)
    ensures ExactRun(0.0, w)
  {
    forall y: Dbt, n: Dbt | IsLinear(y) && IsLinear(n) && !IsZero(n) && Value(y) == Complex(0.0, 0.0) && Value(n) == Complex(0.0, w)
      ensures IsZero(LinearRemainder(y, n))
    {
      ZeroValue(y);
    }
  }

  /** The arithmetic of div: a times the conjugate of b, the norm of b, and c times b. */
  lemma DivAlgebra(u: Complex, v: Complex, z: Complex, xa: real, ya: real, xb: real, yb: real, xc: real, yc: real,
                    v1: real, v2: real, w: real)
    requires u == Complex(xa, ya) && v == Complex(xb, yb) && z == Complex(xc, yc)
    requires xb != 0.0 || yb != 0.0
    requires v1 == ya * yb + xa * xb && v2 == xa * yb - ya * xb && w == yb * yb + xb * xb
    requires xc * yb + yc * xb == xa && yc * yb - xc * xb == ya
    ensures v != Complex(0.0, 0.0)
    ensures Times(u, Conj(v)) == Complex(v2, v1) && Times(v, Conj(v)) == Complex(0.0, w)
    ensures Times(z, v) == u
  {
  }

  /** What a division test needs of its literal operands: no anomalous digit product in the
      two products div makes, and the values of a, b and c, coordinate by coordinate (the
      value of a number is y - x i). */
  ghost predicate DivFacts(a: Dbt, b: Dbt, c: Dbt, xa: real, ya: real, xb: real, yb: real, xc: real, yc: real)
  {
    && NoAnomaly(a, Conjugated(b)) && NoAnomaly(b, Conjugated(b))
    && HasValue(a, xa, ya) && HasValue(b, xb, yb) && HasValue(c, xc, yc)
  }

  /** x has the value vy - vx i. */
  ghost predicate HasValue(x: Dbt, vx: real, vy: real)
  {
    Value(x) == Complex(vx, vy)
  }

  /** div is exact on a and b, and its quotient is c, once both linear divisions it makes
      are exact and c times b is a. */
  lemma DivBy(a: Dbt, b: Dbt, c: Dbt, xa: real, ya: real, xb: real, yb: real, xc: real, yc: real,
              v1: real, v2: real, w: real)
    requires DivFacts(a, b, c, xa, ya, xb, yb, xc, yc)
    requires xb != 0.0 || yb != 0.0
    requires v1 == ya * yb + xa * xb && v2 == xa * yb - ya * xb && w == yb * yb + xb * xb
    requires ExactRun(v1, w) && ExactRun(v2, w)
    requires xc * yb + yc * xb == xa && yc * yb - xc * xb == ya
    ensures Div(a, b).Ok? && Same(Div(a, b).value, c)
  {
    ZeroValue(b);
    DivAlgebra(Value(a), Value(b), Value(c), xa, ya, xb, yb, xc, yc, v1, v2, w);
    DivSucceeds(a, b);
    NormNonzero(b);
    PartsValue(a, b);
    PartsLinear(a, b);
    NormValue(b);
    NormLinear(b);
    DivExact(a, b);
    var q := Div(a, b).value;
    TimesCancel(Value(q), Value(c), Value(b));
    ValueIffSame(q, c);
  }

  // ---------------------------------------------------------------------------------------
  // A division that swings
  // ---------------------------------------------------------------------------------------

  /** The leading digits of 2 (&19), -2 (&91) and 4 (&11). */
  lemma SwingLeads()
    ensures LeadsWith(2.0, (Dbt1, 1)) && LeadsWith(-2.0, (Dbt9, 1)) && LeadsWith(4.0, (Dbt1, 1))
  {
    IntegralLead(Dbt([Dbt9, Dbt1], []));
    LeadsFrom(Dbt([Dbt9, Dbt1], []), 2.0);
    IntegralLead(Dbt([Dbt1, Dbt9], []));
    LeadsFrom(Dbt([Dbt1, Dbt9], []), -2.0);
    IntegralLead(Dbt([Dbt1, Dbt1], []));
    LeadsFrom(Dbt([Dbt1, Dbt1], []), 4.0);
  }

  /** From a remainder of value s = 2 or -2 and a divisor of value 4, a turn negates the
      remainder: 2 and 4 both lead with 1 at position 1, so the guess is 1 and 2 - 4 = -2;
      from -2 the guess is 9 and -2 + 4 = 2. */
  lemma SwingTurn(rem: Dbt, other: Dbt, s: real)
    requires IsLinear(rem) && IsLinear(other)
    requires Value(other) == Complex(0.0, 4.0) && Value(rem) == Complex(0.0, s)
    requires s == 2.0 || s == -2.0
    ensures !IsZero(rem) && !IsZero(other) && IsLinear(NextRemainder(rem, other))
    ensures Value(NextRemainder(rem, other)) == Complex(0.0, -s)
  {
    SwingLeads();
    assert FirstDigit(other) == (Dbt1, 1);
    if s == 2.0 {
      assert FirstDigit(rem) == (Dbt1, 1);
      Turn(rem, other, (Dbt1, 1), (Dbt1, 1), 2.0, 4.0, 1.0);
    } else {
      assert FirstDigit(rem) == (Dbt9, 1);
      Turn(rem, other, (Dbt9, 1), (Dbt1, 1), -2.0, 4.0, -1.0);
    }
  }

  /** Every run of p turns from a remainder of value s, with a divisor of value 4, ends with a
      remainder of value t. */
  ghost predicate SwingsFrom(s: real, t: real, p: nat)
  {
    forall rem: Dbt, other: Dbt, result: Dbt {:trigger DivLoop(rem, other, result, p)}
      | IsLinear(rem) && IsLinear(other) && !IsZero(other)
        && Value(rem) == Complex(0.0, s) && Value(other) == Complex(0.0, 4.0)
      :: Value(DivLoop(rem, other, result, p).0) == Complex(0.0, t)
  }

  /** One more turn: runs of p - 1 turns from -s that end at t give runs of p turns from s
      that end at t. */
  lemma SwingStep(s: real, s2: real, t: real, p: nat)
    requires (s == 2.0 || s == -2.0) && s2 == -s
    requires p >= 1 && SwingsFrom(s2, t, p - 1)
    ensures SwingsFrom(s, t, p)
  {
    forall rem: Dbt, other: Dbt, result: Dbt
      | IsLinear(rem) && IsLinear(other) && !IsZero(other)
        && Value(rem) == Complex(0.0, s) && Value(other) == Complex(0.0, 4.0)
      ensures Value(DivLoop(rem, other, result, p).0) == Complex(0.0, t)
    {
      SwingTurn(rem, other, s);
      DivLoopUnfold(rem, other, result, p, p - 1);
      assert Value(DivLoop(NextRemainder(rem, other), other, Sum(result, NextDigit(rem, other)), p - 1).0)
          == Complex(0.0, t);
    }
  }

  /** No turn at all leaves the remainder of value 2 as it is. */
  lemma SwingNone()
    ensures SwingsFrom(2.0, 2.0, 0)
  {
    forall rem: Dbt, other: Dbt, result: Dbt | IsLinear(rem) && IsLinear(other) && !IsZero(other)
      ensures DivLoop(rem, other, result, 0) == (rem, result)
    {
      DivLoopDone(rem, other, result, 0);
    }
  }

  /** After the 2 DIV_PRECISION turns of linear_divide from 2 the remainder is 2 again. */
  lemma SwingRun()
    ensures SwingsFrom(2.0, 2.0, 2 * DivPrecision)
  {
    SwingNone();
    SwingStep(-2.0, 2.0, 2.0, 1);
    SwingStep(2.0, -2.0, 2.0, 2);
    SwingStep(-2.0, 2.0, 2.0, 3);
    SwingStep(2.0, -2.0, 2.0, 4);
    SwingStep(-2.0, 2.0, 2.0, 5);
    SwingStep(2.0, -2.0, 2.0, 6);
    SwingStep(-2.0, 2.0, 2.0, 7);
    SwingStep(2.0, -2.0, 2.0, 8);
    SwingStep(-2.0, 2.0, 2.0, 9);
    SwingStep(2.0, -2.0, 2.0, 10);
    SwingStep(-2.0, 2.0, 2.0, 11);
    SwingStep(2.0, -2.0, 2.0, 12);
    SwingStep(-2.0, 2.0, 2.0, 13);
    SwingStep(2.0, -2.0, 2.0, 14);
    SwingStep(-2.0, 2.0, 2.0, 15);
    SwingStep(2.0, -2.0, 2.0, 16);
    SwingStep(-2.0, 2.0, 2.0, 17);
    SwingStep(2.0, -2.0, 2.0, 18);
    SwingStep(-2.0, 2.0, 2.0, 19);
    SwingStep(2.0, -2.0, 2.0, 20);
  }

  /** linear_divide on numbers of values 2 and 4 leaves the dividend as its remainder. */
  lemma SwingRemainder(a: Dbt, b: Dbt)
    requires IsLinear(a) && IsLinear(b)
    requires Value(a) == Complex(0.0, 2.0) && Value(b) == Complex(0.0, 4.0)
    ensures Value(LinearRemainder(a, b)) == Value(a)
  {
    ZeroValue(a);
    ZeroValue(b);
    SwingRun();
    assert Value(DivLoop(a, b, Zero, 2 * DivPrecision).0) == Complex(0.0, 2.0);
  }

  /** linear_divide on numbers of values 2 and 4 does not approach 1/2: after its
      2 DIV_PRECISION turns the remainder is the dividend again and the quotient is zero. */
  lemma LinearDivideSwings(a: Dbt, b: Dbt)
    requires IsLinear(a) && IsLinear(b)
    requires Value(a) == Complex(0.0, 2.0) && Value(b) == Complex(0.0, 4.0)
    ensures LinearDivide(a, b).Ok? && IsZero(LinearDivide(a, b).value)
    ensures Value(LinearRemainder(a, b)) == Value(a)
  {
    ZeroValue(a);
    ZeroValue(b);
    SwingRemainder(a, b);
    LinearDivideValue(a, b);
    var q := LinearDivide(a, b).value;
    NothingTimesFour(Value(a), Value(LinearRemainder(a, b)), Value(q), Value(b));
    ZeroValue(q);
  }

  /** The arithmetic of the swing: u = u + 4 q forces q = 0. */
  lemma NothingTimesFour(u: Complex, r: Complex, q: Complex, b: Complex)
    requires u == Plus(r, Times(q, b)) && r == u && b == Complex(0.0, 4.0)
    ensures q == Complex(0.0, 0.0)
  {
  }

  /** div is zero on a and b when a and b lie on the real axis with a conj(b) = 2 and
      b conj(b) = 4: the first linear division swings and the second one divides zero. */
  lemma DivSwings(a: Dbt, b: Dbt, ya: real, yb: real)
    requires NoAnomaly(a, Conjugated(b)) && NoAnomaly(b, Conjugated(b))
    requires Value(a) == Complex(0.0, ya) && Value(b) == Complex(0.0, yb)
    requires ya * yb == 2.0 && yb * yb == 4.0
    ensures Div(a, b).Ok? && IsZero(Div(a, b).value)
  {
    HalfAlgebra(Value(a), Value(b), ya, yb);
    DivSucceeds(a, b);
    PartsValue(a, b);
    PartsLinear(a, b);
    NormValue(b);
    NormLinear(b);
    ZeroValue(CrossPart(a, b));
    LinearDivideSwings(LinearPart(a, b), Norm(b));
    DivValue(a, b);
    var q := Div(a, b).value;
    HalfCancel(Value(q), Value(Norm(b)), yb * yb, Times(Value(a), Conj(Value(b))),
               Value(LinearRemainder(LinearPart(a, b), Norm(b))), Value(LinearRemainder(CrossPart(a, b), Norm(b))));
    ZeroValue(q);
  }

  /** The arithmetic of DivSwings: when the remainders are the two dividends themselves,
      q times a nonzero real w is zero, so q is zero. */
  lemma HalfCancel(q: Complex, n: Complex, w: real, u: Complex, r1: Complex, r2: Complex)
    requires n == Complex(0.0, w) && w != 0.0
    requires r1 == Complex(0.0, u.y) && r2 == Complex(0.0, u.x)
    requires Times(q, n) == Minus(u, Plus(r1, Times(Complex(1.0, 0.0), r2)))
    ensures q == Complex(0.0, 0.0)
  {
  }

  /** &1 / &19, one half, is &5. */
  lemma DivHalf()
    ensures Div(Dbt([Dbt1], []), Dbt([Dbt9, Dbt1], [])).Ok?
    ensures IsZero(Div(Dbt([Dbt1], []), Dbt([Dbt9, Dbt1], [])).value)
  {
    var a, b := Dbt([Dbt1], []), Dbt([Dbt9, Dbt1], []);
    assert NoAnomaly(a, Conjugated(b)) && NoAnomaly(b, Conjugated(b));
    assert HasValue(a, 0.0, 1.0) && HasValue(b, 0.0, 2.0);
    DivSwings(a, b, 1.0, 2.0);
  }

  /** The products div forms from values a and b on the real axis: a conj(b) is ab and
      b conj(b) is b^2. */
  lemma HalfAlgebra(u: Complex, v: Complex, a: real, b: real)
    requires u == Complex(0.0, a) && v == Complex(0.0, b)
    ensures Times(u, Conj(v)) == Complex(0.0, a * b) && Times(v, Conj(v)) == Complex(0.0, b * b)
  {
  }

  /** The leading digit of the value 1.0. */
  lemma Lead15By10()
    ensures LeadsWith(1.0, (Dbt1, 0))
  {
    IntegralLead(Dbt([Dbt1], []));
    LeadsFrom(Dbt([Dbt1], []), 1.0);
  }

  /** The leading digit of the value 3.0. */
  lemma Lead15By11()
    ensures LeadsWith(3.0, (Dbt1, 1))
  {
    IntegralLead(Dbt([Dbt5, Dbt1], []));
    LeadsFrom(Dbt([Dbt5, Dbt1], []), 3.0);
  }

  /** The linear run of 15 / 1 is exact. */
  lemma Exact15By1Linear()
    ensures ExactRun(3.0, 1.0)
  {
    Lead15By10();
    FinishesZero(1.0, 19);
    Lead15By11();
    FinishesTurn(3.0, 1.0, 20, (Dbt1, 1), (Dbt1, 0), 1, 3.0);
    ExactFrom(3.0, 1.0);
  }

  /** The value of &15. */
  lemma Value15()
    ensures HasValue(Dbt([Dbt5, Dbt1], []), 0.0, 3.0)
  {
  }

  /** The value of &1. */
  lemma Value1()
    ensures HasValue(Dbt([Dbt1], []), 0.0, 1.0)
  {
  }

  /** The operands of &15 / &1 and their values. */
  lemma Facts15By1()
    ensures DivFacts(Dbt([Dbt5, Dbt1], []), Dbt([Dbt1], []), Dbt([Dbt5, Dbt1], []),
            0.0, 3.0, 0.0, 1.0, 0.0, 3.0)
  {
    Value15();
    Value1();
  }

  /** &15 / &1 == &15 (tests/math_test.rs:150). */
  lemma Div15By1()
    ensures Div(Dbt([Dbt5, Dbt1], []), Dbt([Dbt1], [])).Ok?
    ensures Same(Div(Dbt([Dbt5, Dbt1], []), Dbt([Dbt1], [])).value, Dbt([Dbt5, Dbt1], []))
  {
    Facts15By1();
    Exact15By1Linear();
    ExactZero(1.0);
    DivBy(Dbt([Dbt5, Dbt1], []), Dbt([Dbt1], []), Dbt([Dbt5, Dbt1], []),
          0.0, 3.0, 0.0, 1.0, 0.0, 3.0,
          3.0, 0.0, 1.0);
  }

  /** The leading digit of the value 13.0. */
  lemma Lead111By230()
    ensures LeadsWith(13.0, (Dbt1, 2))
  {
    IntegralLead(Dbt([Dbt1, Dbt1, Dbt1], []));
    LeadsFrom(Dbt([Dbt1, Dbt1, Dbt1], []), 13.0);
  }

  /** The leading digit of the value -39.0. */
  lemma Lead111By231()
    ensures LeadsWith(-39.0, (Dbt9, 3))
  {
    IntegralLead(Dbt([Dbt5, Dbt9, Dbt9, Dbt9], []));
    LeadsFrom(Dbt([Dbt5, Dbt9, Dbt9, Dbt9], []), -39.0);
  }

  /** The linear run of 111 / 23 is exact. */
  lemma Exact111By23Linear()
    ensures ExactRun(-39.0, 13.0)
  {
    Lead111By230();
    FinishesZero(13.0, 19);
    Lead111By231();
    FinishesTurn(-39.0, 13.0, 20, (Dbt9, 3), (Dbt1, 2), 1, -3.0);
    ExactFrom(-39.0, 13.0);
  }

  /** The leading digit of the value 26.0. */
  lemma Lead111By232()
    ensures LeadsWith(26.0, (Dbt1, 3))
  {
    IntegralLead(Dbt([Dbt9, Dbt5, Dbt5, Dbt1], []));
    LeadsFrom(Dbt([Dbt9, Dbt5, Dbt5, Dbt1], []), 26.0);
  }

  /** The leading digit of the value -13.0. */
  lemma Lead111By233()
    ensures LeadsWith(-13.0, (Dbt9, 2))
  {
    IntegralLead(Dbt([Dbt9, Dbt9, Dbt9], []));
    LeadsFrom(Dbt([Dbt9, Dbt9, Dbt9], []), -13.0);
  }

  /** The cross run of 111 / 23 is exact. */
  lemma Exact111By23Cross()
    ensures ExactRun(26.0, 13.0)
  {
    Lead111By230();
    FinishesZero(13.0, 18);
    Lead111By233();
    FinishesTurn(-13.0, 13.0, 19, (Dbt9, 2), (Dbt1, 2), 0, -1.0);
    Lead111By232();
    FinishesTurn(26.0, 13.0, 20, (Dbt1, 3), (Dbt1, 2), 1, 3.0);
    ExactFrom(26.0, 13.0);
  }

  /** The value of &111. */
  lemma Value111()
    ensures HasValue(Dbt([Dbt1, Dbt1, Dbt1], []), 0.0, 13.0)
  {
  }

  /** The value of &23. */
  lemma Value23()
    ensures HasValue(Dbt([Dbt3, Dbt2], []), -2.0, -3.0)
  {
  }

  /** The value of &47. */
  lemma Value47()
    ensures HasValue(Dbt([Dbt7, Dbt4], []), 2.0, -3.0)
  {
  }

  /** The operands of &111 / &23 and their values. */
  lemma Facts111By23()
    ensures DivFacts(Dbt([Dbt1, Dbt1, Dbt1], []), Dbt([Dbt3, Dbt2], []), Dbt([Dbt7, Dbt4], []),
            0.0, 13.0, -2.0, -3.0, 2.0, -3.0)
  {
    Value111();
    Value23();
    Value47();
  }

  /** &111 / &23 == &47 (tests/math_test.rs:151). */
  lemma Div111By23()
    ensures Div(Dbt([Dbt1, Dbt1, Dbt1], []), Dbt([Dbt3, Dbt2], [])).Ok?
    ensures Same(Div(Dbt([Dbt1, Dbt1, Dbt1], []), Dbt([Dbt3, Dbt2], [])).value, Dbt([Dbt7, Dbt4], []))
  {
    Facts111By23();
    Exact111By23Linear();
    Exact111By23Cross();
    DivBy(Dbt([Dbt1, Dbt1, Dbt1], []), Dbt([Dbt3, Dbt2], []), Dbt([Dbt7, Dbt4], []),
          0.0, 13.0, -2.0, -3.0, 2.0, -3.0,
          -39.0, 26.0, 13.0);
  }

  /** The leading digit of the value 269.0. */
  lemma Lead743316By6160()
    ensures LeadsWith(269.0, (Dbt1, 5))
  {
    IntegralLead(Dbt([Dbt9, Dbt5, Dbt5, Dbt1, Dbt5, Dbt1], []));
    LeadsFrom(Dbt([Dbt9, Dbt5, Dbt5, Dbt1, Dbt5, Dbt1], []), 269.0);
  }

  /** The linear run of 743316 / 616 is exact. */
  lemma Exact743316By616Linear()
    ensures ExactRun(269.0, 269.0)
  {
    Lead743316By6160();
    FinishesZero(269.0, 19);
    Lead743316By6160();
    FinishesTurn(269.0, 269.0, 20, (Dbt1, 5), (Dbt1, 5), 0, 1.0);
    ExactFrom(269.0, 269.0);
  }

  /** The leading digit of the value -2421.0. */
  lemma Lead743316By6161()
    ensures LeadsWith(-2421.0, (Dbt9, 7))
  {
    IntegralLead(Dbt([Dbt5, Dbt5, Dbt1, Dbt5, Dbt5, Dbt9, Dbt5, Dbt9], []));
    LeadsFrom(Dbt([Dbt5, Dbt5, Dbt1, Dbt5, Dbt5, Dbt9, Dbt5, Dbt9], []), -2421.0);
  }

  /** The cross run of 743316 / 616 is exact. */
  lemma Exact743316By616Cross()
    ensures ExactRun(-2421.0, 269.0)
  {
    Lead743316By6160();
    FinishesZero(269.0, 19);
    Lead743316By6161();
    FinishesTurn(-2421.0, 269.0, 20, (Dbt9, 7), (Dbt1, 5), 2, -9.0);
    ExactFrom(-2421.0, 269.0);
  }

  /** The value of &743316. */
  lemma Value743316()
    ensures HasValue(Dbt([Dbt6, Dbt1, Dbt3, Dbt3, Dbt4, Dbt7], []), -127.0, -77.0)
  {
  }

  /** The value of &616. */
  lemma Value616()
    ensures HasValue(Dbt([Dbt6, Dbt1, Dbt6], []), -10.0, 13.0)
  {
  }

  /** The value of &751. */
  lemma Value751()
    ensures HasValue(Dbt([Dbt1, Dbt5, Dbt7], []), -9.0, 1.0)
  {
  }

  /** The operands of &743316 / &616 and their values. */
  lemma Facts743316By616()
    ensures DivFacts(Dbt([Dbt6, Dbt1, Dbt3, Dbt3, Dbt4, Dbt7], []), Dbt([Dbt6, Dbt1, Dbt6], []), Dbt([Dbt1, Dbt5, Dbt7], []),
            -127.0, -77.0, -10.0, 13.0, -9.0, 1.0)
  {
    Value743316();
    Value616();
    Value751();
  }

  /** &743316 / &616 == &751 (tests/math_test.rs:152). */
  lemma Div743316By616()
    ensures Div(Dbt([Dbt6, Dbt1, Dbt3, Dbt3, Dbt4, Dbt7], []), Dbt([Dbt6, Dbt1, Dbt6], [])).Ok?
    ensures Same(Div(Dbt([Dbt6, Dbt1, Dbt3, Dbt3, Dbt4, Dbt7], []), Dbt([Dbt6, Dbt1, Dbt6], [])).value, Dbt([Dbt1, Dbt5, Dbt7], []))
  {
    Facts743316By616();
    Exact743316By616Linear();
    Exact743316By616Cross();
    DivBy(Dbt([Dbt6, Dbt1, Dbt3, Dbt3, Dbt4, Dbt7], []), Dbt([Dbt6, Dbt1, Dbt6], []), Dbt([Dbt1, Dbt5, Dbt7], []),
          -127.0, -77.0, -10.0, 13.0, -9.0, 1.0,
          269.0, -2421.0, 269.0);
  }

  /** The leading digit of the value 82.0. */
  lemma Lead743316By7510()
    ensures LeadsWith(82.0, (Dbt1, 4))
  {
    IntegralLead(Dbt([Dbt1, Dbt5, Dbt5, Dbt5, Dbt1], []));
    LeadsFrom(Dbt([Dbt1, Dbt5, Dbt5, Dbt5, Dbt1], []), 82.0);
  }

  /** The leading digit of the value 1066.0. */
  lemma Lead743316By7511()
    ensures LeadsWith(1066.0, (Dbt1, 6))
  {
    IntegralLead(Dbt([Dbt1, Dbt1, Dbt1, Dbt5, Dbt1, Dbt1, Dbt1], []));
    LeadsFrom(Dbt([Dbt1, Dbt1, Dbt1, Dbt5, Dbt1, Dbt1, Dbt1], []), 1066.0);
  }

  /** The leading digit of the value 328.0. */
  lemma Lead743316By7512()
    ensures LeadsWith(328.0, (Dbt1, 5))
  {
    IntegralLead(Dbt([Dbt1, Dbt1, Dbt5, Dbt5, Dbt1, Dbt1], []));
    LeadsFrom(Dbt([Dbt1, Dbt1, Dbt5, Dbt5, Dbt1, Dbt1], []), 328.0);
  }

  /** The linear run of 743316 / 751 is exact. */
  lemma Exact743316By751Linear()
    ensures ExactRun(1066.0, 82.0)
  {
    Lead743316By7510();
    FinishesZero(82.0, 17);
    Lead743316By7510();
    FinishesTurn(82.0, 82.0, 18, (Dbt1, 4), (Dbt1, 4), 0, 1.0);
    Lead743316By7512();
    FinishesTurn(328.0, 82.0, 19, (Dbt1, 5), (Dbt1, 4), 1, 3.0);
    Lead743316By7511();
    FinishesTurn(1066.0, 82.0, 20, (Dbt1, 6), (Dbt1, 4), 2, 9.0);
    ExactFrom(1066.0, 82.0);
  }

  /** The leading digit of the value -820.0. */
  lemma Lead743316By7513()
    ensures LeadsWith(-820.0, (Dbt9, 6))
  {
    IntegralLead(Dbt([Dbt9, Dbt5, Dbt9, Dbt5, Dbt9, Dbt5, Dbt9], []));
    LeadsFrom(Dbt([Dbt9, Dbt5, Dbt9, Dbt5, Dbt9, Dbt5, Dbt9], []), -820.0);
  }

  /** The leading digit of the value -82.0. */
  lemma Lead743316By7514()
    ensures LeadsWith(-82.0, (Dbt9, 4))
  {
    IntegralLead(Dbt([Dbt9, Dbt5, Dbt5, Dbt5, Dbt9], []));
    LeadsFrom(Dbt([Dbt9, Dbt5, Dbt5, Dbt5, Dbt9], []), -82.0);
  }

  /** The cross run of 743316 / 751 is exact. */
  lemma Exact743316By751Cross()
    ensures ExactRun(-820.0, 82.0)
  {
    Lead743316By7510();
    FinishesZero(82.0, 18);
    Lead743316By7514();
    FinishesTurn(-82.0, 82.0, 19, (Dbt9, 4), (Dbt1, 4), 0, -1.0);
    Lead743316By7513();
    FinishesTurn(-820.0, 82.0, 20, (Dbt9, 6), (Dbt1, 4), 2, -9.0);
    ExactFrom(-820.0, 82.0);
  }

  /** The operands of &743316 / &751 and their values. */
  lemma Facts743316By751()
    ensures DivFacts(Dbt([Dbt6, Dbt1, Dbt3, Dbt3, Dbt4, Dbt7], []), Dbt([Dbt1, Dbt5, Dbt7], []), Dbt([Dbt6, Dbt1, Dbt6], []),
            -127.0, -77.0, -9.0, 1.0, -10.0, 13.0)
  {
    Value743316();
    Value751();
    Value616();
  }

  /** &743316 / &751 == &616 (tests/math_test.rs:153). */
  lemma Div743316By751()
    ensures Div(Dbt([Dbt6, Dbt1, Dbt3, Dbt3, Dbt4, Dbt7], []), Dbt([Dbt1, Dbt5, Dbt7], [])).Ok?
    ensures Same(Div(Dbt([Dbt6, Dbt1, Dbt3, Dbt3, Dbt4, Dbt7], []), Dbt([Dbt1, Dbt5, Dbt7], [])).value, Dbt([Dbt6, Dbt1, Dbt6], []))
  {
    Facts743316By751();
    Exact743316By751Linear();
    Exact743316By751Cross();
    DivBy(Dbt([Dbt6, Dbt1, Dbt3, Dbt3, Dbt4, Dbt7], []), Dbt([Dbt1, Dbt5, Dbt7], []), Dbt([Dbt6, Dbt1, Dbt6], []),
          -127.0, -77.0, -9.0, 1.0, -10.0, 13.0,
          1066.0, -820.0, 82.0);
  }

  /** The leading digit of the value (16.0 / 9.0). */
  lemma Lead349By330()
    ensures LeadsWith((16.0 / 9.0), (Dbt1, 1))
  {
    IntegralLead(Dbt([Dbt9, Dbt1], [Dbt9, Dbt1]));
    LeadsFrom(Dbt([Dbt9, Dbt1], [Dbt9, Dbt1]), (16.0 / 9.0));
  }

  /** The linear run of 349 / 33 is exact. */
  lemma Exact349By33Linear()
    ensures ExactRun((16.0 / 9.0), (16.0 / 9.0))
  {
    Lead349By330();
    FinishesZero((16.0 / 9.0), 19);
    Lead349By330();
    FinishesTurn((16.0 / 9.0), (16.0 / 9.0), 20, (Dbt1, 1), (Dbt1, 1), 0, 1.0);
    ExactFrom((16.0 / 9.0), (16.0 / 9.0));
  }

  /** The leading digit of the value (16.0 / 27.0). */
  lemma Lead349By331()
    ensures LeadsWith((16.0 / 27.0), (Dbt1, 0))
  {
    IntegralLead(Dbt([Dbt1], [Dbt9, Dbt9, Dbt1]));
    LeadsFrom(Dbt([Dbt1], [Dbt9, Dbt9, Dbt1]), (16.0 / 27.0));
  }

  /** The cross run of 349 / 33 is exact. */
  lemma Exact349By33Cross()
    ensures ExactRun((16.0 / 27.0), (16.0 / 9.0))
  {
    Lead349By330();
    FinishesZero((16.0 / 9.0), 19);
    Lead349By331();
    FinishesTurn((16.0 / 27.0), (16.0 / 9.0), 20, (Dbt1, 0), (Dbt1, 1), -1, (1.0 / 3.0));
    ExactFrom((16.0 / 27.0), (16.0 / 9.0));
  }

  /** The value of &3.49. */
  lemma Value3p49()
    ensures HasValue(Dbt([Dbt3], [Dbt4, Dbt9]), (4.0 / 3.0), (-4.0 / 9.0))
  {
  }

  /** The value of &3.3. */
  lemma Value3p3()
    ensures HasValue(Dbt([Dbt3], [Dbt3]), (4.0 / 3.0), 0.0)
  {
  }

  /** The value of &1.3. */
  lemma Value1p3()
    ensures HasValue(Dbt([Dbt1], [Dbt3]), (1.0 / 3.0), 1.0)
  {
  }

  /** The operands of &3.49 / &3.3 and their values. */
  lemma Facts349By33()
    ensures DivFacts(Dbt([Dbt3], [Dbt4, Dbt9]), Dbt([Dbt3], [Dbt3]), Dbt([Dbt1], [Dbt3]),
            (4.0 / 3.0), (-4.0 / 9.0), (4.0 / 3.0), 0.0, (1.0 / 3.0), 1.0)
  {
    Value3p49();
    Value3p3();
    Value1p3();
  }

  /** &3.49 / &3.3 == &1.3 (tests/math_test.rs:155). */
  lemma Div349By33()
    ensures Div(Dbt([Dbt3], [Dbt4, Dbt9]), Dbt([Dbt3], [Dbt3])).Ok?
    ensures Same(Div(Dbt([Dbt3], [Dbt4, Dbt9]), Dbt([Dbt3], [Dbt3])).value, Dbt([Dbt1], [Dbt3]))
  {
    Facts349By33();
    Exact349By33Linear();
    Exact349By33Cross();
    DivBy(Dbt([Dbt3], [Dbt4, Dbt9]), Dbt([Dbt3], [Dbt3]), Dbt([Dbt1], [Dbt3]),
          (4.0 / 3.0), (-4.0 / 9.0), (4.0 / 3.0), 0.0, (1.0 / 3.0), 1.0,
          (16.0 / 9.0), (16.0 / 27.0), (16.0 / 9.0));
  }

  /** The leading digit of the value (10.0 / 9.0). */
  lemma Lead349By130()
    ensures LeadsWith((10.0 / 9.0), (Dbt1, 0))
  {
    IntegralLead(Dbt([Dbt1], [Dbt5, Dbt1]));
    LeadsFrom(Dbt([Dbt1], [Dbt5, Dbt1]), (10.0 / 9.0));
  }

  /** The leading digit of the value (40.0 / 27.0). */
  lemma Lead349By131()
    ensures LeadsWith((40.0 / 27.0), (Dbt1, 0))
  {
    IntegralLead(Dbt([Dbt1], [Dbt1, Dbt1, Dbt1]));
    LeadsFrom(Dbt([Dbt1], [Dbt1, Dbt1, Dbt1]), (40.0 / 27.0));
  }

  /** The leading digit of the value (10.0 / 27.0). */
  lemma Lead349By132()
    ensures LeadsWith((10.0 / 27.0), (Dbt1, -1))
  {
    IntegralLead(Dbt([Dbt1, Dbt5, Dbt1], []));
    LeadsFrom(Dbt([Dbt1, Dbt5, Dbt1], []), 10.0);
    LeadsDown((10.0 / 3.0), Dbt1, 1);
    LeadsDown((10.0 / 9.0), Dbt1, 0);
    LeadsDown((10.0 / 27.0), Dbt1, -1);
  }

  /** The cross run of 349 / 13 is exact. */
  lemma Exact349By13Cross()
    ensures ExactRun((40.0 / 27.0), (10.0 / 9.0))
  {
    Lead349By130();
    FinishesZero((10.0 / 9.0), 18);
    Lead349By132();
    FinishesTurn((10.0 / 27.0), (10.0 / 9.0), 19, (Dbt1, -1), (Dbt1, 0), -1, (1.0 / 3.0));
    Lead349By131();
    FinishesTurn((40.0 / 27.0), (10.0 / 9.0), 20, (Dbt1, 0), (Dbt1, 0), 0, 1.0);
    ExactFrom((40.0 / 27.0), (10.0 / 9.0));
  }

  /** The operands of &3.49 / &1.3 and their values. */
  lemma Facts349By13()
    ensures DivFacts(Dbt([Dbt3], [Dbt4, Dbt9]), Dbt([Dbt1], [Dbt3]), Dbt([Dbt3], [Dbt3]),
            (4.0 / 3.0), (-4.0 / 9.0), (1.0 / 3.0), 1.0, (4.0 / 3.0), 0.0)
  {
    Value3p49();
    Value1p3();
    Value3p3();
  }

  /** &3.49 / &1.3 == &3.3 (tests/math_test.rs:156). */
  lemma Div349By13()
    ensures Div(Dbt([Dbt3], [Dbt4, Dbt9]), Dbt([Dbt1], [Dbt3])).Ok?
    ensures Same(Div(Dbt([Dbt3], [Dbt4, Dbt9]), Dbt([Dbt1], [Dbt3])).value, Dbt([Dbt3], [Dbt3]))
  {
    Facts349By13();
    ExactZero((10.0 / 9.0));
    Exact349By13Cross();
    DivBy(Dbt([Dbt3], [Dbt4, Dbt9]), Dbt([Dbt1], [Dbt3]), Dbt([Dbt3], [Dbt3]),
          (4.0 / 3.0), (-4.0 / 9.0), (1.0 / 3.0), 1.0, (4.0 / 3.0), 0.0,
          0.0, (40.0 / 27.0), (10.0 / 9.0));
  }

  /** The leading digit of the value (5.0 / 6561.0). */
  lemma Lead55555928By55360()
    ensures LeadsWith((5.0 / 6561.0), (Dbt1, -6))
  {
    IntegralLead(Dbt([Dbt9, Dbt9, Dbt1], []));
    LeadsFrom(Dbt([Dbt9, Dbt9, Dbt1], []), 5.0);
    LeadsDown((5.0 / 3.0), Dbt1, 1);
    LeadsDown((5.0 / 9.0), Dbt1, 0);
    LeadsDown((5.0 / 27.0), Dbt1, -1);
    LeadsDown((5.0 / 81.0), Dbt1, -2);
    LeadsDown((5.0 / 243.0), Dbt1, -3);
    LeadsDown((5.0 / 729.0), Dbt1, -4);
    LeadsDown((5.0 / 2187.0), Dbt1, -5);
    LeadsDown((5.0 / 6561.0), Dbt1, -6);
  }

  /** The leading digit of the value (-5.0 / 177147.0). */
  lemma Lead55555928By55361()
    ensures LeadsWith((-5.0 / 177147.0), (Dbt9, -9))
  {
    IntegralLead(Dbt([Dbt1, Dbt1, Dbt9], []));
    LeadsFrom(Dbt([Dbt1, Dbt1, Dbt9], []), -5.0);
    LeadsDown((-5.0 / 3.0), Dbt9, 1);
    LeadsDown((-5.0 / 9.0), Dbt9, 0);
    LeadsDown((-5.0 / 27.0), Dbt9, -1);
    LeadsDown((-5.0 / 81.0), Dbt9, -2);
    LeadsDown((-5.0 / 243.0), Dbt9, -3);
    LeadsDown((-5.0 / 729.0), Dbt9, -4);
    LeadsDown((-5.0 / 2187.0), Dbt9, -5);
    LeadsDown((-5.0 / 6561.0), Dbt9, -6);
    LeadsDown((-5.0 / 19683.0), Dbt9, -7);
    LeadsDown((-5.0 / 59049.0), Dbt9, -8);
    LeadsDown((-5.0 / 177147.0), Dbt9, -9);
  }

  /** The linear run of 55555928 / 5536 is exact. */
  lemma Exact55555928By5536Linear()
    ensures ExactRun((-5.0 / 177147.0), (5.0 / 6561.0))
  {
    Lead55555928By55360();
    FinishesZero((5.0 / 6561.0), 19);
    Lead55555928By55361();
    FinishesTurn((-5.0 / 177147.0), (5.0 / 6561.0), 20, (Dbt9, -9), (Dbt1, -6), -3, (-1.0 / 27.0));
    ExactFrom((-5.0 / 177147.0), (5.0 / 6561.0));
  }

  /** The leading digit of the value (20.0 / 531441.0). */
  lemma Lead55555928By55362()
    ensures LeadsWith((20.0 / 531441.0), (Dbt1, -9))
  {
    IntegralLead(Dbt([Dbt9, Dbt1, Dbt9, Dbt1], []));
    LeadsFrom(Dbt([Dbt9, Dbt1, Dbt9, Dbt1], []), 20.0);
    LeadsDown((20.0 / 3.0), Dbt1, 2);
    LeadsDown((20.0 / 9.0), Dbt1, 1);
    LeadsDown((20.0 / 27.0), Dbt1, 0);
    LeadsDown((20.0 / 81.0), Dbt1, -1);
    LeadsDown((20.0 / 243.0), Dbt1, -2);
    LeadsDown((20.0 / 729.0), Dbt1, -3);
    LeadsDown((20.0 / 2187.0), Dbt1, -4);
    LeadsDown((20.0 / 6561.0), Dbt1, -5);
    LeadsDown((20.0 / 19683.0), Dbt1, -6);
    LeadsDown((20.0 / 59049.0), Dbt1, -7);
    LeadsDown((20.0 / 177147.0), Dbt1, -8);
    LeadsDown((20.0 / 531441.0), Dbt1, -9);
  }

  /** The leading digit of the value (5.0 / 531441.0). */
  lemma Lead55555928By55363()
    ensures LeadsWith((5.0 / 531441.0), (Dbt1, -10))
  {
    IntegralLead(Dbt([Dbt9, Dbt9, Dbt1], []));
    LeadsFrom(Dbt([Dbt9, Dbt9, Dbt1], []), 5.0);
    LeadsDown((5.0 / 3.0), Dbt1, 1);
    LeadsDown((5.0 / 9.0), Dbt1, 0);
    LeadsDown((5.0 / 27.0), Dbt1, -1);
    LeadsDown((5.0 / 81.0), Dbt1, -2);
    LeadsDown((5.0 / 243.0), Dbt1, -3);
    LeadsDown((5.0 / 729.0), Dbt1, -4);
    LeadsDown((5.0 / 2187.0), Dbt1, -5);
    LeadsDown((5.0 / 6561.0), Dbt1, -6);
    LeadsDown((5.0 / 19683.0), Dbt1, -7);
    LeadsDown((5.0 / 59049.0), Dbt1, -8);
    LeadsDown((5.0 / 177147.0), Dbt1, -9);
    LeadsDown((5.0 / 531441.0), Dbt1, -10);
  }

  /** The cross run of 55555928 / 5536 is exact. */
  lemma Exact55555928By5536Cross()
    ensures ExactRun((20.0 / 531441.0), (5.0 / 6561.0))
  {
    Lead55555928By55360();
    FinishesZero((5.0 / 6561.0), 18);
    Lead55555928By55363();
    FinishesTurn((5.0 / 531441.0), (5.0 / 6561.0), 19, (Dbt1, -10), (Dbt1, -6), -4, (1.0 / 81.0));
    Lead55555928By55362();
    FinishesTurn((20.0 / 531441.0), (5.0 / 6561.0), 20, (Dbt1, -9), (Dbt1, -6), -3, (1.0 / 27.0));
    ExactFrom((20.0 / 531441.0), (5.0 / 6561.0));
  }

  /** The value of &.55555928. */
  lemma Value0p55555928()
    ensures HasValue(Dbt([], [Dbt5, Dbt5, Dbt5, Dbt5, Dbt5, Dbt9, Dbt2, Dbt8]), (-2.0 / 6561.0), (-11.0 / 6561.0))
  {
  }

  /** The value of &.5536. */
  lemma Value0p5536()
    ensures HasValue(Dbt([], [Dbt5, Dbt5, Dbt3, Dbt6]), (2.0 / 81.0), (1.0 / 81.0))
  {
  }

  /** The value of &.5543. */
  lemma Value0p5543()
    ensures HasValue(Dbt([], [Dbt5, Dbt5, Dbt4, Dbt3]), (4.0 / 81.0), (-1.0 / 27.0))
  {
  }

  /** The operands of &.55555928 / &.5536 and their values. */
  lemma Facts55555928By5536()
    ensures DivFacts(Dbt([], [Dbt5, Dbt5, Dbt5, Dbt5, Dbt5, Dbt9, Dbt2, Dbt8]), Dbt([], [Dbt5, Dbt5, Dbt3, Dbt6]), Dbt([], [Dbt5, Dbt5, Dbt4, Dbt3]),
            (-2.0 / 6561.0), (-11.0 / 6561.0), (2.0 / 81.0), (1.0 / 81.0), (4.0 / 81.0), (-1.0 / 27.0))
  {
    Value0p55555928();
    Value0p5536();
    Value0p5543();
  }

  /** &.55555928 / &.5536 == &.5543 (tests/math_test.rs:158). */
  lemma Div55555928By5536()
    ensures Div(Dbt([], [Dbt5, Dbt5, Dbt5, Dbt5, Dbt5, Dbt9, Dbt2, Dbt8]), Dbt([], [Dbt5, Dbt5, Dbt3, Dbt6])).Ok?
    ensures Same(Div(Dbt([], [Dbt5, Dbt5, Dbt5, Dbt5, Dbt5, Dbt9, Dbt2, Dbt8]), Dbt([], [Dbt5, Dbt5, Dbt3, Dbt6])).value, Dbt([], [Dbt5, Dbt5, Dbt4, Dbt3]))
  {
    Facts55555928By5536();
    Exact55555928By5536Linear();
    Exact55555928By5536Cross();
    DivBy(Dbt([], [Dbt5, Dbt5, Dbt5, Dbt5, Dbt5, Dbt9, Dbt2, Dbt8]), Dbt([], [Dbt5, Dbt5, Dbt3, Dbt6]), Dbt([], [Dbt5, Dbt5, Dbt4, Dbt3]),
          (-2.0 / 6561.0), (-11.0 / 6561.0), (2.0 / 81.0), (1.0 / 81.0), (4.0 / 81.0), (-1.0 / 27.0),
          (-5.0 / 177147.0), (20.0 / 531441.0), (5.0 / 6561.0));
  }
}
