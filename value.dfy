/** The exact value of a number. Digits are read as vectors (x, y) in {-1, 0, 1}^2; the
    digit at signed position p weighs 3^p, so a number denotes a pair of exact rationals, one
    per axis. The pair is read as the complex number y - x i, with Dbt1 = (0, 1) as 1. */
module TernaryValue {
  import opened Digits
  import opened Ternary

  datatype Axis = AxisX | AxisY

  function Coord(d: Digit, a: Axis): int
  {
    match a
    case AxisX => X(d)
    case AxisY => Y(d)
  }

  /** c 3^p for an integer coefficient c and any integer exponent p, as an exact rational.
      Only multiplications and divisions by 3 occur, which keeps the arithmetic linear. */
  function W(c: int, p: int): real
    decreases if p >= 0 then p else -p
  {
    if p == 0 then c as real else if p > 0 then 3.0 * W(c, p - 1) else W(c, p + 1) / 3.0
  }

  /** c 3^i for natural i, as an integer. */
  function IW(c: int, i: nat): int
  {
    if i == 0 then c else 3 * IW(c, i - 1)
  }

  lemma WStep(c: int, p: int)
    ensures W(c, p + 1) == 3.0 * W(c, p)
  {
  }

  /** c 3^p is linear in c, and 3c 3^p = c 3^(p+1). */
  lemma {:induction false} WLinear(c1: int, c2: int, p: int)
    ensures W(c1 + c2, p) == W(c1, p) + W(c2, p)
    ensures W(-c1, p) == -W(c1, p)
    ensures W(3 * c1, p) == W(c1, p + 1)
    decreases if p >= 0 then p else -p
  {
    if p > 0 {
      WLinear(c1, c2, p - 1);
    } else if p < 0 {
      WLinear(c1, c2, p + 1);
      WStep(c1, p);
    }
  }

  lemma {:induction false} WNat(c: int, i: nat)
    ensures W(c, i) == IW(c, i) as real
  {
    if i > 0 {
      WNat(c, i - 1);
    }
  }

  lemma {:induction false} IWLinear(c1: int, c2: int, i: nat)
    ensures IW(c1 + c2, i) == IW(c1, i) + IW(c2, i)
  {
    if i > 0 {
      IWLinear(c1, c2, i - 1);
    }
  }

  /** The integral digits on one axis, least significant first (Horner form). */
  function IntVal(s: seq<Digit>, a: Axis): int
  {
    if s == [] then 0 else Coord(s[0], a) + 3 * IntVal(s[1..], a)
  }

  /** The fractional digits on one axis, most significant first (Horner form). */
  function FracVal(s: seq<Digit>, a: Axis): real
  {
    if s == [] then 0.0 else (Coord(s[0], a) as real + FracVal(s[1..], a)) / 3.0
  }

  /** The exact value of x on one axis. */
  function AxisValue(x: Dbt, a: Axis): real
  {
    IntVal(x.integral, a) as real + FracVal(x.fractional, a)
  }

  // ---------------------------------------------------------------------------------------
  // Complex values
  // ---------------------------------------------------------------------------------------

  /** The pair (x, y), read as y - x i. */
  datatype Complex = Complex(x: real, y: real)

  const One: Complex := Complex(0.0, 1.0)

  function Plus(u: Complex, v: Complex): Complex { Complex(u.x + v.x, u.y + v.y) }

  function Minus(u: Complex, v: Complex): Complex { Complex(u.x - v.x, u.y - v.y) }

  /** The product of y1 - x1 i and y2 - x2 i. */
  function Times(u: Complex, v: Complex): Complex
  {
    Complex(u.x * v.y + u.y * v.x, u.y * v.y - u.x * v.x)
  }

  /** The conjugate of y - x i, which is y + x i. */
  function Conj(u: Complex): Complex { Complex(-u.x, u.y) }

  /** The value of digit d at signed position p: its vector times 3^p. */
  function Place(d: Digit, p: int): Complex
  {
    Complex(W(X(d), p), W(Y(d), p))
  }

  /** The exact value of a number. */
  function Value(x: Dbt): (v: Complex)
    ensures v.x == AxisValue(x, AxisX) && v.y == AxisValue(x, AxisY)
  {
    Complex(AxisValue(x, AxisX), AxisValue(x, AxisY))
  }

  /** One is the identity of Times, Times is commutative and associative, and a value times
      its conjugate is the real |u|^2 (no x part). */
  lemma TimesLaws(u: Complex, v: Complex, w: Complex)
    ensures Times(One, u) == u && Times(u, One) == u
    ensures Times(u, v) == Times(v, u)
    ensures Times(Times(u, v), w) == Times(u, Times(v, w))
    ensures Times(u, Conj(u)) == Complex(0.0, u.x * u.x + u.y * u.y)
    ensures Times(u, Plus(v, w)) == Plus(Times(u, v), Times(u, w))
  {
  }

  // ---------------------------------------------------------------------------------------
  // The Horner forms under the operations add_at performs
  // ---------------------------------------------------------------------------------------

  function Rest(s: seq<Digit>): seq<Digit>
  {
    if s == [] then [] else s[1..]
  }

  /** The Horner step, with Dbt5 standing in for a missing head. */
  lemma HornerAt(s: seq<Digit>, a: Axis)
    ensures IntVal(s, a) == Coord(At(s, 0), a) + 3 * IntVal(Rest(s), a)
    ensures FracVal(s, a) == (Coord(At(s, 0), a) as real + FracVal(Rest(s), a)) / 3.0
    ensures forall i: nat :: At(s, i + 1) == At(Rest(s), i)
  {
  }

  /** Appending Dbt5 digits changes neither part's value. */
  lemma {:induction false} AppendFives(r: seq<Digit>, t: seq<Digit>, a: Axis)
    requires AllFive(t)
    ensures IntVal(r + t, a) == IntVal(r, a)
    ensures FracVal(r + t, a) == FracVal(r, a)
    decreases |r| + |t|
  {
    if r == [] {
      assert r + t == t;
      if t != [] {
        assert t[1..] == [] + t[1..];
        AppendFives([], t[1..], a);
        assert t[0] == Dbt5;
      }
    } else {
      assert (r + t)[1..] == r[1..] + t;
      AppendFives(r[1..], t, a);
    }
  }

  /** Writing digit d at integral index i adds (d - s[i]) 3^i. */
  lemma {:induction false} IntValUpdate(s: seq<Digit>, i: nat, d: Digit, a: Axis)
    requires i < |s|
    ensures IntVal(s[i := d], a) == IntVal(s, a) + IW(Coord(d, a) - Coord(s[i], a), i)
  {
    if i > 0 {
      assert s[i := d][1..] == s[1..][i - 1 := d];
      IntValUpdate(s[1..], i - 1, d, a);
    }
  }

  /** Writing digit d at fractional index j adds (d - s[j]) 3^(-1-j). */
  lemma {:induction false} FracValUpdate(s: seq<Digit>, j: nat, d: Digit, a: Axis)
    requires j < |s|
    ensures FracVal(s[j := d], a)
         == FracVal(s, a) + W(Coord(d, a) - Coord(s[j], a), -1 - j)
  {
    if j > 0 {
      assert s[j := d][1..] == s[1..][j - 1 := d];
      FracValUpdate(s[1..], j - 1, d, a);
    }
  }

  /** The value of a number is that of its stripped form. */
  lemma StripValue(x: Dbt)
    ensures Value(Strip(x)) == Value(x)
  {
    var i, f := StripTail(x.integral), StripTail(x.fractional);
    assert x.integral == i + x.integral[|i|..];
    assert x.fractional == f + x.fractional[|f|..];
    AppendFives(i, x.integral[|i|..], AxisX);
    AppendFives(i, x.integral[|i|..], AxisY);
    AppendFives(f, x.fractional[|f|..], AxisX);
    AppendFives(f, x.fractional[|f|..], AxisY);
  }

  // ---------------------------------------------------------------------------------------
  // add_at adds d 3^idx
  // ---------------------------------------------------------------------------------------

  /** Writing d at integral index i adds (d - old digit) 3^i on each axis. */
  lemma WriteIntegral(x: Dbt, i: nat, d: Digit, a: Axis)
    requires i < |x.integral|
    ensures AxisValue(Dbt(x.integral[i := d], x.fractional), a)
         == AxisValue(x, a) + W(Coord(d, a) - Coord(x.integral[i], a), i)
  {
    IntValUpdate(x.integral, i, d, a);
    WNat(Coord(d, a) - Coord(x.integral[i], a), i);
  }

  /** Writing d at fractional index j adds (d - old digit) 3^(-1-j) on each axis. */
  lemma WriteFractional(x: Dbt, j: nat, d: Digit, a: Axis)
    requires j < |x.fractional|
    ensures AxisValue(Dbt(x.integral, x.fractional[j := d]), a)
         == AxisValue(x, a) + W(Coord(d, a) - Coord(x.fractional[j], a), -1 - j)
  {
    FracValUpdate(x.fractional, j, d, a);
  }

  /** Replacing s by the unit of s + d at weight 3^k and adding the carry at 3^(k+1) adds
      exactly d 3^k. */
  lemma CarryStep(s: Digit, d: Digit, k: int, a: Axis)
    ensures W(Coord(Add(s, d).1, a) - Coord(s, a), k) + W(Coord(Add(s, d).0, a), k + 1)
         == W(Coord(d, a), k)
  {
    AddVector(s, d);
    var u, c := Coord(Add(s, d).1, a), Coord(Add(s, d).0, a);
    WLinear(c, 0, k);
    WLinear(u - Coord(s, a), 3 * c, k);
  }

  /** add_at(x, idx, d) adds the vector of d times 3^idx to the value, on each axis. */
  lemma {:induction false} AddAtAxis(x: Dbt, idx: int, d: Digit, a: Axis)
    ensures AxisValue(AddAt(x, idx, d), a) == AxisValue(x, a) + W(Coord(d, a), idx)
    decreases |x.integral| + 1 - idx, 2
  {
    if d == Dbt5 {
      WLinear(0, 0, idx);
    } else if idx >= 0 {
      AddAtAxisIntegral(x, idx, d, a);
    } else {
      AddAtAxisFractional(x, idx, d, a);
    }
  }

  lemma {:induction false} AddAtAxisIntegral(x: Dbt, idx: int, d: Digit, a: Axis)
    requires d != Dbt5 && idx >= 0
    ensures AxisValue(AddAt(x, idx, d), a) == AxisValue(x, a) + W(Coord(d, a), idx)
    decreases |x.integral| + 1 - idx, 1
  {
    if idx > |x.integral| - 1 {
      var padded := Dbt(x.integral + Fives(idx - |x.integral| + 1), x.fractional);
      AppendFives(x.integral, Fives(idx - |x.integral| + 1), a);
      WriteIntegral(padded, idx, d, a);
    } else {
      var (carry, unit) := Add(x.integral[idx], d);
      var b := Dbt(x.integral[idx := unit], x.fractional);
      WriteIntegral(x, idx, unit, a);
      CarryStep(x.integral[idx], d, idx, a);
      if carry != Dbt5 {
        AddAtAxis(b, idx + 1, carry, a);
      } else {
        WLinear(0, 0, idx + 1);
      }
    }
  }

  /** Padding the fractional digits up to index j and writing d there adds d 3^(-1-j). */
  lemma PadFractional(x: Dbt, j: nat, d: Digit, a: Axis)
    requires j >= |x.fractional|
    ensures AxisValue(Dbt(x.integral, (x.fractional + Fives(j - |x.fractional| + 1))[j := d]), a)
         == AxisValue(x, a) + W(Coord(d, a), -1 - j)
  {
    var padded := Dbt(x.integral, x.fractional + Fives(j - |x.fractional| + 1));
    AppendFives(x.fractional, Fives(j - |x.fractional| + 1), a);
    WriteFractional(padded, j, d, a);
  }

  lemma {:induction false} AddAtAxisFractional(x: Dbt, idx: int, d: Digit, a: Axis)
    requires d != Dbt5 && idx < 0
    ensures AxisValue(AddAt(x, idx, d), a) == AxisValue(x, a) + W(Coord(d, a), idx)
    decreases |x.integral| + 1 - idx, 1
  {
    var j := -1 - idx;
    if j > |x.fractional| - 1 {
      PadFractional(x, j, d, a);
    } else {
      var (carry, unit) := Add(x.fractional[j], d);
      var b := Dbt(x.integral, x.fractional[j := unit]);
      CarryFractional(x, j, d, a);
      if carry != Dbt5 {
        AddAtAxis(b, idx + 1, carry, a);
      } else {
        WLinear(0, 0, idx + 1);
      }
    }
  }

  /** The write-and-carry step of add_at at fractional index j keeps the value once the
      carry is added one position up. */
  lemma CarryFractional(x: Dbt, j: nat, d: Digit, a: Axis)
    requires j < |x.fractional|
    ensures AxisValue(Dbt(x.integral, x.fractional[j := Add(x.fractional[j], d).1]), a)
            + W(Coord(Add(x.fractional[j], d).0, a), -1 - j + 1)
         == AxisValue(x, a) + W(Coord(d, a), -1 - j)
  {
    WriteFractional(x, j, Add(x.fractional[j], d).1, a);
    CarryStep(x.fractional[j], d, -1 - j, a);
  }

  /** add_at(x, idx, d) adds d 3^idx to the exact value. */
  lemma AddAtValue(x: Dbt, idx: int, d: Digit)
    ensures Value(AddAt(x, idx, d)) == Plus(Value(x), Place(d, idx))
  {
    AddAtAxis(x, idx, d, AxisX);
    AddAtAxis(x, idx, d, AxisY);
  }

  // ---------------------------------------------------------------------------------------
  // The value determines the stripped number
  // ---------------------------------------------------------------------------------------

  /** The fractional part on one axis lies strictly between -1/2 and 1/2. */
  lemma {:induction false} FracBound(s: seq<Digit>, a: Axis)
    ensures -0.5 < FracVal(s, a) < 0.5
  {
    if s != [] {
      FracBound(s[1..], a);
    }
  }

  /** Equal integral values on an axis mean equal coordinates at every index. */
  lemma {:induction false} IntValUnique(s: seq<Digit>, t: seq<Digit>, a: Axis)
    requires IntVal(s, a) == IntVal(t, a)
    ensures forall i: nat :: Coord(At(s, i), a) == Coord(At(t, i), a)
    decreases |s| + |t|
  {
    HornerAt(s, a);
    HornerAt(t, a);
    assert Coord(At(s, 0), a) == Coord(At(t, 0), a);
    if s != [] || t != [] {
      IntValUnique(Rest(s), Rest(t), a);
      forall i: nat ensures Coord(At(s, i), a) == Coord(At(t, i), a) {
        if i > 0 {
          assert At(s, i) == At(Rest(s), i - 1) && At(t, i) == At(Rest(t), i - 1);
        }
      }
    }
  }

  /** Equal fractional values on an axis mean equal coordinates at every index. */
  lemma {:induction false} FracValUnique(s: seq<Digit>, t: seq<Digit>, a: Axis)
    requires FracVal(s, a) == FracVal(t, a)
    ensures forall i: nat :: Coord(At(s, i), a) == Coord(At(t, i), a)
    decreases |s| + |t|
  {
    HornerAt(s, a);
    HornerAt(t, a);
    FracBound(Rest(s), a);
    FracBound(Rest(t), a);
    assert Coord(At(s, 0), a) == Coord(At(t, 0), a);
    if s != [] || t != [] {
      FracValUnique(Rest(s), Rest(t), a);
      forall i: nat ensures Coord(At(s, i), a) == Coord(At(t, i), a) {
        if i > 0 {
          assert At(s, i) == At(Rest(s), i - 1) && At(t, i) == At(Rest(t), i - 1);
        }
      }
    }
  }

  /** Equal values on an axis mean equal coordinates at every position. */
  lemma AxisValueUnique(u: Dbt, v: Dbt, a: Axis)
    requires AxisValue(u, a) == AxisValue(v, a)
    ensures forall p :: Coord(DigitAt(u, p), a) == Coord(DigitAt(v, p), a)
  {
    FracBound(u.fractional, a);
    FracBound(v.fractional, a);
    assert IntVal(u.integral, a) == IntVal(v.integral, a);
    IntValUnique(u.integral, v.integral, a);
    FracValUnique(u.fractional, v.fractional, a);
    forall p ensures Coord(DigitAt(u, p), a) == Coord(DigitAt(v, p), a) {
      if p < 0 {
        var j: nat := -1 - p;
        assert Coord(At(u.fractional, j), a) == Coord(At(v.fractional, j), a);
      } else {
        var i: nat := p;
        assert Coord(At(u.integral, i), a) == Coord(At(v.integral, i), a);
      }
    }
  }

  /** Two numbers have the same exact value exactly when they are equal (==): the
      representation with trailing Dbt5s stripped is unique. */
  lemma ValueIffSame(u: Dbt, v: Dbt)
    ensures Value(u) == Value(v) <==> Same(u, v)
  {
    if Value(u) == Value(v) {
      AxisValueUnique(u, v, AxisX);
      AxisValueUnique(u, v, AxisY);
      forall p ensures DigitAt(u, p) == DigitAt(v, p) {
        assert Coord(DigitAt(u, p), AxisX) == Coord(DigitAt(v, p), AxisX);
        assert Coord(DigitAt(u, p), AxisY) == Coord(DigitAt(v, p), AxisY);
        VecInjective(DigitAt(u, p), DigitAt(v, p));
      }
      SameIffDigitAt(u, v);
    }
    if Same(u, v) {
      StripValue(u);
      StripValue(v);
    }
  }

  /** The empty number is the only value zero, up to trailing Dbt5s. */
  lemma ZeroValue(x: Dbt)
    ensures Value(x) == Complex(0.0, 0.0) <==> IsZero(x)
  {
    ValueIffSame(x, Zero);
    StripLaws(x);
  }
}
