/** The digit-wise maps (negation, conjugate, the two rotations, split_yx), the (position,
    digit) pairs of a number, and addition and subtraction, all built on add_at. */
module TernaryArith {
  import opened Digits
  import opened Ternary
  import opened TernaryValue

  // ---------------------------------------------------------------------------------------
  // Digit-wise maps
  // ---------------------------------------------------------------------------------------

  /** f applied at every index. */
  function MapSeq(s: seq<Digit>, f: Digit -> Digit): (t: seq<Digit>)
    ensures |t| == |s|
    ensures forall i :: 0 <= i < |s| ==> t[i] == f(s[i])
  {
    if s == [] then [] else [f(s[0])] + MapSeq(s[1..], f)
  }

  function MapDigits(x: Dbt, f: Digit -> Digit): Dbt
  {
    Dbt(MapSeq(x.integral, f), MapSeq(x.fractional, f))
  }

  /** Neg for numbers. */
  function Negated(x: Dbt): Dbt { MapDigits(x, Neg) }

  /** conjugate: flip_left_right at every position. */
  function Conjugated(x: Dbt): Dbt { MapDigits(x, FlipLeftRight) }

  /** rotate3 at every position (clockwise). */
  function Rotated3(x: Dbt): Dbt { MapDigits(x, Rotate3) }

  /** rotate7 at every position (anti-clockwise). */
  function Rotated7(x: Dbt): Dbt { MapDigits(x, Rotate7) }

  /** The loop the maps share: the clone is overwritten index by index. */
  method MapSeqImpl(s: seq<Digit>, f: Digit -> Digit) returns (t: seq<Digit>)
    ensures t == MapSeq(s, f)
  {
    t := s;
    for i := 0 to |s|
      invariant |t| == |s|
      invariant forall k :: 0 <= k < i ==> t[k] == f(s[k])
      invariant forall k :: i <= k < |s| ==> t[k] == s[k]
    {
      t := t[i := f(t[i])];
    }
  }

  method NegatedImpl(x: Dbt) returns (r: Dbt)
    ensures r == Negated(x)
  {
    var integral := MapSeqImpl(x.integral, Neg);
    var fractional := MapSeqImpl(x.fractional, Neg);
    r := Dbt(integral, fractional);
  }

  method ConjugatedImpl(x: Dbt) returns (r: Dbt)
    ensures r == Conjugated(x)
  {
    var integral := MapSeqImpl(x.integral, FlipLeftRight);
    var fractional := MapSeqImpl(x.fractional, FlipLeftRight);
    r := Dbt(integral, fractional);
  }

  method Rotated3Impl(x: Dbt) returns (r: Dbt)
    ensures r == Rotated3(x)
  {
    var integral := MapSeqImpl(x.integral, Rotate3);
    var fractional := MapSeqImpl(x.fractional, Rotate3);
    r := Dbt(integral, fractional);
  }

  method Rotated7Impl(x: Dbt) returns (r: Dbt)
    ensures r == Rotated7(x)
  {
    var integral := MapSeqImpl(x.integral, Rotate7);
    var fractional := MapSeqImpl(x.fractional, Rotate7);
    r := Dbt(integral, fractional);
  }

  function SignedReal(k: int, v: real): real
  {
    if k == 0 then 0.0 else if k > 0 then v else -v
  }

  /** A map whose coordinate on axis a is k times the digit's coordinate on axis b scales
      both parts' values on a by k. */
  lemma {:induction false} MapIntVal(s: seq<Digit>, f: Digit -> Digit, a: Axis, b: Axis, k: int)
    requires forall d :: Coord(f(d), a) == Signed(k, Coord(d, b))
    ensures IntVal(MapSeq(s, f), a) == Signed(k, IntVal(s, b))
  {
    if s != [] {
      assert MapSeq(s, f)[1..] == MapSeq(s[1..], f);
      MapIntVal(s[1..], f, a, b, k);
      assert Coord(f(s[0]), a) == Signed(k, Coord(s[0], b));
    }
  }

  lemma {:induction false} MapFracVal(s: seq<Digit>, f: Digit -> Digit, a: Axis, b: Axis, k: int)
    requires forall d :: Coord(f(d), a) == Signed(k, Coord(d, b))
    ensures FracVal(MapSeq(s, f), a) == SignedReal(k, FracVal(s, b))
  {
    if s != [] {
      assert MapSeq(s, f)[1..] == MapSeq(s[1..], f);
      MapFracVal(s[1..], f, a, b, k);
      assert Coord(f(s[0]), a) == Signed(k, Coord(s[0], b));
    }
  }

  lemma MapNumberAxis(x: Dbt, f: Digit -> Digit, a: Axis, b: Axis, k: int)
    requires forall d :: Coord(f(d), a) == Signed(k, Coord(d, b))
    ensures AxisValue(MapDigits(x, f), a) == SignedReal(k, AxisValue(x, b))
  {
    MapIntVal(x.integral, f, a, b, k);
    MapFracVal(x.fractional, f, a, b, k);
  }

  /** Applying f and then an inverse g of f restores the sequence. */
  lemma MapInverse(s: seq<Digit>, f: Digit -> Digit, g: Digit -> Digit)
    requires forall d :: g(f(d)) == d
    ensures MapSeq(MapSeq(s, f), g) == s
  {
  }

  /** A map fixing Dbt5 rewrites the digit at every position and keeps both lengths. */
  lemma MapDigitAt(x: Dbt, f: Digit -> Digit, p: int)
    requires f(Dbt5) == Dbt5
    ensures DigitAt(MapDigits(x, f), p) == f(DigitAt(x, p))
    ensures |MapDigits(x, f).integral| == |x.integral|
    ensures |MapDigits(x, f).fractional| == |x.fractional|
  {
  }

  /** Neg negates the value, is an involution and keeps both lengths. */
  lemma NegatedLaws(x: Dbt)
    ensures Value(Negated(x)) == Complex(-Value(x).x, -Value(x).y)
    ensures Negated(Negated(x)) == x
    ensures |Negated(x).integral| == |x.integral| && |Negated(x).fractional| == |x.fractional|
  {
    MapNumberAxis(x, Neg, AxisX, AxisX, -1);
    MapNumberAxis(x, Neg, AxisY, AxisY, -1);
    forall d ensures Neg(Neg(d)) == d { NegInvolution(d); }
    MapInverse(x.integral, Neg, Neg);
    MapInverse(x.fractional, Neg, Neg);
  }

  /** conjugate maps the value to its complex conjugate and is an involution. */
  lemma ConjugatedLaws(x: Dbt)
    ensures Value(Conjugated(x)) == Conj(Value(x))
    ensures Conjugated(Conjugated(x)) == x
  {
    MapNumberAxis(x, FlipLeftRight, AxisX, AxisX, -1);
    MapNumberAxis(x, FlipLeftRight, AxisY, AxisY, 1);
    forall d ensures FlipLeftRight(FlipLeftRight(d)) == d { FlipLeftRightLaws(d); }
    MapInverse(x.integral, FlipLeftRight, FlipLeftRight);
    MapInverse(x.fractional, FlipLeftRight, FlipLeftRight);
  }

  /** rotate3 multiplies the value by -i, the value of Dbt3. */
  lemma Rotated3Value(x: Dbt)
    ensures Value(Rotated3(x)) == Times(Complex(1.0, 0.0), Value(x))
  {
    MapNumberAxis(x, Rotate3, AxisX, AxisY, 1);
    MapNumberAxis(x, Rotate3, AxisY, AxisX, -1);
  }

  /** rotate7 multiplies the value by i, the value of Dbt7. */
  lemma Rotated7Value(x: Dbt)
    ensures Value(Rotated7(x)) == Times(Complex(-1.0, 0.0), Value(x))
  {
    MapNumberAxis(x, Rotate7, AxisX, AxisY, -1);
    MapNumberAxis(x, Rotate7, AxisY, AxisX, 1);
  }

  /** rotate3 and rotate7 undo each other. */
  lemma RotatedInverse(x: Dbt)
    ensures Rotated3(Rotated7(x)) == x && Rotated7(Rotated3(x)) == x
  {
    forall d ensures Rotate3(Rotate7(d)) == d && Rotate7(Rotate3(d)) == d { RotationLaws(d); }
    MapInverse(x.integral, Rotate7, Rotate3);
    MapInverse(x.fractional, Rotate7, Rotate3);
    MapInverse(x.integral, Rotate3, Rotate7);
    MapInverse(x.fractional, Rotate3, Rotate7);
  }

  // ---------------------------------------------------------------------------------------
  // split_yx
  // ---------------------------------------------------------------------------------------

  function LinearHalf(d: Digit): Digit { SplitYx(d).0 }

  function CrossHalf(d: Digit): Digit { SplitYx(d).1 }

  /** split_yx for numbers, in the source's order: the 3/5/7 halves first, the 1/5/9
      halves second, both stripped. */
  function SplitYxNumber(x: Dbt): (Dbt, Dbt)
  {
    (Strip(MapDigits(x, CrossHalf)), Strip(MapDigits(x, LinearHalf)))
  }

  /** One loop of split_yx: the two clones of s are overwritten index by index. */
  method SplitSeqImpl(s: seq<Digit>) returns (lin: seq<Digit>, cross: seq<Digit>)
    ensures lin == MapSeq(s, LinearHalf) && cross == MapSeq(s, CrossHalf)
  {
    lin, cross := s, s;
    for idx := 0 to |s|
      invariant |lin| == |cross| == |s|
      invariant forall k :: 0 <= k < idx ==> lin[k] == LinearHalf(s[k])
      invariant forall k :: 0 <= k < idx ==> cross[k] == CrossHalf(s[k])
      invariant forall k :: idx <= k < |s| ==> lin[k] == s[k] && cross[k] == s[k]
    {
      var (vx, vy) := SplitYx(s[idx]);
      lin := lin[idx := vx];
      cross := cross[idx := vy];
    }
  }

  method SplitYxImpl(x: Dbt) returns (r: (Dbt, Dbt))
    ensures r == SplitYxNumber(x)
  {
    var li, ci := SplitSeqImpl(x.integral);
    var lf, cf := SplitSeqImpl(x.fractional);
    var y := StripImpl(Dbt(ci, cf));
    var x2 := StripImpl(Dbt(li, lf));
    r := (y, x2);
  }

  /** Every digit of x satisfies P. */
  predicate AllDigits(x: Dbt, P: Digit -> bool)
  {
    (forall i :: 0 <= i < |x.integral| ==> P(x.integral[i]))
    && (forall j :: 0 <= j < |x.fractional| ==> P(x.fractional[j]))
  }

  /** is_linear_ternary: only Dbt1, Dbt5 and Dbt9 occur. */
  predicate IsLinear(x: Dbt) { AllDigits(x, IsLinearDigit) }

  predicate IsCross(x: Dbt) { AllDigits(x, IsCrossDigit) }

  lemma StripAllDigits(x: Dbt, P: Digit -> bool)
    requires AllDigits(x, P)
    ensures AllDigits(Strip(x), P)
  {
  }

  lemma HalvesLaws(d: Digit)
    ensures IsLinearDigit(LinearHalf(d)) && IsCrossDigit(CrossHalf(d))
    ensures Coord(CrossHalf(d), AxisX) == Signed(1, Coord(d, AxisX))
    ensures Coord(CrossHalf(d), AxisY) == Signed(0, Coord(d, AxisY))
    ensures Coord(LinearHalf(d), AxisX) == Signed(0, Coord(d, AxisX))
    ensures Coord(LinearHalf(d), AxisY) == Signed(1, Coord(d, AxisY))
  {
    SplitYxLaws(d);
  }

  /** The first result of split_yx carries the x part of the value. */
  lemma SplitYxCrossValue(x: Dbt)
    ensures Value(SplitYxNumber(x).0) == Complex(Value(x).x, 0.0)
  {
    forall d ensures Coord(CrossHalf(d), AxisX) == Signed(1, Coord(d, AxisX)) {
      HalvesLaws(d);
    }
    forall d ensures Coord(CrossHalf(d), AxisY) == Signed(0, Coord(d, AxisY)) {
      HalvesLaws(d);
    }
    MapNumberAxis(x, CrossHalf, AxisX, AxisX, 1);
    MapNumberAxis(x, CrossHalf, AxisY, AxisY, 0);
    StripValue(MapDigits(x, CrossHalf));
  }

  /** The second result of split_yx carries the y part of the value. */
  lemma SplitYxLinearValue(x: Dbt)
    ensures Value(SplitYxNumber(x).1) == Complex(0.0, Value(x).y)
  {
    forall d ensures Coord(LinearHalf(d), AxisX) == Signed(0, Coord(d, AxisX)) {
      HalvesLaws(d);
    }
    forall d ensures Coord(LinearHalf(d), AxisY) == Signed(1, Coord(d, AxisY)) {
      HalvesLaws(d);
    }
    MapNumberAxis(x, LinearHalf, AxisX, AxisX, 0);
    MapNumberAxis(x, LinearHalf, AxisY, AxisY, 1);
    StripValue(MapDigits(x, LinearHalf));
  }

  /** split_yx returns a stripped 3/5/7-only number and a stripped 1/5/9-only number. */
  lemma SplitYxDigits(x: Dbt)
    ensures IsStripped(SplitYxNumber(x).0) && IsCross(SplitYxNumber(x).0)
    ensures IsStripped(SplitYxNumber(x).1) && IsLinear(SplitYxNumber(x).1)
  {
    var c, l := MapDigits(x, CrossHalf), MapDigits(x, LinearHalf);
    StripLaws(c);
    StripLaws(l);
    forall d ensures IsCrossDigit(CrossHalf(d)) && IsLinearDigit(LinearHalf(d)) {
      HalvesLaws(d);
    }
    assert IsCross(c) && IsLinear(l);
    StripAllDigits(c, IsCrossDigit);
    StripAllDigits(l, IsLinearDigit);
  }

  // ---------------------------------------------------------------------------------------
  // pairs
  // ---------------------------------------------------------------------------------------

  /** (i, s[i]) for the integral digits. */
  function IntPairs(s: seq<Digit>): seq<(int, Digit)>
  {
    seq(|s|, i requires 0 <= i < |s| => (i, s[i]))
  }

  /** (-1 - j, s[j]) for the fractional digits. */
  function FracPairs(s: seq<Digit>): seq<(int, Digit)>
  {
    seq(|s|, j requires 0 <= j < |s| => (-1 - j, s[j]))
  }

  /** pairs: every stored digit with its signed position, integral block first. */
  function Pairs(x: Dbt): seq<(int, Digit)>
  {
    IntPairs(x.integral) + FracPairs(x.fractional)
  }

  method PairsImpl(x: Dbt) returns (r: seq<(int, Digit)>)
    ensures r == Pairs(x)
  {
    r := [];
    for idx := 0 to |x.integral|
      invariant r == IntPairs(x.integral[..idx])
    {
      r := r + [(idx, x.integral[idx])];
    }
    assert x.integral[..|x.integral|] == x.integral;
    for idx := 0 to |x.fractional|
      invariant r == IntPairs(x.integral) + FracPairs(x.fractional[..idx])
    {
      r := r + [(-1 - idx, x.fractional[idx])];
    }
    assert x.fractional[..|x.fractional|] == x.fractional;
  }

  /** pairs has one entry per stored digit, positions 0, 1, ... for the integral block and
      -1, -2, ... for the fractional block, each with the digit stored there. */
  lemma PairsLaws(x: Dbt)
    ensures |Pairs(x)| == |x.integral| + |x.fractional|
    ensures forall k :: 0 <= k < |x.integral| ==> Pairs(x)[k] == (k, x.integral[k])
    ensures forall k :: |x.integral| <= k < |Pairs(x)| ==>
      Pairs(x)[k] == (|x.integral| - 1 - k, x.fractional[k - |x.integral|])
    ensures forall k :: 0 <= k < |Pairs(x)| ==> Pairs(x)[k].1 == DigitAt(x, Pairs(x)[k].0)
  {
  }

  /** The value of a list of (position, digit) pairs on one axis. */
  function PairsAxis(ps: seq<(int, Digit)>, a: Axis): real
  {
    if ps == [] then 0.0
    else PairsAxis(ps[..|ps| - 1], a) + W(Coord(ps[|ps| - 1].1, a), ps[|ps| - 1].0)
  }

  function PairsValue(ps: seq<(int, Digit)>): Complex
  {
    Complex(PairsAxis(ps, AxisX), PairsAxis(ps, AxisY))
  }

  lemma {:induction false} PairsAxisAppend(ps: seq<(int, Digit)>, qs: seq<(int, Digit)>, a: Axis)
    ensures PairsAxis(ps + qs, a) == PairsAxis(ps, a) + PairsAxis(qs, a)
    decreases |qs|
  {
    if qs != [] {
      assert (ps + qs)[..|ps + qs| - 1] == ps + qs[..|qs| - 1];
      PairsAxisAppend(ps, qs[..|qs| - 1], a);
    } else {
      assert ps + qs == ps;
    }
  }

  lemma {:induction false} IntPairsAxis(s: seq<Digit>, a: Axis)
    ensures PairsAxis(IntPairs(s), a) == IntVal(s, a) as real
  {
    if s != [] {
      var t := s[1..];
      IntPairsAxis(t, a);
      // Shifting every position of t up by one triples its pairs' value.
      assert IntPairs(s) == [(0, s[0])] + Shifted(IntPairs(t), 1);
      PairsAxisAppend([(0, s[0])], Shifted(IntPairs(t), 1), a);
      ShiftedAxis(IntPairs(t), a);
      assert PairsAxis([(0, s[0])], a) == W(Coord(s[0], a), 0);
    }
  }

  lemma {:induction false} FracPairsAxis(s: seq<Digit>, a: Axis)
    ensures PairsAxis(FracPairs(s), a) == FracVal(s, a)
  {
    if s != [] {
      var t := s[1..];
      FracPairsAxis(t, a);
      assert FracPairs(s) == [(-1, s[0])] + Shifted(FracPairs(t), -1);
      PairsAxisAppend([(-1, s[0])], Shifted(FracPairs(t), -1), a);
      ShiftedDownAxis(FracPairs(t), a);
      assert PairsAxis([(-1, s[0])], a) == W(Coord(s[0], a), -1);
    }
  }

  /** Every position moved by n. */
  function Shifted(ps: seq<(int, Digit)>, n: int): (qs: seq<(int, Digit)>)
    ensures |qs| == |ps|
    ensures forall k :: 0 <= k < |ps| ==> qs[k] == (ps[k].0 + n, ps[k].1)
  {
    seq(|ps|, k requires 0 <= k < |ps| => (ps[k].0 + n, ps[k].1))
  }

  lemma {:induction false} ShiftedAxis(ps: seq<(int, Digit)>, a: Axis)
    ensures PairsAxis(Shifted(ps, 1), a) == 3.0 * PairsAxis(ps, a)
  {
    if ps != [] {
      assert Shifted(ps, 1)[..|ps| - 1] == Shifted(ps[..|ps| - 1], 1);
      ShiftedAxis(ps[..|ps| - 1], a);
      WStep(Coord(ps[|ps| - 1].1, a), ps[|ps| - 1].0);
    }
  }

  lemma {:induction false} ShiftedDownAxis(ps: seq<(int, Digit)>, a: Axis)
    ensures PairsAxis(Shifted(ps, -1), a) == PairsAxis(ps, a) / 3.0
  {
    if ps != [] {
      assert Shifted(ps, -1)[..|ps| - 1] == Shifted(ps[..|ps| - 1], -1);
      ShiftedDownAxis(ps[..|ps| - 1], a);
      WStep(Coord(ps[|ps| - 1].1, a), ps[|ps| - 1].0 - 1);
    }
  }

  /** The pairs of a number add up to its value. */
  lemma PairsValueOf(x: Dbt)
    ensures PairsValue(Pairs(x)) == Value(x)
  {
    PairsAxisAppend(IntPairs(x.integral), FracPairs(x.fractional), AxisX);
    PairsAxisAppend(IntPairs(x.integral), FracPairs(x.fractional), AxisY);
    IntPairsAxis(x.integral, AxisX);
    IntPairsAxis(x.integral, AxisY);
    FracPairsAxis(x.fractional, AxisX);
    FracPairsAxis(x.fractional, AxisY);
  }

  // ---------------------------------------------------------------------------------------
  // Add and Sub
  // ---------------------------------------------------------------------------------------

  /** add_at applied for every pair, in order. */
  function AddPairs(r: Dbt, ps: seq<(int, Digit)>): Dbt
  {
    if ps == [] then r
    else AddAt(AddPairs(r, ps[..|ps| - 1]), ps[|ps| - 1].0, ps[|ps| - 1].1)
  }

  /** a + b: every digit of b added into a at its position. (The source strips the sum
      and then drops the stripped copy, so the sum is returned unstripped.) */
  function Sum(a: Dbt, b: Dbt): Dbt
  {
    AddPairs(a, Pairs(b))
  }

  /** a - b = a + (-b). */
  function Difference(a: Dbt, b: Dbt): Dbt
  {
    Sum(a, Negated(b))
  }

  method SumImpl(a: Dbt, b: Dbt) returns (a2: Dbt)
    ensures a2 == Sum(a, b)
  {
    a2 := a;
    for idx := 0 to |b.integral|
      invariant a2 == AddPairs(a, IntPairs(b.integral)[..idx])
    {
      assert IntPairs(b.integral)[..idx + 1]
          == IntPairs(b.integral)[..idx] + [(idx, b.integral[idx])];
      a2 := AddAtImpl(a2, idx, b.integral[idx]);
    }
    assert IntPairs(b.integral)[..|b.integral|] == IntPairs(b.integral);
    assert IntPairs(b.integral) + FracPairs(b.fractional)[..0] == IntPairs(b.integral);
    for idx := 0 to |b.fractional|
      invariant a2 == AddPairs(a, IntPairs(b.integral) + FracPairs(b.fractional)[..idx])
    {
      assert IntPairs(b.integral) + FracPairs(b.fractional)[..idx + 1]
          == (IntPairs(b.integral) + FracPairs(b.fractional)[..idx]) + [(-1 - idx, b.fractional[idx])];
      a2 := AddAtImpl(a2, -1 - idx, b.fractional[idx]);
    }
    assert FracPairs(b.fractional)[..|b.fractional|] == FracPairs(b.fractional);
    var _ := StripImpl(a2);
  }

  method DifferenceImpl(a: Dbt, b: Dbt) returns (r: Dbt)
    ensures r == Difference(a, b)
  {
    var nb := NegatedImpl(b);
    r := SumImpl(a, nb);
  }

  lemma {:induction false} AddPairsAxis(r: Dbt, ps: seq<(int, Digit)>, a: Axis)
    ensures AxisValue(AddPairs(r, ps), a) == AxisValue(r, a) + PairsAxis(ps, a)
  {
    if ps != [] {
      var init := ps[..|ps| - 1];
      AddPairsAxis(r, init, a);
      AddAtAxis(AddPairs(r, init), ps[|ps| - 1].0, ps[|ps| - 1].1, a);
    }
  }

  lemma AddPairsValue(r: Dbt, ps: seq<(int, Digit)>)
    ensures Value(AddPairs(r, ps)) == Plus(Value(r), PairsValue(ps))
  {
    AddPairsAxis(r, ps, AxisX);
    AddPairsAxis(r, ps, AxisY);
  }

  /** The exact value of a + b is the sum of the values. */
  lemma SumValue(a: Dbt, b: Dbt)
    ensures Value(Sum(a, b)) == Plus(Value(a), Value(b))
  {
    AddPairsValue(a, Pairs(b));
    PairsValueOf(b);
  }

  /** The exact value of a - b is the difference of the values. */
  lemma DifferenceValue(a: Dbt, b: Dbt)
    ensures Value(Difference(a, b)) == Minus(Value(a), Value(b))
  {
    SumValue(a, Negated(b));
    NegatedLaws(b);
  }

  /** + is commutative and associative up to ==, x - x == &5 and x + &5 is x. */
  lemma SumLaws(a: Dbt, b: Dbt, c: Dbt)
    ensures Same(Sum(a, b), Sum(b, a))
    ensures Same(Sum(Sum(a, b), c), Sum(a, Sum(b, c)))
    ensures Sum(a, Zero) == a
    ensures IsZero(Difference(a, a))
  {
    SumValue(a, b);
    SumValue(b, a);
    ValueIffSame(Sum(a, b), Sum(b, a));
    SumValue(Sum(a, b), c);
    SumValue(b, c);
    SumValue(a, Sum(b, c));
    ValueIffSame(Sum(Sum(a, b), c), Sum(a, Sum(b, c)));
    DifferenceValue(a, a);
    ZeroValue(Difference(a, a));
  }

  /** + does not strip: &1 + &9 leaves a Dbt5 behind, though it equals &5; and the
      documented &1.1 + &9.9 == &5 holds. */
  lemma SumExamples()
    ensures Sum(Dbt([Dbt1], []), Dbt([Dbt9], [])) == Dbt([Dbt5], [])
    ensures !IsStripped(Sum(Dbt([Dbt1], []), Dbt([Dbt9], [])))
    ensures Same(Sum(Dbt([Dbt1], [Dbt1]), Dbt([Dbt9], [Dbt9])), Zero)
  {
    var a, b := Dbt([Dbt1], [Dbt1]), Dbt([Dbt9], [Dbt9]);
    assert Negated(a) == b;
    DifferenceValue(a, a);
    ZeroValue(Sum(a, b));
    StripLaws(Sum(a, b));
  }

  // ---------------------------------------------------------------------------------------
  // 1/5/9-only numbers are closed under add_at, + and Neg
  // ---------------------------------------------------------------------------------------

  lemma {:induction false} AddAtLinear(x: Dbt, idx: int, d: Digit)
    requires IsLinear(x) && IsLinearDigit(d)
    ensures IsLinear(AddAt(x, idx, d))
    decreases |x.integral| + 1 - idx
  {
    if d != Dbt5 {
      if idx >= 0 {
        if idx <= |x.integral| - 1 {
          var (carry, unit) := Add(x.integral[idx], d);
          AddLinearClosed(x.integral[idx], d);
          var b := Dbt(x.integral[idx := unit], x.fractional);
          if carry != Dbt5 {
            AddAtLinear(b, idx + 1, carry);
          }
        }
      } else {
        var j := -1 - idx;
        if j <= |x.fractional| - 1 {
          var (carry, unit) := Add(x.fractional[j], d);
          AddLinearClosed(x.fractional[j], d);
          var b := Dbt(x.integral, x.fractional[j := unit]);
          if carry != Dbt5 {
            AddAtLinear(b, idx + 1, carry);
          }
        }
      }
    }
  }

  lemma {:induction false} AddPairsLinear(r: Dbt, ps: seq<(int, Digit)>)
    requires IsLinear(r) && forall k :: 0 <= k < |ps| ==> IsLinearDigit(ps[k].1)
    ensures IsLinear(AddPairs(r, ps))
  {
    if ps != [] {
      AddPairsLinear(r, ps[..|ps| - 1]);
      AddAtLinear(AddPairs(r, ps[..|ps| - 1]), ps[|ps| - 1].0, ps[|ps| - 1].1);
    }
  }

  lemma PairsLinear(x: Dbt)
    requires IsLinear(x)
    ensures forall k :: 0 <= k < |Pairs(x)| ==> IsLinearDigit(Pairs(x)[k].1)
  {
    PairsLaws(x);
  }

  /** The negation of a 1/5/9-only number is 1/5/9-only. */
  lemma NegatedLinear(x: Dbt)
    requires IsLinear(x)
    ensures IsLinear(Negated(x))
  {
  }

  /** Sums and differences of 1/5/9-only numbers are 1/5/9-only. */
  lemma LinearClosed(a: Dbt, b: Dbt)
    requires IsLinear(a) && IsLinear(b)
    ensures IsLinear(Sum(a, b))
    ensures IsLinear(Difference(a, b))
  {
    PairsLinear(b);
    AddPairsLinear(a, Pairs(b));
    NegatedLinear(b);
    PairsLinear(Negated(b));
    AddPairsLinear(a, Pairs(Negated(b)));
  }
}
