/** Digit shifting (move_by) and truncation of the fractional part (round, round_n). */
module TernaryShift {
  import opened Digits
  import opened Ternary
  import opened TernaryValue
  import opened TernaryProduct

  // ---------------------------------------------------------------------------------------
  // move_by
  // ---------------------------------------------------------------------------------------

  /** One step of a positive move: the leading fractional digit (or Dbt5 when there is none)
      becomes the new unit digit and every integral digit moves one place up. */
  function Up(b: Dbt): Dbt
  {
    if b.fractional == [] then Dbt([Dbt5] + b.integral, [])
    else Dbt([b.fractional[0]] + b.integral, b.fractional[1..])
  }

  /** One step of a negative move: the unit digit (or Dbt5 when there is none) becomes the
      leading fractional digit. */
  function Down(b: Dbt): Dbt
  {
    if b.integral == [] then Dbt([], [Dbt5] + b.fractional)
    else Dbt(b.integral[1..], [b.integral[0]] + b.fractional)
  }

  function Ups(x: Dbt, k: nat): Dbt
  {
    if k == 0 then x else Up(Ups(x, k - 1))
  }

  function Downs(x: Dbt, k: nat): Dbt
  {
    if k == 0 then x else Down(Downs(x, k - 1))
  }

  /** move_by(n): n steps up for n > 0, -n steps down for n < 0. */
  function MoveBy(x: Dbt, n: int): Dbt
  {
    if n == 0 then x else if n > 0 then Ups(x, n) else Downs(x, -n)
  }

  method MoveByImpl(x: Dbt, n: int) returns (b: Dbt)
    ensures b == MoveBy(x, n)
  {
    b := x;
    if n == 0 {
      return;
    } else if n > 0 {
      for i := 0 to n
        invariant b == Ups(x, i)
      {
        if b.fractional == [] {
          b := b.(integral := [Dbt5] + b.integral);
        } else {
          b := Dbt([b.fractional[0]] + b.integral, b.fractional[1..]);
        }
      }
    } else {
      for i := 0 to -n
        invariant b == Downs(x, i)
      {
        if b.integral == [] {
          b := b.(fractional := [Dbt5] + b.fractional);
        } else {
          b := Dbt(b.integral[1..], [b.integral[0]] + b.fractional);
        }
      }
    }
  }

  /** A step up carries the digit at p to p + 1, and the new unit digit is the old digit at
      -1. */
  lemma UpDigits(b: Dbt)
    ensures forall p :: DigitAt(Up(b), p + 1) == DigitAt(b, p)
    ensures DigitAt(Up(b), 0) == DigitAt(b, -1)
    ensures |Up(b).integral| == |b.integral| + 1
    ensures |Up(b).fractional| == if b.fractional == [] then 0 else |b.fractional| - 1
  {
    forall p ensures DigitAt(Up(b), p + 1) == DigitAt(b, p) {
      if p < -1 && b.fractional != [] {
        assert At(b.fractional[1..], -1 - (p + 1)) == At(b.fractional, -1 - p);
      }
    }
  }

  lemma DownDigits(b: Dbt)
    ensures forall p :: DigitAt(Down(b), p - 1) == DigitAt(b, p)
    ensures |Down(b).fractional| == |b.fractional| + 1
    ensures |Down(b).integral| == if b.integral == [] then 0 else |b.integral| - 1
  {
    forall p ensures DigitAt(Down(b), p - 1) == DigitAt(b, p) {
      if p > 0 && b.integral != [] {
        assert At(b.integral[1..], p - 1) == At(b.integral, p);
      }
    }
  }

  /** Every digit moves n places, unchanged: the digit of x at p is found at p + n. */
  lemma {:induction false} MoveByDigits(x: Dbt, n: int)
    ensures forall p :: DigitAt(MoveBy(x, n), p + n) == DigitAt(x, p)
    decreases if n >= 0 then n else -n
  {
    if n > 0 {
      MoveByDigits(x, n - 1);
      assert MoveBy(x, n - 1) == Ups(x, n - 1);
      UpDigits(MoveBy(x, n - 1));
      forall p ensures DigitAt(MoveBy(x, n), p + n) == DigitAt(x, p) {
        assert DigitAt(MoveBy(x, n), (p + n - 1) + 1) == DigitAt(MoveBy(x, n - 1), p + n - 1);
      }
    } else if n < 0 {
      MoveByDigits(x, n + 1);
      assert MoveBy(x, n + 1) == Downs(x, -n - 1);
      DownDigits(MoveBy(x, n + 1));
      forall p ensures DigitAt(MoveBy(x, n), p + n) == DigitAt(x, p) {
        assert DigitAt(MoveBy(x, n), (p + n + 1) - 1) == DigitAt(MoveBy(x, n + 1), p + n + 1);
      }
    }
  }

  /** A positive move grows the integral part by n and consumes up to n fractional digits;
      a negative move does the mirror image. */
  lemma {:induction false} MoveByLengths(x: Dbt, n: int)
    ensures n >= 0 ==> |MoveBy(x, n).integral| == |x.integral| + n
    ensures n >= 0 ==> |MoveBy(x, n).fractional| == Max(0, |x.fractional| - n)
    ensures n <= 0 ==> |MoveBy(x, n).fractional| == |x.fractional| - n
    ensures n <= 0 ==> |MoveBy(x, n).integral| == Max(0, |x.integral| + n)
    decreases if n >= 0 then n else -n
  {
    if n > 0 {
      MoveByLengths(x, n - 1);
      assert MoveBy(x, n - 1) == Ups(x, n - 1);
      UpDigits(MoveBy(x, n - 1));
    } else if n < 0 {
      MoveByLengths(x, n + 1);
      assert MoveBy(x, n + 1) == Downs(x, -n - 1);
      DownDigits(MoveBy(x, n + 1));
    }
  }

  lemma UpAxis(b: Dbt, a: Axis)
    ensures AxisValue(Up(b), a) == 3.0 * AxisValue(b, a)
  {
    if b.fractional != [] {
      assert FracVal(b.fractional, a) == (Coord(b.fractional[0], a) as real + FracVal(b.fractional[1..], a)) / 3.0;
    }
  }

  lemma DownAxis(b: Dbt, a: Axis)
    ensures AxisValue(Down(b), a) == AxisValue(b, a) / 3.0
  {
    if b.integral != [] {
      assert IntVal(b.integral, a) == Coord(b.integral[0], a) + 3 * IntVal(b.integral[1..], a);
    }
  }

  /** move_by(n) multiplies the exact value by 3^n. */
  lemma {:induction false} MoveByValue(x: Dbt, n: int)
    ensures Value(MoveBy(x, n)) == Shift(Value(x), n)
    decreases if n >= 0 then n else -n
  {
    if n > 0 {
      MoveByValue(x, n - 1);
      assert MoveBy(x, n - 1) == Ups(x, n - 1);
      UpAxis(MoveBy(x, n - 1), AxisX);
      UpAxis(MoveBy(x, n - 1), AxisY);
    } else if n < 0 {
      MoveByValue(x, n + 1);
      assert MoveBy(x, n + 1) == Downs(x, -n - 1);
      DownAxis(MoveBy(x, n + 1), AxisX);
      DownAxis(MoveBy(x, n + 1), AxisY);
    }
  }

  /** Shifting by 3^n is multiplying by the digit 1 placed at n. */
  lemma MoveByTimes(x: Dbt, n: int)
    ensures Value(MoveBy(x, n)) == Times(Place(Dbt1, n), Value(x))
  {
    MoveByValue(x, n);
    PlaceTimesShift(Dbt1, n, Value(x));
    assert DigitTimes(Dbt1, Value(x)) == Value(x);
  }

  /** Moving back undoes a move, up to trailing Dbt5 digits. */
  lemma MoveByInverse(x: Dbt, n: int)
    ensures Same(MoveBy(MoveBy(x, n), -n), x)
  {
    var y := MoveBy(MoveBy(x, n), -n);
    MoveByDigits(x, n);
    MoveByDigits(MoveBy(x, n), -n);
    forall p ensures DigitAt(y, p) == DigitAt(x, p) {
      assert DigitAt(y, (p + n) + -n) == DigitAt(MoveBy(x, n), p + n);
    }
    SameIffDigitAt(y, x);
  }

  // ---------------------------------------------------------------------------------------
  // round and round_n
  // ---------------------------------------------------------------------------------------

  /** round: drops the fractional part. */
  function Round(x: Dbt): (r: Dbt)
    ensures r.integral == x.integral && r.fractional == []
  {
    Dbt(x.integral, [])
  }

  /** round_n(n): keeps the first n fractional digits, or the whole number when it has fewer
      than n of them. */
  function RoundN(x: Dbt, n: nat): Dbt
  {
    if n > |x.fractional| then x else Dbt(x.integral, x.fractional[..n])
  }

  method RoundNImpl(x: Dbt, n: nat) returns (r: Dbt)
    ensures r == RoundN(x, n)
  {
    if n > |x.fractional| {
      return x;
    }
    var fractional: seq<Digit> := [];
    var i := 0;
    while i < n
      invariant 0 <= i <= n
      invariant fractional == x.fractional[..i]
    {
      fractional := fractional + [x.fractional[i]];
      i := i + 1;
    }
    r := Dbt(x.integral, fractional);
  }

  /** round_n keeps the integral part and min(n, |fractional|) leading fractional digits;
      round is round_n(0). */
  lemma RoundNShape(x: Dbt, n: nat)
    ensures RoundN(x, n).integral == x.integral
    ensures RoundN(x, n).fractional == x.fractional[..if n < |x.fractional| then n else |x.fractional|]
    ensures RoundN(x, 0) == Round(x)
    ensures RoundN(RoundN(x, n), n) == RoundN(x, n)
  {
  }

  /** round_n keeps every digit at position -n or above and zeroes the rest. */
  lemma RoundNDigits(x: Dbt, n: nat)
    ensures forall p: int :: DigitAt(RoundN(x, n), p) == if p >= -(n as int) then DigitAt(x, p) else Dbt5
  {
  }

  /** Truncation moves each coordinate by less than 1/2. */
  lemma RoundError(x: Dbt, a: Axis)
    ensures -0.5 < AxisValue(x, a) - AxisValue(Round(x), a) < 0.5
  {
    FracBound(x.fractional, a);
  }

  /** The examples &2.4 and &2.444 of the rounding tests. */
  lemma RoundExamples()
    ensures Round(Dbt([Dbt2], [Dbt4])) == Dbt([Dbt2], [])
    ensures RoundN(Dbt([Dbt2], [Dbt4, Dbt4, Dbt4]), 0) == Dbt([Dbt2], [])
    ensures RoundN(Dbt([Dbt2], [Dbt4, Dbt4, Dbt4]), 1) == Dbt([Dbt2], [Dbt4])
    ensures RoundN(Dbt([Dbt2], [Dbt4, Dbt4, Dbt4]), 2) == Dbt([Dbt2], [Dbt4, Dbt4])
    ensures RoundN(Dbt([Dbt2], [Dbt4, Dbt4, Dbt4]), 3) == Dbt([Dbt2], [Dbt4, Dbt4, Dbt4])
    ensures RoundN(Dbt([Dbt2], [Dbt4, Dbt4, Dbt4]), 4) == Dbt([Dbt2], [Dbt4, Dbt4, Dbt4])
    ensures MoveBy(Dbt([Dbt1], [Dbt1]), 1) == Dbt([Dbt1, Dbt1], [])
    ensures MoveBy(Dbt([Dbt1], [Dbt1]), -1) == Dbt([], [Dbt1, Dbt1])
  {
    assert [Dbt4, Dbt4, Dbt4][..1] == [Dbt4];
    assert [Dbt4, Dbt4, Dbt4][..2] == [Dbt4, Dbt4];
    assert [Dbt4, Dbt4, Dbt4][..3] == [Dbt4, Dbt4, Dbt4];
  }
}
