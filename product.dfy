/** Multiplication of numbers: every digit of the left operand times every digit of the
    right one, the unit added at the sum of the positions and a carry other than Dbt5 one
    position higher. Its exact value is the product of complex values y - x i as long as no
    left Dbt8 meets a right Dbt1, the one digit product off that reading. */
module TernaryProduct {
  import opened Digits
  import opened Ternary
  import opened TernaryValue
  import opened TernaryArith

  // ---------------------------------------------------------------------------------------
  // Products of single digits at positions
  // ---------------------------------------------------------------------------------------

  lemma WNeg(c: int, p: int)
    ensures W(-c, p) == -W(c, p)
  {
    WLinear(c, 0, p);
  }

  lemma WAdd(c1: int, c2: int, p: int)
    ensures W(c1 + c2, p) == W(c1, p) + W(c2, p)
  {
    WLinear(c1, c2, p);
  }

  lemma WZero(p: int)
    ensures W(0, p) == 0.0
  {
    WLinear(0, 0, p);
  }

  function Triple(u: Complex): Complex { Complex(3.0 * u.x, 3.0 * u.y) }

  function Third(u: Complex): Complex { Complex(u.x / 3.0, u.y / 3.0) }

  lemma TimesTriple(u: Complex, v: Complex)
    ensures Times(Triple(u), v) == Triple(Times(u, v))
    ensures Times(Third(u), v) == Third(Times(u, v))
  {
  }

  /** The value of the digit product z(d) z(e) at position j. */
  function ProdPlace(d: Digit, e: Digit, j: int): Complex
  {
    Complex(W(ProdX(d, e), j), W(ProdY(d, e), j))
  }

  /** v 3^p. */
  function Shift(v: Complex, p: int): Complex
    decreases if p >= 0 then p else -p
  {
    if p == 0 then v else if p > 0 then Triple(Shift(v, p - 1)) else Third(Shift(v, p + 1))
  }

  /** z(d) v, written without a multiplication. */
  function DigitTimes(d: Digit, v: Complex): Complex
  {
    Complex(SignedReal(X(d), v.y) + SignedReal(Y(d), v.x),
            SignedReal(Y(d), v.y) - SignedReal(X(d), v.x))
  }

  lemma SignedRealTimes(k: int, r: real)
    requires -1 <= k <= 1
    ensures k as real * r == SignedReal(k, r)
  {
  }

  lemma DigitTimesBase(d: Digit, v: Complex)
    ensures Times(Place(d, 0), v) == DigitTimes(d, v)
  {
    CoordBounds(d);
    assert Place(d, 0) == Complex(X(d) as real, Y(d) as real);
    SignedTimes(X(d), Y(d), v);
  }

  /** (kx, ky) times v for coefficients in {-1, 0, 1}, written without a multiplication. */
  lemma SignedTimes(kx: int, ky: int, v: Complex)
    requires -1 <= kx <= 1 && -1 <= ky <= 1
    ensures Times(Complex(kx as real, ky as real), v)
      == Complex(SignedReal(kx, v.y) + SignedReal(ky, v.x), SignedReal(ky, v.y) - SignedReal(kx, v.x))
  {
    SignedRealTimes(kx, v.y);
    SignedRealTimes(ky, v.x);
    SignedRealTimes(ky, v.y);
    SignedRealTimes(kx, v.x);
  }

  /** d 3^i times v is z(d) v 3^i. */
  lemma {:induction false} PlaceTimesShift(d: Digit, i: int, v: Complex)
    ensures Times(Place(d, i), v) == Shift(DigitTimes(d, v), i)
    decreases if i >= 0 then i else -i
  {
    ShiftStep(DigitTimes(d, v), i);
    if i == 0 {
      DigitTimesBase(d, v);
    } else if i > 0 {
      PlaceTimesShift(d, i - 1, v);
      PlaceStep(d, i - 1);
      TimesTriple(Place(d, i - 1), v);
    } else {
      PlaceTimesShift(d, i + 1, v);
      PlaceStep(d, i);
      TimesTriple(Place(d, i + 1), v);
    }
  }

  /** One place up is three times the value, one place down a third of it. */
  lemma PlaceStep(d: Digit, i: int)
    ensures Place(d, i + 1) == Triple(Place(d, i))
    ensures Place(d, i) == Third(Place(d, i + 1))
  {
    CoordStep(X(d), Y(d), i);
  }

  lemma CoordStep(cx: int, cy: int, i: int)
    ensures Complex(W(cx, i + 1), W(cy, i + 1)) == Triple(Complex(W(cx, i), W(cy, i)))
    ensures Complex(W(cx, i), W(cy, i)) == Third(Complex(W(cx, i + 1), W(cy, i + 1)))
  {
    WStep(cx, i);
    WStep(cy, i);
  }

  lemma ShiftStep(v: Complex, i: int)
    ensures i > 0 ==> Shift(v, i) == Triple(Shift(v, i - 1))
    ensures i < 0 ==> Shift(v, i) == Third(Shift(v, i + 1))
  {
  }

  /** z(d) times e 3^j is z(d) z(e) 3^j: the unit case, shifted j places. */
  lemma DigitTimesPlace(d: Digit, e: Digit, j: int)
    ensures DigitTimes(d, Place(e, j)) == ProdPlace(d, e, j)
  {
    ShiftPlaceUnit(e, j);
    DigitTimesShift(d, Place(e, 0), j);
    DigitTimesUnit(d, e);
    ShiftProdUnit(d, e, j);
  }

  lemma ShiftPlaceUnit(e: Digit, j: int)
    ensures Shift(Place(e, 0), j) == Place(e, j)
  {
    ShiftPlace(X(e), Y(e), j, 0);
  }

  lemma ShiftProdUnit(d: Digit, e: Digit, j: int)
    ensures Shift(ProdPlace(d, e, 0), j) == ProdPlace(d, e, j)
  {
    ShiftPlace(ProdX(d, e), ProdY(d, e), j, 0);
  }

  /** z(d) z(e) at position 0. */
  lemma DigitTimesUnit(d: Digit, e: Digit)
    ensures DigitTimes(d, Place(e, 0)) == ProdPlace(d, e, 0)
  {
    PlaceUnit(e);
    ProdPlaceUnit(d, e);
    SignedUnit(X(d), Y(d), X(e), Y(e));
  }

  lemma PlaceUnit(e: Digit)
    ensures Place(e, 0) == Complex(X(e) as real, Y(e) as real)
  {
    WUnit(X(e));
    WUnit(Y(e));
  }

  lemma ProdPlaceUnit(d: Digit, e: Digit)
    ensures ProdPlace(d, e, 0) == Complex(ProdX(d, e) as real, ProdY(d, e) as real)
  {
    WUnit(ProdX(d, e));
    WUnit(ProdY(d, e));
  }

  lemma WUnit(c: int)
    ensures W(c, 0) == c as real
  {
  }

  lemma SignedUnit(kx: int, ky: int, cx: int, cy: int)
    ensures SignedReal(kx, cy as real) + SignedReal(ky, cx as real) == (Signed(kx, cy) + Signed(ky, cx)) as real
    ensures SignedReal(ky, cy as real) - SignedReal(kx, cx as real) == (Signed(ky, cy) - Signed(kx, cx)) as real
  {
  }

  /** Multiplying by z(d) commutes with shifting. */
  lemma {:induction false} DigitTimesShift(d: Digit, v: Complex, j: int)
    ensures DigitTimes(d, Shift(v, j)) == Shift(DigitTimes(d, v), j)
    decreases if j >= 0 then j else -j
  {
    if j > 0 {
      DigitTimesShift(d, v, j - 1);
      DigitTimesScale(d, Shift(v, j - 1));
    } else if j < 0 {
      DigitTimesShift(d, v, j + 1);
      DigitTimesScale(d, Shift(v, j + 1));
    }
  }

  lemma DigitTimesScale(d: Digit, u: Complex)
    ensures DigitTimes(d, Triple(u)) == Triple(DigitTimes(d, u))
    ensures DigitTimes(d, Third(u)) == Third(DigitTimes(d, u))
  {
    SignedScale(X(d), u.x);
    SignedScale(X(d), u.y);
    SignedScale(Y(d), u.x);
    SignedScale(Y(d), u.y);
  }

  lemma SignedScale(k: int, r: real)
    ensures SignedReal(k, 3.0 * r) == 3.0 * SignedReal(k, r)
    ensures SignedReal(k, r / 3.0) == SignedReal(k, r) / 3.0
  {
  }

  lemma {:induction false} ShiftPlace(c1: int, c2: int, i: int, j: int)
    ensures Shift(Complex(W(c1, j), W(c2, j)), i) == Complex(W(c1, i + j), W(c2, i + j))
    decreases if i >= 0 then i else -i
  {
    if i > 0 {
      ShiftPlace(c1, c2, i - 1, j);
      WStep(c1, i - 1 + j);
      WStep(c2, i - 1 + j);
    } else if i < 0 {
      ShiftPlace(c1, c2, i + 1, j);
      WStep(c1, i + j);
      WStep(c2, i + j);
    }
  }

  /** d 3^i times e 3^j is z(d) z(e) 3^(i+j). */
  lemma PlaceTimes(d: Digit, i: int, e: Digit, j: int)
    ensures Times(Place(d, i), Place(e, j)) == ProdPlace(d, e, i + j)
  {
    PlaceTimesShift(d, i, Place(e, j));
    DigitTimesPlace(d, e, j);
    ShiftPlace(ProdX(d, e), ProdY(d, e), i, j);
  }

  // ---------------------------------------------------------------------------------------
  // The multiplication loops
  // ---------------------------------------------------------------------------------------

  /** The inner loop body: the unit of p * q at the sum of the positions, then the carry one
      position higher unless it is Dbt5. */
  function MulStep(r: Dbt, p: (int, Digit), q: (int, Digit)): Dbt
  {
    Deposit(r, p.0 + q.0, Mul(p.1, q.1))
  }

  /** Adds the unit m.1 at position k and the carry m.0 at k + 1, skipping a Dbt5 carry. */
  function Deposit(r: Dbt, k: int, m: (Digit, Digit)): Dbt
  {
    var r1 := AddAt(r, k, m.1);
    if m.0 != Dbt5 then AddAt(r1, k + 1, m.0) else r1
  }

  /** The inner loop: p times every pair of qs, in order. */
  function MulRow(r: Dbt, p: (int, Digit), qs: seq<(int, Digit)>): Dbt
  {
    if qs == [] then r else MulStep(MulRow(r, p, qs[..|qs| - 1]), p, qs[|qs| - 1])
  }

  /** The outer loop: every pair of ps times every pair of qs. */
  function MulRows(r: Dbt, ps: seq<(int, Digit)>, qs: seq<(int, Digit)>): Dbt
  {
    if ps == [] then r else MulRow(MulRows(r, ps[..|ps| - 1], qs), ps[|ps| - 1], qs)
  }

  /** a * b, accumulated into &5 over the pairs of both operands. */
  function Product(a: Dbt, b: Dbt): Dbt
  {
    MulRows(Zero, Pairs(a), Pairs(b))
  }

  method ProductImpl(a: Dbt, b: Dbt) returns (result: Dbt)
    ensures result == Product(a, b)
  {
    result := Zero;
    var pa := PairsImpl(a);
    for i := 0 to |pa|
      invariant result == MulRows(Zero, pa[..i], Pairs(b))
    {
      var pb := PairsImpl(b);
      ghost var before := result;
      for j := 0 to |pb|
        invariant result == MulRow(before, pa[i], pb[..j])
      {
        result := DepositImpl(result, pa[i].0 + pb[j].0, Mul(pa[i].1, pb[j].1));
        MulRowExtend(before, pa[i], pb, j);
      }
      assert pb[..|pb|] == pb;
      MulRowsExtend(Zero, pa, i, pb);
    }
    assert pa[..|pa|] == pa;
  }

  /** The inner loop body: the unit at k, then the carry at k + 1 unless it is Dbt5. */
  method DepositImpl(r: Dbt, k: int, m: (Digit, Digit)) returns (s: Dbt)
    ensures s == Deposit(r, k, m)
  {
    var (carry, unit) := m;
    s := AddAtImpl(r, k, unit);
    if carry != Dbt5 {
      s := AddAtImpl(s, k + 1, carry);
    }
  }

  lemma MulRowExtend(r: Dbt, p: (int, Digit), qs: seq<(int, Digit)>, j: int)
    requires 0 <= j < |qs|
    ensures MulRow(r, p, qs[..j + 1]) == MulStep(MulRow(r, p, qs[..j]), p, qs[j])
  {
    assert qs[..j + 1][..j] == qs[..j];
  }

  lemma MulRowsExtend(r: Dbt, ps: seq<(int, Digit)>, i: int, qs: seq<(int, Digit)>)
    requires 0 <= i < |ps|
    ensures MulRows(r, ps[..i + 1], qs) == MulRow(MulRows(r, ps[..i], qs), ps[i], qs)
  {
    assert ps[..i + 1][..i] == ps[..i];
  }

  // ---------------------------------------------------------------------------------------
  // The exact value of a product
  // ---------------------------------------------------------------------------------------

  /** No pair of qs holds a Dbt1 that p's Dbt8 would meet. */
  predicate RegularRow(p: (int, Digit), qs: seq<(int, Digit)>)
  {
    forall k :: 0 <= k < |qs| ==> (p.1, qs[k].1) != (Dbt8, Dbt1)
  }

  predicate RegularRows(ps: seq<(int, Digit)>, qs: seq<(int, Digit)>)
  {
    forall k :: 0 <= k < |ps| ==> RegularRow(ps[k], qs)
  }

  const Origin: Complex := Complex(0.0, 0.0)

  /** The sum of z(p) z(q) 3^(i+j) over the pairs q of qs. */
  function RowValue(p: (int, Digit), qs: seq<(int, Digit)>): Complex
  {
    if qs == [] then Origin
    else Plus(RowValue(p, qs[..|qs| - 1]), ProdPlace(p.1, qs[|qs| - 1].1, p.0 + qs[|qs| - 1].0))
  }

  /** The sum of RowValue over the pairs p of ps. */
  function RowsValue(ps: seq<(int, Digit)>, qs: seq<(int, Digit)>): Complex
  {
    if ps == [] then Origin else Plus(RowsValue(ps[..|ps| - 1], qs), RowValue(ps[|ps| - 1], qs))
  }

  /** A unit at k and a carry at k + 1 weigh 3 carry + unit at k. */
  lemma CarryPlace(c: Digit, u: Digit, k: int)
    ensures Plus(Place(u, k), Place(c, k + 1)) == Complex(W(3 * X(c) + X(u), k), W(3 * Y(c) + Y(u), k))
  {
    WLinear(X(c), 0, k);
    WLinear(Y(c), 0, k);
    WAdd(3 * X(c), X(u), k);
    WAdd(3 * Y(c), Y(u), k);
  }

  /** One step adds z(p) z(q) at the sum of the positions, unless it is the anomaly. */
  lemma MulStepValue(r: Dbt, p: (int, Digit), q: (int, Digit))
    requires (p.1, q.1) != (Dbt8, Dbt1)
    ensures Value(MulStep(r, p, q)) == Plus(Value(r), ProdPlace(p.1, q.1, p.0 + q.0))
  {
    MulGaussian(p.1, q.1);
    DepositGaussian(r, p.0 + q.0, p.1, q.1, Mul(p.1, q.1));
  }

  /** Depositing a table entry that fits the Gaussian reading adds z(a) z(b) 3^k. */
  lemma DepositGaussian(r: Dbt, k: int, a: Digit, b: Digit, m: (Digit, Digit))
    requires GaussianEntry(a, b, m)
    ensures Value(Deposit(r, k, m)) == Plus(Value(r), ProdPlace(a, b, k))
  {
    DepositValue(r, k, m);
    ProdPlaceOf(a, b, k, 3 * X(m.0) + X(m.1), 3 * Y(m.0) + Y(m.1));
  }

  lemma ProdPlaceOf(a: Digit, b: Digit, k: int, cx: int, cy: int)
    requires cx == ProdX(a, b) && cy == ProdY(a, b)
    ensures ProdPlace(a, b, k) == Complex(W(cx, k), W(cy, k))
  {
  }

  /** Depositing a (carry, unit) pair adds (3 carry + unit) 3^k. */
  lemma DepositValue(r: Dbt, k: int, m: (Digit, Digit))
    ensures Value(Deposit(r, k, m)) == Plus(Value(r), Complex(W(3 * X(m.0) + X(m.1), k), W(3 * Y(m.0) + Y(m.1), k)))
  {
    var r1 := AddAt(r, k, m.1);
    CarryPlace(m.0, m.1, k);
    AddAtValue(r, k, m.1);
    if m.0 != Dbt5 {
      DepositCarry(r, k, m);
    } else {
      DepositNoCarry(r, k, m);
    }
    PlusChain(Value(r), Value(r1), Value(Deposit(r, k, m)), Place(m.1, k), Place(m.0, k + 1),
      Complex(W(3 * X(m.0) + X(m.1), k), W(3 * Y(m.0) + Y(m.1), k)));
  }

  lemma PlusChain(v: Complex, v1: Complex, v2: Complex, a: Complex, b: Complex, s: Complex)
    requires v1 == Plus(v, a) && v2 == Plus(v1, b) && Plus(a, b) == s
    ensures v2 == Plus(v, s)
  {
  }

  lemma DepositCarry(r: Dbt, k: int, m: (Digit, Digit))
    requires m.0 != Dbt5
    ensures Value(Deposit(r, k, m)) == Plus(Value(AddAt(r, k, m.1)), Place(m.0, k + 1))
  {
    AddAtValue(AddAt(r, k, m.1), k + 1, m.0);
  }

  lemma DepositNoCarry(r: Dbt, k: int, m: (Digit, Digit))
    requires m.0 == Dbt5
    ensures Value(Deposit(r, k, m)) == Plus(Value(AddAt(r, k, m.1)), Place(m.0, k + 1))
  {
    WZero(k + 1);
  }

  lemma {:induction false} MulRowValue(r: Dbt, p: (int, Digit), qs: seq<(int, Digit)>)
    requires RegularRow(p, qs)
    ensures Value(MulRow(r, p, qs)) == Plus(Value(r), RowValue(p, qs))
  {
    if qs != [] {
      var init, q := qs[..|qs| - 1], qs[|qs| - 1];
      RegularRowInit(p, qs);
      MulRowValue(r, p, init);
      MulStepValue(MulRow(r, p, init), p, q);
      MulRowLast(r, p, qs);
      PlusChain(Value(r), Value(MulRow(r, p, init)), Value(MulRow(r, p, qs)),
        RowValue(p, init), ProdPlace(p.1, q.1, p.0 + q.0), RowValue(p, qs));
    }
  }

  lemma RegularRowInit(p: (int, Digit), qs: seq<(int, Digit)>)
    requires qs != [] && RegularRow(p, qs)
    ensures RegularRow(p, qs[..|qs| - 1])
  {
    var init := qs[..|qs| - 1];
    forall k | 0 <= k < |init| ensures (p.1, init[k].1) != (Dbt8, Dbt1) {
      assert init[k] == qs[k];
    }
  }

  lemma MulRowLast(r: Dbt, p: (int, Digit), qs: seq<(int, Digit)>)
    requires qs != []
    ensures MulRow(r, p, qs) == MulStep(MulRow(r, p, qs[..|qs| - 1]), p, qs[|qs| - 1])
    ensures RowValue(p, qs)
      == Plus(RowValue(p, qs[..|qs| - 1]), ProdPlace(p.1, qs[|qs| - 1].1, p.0 + qs[|qs| - 1].0))
  {
  }

  lemma {:induction false} MulRowsValue(r: Dbt, ps: seq<(int, Digit)>, qs: seq<(int, Digit)>)
    requires RegularRows(ps, qs)
    ensures Value(MulRows(r, ps, qs)) == Plus(Value(r), RowsValue(ps, qs))
  {
    if ps != [] {
      var init, p := ps[..|ps| - 1], ps[|ps| - 1];
      assert RegularRows(init, qs) by {
        forall k | 0 <= k < |init| ensures RegularRow(init[k], qs) {
          assert init[k] == ps[k];
        }
      }
      MulRowsValue(r, init, qs);
      MulRowValue(MulRows(r, init, qs), p, qs);
      PlusChain(Value(r), Value(MulRows(r, init, qs)), Value(MulRows(r, ps, qs)),
        RowsValue(init, qs), RowValue(p, qs), RowsValue(ps, qs));
    }
  }

  lemma PairsValueLast(ps: seq<(int, Digit)>)
    requires ps != []
    ensures PairsValue(ps) == Plus(PairsValue(ps[..|ps| - 1]), Place(ps[|ps| - 1].1, ps[|ps| - 1].0))
  {
  }

  lemma TimesPlus(u: Complex, v: Complex, w: Complex)
    ensures Times(u, Plus(v, w)) == Plus(Times(u, v), Times(u, w))
    ensures Times(Plus(v, w), u) == Plus(Times(v, u), Times(w, u))
  {
  }

  lemma TimesOrigin(u: Complex)
    ensures Times(u, Origin) == Origin && Times(Origin, u) == Origin
  {
  }

  /** A row sums to z(p) 3^i times the value of qs. */
  lemma {:induction false} RowTimes(p: (int, Digit), qs: seq<(int, Digit)>)
    ensures RowValue(p, qs) == Times(Place(p.1, p.0), PairsValue(qs))
  {
    if qs == [] {
      TimesOrigin(Place(p.1, p.0));
    } else {
      var init, q := qs[..|qs| - 1], qs[|qs| - 1];
      RowTimes(p, init);
      PairsValueLast(qs);
      TimesPlus(Place(p.1, p.0), PairsValue(init), Place(q.1, q.0));
      PlaceTimes(p.1, p.0, q.1, q.0);
    }
  }

  /** All rows sum to the product of the values of ps and qs. */
  lemma {:induction false} RowsTimes(ps: seq<(int, Digit)>, qs: seq<(int, Digit)>)
    ensures RowsValue(ps, qs) == Times(PairsValue(ps), PairsValue(qs))
  {
    if ps == [] {
      TimesOrigin(PairsValue(qs));
    } else {
      var init, p := ps[..|ps| - 1], ps[|ps| - 1];
      RowsTimes(init, qs);
      RowTimes(p, qs);
      PairsValueLast(ps);
      TimesPlus(PairsValue(qs), PairsValue(init), Place(p.1, p.0));
    }
  }

  /** d occurs among the stored digits of x. */
  predicate HasDigit(x: Dbt, d: Digit)
  {
    d in x.integral || d in x.fractional
  }

  /** The anomalous digit product Dbt8 * Dbt1 does not occur in a * b. */
  predicate NoAnomaly(a: Dbt, b: Dbt)
  {
    !(HasDigit(a, Dbt8) && HasDigit(b, Dbt1))
  }

  lemma PairsDigits(x: Dbt, d: Digit)
    requires !HasDigit(x, d)
    ensures forall k :: 0 <= k < |Pairs(x)| ==> Pairs(x)[k].1 != d
  {
    PairsLaws(x);
    forall k | 0 <= k < |Pairs(x)| ensures Pairs(x)[k].1 != d {
      if k < |x.integral| {
        assert x.integral[k] in x.integral;
      } else {
        assert x.fractional[k - |x.integral|] in x.fractional;
      }
    }
  }

  lemma NoAnomalyRows(a: Dbt, b: Dbt)
    requires NoAnomaly(a, b)
    ensures RegularRows(Pairs(a), Pairs(b))
  {
    if !HasDigit(a, Dbt8) {
      PairsDigits(a, Dbt8);
    } else {
      PairsDigits(b, Dbt1);
    }
  }

  /** The exact value of a * b is the product of the values, whenever no left Dbt8 meets a
      right Dbt1. */
  lemma ProductValue(a: Dbt, b: Dbt)
    requires NoAnomaly(a, b)
    ensures Value(Product(a, b)) == Times(Value(a), Value(b))
  {
    NoAnomalyRows(a, b);
    MulRowsValue(Zero, Pairs(a), Pairs(b));
    RowsTimes(Pairs(a), Pairs(b));
    PairsValueOf(a);
    PairsValueOf(b);
    assert Value(Zero) == Origin;
    TimesFrom(Value(Product(a, b)), Value(Zero), PairsValue(Pairs(a)), PairsValue(Pairs(b)),
      Value(a), Value(b));
  }

  lemma TimesFrom(v: Complex, z: Complex, u: Complex, w: Complex, a: Complex, b: Complex)
    requires v == Plus(z, Times(u, w)) && z == Origin && u == a && w == b
    ensures v == Times(a, b)
  {
  }

  // ---------------------------------------------------------------------------------------
  // Consequences
  // ---------------------------------------------------------------------------------------

  /** &5 absorbs on both sides, structurally. */
  lemma {:induction false} MulRowsEmpty(r: Dbt, ps: seq<(int, Digit)>)
    ensures MulRows(r, ps, []) == r
  {
    if ps != [] {
      MulRowsEmpty(r, ps[..|ps| - 1]);
    }
  }

  lemma ProductZero(a: Dbt)
    ensures Product(Zero, a) == Zero
    ensures Product(a, Zero) == Zero
  {
    assert Pairs(Zero) == [];
    MulRowsEmpty(Zero, Pairs(a));
  }

  /** &1 is a left identity up to ==, and a right identity for numbers without Dbt8. */
  lemma ProductIdentity(a: Dbt)
    ensures Same(Product(Dbt([Dbt1], []), a), a)
    ensures !HasDigit(a, Dbt8) ==> Same(Product(a, Dbt([Dbt1], [])), a)
  {
    var one := Dbt([Dbt1], []);
    assert !HasDigit(one, Dbt8);
    assert Value(one) == One;
    ProductValue(one, a);
    TimesLaws(Value(a), Value(a), Value(a));
    ValueIffSame(Product(one, a), a);
    if !HasDigit(a, Dbt8) {
      ProductValue(a, one);
      ValueIffSame(Product(a, one), a);
    }
  }

  /** Away from the anomaly in both orders, * is commutative up to ==. */
  lemma ProductCommutative(a: Dbt, b: Dbt)
    requires NoAnomaly(a, b) && NoAnomaly(b, a)
    ensures Same(Product(a, b), Product(b, a))
  {
    ProductValue(a, b);
    ProductValue(b, a);
    TimesLaws(Value(a), Value(b), Value(b));
    ValueIffSame(Product(a, b), Product(b, a));
  }

  /** &8 * &1 is &18, whose value (1, 4) is off the product (1, 1) by the carried Dbt1,
      while &1 * &8 is &8. */
  lemma ProductAnomaly()
    ensures Product(Dbt([Dbt8], []), Dbt([Dbt1], [])) == Dbt([Dbt8, Dbt1], [])
    ensures Product(Dbt([Dbt1], []), Dbt([Dbt8], [])) == Dbt([Dbt8], [])
    ensures Value(Product(Dbt([Dbt8], []), Dbt([Dbt1], [])))
         != Times(Value(Dbt([Dbt8], [])), Value(Dbt([Dbt1], [])))
  {
    var eight, one := Dbt([Dbt8], []), Dbt([Dbt1], []);
    assert Pairs(eight) == [(0, Dbt8)];
    assert Pairs(one) == [(0, Dbt1)];
    assert Value(Dbt([Dbt8, Dbt1], [])) == Complex(1.0, 4.0);
    assert Value(eight) == Complex(1.0, 1.0);
    assert Value(one) == One;
  }

  /** Products of 1/5/9-only numbers are 1/5/9-only. */
  lemma {:induction false} MulRowsLinear(r: Dbt, ps: seq<(int, Digit)>, qs: seq<(int, Digit)>)
    requires IsLinear(r)
    requires forall k :: 0 <= k < |ps| ==> IsLinearDigit(ps[k].1)
    requires forall k :: 0 <= k < |qs| ==> IsLinearDigit(qs[k].1)
    ensures IsLinear(MulRows(r, ps, qs))
  {
    if ps != [] {
      MulRowsLinear(r, ps[..|ps| - 1], qs);
      MulRowLinear(MulRows(r, ps[..|ps| - 1], qs), ps[|ps| - 1], qs);
    }
  }

  lemma {:induction false} MulRowLinear(r: Dbt, p: (int, Digit), qs: seq<(int, Digit)>)
    requires IsLinear(r) && IsLinearDigit(p.1)
    requires forall k :: 0 <= k < |qs| ==> IsLinearDigit(qs[k].1)
    ensures IsLinear(MulRow(r, p, qs))
  {
    if qs != [] {
      var q := qs[|qs| - 1];
      MulRowLinear(r, p, qs[..|qs| - 1]);
      MulLinearClosed(p.1, q.1);
      AddAtLinear(MulRow(r, p, qs[..|qs| - 1]), p.0 + q.0, Mul(p.1, q.1).1);
    }
  }

  lemma ProductLinear(a: Dbt, b: Dbt)
    requires IsLinear(a) && IsLinear(b)
    ensures IsLinear(Product(a, b))
  {
    PairsLinear(a);
    PairsLinear(b);
    MulRowsLinear(Zero, Pairs(a), Pairs(b));
  }
}
