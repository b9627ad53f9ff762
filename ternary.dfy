/** The number type: two digit sequences, the canonical form, structural equality and the
    carry-propagating primitive add_at on which every arithmetic operation is built. */
module Ternary {
  import opened Digits

  /** A dual balanced ternary number. `integral` holds the digit of weight 3^i at index i
      (least significant first); `fractional` holds the digit of weight 3^-(j+1) at index j
      (most significant first). */
  datatype Dbt = Dbt(integral: seq<Digit>, fractional: seq<Digit>)

  /** The empty number, written &5. */
  const Zero: Dbt := Dbt([], [])

  /** n copies of the zero digit. */
  function Fives(n: nat): (s: seq<Digit>)
    ensures |s| == n && AllFive(s)
  {
    seq(n, _ => Dbt5)
  }

  predicate AllFive(s: seq<Digit>)
  {
    forall i :: 0 <= i < |s| ==> s[i] == Dbt5
  }

  /** The digit at sequence index i, with Dbt5 past the end. */
  function At(s: seq<Digit>, i: nat): Digit
  {
    if i < |s| then s[i] else Dbt5
  }

  /** The digit at signed position p: integral index p when p >= 0, fractional index -1 - p
      when p < 0, and Dbt5 beyond the stored digits. */
  function DigitAt(x: Dbt, p: int): Digit
  {
    if p >= 0 then At(x.integral, p) else At(x.fractional, -1 - p)
  }

  // ---------------------------------------------------------------------------------------
  // strip_empty_tails and equality
  // ---------------------------------------------------------------------------------------

  predicate NoTrailingFive(s: seq<Digit>)
  {
    s == [] || s[|s| - 1] != Dbt5
  }

  /** The canonical form: neither sequence ends in Dbt5. */
  predicate IsStripped(x: Dbt)
  {
    NoTrailingFive(x.integral) && NoTrailingFive(x.fractional)
  }

  /** Pops trailing Dbt5 digits: the result is the longest prefix of s that does not end in
      Dbt5, and everything it drops is Dbt5. */
  function StripTail(s: seq<Digit>): (r: seq<Digit>)
    ensures r <= s
    ensures AllFive(s[|r|..])
    ensures NoTrailingFive(r)
    decreases |s|
  {
    if s != [] && s[|s| - 1] == Dbt5 then StripTail(s[..|s| - 1]) else s
  }

  /** strip_empty_tails. */
  function Strip(x: Dbt): Dbt
  {
    Dbt(StripTail(x.integral), StripTail(x.fractional))
  }

  /** Structural equality (PartialEq): both numbers stripped have identical sequences. */
  predicate Same(a: Dbt, b: Dbt)
  {
    Strip(a) == Strip(b)
  }

  /** is_zero: the number strips to the empty number. */
  function IsZero(x: Dbt): (z: bool)
    ensures z <==> AllFive(x.integral) && AllFive(x.fractional)
  {
    StripAllFive(x.integral);
    StripAllFive(x.fractional);
    Strip(x) == Zero
  }

  lemma StripAllFive(s: seq<Digit>)
    ensures StripTail(s) == [] <==> AllFive(s)
  {
    var r := StripTail(s);
    if r != [] {
      assert r[|r| - 1] == s[|r| - 1];
    }
  }

  /** Stripping keeps the digit at every index. */
  lemma StripTailAt(s: seq<Digit>, i: nat)
    ensures At(StripTail(s), i) == At(s, i)
  {
    var r := StripTail(s);
    if |r| <= i < |s| {
      assert s[|r|..][i - |r|] == s[i];
    }
  }

  /** Two sequences without trailing Dbt5 that agree at every index are equal. */
  lemma StrippedUnique(s: seq<Digit>, t: seq<Digit>)
    requires NoTrailingFive(s) && NoTrailingFive(t)
    requires forall i: nat :: At(s, i) == At(t, i)
    ensures s == t
  {
    if |t| > 0 {
      assert At(s, |t| - 1) == At(t, |t| - 1);
    }
    if |s| > 0 {
      assert At(s, |s| - 1) == At(t, |s| - 1);
    }
    forall i | 0 <= i < |s| ensures s[i] == t[i] {
      assert At(s, i) == At(t, i);
    }
  }

  /** Stripping keeps the digit at every position. */
  lemma StripDigitAt(x: Dbt, p: int)
    ensures DigitAt(Strip(x), p) == DigitAt(x, p)
  {
    if p >= 0 { StripTailAt(x.integral, p); } else { StripTailAt(x.fractional, -1 - p); }
  }

  /** Equality compares digits position by position, Dbt5 standing in for missing ones. */
  lemma SameIffDigitAt(a: Dbt, b: Dbt)
    ensures Same(a, b) <==> forall p :: DigitAt(a, p) == DigitAt(b, p)
  {
    if forall p :: DigitAt(a, p) == DigitAt(b, p) {
      forall i: nat ensures At(StripTail(a.integral), i) == At(StripTail(b.integral), i) {
        StripTailAt(a.integral, i);
        StripTailAt(b.integral, i);
        assert DigitAt(a, i) == DigitAt(b, i);
      }
      forall i: nat ensures At(StripTail(a.fractional), i) == At(StripTail(b.fractional), i) {
        StripTailAt(a.fractional, i);
        StripTailAt(b.fractional, i);
        assert DigitAt(a, -1 - i) == DigitAt(b, -1 - i);
      }
      StrippedUnique(StripTail(a.integral), StripTail(b.integral));
      StrippedUnique(StripTail(a.fractional), StripTail(b.fractional));
    }
    if Same(a, b) {
      forall p ensures DigitAt(a, p) == DigitAt(b, p) {
        StripDigitAt(a, p);
        StripDigitAt(b, p);
      }
    }
  }

  /** strip_empty_tails is idempotent, yields a canonical number and changes nothing on one;
      every number equals its stripped form. */
  lemma StripLaws(x: Dbt)
    ensures IsStripped(Strip(x))
    ensures Strip(Strip(x)) == Strip(x)
    ensures IsStripped(x) ==> Strip(x) == x
    ensures Same(x, Strip(x))
  {
    StripTailFixed(StripTail(x.integral));
    StripTailFixed(StripTail(x.fractional));
    if IsStripped(x) {
      StripTailFixed(x.integral);
      StripTailFixed(x.fractional);
    }
  }

  lemma StripTailFixed(s: seq<Digit>)
    requires NoTrailingFive(s)
    ensures StripTail(s) == s
  {
  }

  /** Structural equality is an equivalence relation. */
  lemma SameEquivalence(a: Dbt, b: Dbt, c: Dbt)
    ensures Same(a, a)
    ensures Same(a, b) ==> Same(b, a)
    ensures Same(a, b) && Same(b, c) ==> Same(a, c)
  {
  }

  // ---------------------------------------------------------------------------------------
  // add_at
  // ---------------------------------------------------------------------------------------

  /** add_at: adds digit d at signed position idx (0 is the units position, -1 the first
      fractional one). Past the end the sequence is first padded with Dbt5; a carry other
      than Dbt5 is added at idx + 1 in turn. */
  function AddAt(x: Dbt, idx: int, d: Digit): Dbt
    decreases |x.integral| + 1 - idx
  {
    if d == Dbt5 then x
    else if idx >= 0 then
      if idx > |x.integral| - 1 then
        Dbt((x.integral + Fives(idx - |x.integral| + 1))[idx := d], x.fractional)
      else
        var (carry, unit) := Add(x.integral[idx], d);
        var b := Dbt(x.integral[idx := unit], x.fractional);
        if carry != Dbt5 then AddAt(b, idx + 1, carry) else b
    else
      var j := -1 - idx;
      if j > |x.fractional| - 1 then
        Dbt(x.integral, (x.fractional + Fives(j - |x.fractional| + 1))[j := d])
      else
        var (carry, unit) := Add(x.fractional[j], d);
        var b := Dbt(x.integral, x.fractional[j := unit]);
        if carry != Dbt5 then AddAt(b, idx + 1, carry) else b
  }

  function Max(a: int, b: int): int { if a < b then b else a }

  /** add_at(x, idx, Dbt5) is x. Otherwise add_at pads with Dbt5 up to idx and never
      shortens a sequence; a write at idx >= 0 leaves the fractional digits alone, one at
      idx < 0 grows them to at least -idx; every position below idx keeps its digit, since
      carries only move upward. */
  lemma {:induction false} AddAtShape(x: Dbt, idx: int, d: Digit)
    ensures d == Dbt5 ==> AddAt(x, idx, d) == x
    ensures idx >= 0 ==> AddAt(x, idx, d).fractional == x.fractional
    ensures |AddAt(x, idx, d).integral| >= |x.integral|
    ensures d != Dbt5 && idx >= 0 ==> |AddAt(x, idx, d).integral| > idx
    ensures |AddAt(x, idx, d).fractional|
         == if d != Dbt5 && idx < 0 then Max(|x.fractional|, -idx) else |x.fractional|
    ensures forall p :: p < idx ==> DigitAt(AddAt(x, idx, d), p) == DigitAt(x, p)
    decreases |x.integral| + 1 - idx
  {
    if d != Dbt5 {
      if idx >= 0 {
        if idx <= |x.integral| - 1 {
          var (carry, unit) := Add(x.integral[idx], d);
          var b := Dbt(x.integral[idx := unit], x.fractional);
          if carry != Dbt5 {
            AddAtShape(b, idx + 1, carry);
          }
        }
      } else {
        var j := -1 - idx;
        if j <= |x.fractional| - 1 {
          var (carry, unit) := Add(x.fractional[j], d);
          var b := Dbt(x.integral, x.fractional[j := unit]);
          if carry != Dbt5 {
            AddAtShape(b, idx + 1, carry);
          }
        }
      }
    }
  }

  // ---------------------------------------------------------------------------------------
  // The imperative forms
  // ---------------------------------------------------------------------------------------

  /** strip_empty_tails as the source runs it: an early return when neither sequence ends in
      Dbt5, otherwise two popping loops. */
  method StripImpl(x: Dbt) returns (y: Dbt)
    ensures y == Strip(x)
    ensures IsStripped(y)
  {
    if (x.integral == [] || x.integral[|x.integral| - 1] != Dbt5)
       && (x.fractional == [] || x.fractional[|x.fractional| - 1] != Dbt5)
    {
      StripTailFixed(x.integral);
      StripTailFixed(x.fractional);
      return x;
    }
    var integral, fractional := x.integral, x.fractional;
    while integral != [] && integral[|integral| - 1] == Dbt5
      invariant StripTail(integral) == StripTail(x.integral)
    {
      integral := integral[..|integral| - 1];
    }
    while fractional != [] && fractional[|fractional| - 1] == Dbt5
      invariant StripTail(fractional) == StripTail(x.fractional)
    {
      fractional := fractional[..|fractional| - 1];
    }
    y := Dbt(integral, fractional);
  }

  /** PartialEq::eq: strips both sides, then compares lengths and digits with early
      returns. */
  method EqualImpl(a: Dbt, b: Dbt) returns (eq: bool)
    ensures eq <==> Same(a, b)
  {
    var a2 := StripImpl(a);
    var b2 := StripImpl(b);
    if |a2.integral| != |b2.integral| {
      return false;
    }
    if |a2.fractional| != |b2.fractional| {
      return false;
    }
    for idx := 0 to |a2.integral|
      invariant a2.integral[..idx] == b2.integral[..idx]
    {
      if b2.integral[idx] != a2.integral[idx] {
        return false;
      }
    }
    for idx := 0 to |a2.fractional|
      invariant a2.fractional[..idx] == b2.fractional[..idx]
    {
      if b2.fractional[idx] != a2.fractional[idx] {
        return false;
      }
    }
    assert a2.integral == a2.integral[..|a2.integral|];
    assert b2.integral == b2.integral[..|b2.integral|];
    assert a2.fractional == a2.fractional[..|a2.fractional|];
    assert b2.fractional == b2.fractional[..|b2.fractional|];
    return true;
  }

  /** The padding loop of add_at: pushes Dbt5 `times` times. */
  method PadFives(s: seq<Digit>, times: int) returns (t: seq<Digit>)
    requires times >= 0
    ensures t == s + Fives(times)
  {
    t := s;
    var left := times;
    while left > 0
      invariant 0 <= left <= times
      invariant t == s + Fives(times - left)
    {
      t := t + [Dbt5];
      left := left - 1;
    }
  }

  /** add_at as the source runs it: a padding loop pushing Dbt5, a write by index, and a
      recursive call for the carry. The two halves of the body are split into the methods
      below. */
  method AddAtImpl(x: Dbt, idx: int, d: Digit) returns (r: Dbt)
    ensures r == AddAt(x, idx, d)
    decreases |x.integral| + 1 - idx, 2
  {
    if d == Dbt5 {
      return x;
    }
    if idx >= 0 {
      r := AddAtIntegral(x, idx, d);
    } else {
      r := AddAtFractional(x, idx, d);
    }
  }

  /** The idx >= 0 half of add_at. */
  method AddAtIntegral(x: Dbt, idx: int, d: Digit) returns (r: Dbt)
    requires d != Dbt5 && idx >= 0
    ensures r == AddAt(x, idx, d)
    decreases |x.integral| + 1 - idx, 1
  {
    if idx > |x.integral| - 1 {
      var integral := PadFives(x.integral, idx - |x.integral| + 1);
      return x.(integral := integral[idx := d]);
    }
    var (carry, unit) := Add(x.integral[idx], d);
    var b := x.(integral := x.integral[idx := unit]);
    if carry == Dbt5 {
      return b;
    }
    r := AddAtImpl(b, idx + 1, carry);
  }

  /** The idx < 0 half of add_at. */
  method AddAtFractional(x: Dbt, idx: int, d: Digit) returns (r: Dbt)
    requires d != Dbt5 && idx < 0
    ensures r == AddAt(x, idx, d)
    decreases |x.integral| + 1 - idx, 1
  {
    var j := -1 - idx;
    if j > |x.fractional| - 1 {
      var fractional := PadFives(x.fractional, j - |x.fractional| + 1);
      return x.(fractional := fractional[j := d]);
    }
    var (carry, unit) := Add(x.fractional[j], d);
    var b := x.(fractional := x.fractional[j := unit]);
    if carry == Dbt5 {
      return b;
    }
    r := AddAtImpl(b, idx + 1, carry);
  }
}
