/** The crate-level helpers: `ternary`, which parses a literal that must be valid, and
    `dbt_digits`, which lists the stored digits with their positions. */
module TernaryLib {
  import opened Results
  import opened Digits
  import opened Ternary
  import opened TernaryArith
  import opened TernaryText

  /** ternary: the parse of a literal the caller guarantees to be valid (the source unwraps
      the result and panics otherwise). The number is canonical and is written back in a form
      that parses to itself. */
  function ParseLiteral(s: string): (r: Dbt)
    requires Parse(s).Ok?
    ensures IsStripped(r)
    ensures Parse(Format(r)) == Ok(r)
  {
    var r := Parse(s).value;
    ParseStripped(s);
    FormatParse(r);
    StripLaws(r);
    r
  }

  /** dbt_digits: one entry per stored digit, most significant first; entry k holds the
      position |integral| - 1 - k and the digit stored there. */
  function DbtDigits(x: Dbt): (ps: seq<(int, Digit)>)
    ensures |ps| == |x.integral| + |x.fractional|
  {
    seq(|x.integral| + |x.fractional|, k requires 0 <= k < |x.integral| + |x.fractional| =>
      (|x.integral| - 1 - k, DigitAt(x, |x.integral| - 1 - k)))
  }

  /** The source's two loops: the integral digits from the top index down, then the
      fractional digits in order. */
  method DbtDigitsImpl(x: Dbt) returns (ys: seq<(int, Digit)>)
    ensures ys == DbtDigits(x)
  {
    DbtDigitsLaws(x);
    ys := [];
    var n := |x.integral|;
    for idx := 0 to n
      invariant ys == DbtDigits(x)[..idx]
    {
      var i := n - idx - 1;
      ys := ys + [(i, x.integral[i])];
      assert DbtDigits(x)[..idx + 1] == DbtDigits(x)[..idx] + [DbtDigits(x)[idx]];
    }
    for idx := 0 to |x.fractional|
      invariant ys == DbtDigits(x)[..n + idx]
    {
      var i := -1 - idx;
      ys := ys + [(i, x.fractional[idx])];
      assert DbtDigits(x)[..n + idx + 1] == DbtDigits(x)[..n + idx] + [DbtDigits(x)[n + idx]];
    }
    assert DbtDigits(x)[..n + |x.fractional|] == DbtDigits(x);
  }

  /** The entries run strictly downward from |integral| - 1 to -|fractional|; the first
      |integral| hold the integral digits from the top, the rest the fractional digits in
      order, and no Dbt5 is dropped. */
  lemma DbtDigitsLaws(x: Dbt)
    ensures forall k :: 0 <= k < |x.integral| ==>
      DbtDigits(x)[k] == (|x.integral| - 1 - k, x.integral[|x.integral| - 1 - k])
    ensures forall k :: |x.integral| <= k < |DbtDigits(x)| ==>
      DbtDigits(x)[k] == (|x.integral| - 1 - k, x.fractional[k - |x.integral|])
    ensures forall k, l :: 0 <= k < l < |DbtDigits(x)| ==> DbtDigits(x)[k].0 > DbtDigits(x)[l].0
    ensures |DbtDigits(x)| > 0 ==>
      DbtDigits(x)[0].0 == if x.integral == [] then -1 else |x.integral| - 1
    ensures |DbtDigits(x)| > 0 ==>
      DbtDigits(x)[|DbtDigits(x)| - 1].0 == if x.fractional == [] then 0 else -|x.fractional|
  {
    var n := |x.integral|;
    forall k | 0 <= k < n ensures DbtDigits(x)[k] == (n - 1 - k, x.integral[n - 1 - k]) {
      assert DigitAt(x, n - 1 - k) == At(x.integral, n - 1 - k);
    }
    forall k | n <= k < |DbtDigits(x)| ensures DbtDigits(x)[k] == (n - 1 - k, x.fractional[k - n]) {
      assert DigitAt(x, n - 1 - k) == At(x.fractional, k - n);
    }
  }

  /** dbt_digits is pairs with the integral block reversed. */
  lemma DbtDigitsPairs(x: Dbt)
    ensures DbtDigits(x) == Reverse(IntPairs(x.integral)) + FracPairs(x.fractional)
  {
    var d, e := DbtDigits(x), Reverse(IntPairs(x.integral)) + FracPairs(x.fractional);
    DbtDigitsLaws(x);
    forall k | 0 <= k < |d| ensures d[k] == e[k] {
      if k < |x.integral| {
        assert e[k] == IntPairs(x.integral)[|x.integral| - 1 - k];
      } else {
        assert e[k] == FracPairs(x.fractional)[k - |x.integral|];
      }
    }
  }

  /** The digit test: &23.456 lists (1, 2), (0, 3), (-1, 4), (-2, 5), (-3, 6). */
  lemma DbtDigitsExample()
    ensures DbtDigits(Dbt([Dbt3, Dbt2], [Dbt4, Dbt5, Dbt6]))
      == [(1, Dbt2), (0, Dbt3), (-1, Dbt4), (-2, Dbt5), (-3, Dbt6)]
  {
    DbtDigitsLaws(Dbt([Dbt3, Dbt2], [Dbt4, Dbt5, Dbt6]));
  }
}
