/** The text form `&<integral digits>.<fractional digits>`: Display and FromStr. The
    integral digits are written most significant first, so the stored (least significant
    first) sequence appears reversed. */
module TernaryText {
  import opened Results
  import opened Digits
  import opened Ternary

  // ---------------------------------------------------------------------------------------
  // Characters and pieces
  // ---------------------------------------------------------------------------------------

  predicate IsDigitChar(c: char)
  {
    '1' <= c <= '9'
  }

  /** Every character names a digit. */
  predicate DigitChars(t: string)
  {
    forall i :: 0 <= i < |t| ==> IsDigitChar(t[i])
  }

  /** Every character names a digit or is a '.'. */
  predicate TextChars(t: string)
  {
    forall i :: 0 <= i < |t| ==> t[i] == '.' || IsDigitChar(t[i])
  }

  predicate NoDot(t: string)
  {
    forall i :: 0 <= i < |t| ==> t[i] != '.'
  }

  function DotCount(t: string): nat
  {
    if t == [] then 0 else (if t[0] == '.' then 1 else 0) + DotCount(t[1..])
  }

  /** The sequence in the opposite order. */
  function Reverse<T>(s: seq<T>): (r: seq<T>)
    ensures |r| == |s|
    ensures forall i :: 0 <= i < |s| ==> r[i] == s[|s| - 1 - i]
  {
    seq(|s|, i requires 0 <= i < |s| => s[|s| - 1 - i])
  }

  lemma ReverseLaws<T>(s: seq<T>, d: T)
    ensures Reverse(Reverse(s)) == s
    ensures Reverse(s + [d]) == [d] + Reverse(s)
  {
    assert Reverse(Reverse(s)) == s;
    assert Reverse(s + [d]) == [d] + Reverse(s);
  }

  /** str::split('.'): the maximal dot-free pieces, in order; a string with k dots has k + 1
      pieces, some of them possibly empty. */
  function SplitDots(t: string): (ps: seq<string>)
    ensures |ps| >= 1
  {
    if t == [] then [[]]
    else
      var rest := SplitDots(t[1..]);
      if t[0] == '.' then [[]] + rest else [[t[0]] + rest[0]] + rest[1..]
  }

  lemma {:induction false} DotCountZero(t: string)
    ensures DotCount(t) == 0 <==> NoDot(t)
  {
    if t != [] {
      DotCountZero(t[1..]);
      if NoDot(t[1..]) && t[0] != '.' {
        forall i | 0 <= i < |t| ensures t[i] != '.' {
          if i > 0 { assert t[i] == t[1..][i - 1]; }
        }
      }
    }
  }

  /** There is one piece more than there are dots. */
  lemma {:induction false} SplitDotsCount(t: string)
    ensures |SplitDots(t)| == DotCount(t) + 1
  {
    if t != [] {
      SplitDotsCount(t[1..]);
    }
  }

  /** No piece contains a dot. */
  lemma {:induction false} SplitDotsPieces(t: string)
    ensures forall j :: 0 <= j < |SplitDots(t)| ==> NoDot(SplitDots(t)[j])
  {
    if t != [] && t[0] != '.' {
      var rest := SplitDots(t[1..]);
      SplitDotsPieces(t[1..]);
      assert NoDot(rest[0]);
      var p := [t[0]] + rest[0];
      forall i | 0 <= i < |p| ensures p[i] != '.' {
        if i > 0 { assert p[i] == rest[0][i - 1]; }
      }
      assert SplitDots(t) == [p] + rest[1..];
    } else if t != [] {
      SplitDotsPieces(t[1..]);
    }
  }

  /** A string without dots is its own only piece. */
  lemma {:induction false} SplitDotsWhole(t: string)
    requires NoDot(t)
    ensures SplitDots(t) == [t]
  {
    if t != [] {
      assert NoDot(t[1..]) by {
        forall i | 0 <= i < |t| - 1 ensures t[1..][i] != '.' {
          assert t[1..][i] == t[i + 1];
        }
      }
      SplitDotsWhole(t[1..]);
      assert [t[0]] + t[1..] == t;
    }
  }

  /** A string with exactly one dot splits around it. */
  lemma SplitDotsOne(t: string)
    requires DotCount(t) == 1
    ensures SplitDots(t) == [t[..FirstDot(t)], t[FirstDot(t) + 1..]]
  {
    var k := FirstDot(t);
    var p, q := t[..k], t[k + 1..];
    var dq := ['.'] + q;
    assert t == p + dq;
    DotCountAppend(p, dq);
    DotCountZero(p);
    assert dq[1..] == q;
    assert DotCount(q) == 0;
    DotCountZero(q);
    SplitDotsWhole(q);
    assert p + ['.'] + q == t;
    SplitDotsAfter(p, q);
  }

  /** The index of the first dot. */
  function FirstDot(t: string): (k: nat)
    requires DotCount(t) > 0
    ensures k < |t| && t[k] == '.' && NoDot(t[..k])
  {
    if t[0] == '.' then 0
    else
      var k := FirstDot(t[1..]) + 1;
      assert t[..k] == [t[0]] + t[1..][..k - 1];
      k
  }

  lemma {:induction false} DotCountAppend(p: string, q: string)
    ensures DotCount(p + q) == DotCount(p) + DotCount(q)
  {
    if p != [] {
      assert (p + q)[1..] == p[1..] + q;
      DotCountAppend(p[1..], q);
    } else {
      assert p + q == q;
    }
  }

  /** A dot-free piece followed by a dot begins the split. */
  lemma {:induction false} SplitDotsAfter(p: string, q: string)
    requires NoDot(p)
    ensures SplitDots(p + ['.'] + q) == [p] + SplitDots(q)
    decreases |p|
  {
    var t := p + ['.'] + q;
    if p == [] {
      assert t[1..] == q;
    } else {
      var p' := p[1..];
      assert t[1..] == p' + ['.'] + q;
      SplitDotsAfter(p', q);
      assert [p[0]] + p' == p;
    }
  }

  // ---------------------------------------------------------------------------------------
  // Digits as characters
  // ---------------------------------------------------------------------------------------

  /** Each digit written as its character. */
  function Chars(s: seq<Digit>): (r: string)
    ensures |r| == |s|
    ensures forall i :: 0 <= i < |s| ==> r[i] == ToChar(s[i])
  {
    seq(|s|, i requires 0 <= i < |s| => ToChar(s[i]))
  }

  /** The characters of a piece turned into digits, in order, stopping at the first
      character that names no digit. */
  function ParseChunk(t: string): (r: Result<seq<Digit>>)
    ensures r.Ok? <==> DigitChars(t)
    ensures r.Ok? ==> |r.value| == |t| && Chars(r.value) == t
    decreases |t|
  {
    if t == [] then Ok([])
    else
      var init := ParseChunk(t[..|t| - 1]);
      if init.Err? then init
      else
        var d := FromChar(t[|t| - 1]);
        if d.Err? then Err(d.error)
        else
          assert t == t[..|t| - 1] + [t[|t| - 1]];
          Ok(init.value + [d.value])
  }

  /** A piece that is not all digits fails with the first bad character. */
  lemma {:induction false} ParseChunkError(t: string)
    requires ParseChunk(t).Err?
    ensures exists k :: (0 <= k < |t| && DigitChars(t[..k]) && !IsDigitChar(t[k])
                         && ParseChunk(t).error == InvalidDigitChar(t[k]))
    decreases |t|
  {
    var init := t[..|t| - 1];
    if ParseChunk(init).Err? {
      ParseChunkError(init);
      var k :| 0 <= k < |init| && DigitChars(init[..k]) && !IsDigitChar(init[k])
        && ParseChunk(init).error == InvalidDigitChar(init[k]);
      assert init[..k] == t[..k];
    } else {
      assert t[..|t| - 1] == init;
    }
  }

  lemma ParseChars(s: seq<Digit>)
    ensures ParseChunk(Chars(s)) == Ok(s)
  {
    var t := Chars(s);
    assert DigitChars(t);
    CharsInjective(ParseChunk(t).value, s);
  }

  lemma CharsInjective(s: seq<Digit>, u: seq<Digit>)
    requires Chars(s) == Chars(u)
    ensures s == u
  {
    forall i | 0 <= i < |s| ensures s[i] == u[i] {
      assert ToChar(s[i]) == Chars(s)[i] == ToChar(u[i]);
      CharRoundTrip(s[i], ToChar(s[i]));
      CharRoundTrip(u[i], ToChar(u[i]));
    }
  }

  lemma CharsNoDot(s: seq<Digit>)
    ensures NoDot(Chars(s)) && DigitChars(Chars(s))
  {
  }

  // ---------------------------------------------------------------------------------------
  // Display
  // ---------------------------------------------------------------------------------------

  /** Display: `&5` for the empty number; otherwise `&`, the integral digits most
      significant first and, when there are fractional digits, a `.` and those digits. The
      number is written as stored, without stripping. */
  function Format(x: Dbt): string
  {
    if x.integral == [] && x.fractional == [] then "&5"
    else "&" + Chars(Reverse(x.integral)) + (if x.fractional == [] then "" else "." + Chars(x.fractional))
  }

  method FormatImpl(x: Dbt) returns (r: string)
    ensures r == Format(x)
  {
    if x.integral == [] && x.fractional == [] {
      return "&5";
    }
    r := "&";
    var n := |x.integral|;
    for i := 0 to n
      invariant r == "&" + Chars(Reverse(x.integral)[..i])
    {
      r := r + [ToChar(x.integral[n - i - 1])];
      assert Chars(Reverse(x.integral)[..i + 1]) == Chars(Reverse(x.integral)[..i]) + [ToChar(x.integral[n - i - 1])];
    }
    assert Reverse(x.integral)[..n] == Reverse(x.integral);
    if x.fractional != [] {
      var head := r + ".";
      r := head;
      for j := 0 to |x.fractional|
        invariant r == head + Chars(x.fractional[..j])
      {
        r := r + [ToChar(x.fractional[j])];
        assert Chars(x.fractional[..j + 1]) == Chars(x.fractional[..j]) + [ToChar(x.fractional[j])];
      }
      assert x.fractional[..|x.fractional|] == x.fractional;
    }
  }

  /** The written form starts with `&` and has one character per stored digit, plus a `.`
      exactly when there are fractional digits; only the empty number is written `&5`
      without a stored digit. */
  lemma FormatShape(x: Dbt)
    ensures |Format(x)| >= 2 && Format(x)[0] == '&'
    ensures x != Zero ==>
      |Format(x)| == 1 + |x.integral| + (if x.fractional == [] then 0 else 1 + |x.fractional|)
    ensures DotCount(Format(x)[1..]) == if x.fractional == [] then 0 else 1
  {
    var t := Format(x)[1..];
    if x == Zero {
      assert t == "5";
      assert t[1..] == [];
    } else {
      var ip := Chars(Reverse(x.integral));
      CharsNoDot(Reverse(x.integral));
      DotCountZero(ip);
      if x.fractional == [] {
        assert t == ip;
      } else {
        var fp := Chars(x.fractional);
        CharsNoDot(x.fractional);
        DotCountZero(fp);
        assert t == ip + (['.'] + fp);
        DotCountAppend(ip, ['.'] + fp);
        assert (['.'] + fp)[1..] == fp;
      }
    }
  }

  // ---------------------------------------------------------------------------------------
  // FromStr
  // ---------------------------------------------------------------------------------------

  /** FromStr: the first character is skipped without being looked at; what follows is split
      at every '.'. The characters of the first piece are parsed (each new digit becomes the
      least significant one), and those of the second piece only when there are exactly two
      pieces; only then is a third piece refused. The result is stripped. */
  function Parse(s: string): (r: Result<Dbt>)
  {
    if s == [] then Err(MissingMarker)
    else if |s| == 1 then Err(MissingNumber)
    else
      var pieces := SplitDots(s[1..]);
      var integral := ParseChunk(pieces[0]);
      if integral.Err? then Err(integral.error)
      else
        var fractional := if |pieces| == 2 then ParseChunk(pieces[1]) else Ok([]);
        if fractional.Err? then Err(fractional.error)
        else if |pieces| > 2 then Err(InvalidFormat)
        else Ok(Strip(Dbt(Reverse(integral.value), fractional.value)))
  }

  /** Parses a piece the way the source's loop does, from the first character on, and
      returns the digits in the order given (the integral loop reverses them itself). */
  method ParseChunkImpl(t: string) returns (r: Result<seq<Digit>>)
    ensures r == ParseChunk(t)
  {
    var digits: seq<Digit> := [];
    for i := 0 to |t|
      invariant ParseChunk(t[..i]) == Ok(digits)
    {
      var d := FromChar(t[i]);
      assert t[..i + 1][..i] == t[..i];
      if d.Err? {
        ParseChunkStops(t, i + 1);
        return Err(d.error);
      }
      digits := digits + [d.value];
    }
    assert t[..|t|] == t;
    r := Ok(digits);
  }

  /** Once a prefix fails, the whole piece fails with the same error. */
  lemma {:induction false} ParseChunkStops(t: string, i: nat)
    requires i <= |t| && ParseChunk(t[..i]).Err?
    ensures ParseChunk(t) == ParseChunk(t[..i])
    decreases |t| - i
  {
    if i < |t| {
      assert t[..i + 1][..i] == t[..i];
      ParseChunkStops(t, i + 1);
    } else {
      assert t[..i] == t;
    }
  }

  method ParseImpl(s: string) returns (r: Result<Dbt>)
    ensures r == Parse(s)
  {
    if |s| == 0 {
      return Err(MissingMarker);
    }
    var content := s[1..];
    if |content| == 0 {
      return Err(MissingNumber);
    }
    var pieces := SplitDots(content);
    var integral: seq<Digit> := [];
    var fractional: seq<Digit> := [];
    var chunk := pieces[0];
    var head := ParseChunkImpl(chunk);
    if head.Err? {
      return Err(head.error);
    }
    for i := 0 to |head.value|
      invariant integral == Reverse(head.value[..i])
    {
      ReverseLaws(head.value[..i], head.value[i]);
      assert head.value[..i + 1] == head.value[..i] + [head.value[i]];
      integral := [head.value[i]] + integral;
    }
    assert head.value[..|head.value|] == head.value;
    if |pieces| == 2 {
      var tail := ParseChunkImpl(pieces[1]);
      if tail.Err? {
        return Err(tail.error);
      }
      fractional := tail.value;
    }
    if |pieces| > 2 {
      return Err(InvalidFormat);
    }
    var result := StripImpl(Dbt(integral, fractional));
    r := Ok(result);
  }

  /** A parsed number is in canonical form. */
  lemma ParseStripped(s: string)
    requires Parse(s).Ok?
    ensures IsStripped(Parse(s).value)
  {
    var pieces := SplitDots(s[1..]);
    var f := if |pieces| == 2 then ParseChunk(pieces[1]).value else [];
    StripLaws(Dbt(Reverse(ParseChunk(pieces[0]).value), f));
  }

  /** Parsing succeeds exactly when there is something after the first character, it holds
      at most one '.', and every other character after the first is a digit. */
  lemma ParseOk(s: string)
    ensures Parse(s).Ok? <==> |s| >= 2 && DotCount(s[1..]) <= 1 && TextChars(s[1..])
  {
    if |s| >= 2 {
      var t := s[1..];
      var pieces := SplitDots(t);
      SplitDotsCount(t);
      if DotCount(t) == 0 {
        DotCountZero(t);
        SplitDotsWhole(t);
        assert DigitChars(t) <==> TextChars(t);
      } else if DotCount(t) == 1 {
        SplitDotsOne(t);
        var k := FirstDot(t);
        SplitDotsPieces(t);
        assert NoDot(pieces[0]) && NoDot(pieces[1]);
        OneDotChars(t, k);
      }
    }
  }

  /** Around its only dot, a string is text exactly when both sides are digits. */
  lemma OneDotChars(t: string, k: nat)
    requires k < |t| && t[k] == '.' && NoDot(t[..k]) && NoDot(t[k + 1..])
    ensures TextChars(t) <==> DigitChars(t[..k]) && DigitChars(t[k + 1..])
  {
    if DigitChars(t[..k]) && DigitChars(t[k + 1..]) {
      forall i | 0 <= i < |t| ensures t[i] == '.' || IsDigitChar(t[i]) {
        if i < k { assert t[i] == t[..k][i]; }
        else if i > k { assert t[i] == t[k + 1..][i - k - 1]; }
      }
    }
    if TextChars(t) {
      forall i | 0 <= i < k ensures IsDigitChar(t[..k][i]) {
        assert t[..k][i] == t[i] && t[..k][i] != '.';
      }
      var q := t[k + 1..];
      forall i | 0 <= i < |q| ensures IsDigitChar(q[i]) {
        assert q[i] == t[k + 1 + i] && q[i] != '.';
      }
    }
  }

  /** The failures: nothing at all, nothing after the first character, a character that is
      not a digit (the first such one in the pieces that are parsed), or a second '.'. */
  lemma ParseErrors(s: string)
    ensures s == [] ==> Parse(s) == Err(MissingMarker)
    ensures |s| == 1 ==> Parse(s) == Err(MissingNumber)
    ensures |s| >= 2 && Parse(s).Err? ==>
      (Parse(s).error == InvalidFormat && DotCount(s[1..]) >= 2)
      || (Parse(s).error.InvalidDigitChar? && !IsDigitChar(Parse(s).error.c)
          && Parse(s).error.c != '.' && Parse(s).error.c in s[1..])
  {
    if |s| >= 2 && Parse(s).Err? {
      var t := s[1..];
      var pieces := SplitDots(t);
      SplitDotsCount(t);
      var j := if ParseChunk(pieces[0]).Err? then 0 else 1;
      if ParseChunk(pieces[0]).Err? || (|pieces| == 2 && ParseChunk(pieces[1]).Err?) {
        ParseChunkError(pieces[j]);
        var k :| 0 <= k < |pieces[j]| && !IsDigitChar(pieces[j][k])
          && ParseChunk(pieces[j]).error == InvalidDigitChar(pieces[j][k]);
        SplitDotsPieces(t);
        assert NoDot(pieces[j]);
        PieceChar(t, j, k);
      }
    }
  }

  /** Every character of a piece occurs in the split string. */
  lemma {:induction false} PieceChar(t: string, j: nat, k: nat)
    requires j < |SplitDots(t)| && k < |SplitDots(t)[j]|
    ensures SplitDots(t)[j][k] in t
  {
    if t != [] {
      var rest := SplitDots(t[1..]);
      if t[0] == '.' {
        if j > 0 {
          PieceChar(t[1..], j - 1, k);
        }
      } else if j == 0 {
        if k > 0 {
          PieceChar(t[1..], 0, k - 1);
        }
      } else {
        PieceChar(t[1..], j, k);
      }
    }
  }

  /** Parsing the written form gives back the number in canonical form. */
  lemma FormatParse(x: Dbt)
    ensures Parse(Format(x)) == Ok(Strip(x))
  {
    if x == Zero {
      FiveText();
      assert Format(x)[1..] == "5";
    } else if x.fractional == [] {
      FormatParseWhole(x);
    } else {
      FormatParseMixed(x);
    }
  }

  lemma FormatParseWhole(x: Dbt)
    requires x.integral != [] && x.fractional == []
    ensures Parse(Format(x)) == Ok(Strip(x))
  {
    var u := Reverse(x.integral);
    var s := Format(x);
    assert s == "&" + Chars(u);
    assert s[1..] == Chars(u);
    CharsNoDot(u);
    SplitDotsWhole(Chars(u));
    ParseOnePiece(s, u);
    ReverseLaws(x.integral, Dbt5);
  }

  /** Text whose only piece spells u parses to u read as integral digits. */
  lemma ParseOnePiece(s: string, u: seq<Digit>)
    requires |s| >= 2 && SplitDots(s[1..]) == [Chars(u)]
    ensures Parse(s) == Ok(Strip(Dbt(Reverse(u), [])))
  {
    ParseChars(u);
  }

  lemma FormatParseMixed(x: Dbt)
    requires x.fractional != []
    ensures Parse(Format(x)) == Ok(Strip(x))
  {
    var ip := Chars(Reverse(x.integral));
    var fp := Chars(x.fractional);
    assert Format(x)[1..] == ip + ['.'] + fp;
    CharsNoDot(Reverse(x.integral));
    CharsNoDot(x.fractional);
    SplitDotsAfter(ip, fp);
    SplitDotsWhole(fp);
    assert SplitDots(Format(x)[1..]) == [ip, fp];
    ParseChars(Reverse(x.integral));
    ParseChars(x.fractional);
    ReverseLaws(x.integral, Dbt5);
  }

  /** `&5` and the empty number. */
  lemma FiveText()
    ensures SplitDots("5") == ["5"]
    ensures ParseChunk("5") == Ok([Dbt5])
    ensures Strip(Dbt([Dbt5], [])) == Zero
  {
    assert Chars([Dbt5]) == "5";
    ParseChars([Dbt5]);
    SplitDotsWhole("5");
  }

  /** Two numbers written the same are equal. */
  lemma FormatSame(x: Dbt, y: Dbt)
    requires Format(x) == Format(y)
    ensures Same(x, y)
  {
    FormatParse(x);
    FormatParse(y);
  }

  /** The examples of the math tests: a trailing Dbt5 on either side is dropped, and
      &1.1 is written back as it was read. */
  lemma ParseExampleFractional()
    ensures Parse("&1.15") == Ok(Dbt([Dbt1], [Dbt1]))
  {
    FormatParse(Dbt([Dbt1], [Dbt1, Dbt5]));
    FormatExampleFractional();
    assert [Dbt1, Dbt5][..1] == [Dbt1];
  }

  lemma FormatExampleFractional()
    ensures Format(Dbt([Dbt1], [Dbt1, Dbt5])) == "&1.15"
  {
    assert Reverse([Dbt1]) == [Dbt1];
    assert Chars([Dbt1]) == "1";
    assert Chars([Dbt1, Dbt5]) == "15";
    assert "&" + "1" + ("." + "15") == "&1.15";
  }

  lemma ParseExampleIntegral()
    ensures Parse("&51.1") == Ok(Dbt([Dbt1], [Dbt1]))
  {
    var x := Dbt([Dbt1, Dbt5], [Dbt1]);
    FormatParse(x);
    FormatExampleIntegral();
    StripExample();
  }

  lemma FormatExampleIntegral()
    ensures Format(Dbt([Dbt1, Dbt5], [Dbt1])) == "&51.1"
  {
    assert Reverse([Dbt1, Dbt5]) == [Dbt5, Dbt1];
    assert Chars([Dbt5, Dbt1]) == "51";
    assert Chars([Dbt1]) == "1";
    assert "&" + "51" + ("." + "1") == "&51.1";
  }

  lemma StripExample()
    ensures Strip(Dbt([Dbt1, Dbt5], [Dbt1])) == Dbt([Dbt1], [Dbt1])
  {
    assert [Dbt1, Dbt5][..1] == [Dbt1];
  }

  lemma FormatExample()
    ensures Format(Dbt([Dbt1], [Dbt1])) == "&1.1"
  {
    assert Reverse([Dbt1]) == [Dbt1];
    assert Chars([Dbt1]) == "1";
  }

  /** The first character is never looked at. */
  lemma ParseSkipsMarker(c: char, d: char, t: string)
    ensures Parse([c] + t) == Parse([d] + t)
  {
    assert ([c] + t)[1..] == t == ([d] + t)[1..];
  }

  /** The failing inputs of the parser. */
  lemma ParseEdgeExamples()
    ensures Parse("") == Err(MissingMarker)
    ensures Parse("&") == Err(MissingNumber)
    ensures Parse("&5") == Ok(Zero)
  {
    FiveText();
    assert "&5"[1..] == "5";
  }

  lemma ParseExampleTwoDots()
    ensures Parse("&1.1.1") == Err(InvalidFormat)
  {
    OneText();
    assert "&1.1.1"[1..] == "1" + ['.'] + "1.1";
    assert "1.1" == "1" + ['.'] + "1";
    SplitDotsAfter("1", "1");
    SplitDotsAfter("1", "1.1");
  }

  lemma ParseExampleBadChar()
    ensures Parse("&1x") == Err(InvalidDigitChar('x'))
  {
    BadText();
    assert "&1x"[1..] == "1x";
  }

  lemma OneText()
    ensures SplitDots("1") == ["1"]
    ensures ParseChunk("1") == Ok([Dbt1])
  {
    assert Chars([Dbt1]) == "1";
    ParseChars([Dbt1]);
    SplitDotsWhole("1");
  }

  lemma BadText()
    ensures SplitDots("1x") == ["1x"]
    ensures ParseChunk("1x") == Err(InvalidDigitChar('x'))
  {
    SplitDotsWhole("1x");
    assert "1x"[..1] == "1";
    OneText();
  }
}
