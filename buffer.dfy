/** The byte buffer codec: a length byte holding the number of integral digits, then the
    integral digits two to a byte, then the fractional digits two to a byte. Each byte holds
    the earlier digit's code in its high nibble and the later one's in its low nibble; an odd
    block is completed with the code of Dbt5. */
module TernaryBuffer {
  import opened Results
  import opened Digits
  import opened Ternary

  /** The byte holding two digit codes, the first in the high nibble. */
  function Nibbles(hi: Digit, lo: Digit): (b: Byte)
    ensures 17 <= b <= 153
  {
    Code(hi) * 16 + Code(lo)
  }

  lemma NibblesSplit(hi: Digit, lo: Digit)
    ensures Nibbles(hi, lo) / 16 == Code(hi) && Nibbles(hi, lo) % 16 == Code(lo)
  {
  }

  /** A block of digits, two to a byte; the last byte is completed with Dbt5 when the block
      has odd length (At reads Dbt5 past the end). */
  function Pack(s: seq<Digit>): (bs: seq<Byte>)
    ensures |bs| == (|s| + 1) / 2
  {
    seq((|s| + 1) / 2, k requires 0 <= k < (|s| + 1) / 2 => Nibbles(At(s, 2 * k), At(s, 2 * k + 1)))
  }

  /** The block with the padding digit that Pack adds. */
  function Padded(s: seq<Digit>): (r: seq<Digit>)
    ensures |r| == 2 * ((|s| + 1) / 2)
    ensures forall j :: 0 <= j < |r| ==> r[j] == At(s, j)
  {
    if |s| % 2 == 1 then s + [Dbt5] else s
  }

  /** Both nibbles of every byte are digit codes. */
  predicate ValidNibbles(bs: seq<Byte>)
  {
    forall i :: 0 <= i < |bs| ==> 1 <= bs[i] / 16 <= 9 && 1 <= bs[i] % 16 <= 9
  }

  /** The code in nibble j of a run of bytes: the high nibble of byte j / 2 when j is even,
      its low nibble when j is odd. */
  function Nibble(bs: seq<Byte>, j: nat): int
    requires j < 2 * |bs|
  {
    if j % 2 == 0 then bs[j / 2] / 16 else bs[j / 2] % 16
  }

  /** The digits of a run of bytes, high nibble first, stopping at the first nibble that is
      not a digit code. */
  function Unpack(bs: seq<Byte>): (r: Result<seq<Digit>>)
    ensures r.Ok? <==> ValidNibbles(bs)
    decreases |bs|
  {
    if bs == [] then Ok([])
    else
      var init := Unpack(bs[..|bs| - 1]);
      var b := bs[|bs| - 1];
      if init.Err? then init
      else
        var hi := FromCode(b / 16);
        if hi.Err? then Err(hi.error)
        else
          var lo := FromCode(b % 16);
          if lo.Err? then Err(lo.error)
          else Ok(init.value + [hi.value, lo.value])
  }

  // ---------------------------------------------------------------------------------------
  // Encoder and decoder
  // ---------------------------------------------------------------------------------------

  /** TryFrom<DualBalancedTernary> for Vec<u8>: the stripped number, refused when its
      integral part does not fit a length byte. */
  function Encode(x: Dbt): (r: Result<seq<Byte>>)
  {
    var v := Strip(x);
    if |v.integral| < 256 then Ok([|v.integral|] + Pack(v.integral) + Pack(v.fractional))
    else Err(IntegralTooLong(|v.integral|))
  }

  /** The number of bytes holding integral digits, for a length byte n: n / 2 rounded up. */
  function IntegralBytes(n: Byte): nat
  {
    (n + 1) / 2
  }

  /** TryFrom<&Vec<u8>> for DualBalancedTernary. The source adds 1 to the length byte in
      8-bit arithmetic, which overflows for 255; such a buffer is excluded here. */
  function Decode(buf: seq<Byte>): (r: Result<Dbt>)
    requires |buf| > 0 ==> buf[0] < 255
  {
    if buf == [] then Err(EmptyBuffer)
    else
      var n := IntegralBytes(buf[0]);
      if |buf| < n + 1 then Err(BufferTooShort)
      else
        var integral := Unpack(buf[1..n + 1]);
        if integral.Err? then Err(integral.error)
        else
          var fractional := Unpack(buf[n + 1..]);
          if fractional.Err? then Err(fractional.error)
          else Ok(Strip(Dbt(integral.value, fractional.value)))
  }

  // ---------------------------------------------------------------------------------------
  // The encoder and decoder as the source runs them
  // ---------------------------------------------------------------------------------------

  /** One encoding loop: `halfed` records that the high nibble of `prev` is filled and its
      byte not yet pushed; a pending byte is completed with Dbt5 after the loop. */
  method PackInto(buf: seq<Byte>, s: seq<Digit>) returns (out: seq<Byte>)
    ensures out == buf + Pack(s)
  {
    out := buf;
    var halfed := false;
    var prev: Byte := 0;
    ghost var paired: nat := 0;
    for i := 0 to |s|
      invariant paired == if halfed then i - 1 else i
      invariant paired % 2 == 0
      invariant halfed ==> prev == Code(s[paired]) * 16
      invariant out == buf + Pack(s[..paired])
    {
      if halfed {
        PackPair(s, paired);
        prev := prev + Code(s[i]);
        out := out + [prev];
        halfed := false;
        paired := i + 1;
      } else {
        prev := Code(s[i]) * 16;
        halfed := true;
      }
    }
    if halfed {
      PackLast(s);
      prev := prev + 5;
      out := out + [prev];
    } else {
      assert s[..|s|] == s;
    }
  }

  method EncodeImpl(x: Dbt) returns (r: Result<seq<Byte>>)
    ensures r == Encode(x)
  {
    var v := StripImpl(x);
    var intLen := |v.integral|;
    if intLen >= 256 {
      return Err(IntegralTooLong(intLen));
    }
    var buf := PackInto([intLen], v.integral);
    assert |buf| == (intLen + 1) / 2 + 1;
    buf := PackInto(buf, v.fractional);
    r := Ok(buf);
  }

  /** One decoding step: both nibbles of x, high first, appended to the digits decoded so far
      from the same block. */
  method UnpackByte(digits: seq<Digit>, ghost bs: seq<Byte>, x: Byte) returns (r: Result<seq<Digit>>)
    requires Unpack(bs) == Ok(digits)
    ensures r == Unpack(bs + [x])
  {
    assert (bs + [x])[..|bs|] == bs;
    var hi := FromCode(x / 16);
    if hi.Err? {
      return Err(hi.error);
    }
    var lo := FromCode(x % 16);
    if lo.Err? {
      return Err(lo.error);
    }
    r := Ok(digits + [hi.value, lo.value]);
  }

  method DecodeImpl(buf: seq<Byte>) returns (r: Result<Dbt>)
    requires |buf| > 0 ==> buf[0] < 255
    ensures r == Decode(buf)
  {
    if |buf| == 0 {
      return Err(EmptyBuffer);
    }
    var intRange := (buf[0] + 1) / 2;
    if |buf| < intRange + 1 {
      return Err(BufferTooShort);
    }
    var integral: seq<Digit> := [];
    var fractional: seq<Digit> := [];
    ghost var bs, cs := buf[1..intRange + 1], buf[intRange + 1..];
    // The source walks every index from 1 in a single loop and sends indices below
    // intRange + 1 to the integral digits; the two loops visit the same bytes in the same order.
    for idx := 1 to intRange + 1
      invariant Unpack(bs[..idx - 1]) == Ok(integral)
    {
      var next := DecodeStep(integral, bs, idx - 1, buf[idx]);
      if next.Err? {
        return Err(next.error);
      }
      integral := next.value;
    }
    assert bs[..intRange] == bs;
    for idx := intRange + 1 to |buf|
      invariant Unpack(cs[..idx - (intRange + 1)]) == Ok(fractional)
    {
      var next := DecodeStep(fractional, cs, idx - (intRange + 1), buf[idx]);
      if next.Err? {
        return Err(next.error);
      }
      fractional := next.value;
    }
    assert cs[..|buf| - (intRange + 1)] == cs;
    var result := StripImpl(Dbt(integral, fractional));
    r := Ok(result);
  }

  /** Byte i of a block, given the digits of the bytes before it: the digits up to and
      including this byte, or the error that the whole block then fails with. */
  method DecodeStep(digits: seq<Digit>, ghost bs: seq<Byte>, ghost i: nat, x: Byte)
    returns (r: Result<seq<Digit>>)
    requires i < |bs| && bs[i] == x && Unpack(bs[..i]) == Ok(digits)
    ensures r.Ok? ==> Unpack(bs[..i + 1]) == r
    ensures r.Err? ==> Unpack(bs) == r
  {
    assert bs[..i + 1] == bs[..i] + [x];
    r := UnpackByte(digits, bs[..i], x);
    if r.Err? {
      UnpackStops(bs, i + 1);
    }
  }

  // ---------------------------------------------------------------------------------------
  // Lemmas
  // ---------------------------------------------------------------------------------------

  lemma PackPair(s: seq<Digit>, i: nat)
    requires i % 2 == 0 && i + 2 <= |s|
    ensures Pack(s[..i + 2]) == Pack(s[..i]) + [Nibbles(s[i], s[i + 1])]
  {
    var p, q := Pack(s[..i + 2]), Pack(s[..i]) + [Nibbles(s[i], s[i + 1])];
    assert |p| == |q|;
    forall k | 0 <= k < |p| ensures p[k] == q[k] {
      if 2 * k < i {
        assert At(s[..i + 2], 2 * k) == At(s[..i], 2 * k);
        assert At(s[..i + 2], 2 * k + 1) == At(s[..i], 2 * k + 1);
      }
    }
  }

  lemma PackLast(s: seq<Digit>)
    requires |s| % 2 == 1
    ensures Pack(s) == Pack(s[..|s| - 1]) + [Nibbles(s[|s| - 1], Dbt5)]
  {
    var t := s[..|s| - 1];
    var p, q := Pack(s), Pack(t) + [Nibbles(s[|s| - 1], Dbt5)];
    assert |p| == |q|;
    forall k | 0 <= k < |p| ensures p[k] == q[k] {
      if 2 * k < |t| {
        assert At(s, 2 * k) == At(t, 2 * k);
        assert At(s, 2 * k + 1) == At(t, 2 * k + 1);
      }
    }
  }

  lemma PackWhole(s: seq<Digit>)
    requires |s| % 2 == 0
    ensures Pack(s[..|s|]) == Pack(s)
  {
    assert s[..|s|] == s;
  }

  /** The digits Unpack yields: the high and then the low nibble of each byte. */
  lemma {:induction false} UnpackDigits(bs: seq<Byte>)
    requires ValidNibbles(bs)
    ensures |Unpack(bs).value| == 2 * |bs|
    ensures forall j :: 0 <= j < 2 * |bs| ==> Code(Unpack(bs).value[j]) == Nibble(bs, j)
    decreases |bs|
  {
    if bs != [] {
      var init := bs[..|bs| - 1];
      assert ValidNibbles(init) by {
        forall i | 0 <= i < |init| ensures 1 <= init[i] / 16 <= 9 && 1 <= init[i] % 16 <= 9 {
          assert init[i] == bs[i];
        }
      }
      UnpackDigits(init);
      var b := bs[|bs| - 1];
      var v := Unpack(bs).value;
      assert v == Unpack(init).value + [FromCode(b / 16).value, FromCode(b % 16).value];
      forall j | 0 <= j < 2 * |bs|
        ensures Code(v[j]) == Nibble(bs, j)
      {
        if j < 2 * |init| {
          assert v[j] == Unpack(init).value[j];
          assert bs[j / 2] == init[j / 2];
        }
      }
    }
  }

  /** An error of Unpack names a nibble of one of the bytes. */
  lemma {:induction false} UnpackErrors(bs: seq<Byte>)
    requires Unpack(bs).Err?
    ensures exists i :: (0 <= i < |bs| &&
                         (Unpack(bs).error == UnknownCode(bs[i] / 16) || Unpack(bs).error == UnknownCode(bs[i] % 16)))
    decreases |bs|
  {
    var init := bs[..|bs| - 1];
    if Unpack(init).Err? {
      UnpackErrors(init);
      var i :| 0 <= i < |init| &&
        (Unpack(init).error == UnknownCode(init[i] / 16) || Unpack(init).error == UnknownCode(init[i] % 16));
      assert init[i] == bs[i];
    } else {
      var i := |bs| - 1;
      assert Unpack(bs).error == UnknownCode(bs[i] / 16) || Unpack(bs).error == UnknownCode(bs[i] % 16);
    }
  }

  /** Once a prefix fails, the whole run fails with the same error. */
  lemma {:induction false} UnpackStops(bs: seq<Byte>, i: nat)
    requires i <= |bs| && Unpack(bs[..i]).Err?
    ensures Unpack(bs) == Unpack(bs[..i])
    decreases |bs| - i
  {
    if i < |bs| {
      assert bs[..i + 1][..i] == bs[..i];
      UnpackStops(bs, i + 1);
    } else {
      assert bs[..i] == bs;
    }
  }

  /** Every packed byte holds two digit codes. */
  lemma PackValid(s: seq<Digit>)
    ensures ValidNibbles(Pack(s))
  {
    var bs := Pack(s);
    forall k | 0 <= k < |bs| ensures 1 <= bs[k] / 16 <= 9 && 1 <= bs[k] % 16 <= 9 {
      NibblesSplit(At(s, 2 * k), At(s, 2 * k + 1));
    }
  }

  /** Unpacking a packed block gives the block back with its padding. */
  lemma UnpackPack(s: seq<Digit>)
    ensures Unpack(Pack(s)) == Ok(Padded(s))
  {
    var bs, w := Pack(s), Padded(s);
    PackValid(s);
    forall j | 0 <= j < 2 * |bs| ensures Code(w[j]) == Nibble(bs, j) {
      PackedDigit(s, j);
    }
    UnpackIs(bs, w);
  }

  /** Unpack yields exactly the digits whose codes are the nibbles. */
  lemma UnpackIs(bs: seq<Byte>, w: seq<Digit>)
    requires ValidNibbles(bs) && |w| == 2 * |bs|
    requires forall j :: 0 <= j < 2 * |bs| ==> Code(w[j]) == Nibble(bs, j)
    ensures Unpack(bs) == Ok(w)
  {
    UnpackDigits(bs);
    var v := Unpack(bs).value;
    forall j | 0 <= j < |v| ensures v[j] == w[j] {
      CodeInjective(v[j], w[j]);
    }
    assert v == w;
  }

  /** Digit j of a block sits in byte j / 2, in the high nibble when j is even. */
  lemma PackedDigit(s: seq<Digit>, j: nat)
    requires j < 2 * |Pack(s)|
    ensures Code(At(s, j)) == Nibble(Pack(s), j)
  {
    var k := j / 2;
    NibblesSplit(At(s, 2 * k), At(s, 2 * k + 1));
  }

  lemma CodeInjective(a: Digit, b: Digit)
    requires Code(a) == Code(b)
    ensures a == b
  {
    CodeRoundTrip(a, Code(a));
    CodeRoundTrip(b, Code(b));
  }

  lemma StripPadded(s: seq<Digit>)
    requires NoTrailingFive(s)
    ensures StripTail(Padded(s)) == s
  {
    if |s| % 2 == 1 {
      assert (s + [Dbt5])[..|s|] == s;
    }
    StripTailFixed(s);
  }

  /** Encoding fails exactly when the canonical form has 256 or more integral digits. */
  lemma EncodeErrors(x: Dbt)
    ensures Encode(x).Err? <==> |Strip(x).integral| >= 256
    ensures Encode(x).Err? ==> Encode(x).error == IntegralTooLong(|Strip(x).integral|)
  {
  }

  /** The layout of an encoded number: the length byte, ceil(I/2) integral bytes, ceil(F/2)
      fractional bytes, every nibble a digit code. */
  lemma EncodeShape(x: Dbt)
    requires Encode(x).Ok?
    ensures |Encode(x).value| == 1 + (|Strip(x).integral| + 1) / 2 + (|Strip(x).fractional| + 1) / 2
    ensures Encode(x).value[0] == |Strip(x).integral|
    ensures ValidNibbles(Encode(x).value[1..])
  {
    var v := Strip(x);
    var p, q := Pack(v.integral), Pack(v.fractional);
    PackValid(v.integral);
    PackValid(v.fractional);
    ValidNibblesAppend(p, q);
    Layout(|v.integral|, p, q);
  }

  lemma Layout(n: Byte, p: seq<Byte>, q: seq<Byte>)
    ensures |[n] + p + q| == 1 + |p| + |q| && ([n] + p + q)[0] == n && ([n] + p + q)[1..] == p + q
  {
    assert ([n] + p + q)[1..] == p + q;
  }

  lemma ValidNibblesAppend(bs: seq<Byte>, cs: seq<Byte>)
    ensures ValidNibbles(bs + cs) <==> ValidNibbles(bs) && ValidNibbles(cs)
  {
    var ds := bs + cs;
    if ValidNibbles(ds) {
      forall i | 0 <= i < |bs| ensures 1 <= bs[i] / 16 <= 9 && 1 <= bs[i] % 16 <= 9 {
        assert bs[i] == ds[i];
      }
      forall i | 0 <= i < |cs| ensures 1 <= cs[i] / 16 <= 9 && 1 <= cs[i] % 16 <= 9 {
        assert cs[i] == ds[|bs| + i];
      }
    }
  }

  /** Decoding an encoded number gives back its canonical form (for every length byte the
      decoder accepts). */
  lemma EncodeDecode(x: Dbt)
    requires |Strip(x).integral| < 255
    ensures Encode(x).Ok?
    ensures Decode(Encode(x).value) == Ok(Strip(x))
  {
    var v := Strip(x);
    StripLaws(x);
    var buf := Encode(x).value;
    var n := IntegralBytes(buf[0]);
    assert buf[1..n + 1] == Pack(v.integral);
    assert buf[n + 1..] == Pack(v.fractional);
    UnpackPack(v.integral);
    UnpackPack(v.fractional);
    StripPadded(v.integral);
    StripPadded(v.fractional);
  }

  /** The failures of the decoder: an empty buffer, fewer bytes than the length byte needs,
      or a nibble that is not a digit code; a decoded number is in canonical form. */
  lemma DecodeErrors(buf: seq<Byte>)
    requires |buf| > 0 ==> buf[0] < 255
    ensures buf == [] ==> Decode(buf) == Err(EmptyBuffer)
    ensures buf != [] ==> (Decode(buf) == Err(BufferTooShort) <==> |buf| < IntegralBytes(buf[0]) + 1)
    ensures Decode(buf).Ok? <==> buf != [] && |buf| >= IntegralBytes(buf[0]) + 1 && ValidNibbles(buf[1..])
    ensures Decode(buf).Ok? ==> IsStripped(Decode(buf).value)
  {
    if buf != [] && |buf| >= IntegralBytes(buf[0]) + 1 {
      var n := IntegralBytes(buf[0]);
      var bs, cs := buf[1..n + 1], buf[n + 1..];
      assert buf[1..] == bs + cs;
      ValidNibblesAppend(bs, cs);
      if Unpack(bs).Err? {
        UnpackErrors(bs);
      } else if Unpack(cs).Err? {
        UnpackErrors(cs);
      } else {
        StripLaws(Dbt(Unpack(bs).value, Unpack(cs).value));
      }
    }
  }

  /** The encoder accepts 255 integral digits and then emits the length byte 255, which the
      decoder cannot take. */
  lemma EncodeLengthByte255()
    ensures Encode(Dbt(seq(255, _ => Dbt1), [])).Ok?
    ensures Encode(Dbt(seq(255, _ => Dbt1), [])).value[0] == 255
  {
    var s: seq<Digit> := seq(255, _ => Dbt1);
    StripTailFixed(s);
  }

  /** The buffer examples: &1.1 is [1, 21, 21] both ways, trailing Dbt5s do not reach the
      buffer, and [1, 65, 20] is &14.14. */
  lemma BufferExamples()
    ensures Encode(Dbt([Dbt1], [Dbt1])) == Ok([1, 21, 21])
    ensures Encode(Dbt([Dbt1, Dbt5], [Dbt1, Dbt5])) == Encode(Dbt([Dbt1], [Dbt1]))
    ensures Decode([1, 21, 21]) == Ok(Dbt([Dbt1], [Dbt1]))
    ensures Decode([1, 65, 20]) == Ok(Dbt([Dbt4, Dbt1], [Dbt1, Dbt4]))
  {
    var one := Dbt([Dbt1], [Dbt1]);
    assert [Dbt1, Dbt5][..1] == [Dbt1];
    assert Strip(Dbt([Dbt1, Dbt5], [Dbt1, Dbt5])) == one;
    assert Strip(one) == one;
    assert Pack([Dbt1]) == [Nibbles(Dbt1, Dbt5)];
    assert [1] + [21] + [21] == [1, 21, 21];
    EncodeDecode(one);
    DecodeExample();
  }

  lemma DecodeExample()
    ensures Decode([1, 65, 20]) == Ok(Dbt([Dbt4, Dbt1], [Dbt1, Dbt4]))
  {
    var buf: seq<Byte> := [1, 65, 20];
    assert buf[1..2] == [65] && buf[2..] == [20];
    assert [65][..0] == [] && [20][..0] == [];
    assert [] + [Dbt4, Dbt1] == [Dbt4, Dbt1];
    assert [] + [Dbt1, Dbt4] == [Dbt1, Dbt4];
    assert Unpack([65]) == Ok([Dbt4, Dbt1]);
    assert Unpack([20]) == Ok([Dbt1, Dbt4]);
  }
}
