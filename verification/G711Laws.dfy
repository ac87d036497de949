/** What encoding followed by decoding does to a sample, and decoding followed by encoding to a code. */
module G711Laws {
  import opened Words
  import opened Companding
  import opened G711

  const MIN_INT: int := -0x8000_0000

  /** Largest magnitude the mu-law bias does not push past 2^31. */
  const ULAW_MAX: int := 0x7FFF_FFFF - 132

  function AlawQuantize(pcm: int): int {
    AlawValue(AlawCode(pcm))
  }

  function UlawQuantize(pcm: int): int
    requires UlawCode(pcm) >= 0
  {
    UlawValue(UlawCode(pcm))
  }

  /** The band where the A-law encoder's magnitude goes negative. */
  predicate InBand(pcm: int) {
    -8 < pcm < 0
  }

  lemma AlawMasks(y: nat)
    requires y < 128
    ensures Bitwise(Eor, y, 0xD5) == 128 + Bitwise(Eor, y, 0x55) < 256 && Bitwise(Eor, y, 0x55) < 128
    ensures Bitwise(Eor, 128 + y, 0x55) == 128 + Bitwise(Eor, y, 0x55)
    ensures Bitwise(Eor, Bitwise(Eor, y, 0x55), 0x55) == y
  {
    Bytes();
    hide Bitwise;
    hide Pow2;
    BitwiseBound(Eor, y, 0x55, 7);
    ZeroOperand(Eor, 1);
    BitwiseSplit(Eor, 0, y, 1, 0x55, 7, 128);
    BitwiseSplit(Eor, 1, y, 0, 0x55, 7, 128);
    EorTwice(y, 0x55);
  }

  lemma SignedOutputOfLevel(law: Law, y: nat)
    requires y < 128
    ensures SignedOutput(law, 128 + y) == Expand(law, y) && SignedOutput(law, y) == 0 - Expand(law, y)
  {
    ByteFields(0, 1, y / 16, y % 16);
    ByteFields(0, 0, y / 16, y % 16);
  }

  lemma AlawValueOfByte(code: nat)
    ensures AlawValue(code) == SignedOutput(ALaw, Bitwise(Eor, code % 256, 0x55))
    ensures code < 256 ==> code % 256 == code
  {
    hide Bitwise;
    hide SignedOutput;
  }

  /** The level and the sign bit of a code survive the even-bit inversion. */
  lemma AlawValueOfLevel(y: nat)
    requires y < 128
    ensures AlawValue(Bitwise(Eor, y, 0xD5)) == Expand(ALaw, y)
    ensures AlawValue(Bitwise(Eor, y, 0x55)) == 0 - Expand(ALaw, y)
  {
    hide *;
    AlawMasks(y);
    var z := Bitwise(Eor, y, 0x55);
    AlawMasks(z);
    SignedOutputOfLevel(ALaw, y);
    AlawValueOfByte(128 + z);
    AlawValueOfByte(z);
  }

  lemma UlawValueOfLevel(y: nat)
    requires y < 128
    ensures UlawValue(255 - y) == Expand(MuLaw, y) - 132
    ensures UlawValue(127 - y) == 132 - Expand(MuLaw, y)
  {
    hide Output;
    ByteFields(0, 1, 7 - y / 16, 15 - y % 16);
    ByteFields(0, 0, 7 - y / 16, 15 - y % 16);
  }

  /** The quantizer in terms of the magnitude scale, over every 32-bit sample. */
  lemma AlawQuantizeIs(pcm: int)
    requires IsInt32(pcm)
    ensures AlawQuantize(pcm) ==
      if pcm >= 0 then Expand(ALaw, Compress(ALaw, pcm))
      else if InBand(pcm) || pcm == MIN_INT then -248
      else 0 - Expand(ALaw, Compress(ALaw, -pcm - 8))
  {
    hide Bitwise;
    hide SignedOutput;
    hide Compress;
    hide AlawValue;
    if InBand(pcm) || pcm == MIN_INT {
      AlawValueOfLevel(15);
      BandCode();
    } else {
      var mag := if pcm >= 0 then pcm else -pcm - 8;
      CompressLocates(ALaw, mag);
      AlawValueOfLevel(Compress(ALaw, mag));
    }
  }

  lemma UlawLevelBound(pcm: int)
    ensures UlawLevel(pcm) < 128
  {
    var b := Magnitude(pcm) + 132;
    if b < 0x8000_0000 { CompressLocates(MuLaw, b); }
  }

  lemma UlawQuantizeIs(pcm: int)
    requires IsInt32(pcm)
    ensures 0 <= UlawLevel(pcm) < 128 && UlawCode(pcm) >= 0
    ensures UlawQuantize(pcm) ==
      if pcm >= 0 then Expand(MuLaw, UlawLevel(pcm)) - 132 else 132 - Expand(MuLaw, UlawLevel(pcm))
  {
    UlawLevelBound(pcm);
    UlawValueOfLevel(UlawLevel(pcm));
    hide UlawValue;
    hide UlawLevel;
  }

  ghost function AlawMag(pcm: int): int {
    if pcm >= 0 then pcm else -pcm - 8
  }

  /** Half-step accuracy; negative samples carry the routine's offset of 8, which costs at most 7 more. */
  ghost predicate AlawAccurate(pcm: int) {
    var err := Magnitude(AlawQuantize(pcm) - pcm);
    32 * (if pcm >= 0 then err else err - 7) <= if AlawMag(pcm) < 256 then 256 else AlawMag(pcm)
  }

  /** The A-law error bound, exactly: over all 32-bit samples it fails only in the band -7..-1 and past overload. */
  lemma AlawErrorExactly(pcm: int)
    requires IsInt32(pcm)
    ensures AlawAccurate(pcm) <==> -33303 <= pcm <= 33296 && !InBand(pcm)
  {
    AlawQuantizeIs(pcm);
    hide AlawQuantize;
    hide Compress;
    hide Expand;
    if !InBand(pcm) && pcm != MIN_INT {
      if AlawMag(pcm) < 32768 {
        var half := ExpandError(ALaw, AlawMag(pcm));
      } else {
        Overload(ALaw, AlawMag(pcm));
      }
    }
  }

  ghost predicate UlawAccurate(pcm: int)
    requires UlawCode(pcm) >= 0
  {
    32 * Magnitude(UlawQuantize(pcm) - pcm) <= Magnitude(pcm) + 132
  }

  /** The mu-law error bound, exactly, over all 32-bit samples; beyond the scale the result is the last level until the
      bias overflows. */
  lemma UlawErrorExactly(pcm: int)
    requires IsInt32(pcm)
    ensures UlawCode(pcm) >= 0
    ensures UlawAccurate(pcm) <==> Magnitude(pcm) <= 33164
    ensures 32635 < Magnitude(pcm) <= ULAW_MAX ==> UlawQuantize(pcm) == if pcm > 0 then 32124 else -32124
  {
    UlawQuantizeIs(pcm);
    if Magnitude(pcm) > ULAW_MAX { UlawOverflow(pcm); }
    hide UlawQuantize;
    hide Compress;
    hide Expand;
    var b := Magnitude(pcm) + 132;
    if b < 32768 {
      var half := ExpandError(MuLaw, b);
    } else {
      Overload(MuLaw, b);
    }
  }

  /** What is left of a magnitude whose bias overflows: its step number in segment 0. */
  function Wrapped(mag: nat): nat {
    8 * ((mag + 132) / 8 % 16)
  }

  /** Outside the unbiased range the routine wraps: the result is within 120 of zero, whatever the sample. */
  lemma UlawOverflow(pcm: int)
    requires IsInt32(pcm) && Magnitude(pcm) > ULAW_MAX
    ensures UlawCode(pcm) >= 0
    ensures UlawQuantize(pcm) == if pcm > 0 then Wrapped(Magnitude(pcm)) else 0 - Wrapped(Magnitude(pcm))
  {
    UlawQuantizeIs(pcm);
    assert Pow2(0) == 1;
  }

  lemma Level15()
    ensures Floor(ALaw, 15) == 240 && Floor(ALaw, 16) == 256
    ensures Expand(ALaw, 0) == 8 && Expand(ALaw, 15) == 248
  {
    assert Pow2(1) == 2;
    LevelParts(1, 0);
  }

  /** Where a magnitude stands relative to level 15, the band's level. */
  lemma AroundLevel15(mag: nat)
    ensures mag < 240 ==> Expand(ALaw, Compress(ALaw, mag)) < 248
    ensures 240 <= mag < 256 ==> Expand(ALaw, Compress(ALaw, mag)) == 248
    ensures mag >= 256 ==> Expand(ALaw, Compress(ALaw, mag)) > 248
    ensures Expand(ALaw, Compress(ALaw, mag)) > 0
  {
    var y := Compress(ALaw, mag);
    CompressLocates(ALaw, mag);
    CompressIsDecision(ALaw, mag, 15);
    Level15();
    hide Compress;
    hide Expand;
    hide Floor;
    hide Width;
    if y < 15 { ExpandStrictlyIncreases(ALaw, y, 15); FloorsIncrease(ALaw, y, 15); FloorStep(ALaw, y); }
    if y > 15 { ExpandStrictlyIncreases(ALaw, 15, y); FloorsIncrease(ALaw, 15, y); }
    if y > 0 { ExpandStrictlyIncreases(ALaw, 0, y); }
  }

  /** Order of two samples survives A-law quantization, except across the band and from the minimum. */
  lemma AlawMonotoneExactly(x: int, y: int)
    requires IsInt32(x) && IsInt32(y) && x <= y
    ensures AlawQuantize(x) <= AlawQuantize(y) <==>
      !(InBand(y) && -247 <= x <= -8) && !(x == MIN_INT && MIN_INT < y <= -264)
  {
    AlawQuantizeIs(x);
    AlawQuantizeIs(y);
    hide AlawQuantize;
    hide Compress;
    hide Expand;
    if AlawMag(x) >= 0 { AroundLevel15(AlawMag(x)); }
    if AlawMag(y) >= 0 { AroundLevel15(AlawMag(y)); }
    if x >= 0 {
      QuantizeMonotone(ALaw, x, y);
    } else if y <= -8 {
      QuantizeMonotone(ALaw, AlawMag(y), AlawMag(x));
    }
  }

  /** The quantized magnitude, with the bias taken off again. */
  ghost function UlawSize(mag: nat): int {
    Expand(MuLaw, UlawLevel(mag)) - 132
  }

  lemma UlawQuantizeBySize(pcm: int)
    requires IsInt32(pcm)
    ensures UlawCode(pcm) >= 0 && UlawSize(Magnitude(pcm)) >= 0
    ensures UlawQuantize(pcm) == if pcm >= 0 then UlawSize(Magnitude(pcm)) else 0 - UlawSize(Magnitude(pcm))
  {
    UlawQuantizeIs(pcm);
    UlawZeroLevel();
    if UlawLevel(pcm) > 0 { ExpandStrictlyIncreases(MuLaw, 0, UlawLevel(pcm)); }
  }

  lemma UlawSizeInRange(mag: nat)
    requires mag <= ULAW_MAX
    ensures UlawSize(mag) == Expand(MuLaw, Compress(MuLaw, mag + 132)) - 132
  {
  }

  lemma UlawSizeWrapped(mag: nat)
    requires ULAW_MAX < mag <= 0x8000_0000
    ensures UlawSize(mag) == Wrapped(mag)
  {
    assert Pow2(0) == 1;
  }

  /** How small a magnitude must be not to quantize above step m of segment 0. */
  lemma UlawSizeAtMost(mag: nat, m: nat)
    requires mag <= ULAW_MAX && m < 16
    ensures UlawSize(mag) <= 8 * m <==> mag < 8 * m + 4
  {
    var y := Compress(MuLaw, mag + 132);
    FirstMuLawSegment(m);
    UlawSizeInRange(mag);
    CompressAtMost(MuLaw, mag + 132, m);
    hide Compress;
    hide Expand;
    hide Floor;
    if y < m { ExpandStrictlyIncreases(MuLaw, y, m); }
    if m < y { ExpandStrictlyIncreases(MuLaw, m, y); }
  }

  /** The magnitudes whose order the mu-law pair reverses: the larger one overflows the bias, and the smaller one is
      above what is left of it, or the step number of the larger one has wrapped round once more. */
  predicate UlawReverses(small: nat, large: nat) {
    large > ULAW_MAX &&
    if small <= ULAW_MAX then small >= Wrapped(large) + 4 else 0x7FFF_FF84 <= small < 0x7FFF_FFFC <= large
  }

  lemma WrappedOrder(a: nat, b: nat)
    requires ULAW_MAX < a <= b <= 0x8000_0000
    ensures Wrapped(a) <= Wrapped(b) <==> !UlawReverses(a, b)
  {
    WrappedIs(a);
    WrappedIs(b);
    hide Wrapped;
  }

  lemma WrappedIs(mag: nat)
    requires ULAW_MAX < mag <= 0x8000_0000
    ensures var k := mag - ULAW_MAX - 1; Wrapped(mag) == if k < 128 then 8 * (k / 8) else 0
  {
    var k := mag - ULAW_MAX - 1;
    assert (mag + 132) / 8 == 0x1000_0000 + k / 8;
  }

  lemma UlawSizeOrder(a: nat, b: nat)
    requires a <= b <= 0x8000_0000
    ensures UlawSize(a) <= UlawSize(b) <==> !UlawReverses(a, b)
  {
    if b <= ULAW_MAX {
      UlawSizeInRange(a);
      UlawSizeInRange(b);
      QuantizeMonotone(MuLaw, a + 132, b + 132);
    } else {
      UlawSizeWrapped(b);
      hide UlawSize;
      if a <= ULAW_MAX {
        UlawSizeAtMost(a, (b + 132) / 8 % 16);
      } else {
        UlawSizeWrapped(a);
        WrappedOrder(a, b);
      }
    }
  }

  /** Order of two samples survives mu-law quantization exactly when their magnitudes, on the side of zero they share,
      do not reverse; in particular on all samples whose bias does not overflow. */
  lemma UlawMonotoneExactly(x: int, y: int)
    requires IsInt32(x) && IsInt32(y) && x <= y
    ensures UlawCode(x) >= 0 && UlawCode(y) >= 0
    ensures UlawQuantize(x) <= UlawQuantize(y) <==> !(0 <= x && UlawReverses(x, y)) && !(y <= 0 && UlawReverses(-y, -x))
    ensures Magnitude(x) <= ULAW_MAX && Magnitude(y) <= ULAW_MAX ==> UlawQuantize(x) <= UlawQuantize(y)
  {
    UlawQuantizeBySize(x);
    UlawQuantizeBySize(y);
    UlawSizeOrder(0, 0);
    hide UlawQuantize;
    hide UlawSize;
    hide Wrapped;
    if x >= 0 {
      UlawSizeOrder(x, y);
    } else if y <= 0 {
      UlawSizeOrder(-y, -x);
    }
  }

  lemma UlawZeroLevel()
    ensures Expand(MuLaw, 0) == 132 && Compress(MuLaw, 132) == 0
  {
    assert Pow2(0) == 1;
    CompressExpand(MuLaw, 0);
  }

  lemma AlawExpandBounds(y: nat)
    requires y < 128
    ensures 8 <= Expand(ALaw, y) <= 32256
    ensures Compress(ALaw, Expand(ALaw, y)) == y && Compress(ALaw, Expand(ALaw, y) - 8) == y
  {
    FloorStep(ALaw, y);
    WidthBound(ALaw, y);
    CompressIsDecision(ALaw, Expand(ALaw, y), y);
    CompressIsDecision(ALaw, Expand(ALaw, y) - 8, y);
    Overload(ALaw, 32768);
    if y < 127 { ExpandStrictlyIncreases(ALaw, y, 127); }
  }

  lemma AlawCodeOfLevel(y: nat)
    requires y < 128
    ensures AlawCode(Expand(ALaw, y)) == 128 + Bitwise(Eor, y, 0x55)
    ensures AlawCode(0 - Expand(ALaw, y)) == Bitwise(Eor, y, 0x55)
  {
    AlawExpandBounds(y);
    AlawMasks(y);
    hide Bitwise;
    hide Compress;
    hide Expand;
  }

  lemma SplitSign(d: nat) returns (y: nat)
    requires d < 256
    ensures y < 128 && (d == y || d == 128 + y)
  {
    y := if d < 128 then d else d - 128;
  }

  /** Decoding any register value and encoding the result gives back its low byte. */
  lemma AlawRoundTrip(code: nat)
    ensures AlawCode(AlawValue(code)) == code % 256
  {
    hide *;
    var c := code % 256;
    EorTwice(c, 0x55);
    EorByte(code, 0x55);
    AlawValueOfByte(code);
    var y := SplitSign(Bitwise(Eor, c, 0x55));
    AlawMasks(y);
    SignedOutputOfLevel(ALaw, y);
    AlawCodeOfLevel(y);
  }

  /** The same for the mu-law, where negative zero comes back as positive zero. */
  lemma UlawRoundTrip(code: nat)
    ensures UlawCode(UlawValue(code)) == if code % 256 == 0x7F then 0xFF else code % 256
  {
    var h, a, b, c := ByteHasFields(code);
    ByteFields(h, a, b, c);
    var y := 16 * (7 - b) + (15 - c);
    LevelParts(7 - b, 15 - c);
    UlawLevelOfExpand(y);
    hide *;
    UlawValueOfFields(code, a, b, c);
    UlawCodeOfLevel(y);
  }

  lemma UlawValueOfFields(code: nat, a: nat, b: nat, c: nat)
    requires code / 128 % 2 == a && code / 16 % 8 == b < 8 && code % 16 == c < 16
    ensures var y := 16 * (7 - b) + (15 - c);
      UlawValue(code) == if a == 1 then Expand(MuLaw, y) - 132 else 132 - Expand(MuLaw, y)
  {
    LevelParts(7 - b, 15 - c);
  }

  lemma UlawLevelOfExpand(y: nat)
    requires y < 128
    ensures 132 <= Expand(MuLaw, y) <= 32256 && (Expand(MuLaw, y) == 132 <==> y == 0)
    ensures Compress(MuLaw, Expand(MuLaw, y)) == y
  {
    CompressExpand(MuLaw, y);
    UlawZeroLevel();
    if y > 0 { ExpandStrictlyIncreases(MuLaw, 0, y); }
    Overload(MuLaw, 32768);
    if y < 127 { ExpandStrictlyIncreases(MuLaw, y, 127); }
  }

  lemma UlawCodeOfLevel(y: nat)
    requires y < 128
    ensures UlawCode(Expand(MuLaw, y) - 132) == 255 - y
    ensures UlawCode(132 - Expand(MuLaw, y)) == if y == 0 then 255 else 127 - y
  {
    UlawLevelOfExpand(y);
    hide Compress;
    hide Expand;
  }

  lemma AlawCodeIsByte(pcm: int)
    requires IsInt32(pcm)
    ensures AlawCode(pcm) < 256
  {
    if pcm >= 0 {
      CompressLocates(ALaw, pcm);
      AlawMasks(Compress(ALaw, pcm));
    } else if pcm <= -8 && pcm != MIN_INT {
      CompressLocates(ALaw, -pcm - 8);
      AlawMasks(Compress(ALaw, -pcm - 8));
    }
  }

  lemma UlawCodeIsByte(pcm: int)
    requires IsInt32(pcm)
    ensures 0 <= UlawCode(pcm) < 256
  {
    UlawQuantizeIs(pcm);
  }

  lemma AlawOutputsAreFixed(code: nat)
    ensures AlawQuantize(AlawValue(code)) == AlawValue(code)
  {
    AlawRoundTrip(code);
    hide AlawCode;
    AlawValueOfByte(code);
    AlawValueOfByte(code % 256);
  }

  /** Quantizing is a projection on all 32-bit samples, and its fixed points are exactly the decoder's outputs. */
  lemma AlawFixedPoints(pcm: int)
    requires IsInt32(pcm)
    ensures AlawQuantize(AlawQuantize(pcm)) == AlawQuantize(pcm)
    ensures AlawQuantize(pcm) == pcm <==> exists code: nat :: code < 256 && AlawValue(code) == pcm
  {
    var c := AlawCode(pcm);
    AlawCodeIsByte(pcm);
    AlawOutputsAreFixed(c);
    assert AlawQuantize(pcm) == AlawValue(c);
    hide *;
    if code: nat :| code < 256 && AlawValue(code) == pcm {
      AlawOutputsAreFixed(code);
    }
  }

  lemma UlawOutputsAreFixed(code: nat)
    ensures UlawCode(UlawValue(code)) >= 0 && UlawQuantize(UlawValue(code)) == UlawValue(code)
  {
    UlawRoundTrip(code);
    hide UlawCode;
    UlawZeros();
    SameLowByteUlaw(code);
  }

  lemma SameLowByteUlaw(code: nat)
    ensures UlawValue(code % 256) == UlawValue(code)
  {
    hide Output;
    var h, a, b, c := ByteHasFields(code);
    ByteFields(h, a, b, c);
    ByteFields(0, a, b, c);
  }

  lemma UlawFixedPoints(pcm: int)
    requires IsInt32(pcm)
    ensures UlawCode(pcm) >= 0 && UlawCode(UlawQuantize(pcm)) >= 0
    ensures UlawQuantize(UlawQuantize(pcm)) == UlawQuantize(pcm)
    ensures UlawQuantize(pcm) == pcm <==> exists code: nat :: code < 256 && UlawValue(code) == pcm
  {
    UlawQuantizeIs(pcm);
    var c := UlawCode(pcm);
    assert c < 256;
    UlawOutputsAreFixed(c);
    assert UlawQuantize(pcm) == UlawValue(c);
    hide *;
    if code: nat :| code < 256 && UlawValue(code) == pcm {
      UlawOutputsAreFixed(code);
    }
  }

  /** The two mu-law codes of zero. */
  lemma UlawZeros()
    ensures UlawValue(0x7F) == UlawValue(0xFF) == 0
  {
    hide *;
    UlawValueOfLevel(0);
    UlawZeroLevel();
  }

  lemma TopBit(z: nat)
    requires z < 128
    ensures Bitwise(Eor, 128 + z, 0x80) == z && Bitwise(Eor, z, 0x80) == 128 + z
  {
    hide Bitwise;
    Bytes();
    assert Pow2(1) == 2;
    hide Pow2;
    EorOnes(1, 1);
    ZeroOperand(Eor, z);
    ZeroOperand(Eor, 1);
    BitwiseSplit(Eor, 1, z, 1, 0, 7, 128);
    BitwiseSplit(Eor, 0, z, 1, 0, 7, 128);
  }

  /** Negating a positive sample flips only the sign bit of its mu-law code, and negates the quantized value. */
  lemma UlawSignSymmetry(pcm: int)
    requires 0 < pcm && IsInt32(pcm)
    ensures UlawCode(pcm) >= 0 && UlawCode(-pcm) == Bitwise(Eor, UlawCode(pcm), 0x80)
    ensures UlawQuantize(-pcm) == -UlawQuantize(pcm)
  {
    UlawQuantizeIs(pcm);
    UlawQuantizeIs(-pcm);
    TopBit(127 - UlawLevel(pcm));
  }

  lemma AlawFlip(y: nat)
    requires y < 128
    ensures Bitwise(Eor, y, 0x55) == Bitwise(Eor, Bitwise(Eor, y, 0xD5), 0x80)
  {
    hide Bitwise;
    AlawMasks(y);
    TopBit(Bitwise(Eor, y, 0x55));
  }

  /** On the A-law side the mirror image of a sample x <= -8 is -x - 8. */
  lemma AlawSignSymmetry(pcm: int)
    requires MIN_INT < pcm <= -8
    ensures AlawCode(pcm) == Bitwise(Eor, AlawCode(-pcm - 8), 0x80)
    ensures AlawQuantize(pcm) == -AlawQuantize(-pcm - 8)
  {
    AlawQuantizeIs(pcm);
    AlawQuantizeIs(-pcm - 8);
    hide AlawQuantize;
    hide Compress;
    var y := Compress(ALaw, -pcm - 8);
    CompressLocates(ALaw, -pcm - 8);
    AlawFlip(y);
    hide Bitwise;
  }
}
