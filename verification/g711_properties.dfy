/**
 * What the µ-law engine of baixoNivel/g711.c guarantees, and what it does not.
 *
 * The first group of lemmas connects the C transcriptions `LinearToUlaw` and
 * `UlawToLinear` to the arithmetic layout of a µ-law byte. Everything after
 * that is stated in terms of the transcriptions themselves.
 */
module G711Properties {
  import opened CInt
  import opened G711

  // ---------------------------------------------------------------------------
  // The masks the codec applies, in arithmetic terms

  /** `x & 0x0F` is the low nibble. */
  lemma LowNibble(x: nat)
    ensures And(x, 0x0F) == x % 16
  {
    Pow2Values();
    AndLowMask(x, 4);
    ShiftRightByConstant(x);
    ShiftLeftByConstant(x / 16);
  }

  /** `(u & 0x70) >> 4` is bits 4-6. */
  lemma SegmentBits(u: nat)
    ensures ShiftRight(And(u, 0x70), 4) == (u / 16) % 8
  {
    ShiftLeftByConstant(7);
    AndShiftedMask(u, 7, 4);
    var y := ShiftRight(u, 4);
    ShiftRightByConstant(u);
    assert Pow2(3) - 1 == 7;
    AndLowMask(y, 3);
    ShiftRightByConstant(y);
    ShiftLeftByConstant(y / 8);
    var z := And(y, 7);
    assert z == y % 8;
    ShiftLeftByConstant(z);
    ShiftRightByConstant(16 * z);
  }

  /** `u & 0x80` is non-zero exactly when bit 7 of a byte is set. */
  lemma SignBit(u: nat)
    requires u < 0x100
    ensures (And(u, 0x80) != 0) == (u >= 0x80)
  {
    ShiftLeftByConstant(1);
    AndShiftedMask(u, 1, 7);
    ShiftRightByConstant(u);
    var y := u / 128;
    assert y == 0 || y == 1;
    ShiftLeftByConstant(And(y, 1));
  }

  /** `~u`, stored back into an `unsigned char`, is `0xFF - u`. */
  lemma Complement(b: UChar)
    ensures ToUChar(-1 - b as int) == 0xFF - b
  {
  }

  // ---------------------------------------------------------------------------
  // The byte layout

  /** Every byte is the packing of its own sign, segment and mantissa: the layout loses nothing. */
  lemma UlawByteOfFields(b: UChar)
    ensures UlawByte(Positive(b), Segment(b), Mantissa(b)) == b
  {
  }

  /** A decoded magnitude lies in [0, 19551], so the `t <<= seg` step stays inside a `short`. */
  lemma ExpandBounds(seg: nat, mant: nat)
    requires seg < 8 && mant < 16
    ensures 0 <= Expand(seg, mant) <= 19551
  {
    ShiftLeftMonotone(8 * mant + 33, 153, seg, 7);
    ShiftLeftByConstant(153);
  }

  /** Only the all-zero segment and mantissa decode to magnitude 0. */
  lemma ExpandZero(seg: nat, mant: nat)
    requires seg < 8 && mant < 16
    ensures Expand(seg, mant) == 0 <==> seg == 0 && mant == 0
  {
    if seg > 0 {
      assert ShiftLeft(8 * mant + 33, seg) == 2 * ShiftLeft(8 * mant + 33, seg - 1);
    }
  }

  // ---------------------------------------------------------------------------
  // The C transcriptions against the layout

  /**
   * The encoder stores the sign in bit 7 and, complemented, the segment of the
   * biased magnitude and the four bits `(m >> (seg + 3)) & 0x0F`.
   */
  lemma LinearToUlawFields(pcmVal: Short)
    ensures LinearToUlaw(pcmVal) == UlawByte(pcmVal >= 0, EncodedSegment(pcmVal), EncodedMantissa(pcmVal))
  {
    var v := pcmVal / 4;
    var a := if v < 0 then -v else v;
    var mask := if v < 0 then 0x7F else 0xFF;
    assert (mask == 0xFF) == (pcmVal >= 0);
    SignFold(pcmVal);
    var m := BiasedMagnitude(pcmVal);
    assert m == (if a > 8158 then 8158 else a) + 33;
    var seg := EncodedSegment(pcmVal);
    var mant := EncodedMantissa(pcmVal);
    assert seg == Search(m, SegEnd, 8) && mant == ShiftRight(m, seg + 3) % 16;
    EncodeMagnitudeFields(a, mask, m, seg);
  }

  /** The first half of the encoder folds the sign of `x >> 2` into the mask. */
  lemma SignFold(pcmVal: Short)
    ensures var v := pcmVal / 4;
            LinearToUlaw(pcmVal) == EncodeMagnitude(if v < 0 then -v else v, if v < 0 then 0x7F else 0xFF)
  {
    ShiftRightByConstant(pcmVal);
  }

  /**
   * The second half of the encoder packs the segment `seg` of the biased,
   * clamped magnitude `m` and the four bits `(m >> (seg + 3)) & 0x0F`.
   */
  lemma EncodeMagnitudeFields(magnitude: Short, mask: nat, m: Short, seg: Short)
    requires 0 <= magnitude && (mask == 0x7F || mask == 0xFF)
    requires m == (if magnitude > 8158 then 8158 else magnitude) + 33
    requires seg == Search(m, SegEnd, 8)
    ensures 0 <= seg <= 5
    ensures EncodeMagnitude(magnitude, mask) == UlawByte(mask == 0xFF, seg, ShiftRight(m, seg + 3) % 16)
  {
    assert seg <= 5 by {
      assert SegEnd[5] == 0x1FFF;
    }
    var x := ShiftRight(m, seg + 3);
    var v := 16 * seg + x % 16;
    assert EncodeMagnitude(magnitude, mask) == ToUChar(Xor(ToUChar(Or(ShiftLeft(seg, 4), And(x, 0x0F))), mask)) by {
      assert ToShort(m) == m;
    }
    assert ToUChar(Or(ShiftLeft(seg, 4), And(x, 0x0F))) == v by {
      PackFields(seg, x);
    }
    assert ToUChar(Xor(v, mask)) == mask - v by {
      ApplyMask(v, mask);
    }
    assert UlawByte(mask == 0xFF, seg, x % 16) == mask - v;
  }

  /** `(seg << 4) | (x & 0x0F)`, stored in an `unsigned char`, is `16 * seg` plus the low nibble of `x`. */
  lemma PackFields(seg: nat, x: nat)
    requires seg < 8
    ensures ToUChar(Or(ShiftLeft(seg, 4), And(x, 0x0F))) == 16 * seg + x % 16
  {
    LowNibble(x);
    ShiftLeftByConstant(seg);
    Pow2Values();
    OrDisjoint(seg, x % 16, 4);
  }

  /** `v ^ 0x7F` and `v ^ 0xFF` complement a 7-bit value in 7 or 8 bits. */
  lemma ApplyMask(v: nat, mask: nat)
    requires v < 0x80 && (mask == 0x7F || mask == 0xFF)
    ensures ToUChar(Xor(v, mask)) == mask - v
  {
    Pow2Values();
    if mask == 0x7F {
      XorLowMask(v, 7);
    } else {
      XorLowMask(v, 8);
    }
  }

  /**
   * The decoder reads sign, segment and mantissa from the complemented byte and
   * returns the expanded magnitude with that sign.
   */
  lemma UlawToLinearFields(b: UChar)
    ensures UlawToLinear(b) == if Positive(b) then Expand(Segment(b), Mantissa(b)) else -Expand(Segment(b), Mantissa(b))
  {
    var u := 0xFF - b;
    assert ToUChar(-1 - b as int) == u by {
      Complement(b);
    }
    var e := Expand(Segment(b), Mantissa(b));
    assert 0 <= e <= 19551 by {
      ExpandBounds(Segment(b), Mantissa(b));
    }
    DecodeMagnitude(b);
    SignBit(u);
  }

  /** `t = ((u & 0x0F) << 3) + 33; t <<= (u & 0x70) >> 4` leaves the expanded magnitude plus the bias in `t`. */
  lemma DecodeMagnitude(b: UChar)
    ensures var u := 0xFF - b;
            ToShort(ShiftLeft(ToShort(ShiftLeft(And(u, 0x0F), 3) + 33), ShiftRight(And(u, 0x70), 4)))
              == Expand(Segment(b), Mantissa(b)) + 33
  {
    var u := 0xFF - b;
    var seg, mant := Segment(b), Mantissa(b);
    assert ToShort(ShiftLeft(And(u, 0x0F), 3) + 33) == 8 * mant + 33 by {
      LowNibble(u);
      ShiftLeftByConstant(mant);
    }
    assert ShiftRight(And(u, 0x70), 4) == seg by {
      SegmentBits(u);
    }
    ExpandBounds(seg, mant);
  }

  // ---------------------------------------------------------------------------
  // Segment search

  /** A larger value never finds an earlier segment. */
  lemma SearchMonotone(v1: Short, v2: Short, table: seq<Short>, size: Short)
    requires size <= |table| && v1 <= v2
    ensures Search(v1, table, size) <= Search(v2, table, size)
  {
  }

  // ---------------------------------------------------------------------------
  // Encoder

  /** The segment search never comes back empty-handed, and the stored segment is at most 5. */
  lemma EncodeSegmentAtMostFive(pcmVal: Short)
    ensures Search(BiasedMagnitude(pcmVal), SegEnd, 8) < 8
    ensures Segment(LinearToUlaw(pcmVal)) <= 5
  {
    LinearToUlawFields(pcmVal);
  }

  /** Bit 7 of the encoded byte is set exactly for non-negative samples. */
  lemma EncodeSignBit(pcmVal: Short)
    ensures Positive(LinearToUlaw(pcmVal)) <==> pcmVal >= 0
  {
    LinearToUlawFields(pcmVal);
  }

  /**
   * Encoded bytes lie in [0x20, 0x7F] for negative samples and [0xA0, 0xFF]
   * for the others; in particular the encoder never produces 0.
   */
  lemma EncodeRange(pcmVal: Short)
    ensures pcmVal < 0 ==> 0x20 <= LinearToUlaw(pcmVal) <= 0x7F
    ensures pcmVal >= 0 ==> 0xA0 <= LinearToUlaw(pcmVal)
  {
    LinearToUlawFields(pcmVal);
  }

  /** Saturation: two samples of one sign whose `|x >> 2|` reaches 8158 encode alike. */
  lemma EncodeSaturates(x: Short, y: Short)
    requires (x >= 0) == (y >= 0)
    requires x / 4 >= 8158 || x / 4 <= -8158
    requires y / 4 >= 8158 || y / 4 <= -8158
    ensures LinearToUlaw(x) == LinearToUlaw(y)
  {
    assert BiasedMagnitude(x) == BiasedMagnitude(y);
    assert EncodedSegment(x) == EncodedSegment(y);
    assert EncodedMantissa(x) == EncodedMantissa(y);
    LinearToUlawFields(x);
    LinearToUlawFields(y);
  }

  /** The saturated codes: 0xA0 for large positive samples, 0x20 for large negative ones. */
  lemma SaturationValues()
    ensures LinearToUlaw(32632) == LinearToUlaw(32767) == 0xA0
    ensures LinearToUlaw(-32768) == 0x20
  {
    assert BiasedMagnitude(32767) == BiasedMagnitude(-32768) == 8191;
    assert EncodedSegment(32767) == EncodedSegment(-32768) == 5 by {
      assert SegEnd[4] == 0xFFF;
    }
    assert EncodedMantissa(32767) == EncodedMantissa(-32768) == 15 by {
      ShiftRightAdd(8191, 4, 4);
      ShiftRightByConstant(8191);
      ShiftRightByConstant(8191 / 16);
    }
    assert LinearToUlaw(32767) == UlawByte(true, 5, 15) by {
      LinearToUlawFields(32767);
    }
    assert LinearToUlaw(-32768) == UlawByte(false, 5, 15) by {
      LinearToUlawFields(-32768);
    }
    EncodeSaturates(32632, 32767);
  }

  // ---------------------------------------------------------------------------
  // Decoder

  /** Flipping bit 7 negates the decoded sample. */
  lemma DecodeOddSymmetry(b: UChar)
    ensures var flipped := Xor(b, 0x80);
            flipped < 0x100 && UlawToLinear(flipped) as int == -(UlawToLinear(b) as int)
  {
    Pow2Values();
    XorTopBit(b, 7);
    var flipped := Xor(b, 0x80);
    FlipSignFields(b, flipped);
    var e := Expand(Segment(b), Mantissa(b));
    assert UlawToLinear(b) == if Positive(b) then e else -e by {
      UlawToLinearFields(b);
    }
    assert UlawToLinear(flipped) == if Positive(b) then -e else e by {
      UlawToLinearFields(flipped);
    }
  }

  /** Adding or removing 0x80 changes bit 7 alone. */
  lemma FlipSignFields(b: UChar, flipped: UChar)
    requires flipped == if b >= 0x80 then b - 0x80 else b + 0x80
    ensures Segment(flipped) == Segment(b) && Mantissa(flipped) == Mantissa(b) && Positive(flipped) != Positive(b)
  {
    var c := 0xFF - b;
    var q, r := c / 16, c % 16;
    assert c == 16 * q + r;
    if b >= 0x80 {
      assert 0xFF - flipped == 16 * (q + 8) + r;
    } else {
      assert 0xFF - flipped == 16 * (q - 8) + r;
    }
  }

  /** The decoded sample is non-negative when bit 7 is set and non-positive otherwise. */
  lemma DecodeSign(b: UChar)
    ensures Positive(b) ==> UlawToLinear(b) >= 0
    ensures !Positive(b) ==> UlawToLinear(b) <= 0
  {
    UlawToLinearFields(b);
    ExpandBounds(Segment(b), Mantissa(b));
  }

  /** Decoded samples lie in [-19551, 19551]. */
  lemma DecodeRange(b: UChar)
    ensures -19551 <= UlawToLinear(b) <= 19551
  {
    UlawToLinearFields(b);
    ExpandBounds(Segment(b), Mantissa(b));
  }

  /** The largest decoded sample, 19551, comes from 0x80: positive, segment 7, mantissa 15. */
  lemma DecodeMaximum()
    ensures UlawToLinear(0x80) == 19551
  {
    assert Expand(7, 15) == 19551 by {
      ShiftLeftByConstant(153);
    }
    assert Segment(0x80) == 7 && Mantissa(0x80) == 15 && Positive(0x80);
    UlawToLinearFields(0x80);
  }

  /** The smallest decoded sample, -19551, comes from 0x00: negative, segment 7, mantissa 15. */
  lemma DecodeMinimum()
    ensures UlawToLinear(0x00) == -19551
  {
    assert Expand(7, 15) == 19551 by {
      ShiftLeftByConstant(153);
    }
    assert Segment(0x00) == 7 && Mantissa(0x00) == 15 && !Positive(0x00);
    UlawToLinearFields(0x00);
  }

  /** Exactly the two bytes 0xFF and 0x7F decode to 0. */
  lemma DecodeZero(b: UChar)
    ensures UlawToLinear(b) == 0 <==> b == 0xFF || b == 0x7F
  {
    var e := Expand(Segment(b), Mantissa(b));
    assert UlawToLinear(b) == if Positive(b) then e else -e by {
      UlawToLinearFields(b);
    }
    assert e == 0 <==> b == 0xFF || b == 0x7F by {
      ExpandZero(Segment(b), Mantissa(b));
      ZeroFields(b);
    }
  }

  /** Segment and mantissa are both 0 exactly in the bytes 0xFF and 0x7F. */
  lemma ZeroFields(b: UChar)
    ensures Segment(b) == 0 && Mantissa(b) == 0 <==> b == 0xFF || b == 0x7F
  {
    var c := 0xFF - b;
    var q, r := c / 16, c % 16;
    assert c == 16 * q + r && 0 <= q < 16;
    assert Segment(b) == q % 8;
  }

  // ---------------------------------------------------------------------------
  // Encoder and decoder together

  /** Decoding an encoded sample keeps its sign. */
  lemma EncodeDecodeSign(pcmVal: Short)
    ensures pcmVal >= 0 ==> UlawToLinear(LinearToUlaw(pcmVal)) >= 0
    ensures pcmVal < 0 ==> UlawToLinear(LinearToUlaw(pcmVal)) <= 0
  {
    EncodeSignBit(pcmVal);
    DecodeSign(LinearToUlaw(pcmVal));
  }

  /**
   * Silence: 0 encodes to 0xFB, not 0xFF, so re-encoding a decoded byte does
   * not give the byte back (0xFF decodes to 0, which encodes to 0xFB).
   */
  lemma SilenceIsNotRoundTrip()
    ensures LinearToUlaw(0) == 0xFB
    ensures UlawToLinear(0xFF) == 0
    ensures LinearToUlaw(UlawToLinear(0xFF)) != 0xFF
  {
    assert BiasedMagnitude(0) == 33;
    assert EncodedSegment(0) == 0 by {
      assert SegEnd[0] == 0xFF;
    }
    assert EncodedMantissa(0) == 4 by {
      ShiftRightByConstant(33);
    }
    assert LinearToUlaw(0) == UlawByte(true, 0, 4) by {
      LinearToUlawFields(0);
    }
    DecodeZero(0xFF);
  }

  /**
   * The encoder is not monotone: in segment 0 the `& 0x0F` drops bit 4 of
   * `m >> 3`, so 400 encodes to 0xFF (decoding to 0) while the smaller 376
   * encodes to 0xF0 (decoding to 120).
   */
  lemma EncodeNotMonotone()
    ensures LinearToUlaw(376) == 0xF0 && LinearToUlaw(400) == 0xFF
    ensures UlawToLinear(LinearToUlaw(376)) == 120
    ensures UlawToLinear(LinearToUlaw(400)) == 0
  {
    assert BiasedMagnitude(376) == 127 && BiasedMagnitude(400) == 133;
    assert EncodedSegment(376) == 0 && EncodedSegment(400) == 0 by {
      assert SegEnd[0] == 0xFF;
    }
    assert EncodedMantissa(376) == 15 && EncodedMantissa(400) == 0 by {
      ShiftRightByConstant(127);
      ShiftRightByConstant(133);
    }
    assert LinearToUlaw(376) == UlawByte(true, 0, 15) by {
      LinearToUlawFields(376);
    }
    assert LinearToUlaw(400) == UlawByte(true, 0, 0) by {
      LinearToUlawFields(400);
    }
    assert Segment(0xF0) == 0 && Mantissa(0xF0) == 15 && Positive(0xF0);
    assert Expand(0, 15) == 120;
    assert UlawToLinear(0xF0) == Expand(0, 15) by {
      UlawToLinearFields(0xF0);
    }
    DecodeZero(0xFF);
  }

  // ---------------------------------------------------------------------------
  // Format dispatch

  /**
   * `linear_to_g711` is µ-law for format 0 and the sentinel 0 otherwise; since
   * µ-law never encodes to 0, the sentinel is never a µ-law code.
   */
  lemma EncodeDispatch(pcmVal: Short, format: Int32)
    ensures format == ULaw ==> LinearToG711(pcmVal, format) == LinearToUlaw(pcmVal)
    ensures format != ULaw ==> LinearToG711(pcmVal, format) == 0
    ensures LinearToG711(pcmVal, format) == 0 <==> format != ULaw
  {
    EncodeRange(pcmVal);
  }

  /**
   * `g711_to_linear` is µ-law for format 0 and the sentinel 0 otherwise; unlike
   * the encoder's, this sentinel is also the µ-law decoding of 0xFF and 0x7F.
   */
  lemma DecodeDispatch(g711Val: UChar, format: Int32)
    ensures format == ULaw ==> G711ToLinear(g711Val, format) == UlawToLinear(g711Val)
    ensures format != ULaw ==> G711ToLinear(g711Val, format) == 0
    ensures G711ToLinear(g711Val, ALaw) == G711ToLinear(0xFF, ULaw)
  {
    DecodeZero(0xFF);
  }
}
