/**
 * The µ-law companding engine of baixoNivel/g711.c, as written.
 *
 * `LinearToUlaw` and `UlawToLinear` follow the C code operator by operator
 * (arithmetic shifts, masks, exclusive or, and the conversion at every store
 * into a `short` or an `unsigned char`). Beside them stand arithmetic
 * descriptions of the same values: the layout of a stored µ-law byte
 * (`Positive`, `Segment`, `Mantissa`, `UlawByte`), the biased magnitude and
 * segment the encoder selects, and the magnitude a segment and mantissa
 * decode to (`Expand`). Module G711Properties proves the two agree and
 * what follows from that.
 */
module G711 {
  import opened CInt

  /** Format selector for µ-law (`G711_ULAW` in g711.h). */
  const ULaw: Int32 := 0

  /** Format selector for A-law (`G711_ALAW` in g711.h); no transform exists for it. */
  const ALaw: Int32 := 1

  /** Upper end of each of the eight segments (`seg_end`). */
  const SegEnd: seq<Short> := [0xFF, 0x1FF, 0x3FF, 0x7FF, 0xFFF, 0x1FFF, 0x3FFF, 0x7FFF]

  // ---------------------------------------------------------------------------
  // Segment search

  /** The scan of `search` from index `i` on. */
  function SearchFrom(val: int, table: seq<Short>, size: int, i: nat): (r: int)
    requires size <= |table|
    ensures i < size ==> i <= r <= size
    ensures size <= i ==> r == size
    ensures i <= r < size ==> val <= table[r]
    ensures forall j :: i <= j < r ==> table[j] < val
    decreases size - i
  {
    if i < size then
      if val <= table[i] then i else SearchFrom(val, table, size, i + 1)
    else
      size
  }

  /**
   * `search`: the first index below `size` whose entry is at least `val`, or
   * `size` when there is none (also when `size` is not positive).
   */
  function Search(val: Short, table: seq<Short>, size: Short): (r: Short)
    requires size <= |table|
    ensures size <= 0 ==> r == size
    ensures 0 <= size ==> 0 <= r <= size
    ensures 0 <= r < size ==> val <= table[r]
    ensures forall j :: 0 <= j < r ==> table[j] < val
  {
    SearchFrom(val, table, size, 0)
  }

  /** `search` as the C code runs it: a counting loop with an early return. */
  method SearchTable(val: Short, table: array<Short>, size: Short) returns (r: Short)
    requires size <= table.Length
    ensures r == Search(val, table[..], size)
  {
    var i: Short := 0;
    while i < size
      invariant 0 <= i && (0 <= size ==> i <= size)
      invariant SearchFrom(val, table[..], size, i) == Search(val, table[..], size)
    {
      if val <= table[i] {
        return i;
      }
      i := i + 1;
    }
    return size;
  }

  // ---------------------------------------------------------------------------
  // Layout of a stored µ-law byte. The byte is kept inverted: complemented,
  // bit 7 is the sign (1 for negative), bits 4-6 the segment and bits 0-3 the
  // mantissa.

  /** The stored byte's bit 7 is set exactly for a non-negative sample. */
  predicate Positive(b: UChar)
  {
    b >= 0x80
  }

  /** Bits 4-6 of the complemented byte. */
  function Segment(b: UChar): (seg: nat)
    ensures seg < 8
  {
    ((0xFF - b) / 16) % 8
  }

  /** Bits 0-3 of the complemented byte. */
  function Mantissa(b: UChar): (mant: nat)
    ensures mant < 16
  {
    (0xFF - b) % 16
  }

  /** The stored byte with the given sign, segment and mantissa. */
  function UlawByte(positive: bool, seg: nat, mant: nat): (b: UChar)
    requires seg < 8 && mant < 16
    ensures Positive(b) == positive && Segment(b) == seg && Mantissa(b) == mant
  {
    (if positive then 0xFF else 0x7F) - (16 * seg + mant)
  }

  // ---------------------------------------------------------------------------
  // Encoder

  /** The magnitude the encoder classifies: `|x >> 2|`, clamped to 8158, plus the bias 33. */
  function BiasedMagnitude(pcmVal: Short): (m: Short)
    ensures 33 <= m <= 0x1FFF
  {
    var v := pcmVal / 4;
    var a := if v < 0 then -v else v;
    (if a > 8158 then 8158 else a) + 33
  }

  /** The segment the encoder selects; it never passes 5, so only six of the eight are used. */
  function EncodedSegment(pcmVal: Short): (seg: nat)
    ensures seg <= 5
  {
    var m := BiasedMagnitude(pcmVal);
    assert SegEnd[5] == 0x1FFF;
    Search(m, SegEnd, 8)
  }

  /** The four mantissa bits the encoder keeps: `m >> (seg + 3)`, of which the `& 0x0F` keeps the low four. */
  function EncodedMantissa(pcmVal: Short): (mant: nat)
    ensures mant < 16
  {
    ShiftRight(BiasedMagnitude(pcmVal), EncodedSegment(pcmVal) + 3) % 16
  }

  /**
   * `linear_to_ulaw`, step by step as the C code computes it: an arithmetic
   * shift by 2, then the sign folded into the mask 0x7F (negative) or 0xFF.
   */
  function LinearToUlaw(pcmVal: Short): UChar
  {
    var shifted := ToShort(ShiftRight(pcmVal, 2));
    var magnitude := if shifted < 0 then ToShort(-shifted) else shifted;
    var mask := if shifted < 0 then 0x7F else 0xFF;
    EncodeMagnitude(magnitude, mask)
  }

  /**
   * The rest of `linear_to_ulaw` on the folded magnitude: clamp to 8158, add
   * the bias 33, search the segment, pack segment and mantissa, apply the mask.
   */
  function EncodeMagnitude(magnitude: Short, mask: nat): UChar
    requires 0 <= magnitude
  {
    var clamped := if magnitude > 8158 then 8158 else magnitude;
    var biased := ToShort(clamped + 33);
    var seg := Search(biased, SegEnd, 8);
    if seg >= 8 then
      ToUChar(Xor(0x7F, mask))
    else
      var uval := ToUChar(Or(ShiftLeft(seg, 4), And(ShiftRight(biased, seg + 3), 0x0F)));
      ToUChar(Xor(uval, mask))
  }

  // ---------------------------------------------------------------------------
  // Decoder

  /** The magnitude a segment and mantissa stand for: `((mant << 3) + 33) << seg`, less the bias. */
  function Expand(seg: nat, mant: nat): int
  {
    ShiftLeft(8 * mant + 33, seg) - 33
  }

  /** `ulaw_to_linear`, step by step as the C code computes it. */
  function UlawToLinear(uVal: UChar): Short
  {
    var u := ToUChar(-1 - uVal as int);
    var t := ToShort(ShiftLeft(And(u, 0x0F), 3) + 33);
    var t' := ToShort(ShiftLeft(t, ShiftRight(And(u, 0x70), 4)));
    if And(u, 0x80) != 0 then ToShort(33 - t') else ToShort(t' - 33)
  }

  // ---------------------------------------------------------------------------
  // Format dispatch

  /** `linear_to_g711`: µ-law for `ULaw`; every other format yields the sentinel 0. */
  function LinearToG711(pcmVal: Short, format: Int32): UChar
  {
    if format == ULaw then LinearToUlaw(pcmVal) else 0
  }

  /** `g711_to_linear`: µ-law for `ULaw`; every other format yields the sentinel 0. */
  function G711ToLinear(g711Val: UChar, format: Int32): Short
  {
    if format == ULaw then UlawToLinear(g711Val) else 0
  }

  // ---------------------------------------------------------------------------
  // Buffer loops

  /**
   * `encode_ulaw`: `pcmLen` is a length in bytes of 16-bit samples, so
   * `pcmLen / 2` samples (C division, truncated) are encoded, one output byte
   * each; the rest of the output is left alone.
   */
  method EncodeUlaw(pcm: array<Short>, pcmLen: Int32, ulawOut: array<UChar>)
    requires TruncDiv(pcmLen, 2) <= pcm.Length
    requires TruncDiv(pcmLen, 2) <= ulawOut.Length
    modifies ulawOut
    ensures forall i :: 0 <= i < TruncDiv(pcmLen, 2) ==> ulawOut[i] == LinearToUlaw(pcm[i])
    ensures forall i :: 0 <= i < ulawOut.Length && TruncDiv(pcmLen, 2) <= i ==> ulawOut[i] == old(ulawOut[i])
  {
    var numSamples := TruncDiv(pcmLen, 2);
    var i := 0;
    while i < numSamples
      invariant 0 <= i && (i == 0 || i <= numSamples)
      invariant forall j :: 0 <= j < i ==> ulawOut[j] == LinearToUlaw(pcm[j])
      invariant forall j :: i <= j < ulawOut.Length ==> ulawOut[j] == old(ulawOut[j])
    {
      ulawOut[i] := LinearToUlaw(pcm[i]);
      i := i + 1;
    }
  }

  /**
   * `decode_ulaw`: each of the first `ulawLen` bytes is decoded into one
   * 16-bit sample; the rest of the output is left alone.
   */
  method DecodeUlaw(ulawIn: array<UChar>, ulawLen: Int32, pcm: array<Short>)
    requires ulawLen <= ulawIn.Length
    requires ulawLen <= pcm.Length
    modifies pcm
    ensures forall i :: 0 <= i < ulawLen ==> pcm[i] == UlawToLinear(ulawIn[i])
    ensures forall i :: 0 <= i < pcm.Length && ulawLen <= i ==> pcm[i] == old(pcm[i])
  {
    var i := 0;
    while i < ulawLen
      invariant 0 <= i && (i == 0 || i <= ulawLen)
      invariant forall j :: 0 <= j < i ==> pcm[j] == UlawToLinear(ulawIn[j])
      invariant forall j :: i <= j < pcm.Length ==> pcm[j] == old(pcm[j])
    {
      pcm[i] := UlawToLinear(ulawIn[i]);
      i := i + 1;
    }
  }
}
