# G.711 µ-law companding engine, modelled in Dafny

This project models the sample-level µ-law codec of `baixoNivel/g711.c`, a
C file shipped in a VoIP client as a small DLL. The codec has five parts:

- **Segment search.** `search` scans the table `seg_end`.
- **Encoder.** `linear_to_ulaw` compresses a 16-bit sample to a byte. It shifts
  right by 2, folds the sign into a mask (0x7F or 0xFF), clamps to 8158, adds
  the bias 33, finds the segment, packs segment and mantissa, and applies the
  mask with an exclusive or.
- **Decoder.** `ulaw_to_linear` complements the byte, rebuilds
  `((nibble << 3) + 33) << seg`, and applies the sign.
- **Format dispatch.** `linear_to_g711` and `g711_to_linear` run µ-law for
  format 0 and return the sentinel 0 for any other format, A-law included.
- **Buffer loops.** `encode_ulaw` and `decode_ulaw` apply the per-sample
  functions element by element.

The project has three modules:

- **`CInt`** (`c_int.dfy`) holds the C integer types.
  - `short` and `unsigned char` are subset types of `int`. Every store whose
    value could leave the type's range goes through an explicit
    two's-complement conversion (`ToShort`, `ToUChar`); the other stores (the
    loop counter of `search`, the constants 8158 and the masks) are proved to
    stay in range.
  - `>>` on a signed value is repeated floor halving; `<<` is repeated doubling.
  - `&`, `|` and `^` are defined bit by bit.
  - Lemmas relate these operators to ordinary arithmetic for the masks the
    codec uses.
- **`G711`** (`g711.dfy`) is the code as written.
  - `LinearToUlaw` and `UlawToLinear` follow the C operator by operator, with a
    conversion at every narrowing store. `LinearToUlaw` hands the part after
    the sign fold to `EncodeMagnitude`; that split is the only restructuring.
  - `search` is a recursive function, `Search`, and also the loop the C code
    runs, `SearchTable`, which is proved equal to it.
  - The buffer loops are methods on arrays. Each modifies only its output
    array.
  - Beside the transcriptions stands an arithmetic description of the same
    values: the layout of a stored byte (`Positive`, `Segment`, `Mantissa`,
    `UlawByte`), the biased magnitude, segment and mantissa the encoder picks,
    and the magnitude a segment and mantissa decode to (`Expand`).
- **`G711Properties`** (`g711_properties.dfy`) proves two things: the
  transcriptions agree with the arithmetic description, and the properties
  below follow from that.

The model follows the code where the code departs from the ITU-T G.711 tables:

- The table `seg_end` is combined with the `>> 2` pre-shift and the bias 33.
  The biased magnitude therefore never exceeds 8191, and only segments 0 to 5
  are ever produced.
- The encoder's `& 0x0F` drops bit 4 of `m >> 3` in segment 0. As a result
  the encoder is not monotone: 376 encodes to 0xF0 (decoding to 120), while
  400 encodes to 0xFF (decoding to 0).
- Silence encodes to 0xFB, not 0xFF. In ITU-T G.711 µ-law, +0 is coded
  0xFF; this code encodes 0 to 0xFB and decodes 0xFF to 0, so
  `encode(decode(b)) == b` fails at 0xFF. The model follows the code and proves the counterexample
  (`SilenceIsNotRoundTrip`). It states no round trip and no conformance to
  the reference tables.
- The A-law sentinel of the encoder (0) can never be a µ-law code. The
  decoder's sentinel (0) is also the µ-law decoding of 0xFF and 0x7F.

## Model

| member | source | states |
|---|---|---|
| G711.SegEnd | baixoNivel/g711.c:4 | the constant table `seg_end`: the upper end of each of the eight segments |
| G711.SearchFrom | baixoNivel/g711.c:7-10 | the scan from index `i` on returns the first index in [i, size) whose entry is at least `val`, or `size` when there is none |
| G711.Search | baixoNivel/g711.c:6-11 | the result is the first index below `size` whose entry is at least `val`, or `size` when there is none; it lies in [0, size] for non-negative `size`, and equals `size` when `size <= 0` |
| G711.SearchTable | baixoNivel/g711.c:6-11 | the counting loop with its early return computes exactly `Search` |
| G711Properties.SearchMonotone | baixoNivel/g711.c:6-11 | on any table, a larger value never yields a smaller segment index |
| G711.BiasedMagnitude | baixoNivel/g711.c:16-24 | for every 16-bit sample, the clamped, biased magnitude the encoder classifies lies in [33, 8191] |
| G711.EncodedSegment | baixoNivel/g711.c:25 | the segment the encoder selects is at most 5 |
| G711.EncodedMantissa | baixoNivel/g711.c:27 | the mantissa the encoder keeps fits in four bits |
| G711.LinearToUlaw | baixoNivel/g711.c:13-29 | `linear_to_ulaw` transcribed operator by operator; no contract of its own, its meaning is stated by LinearToUlawFields, EncodeSignBit, EncodeRange and EncodeSaturates |
| G711.EncodeMagnitude | baixoNivel/g711.c:23-28 | the part of `linear_to_ulaw` after the sign fold (clamp, bias, search, pack, mask); no contract of its own, its meaning is stated by EncodeMagnitudeFields |
| G711.Positive | baixoNivel/g711.c:36 | bit 7 of the stored byte, set for a non-negative sample; no contract of its own, tied to the code by SignBit and UlawToLinearFields |
| G711.Segment | baixoNivel/g711.c:33-35 | bits 4-6 of the complemented byte, always below 8; tied to `(u_val & 0x70) >> 4` by SegmentBits |
| G711.Mantissa | baixoNivel/g711.c:33-34 | bits 0-3 of the complemented byte, always below 16; tied to `u_val & 0x0F` by LowNibble |
| G711.UlawByte | baixoNivel/g711.c:27-28 | packing a sign, a segment below 8 and a mantissa below 16 is invertible: sign, segment and mantissa read back unchanged |
| G711Properties.UlawByteOfFields | baixoNivel/g711.c:27-28 | every byte is the packing of its own sign, segment and mantissa |
| G711Properties.LinearToUlawFields | baixoNivel/g711.c:13-29 | the encoder's byte is the packing of the sample's sign (bit 7 set for non-negative), the selected segment and the four bits `(m >> (seg + 3)) & 0x0F` of the biased magnitude `m` |
| G711Properties.SignFold | baixoNivel/g711.c:16-22 | the shift by 2 and the sign fold hand the magnitude of `x / 4` (floor division) and mask 0x7F (negative) or 0xFF on to the rest of the encoder |
| G711Properties.EncodeMagnitudeFields | baixoNivel/g711.c:23-28 | after clamping and biasing, the search never reaches the `seg >= 8` fallback (segment at most 5), and the packed, masked byte carries the segment and the low nibble of `m >> (seg + 3)` with the mask's sign |
| G711Properties.PackFields | baixoNivel/g711.c:27 | the bitwise or of `seg << 4` and `x & 0x0F`, stored in an unsigned char, is `16 * seg + x % 16` |
| G711Properties.ApplyMask | baixoNivel/g711.c:28 | exclusive or with 0x7F or 0xFF, on a packed value below 0x80, complements it within the mask |
| G711Properties.EncodeSegmentAtMostFive | baixoNivel/g711.c:23-26 | the segment search never fails for any sample, and the stored segment of every encoded byte is at most 5 |
| G711Properties.EncodeSignBit | baixoNivel/g711.c:16-28 | bit 7 of the encoded byte is set exactly when the sample is non-negative |
| G711Properties.EncodeRange | baixoNivel/g711.c:13-29 | encoded bytes lie in [0x20, 0x7F] for negative samples and in [0xA0, 0xFF] otherwise, so the encoder never yields 0 |
| G711Properties.EncodeSaturates | baixoNivel/g711.c:23-24 | two samples of one sign whose `x >> 2` has magnitude at least 8158 encode to the same byte |
| G711Properties.SaturationValues | baixoNivel/g711.c:23-24 | 32632 and 32767 both encode to 0xA0, and -32768 encodes to 0x20 |
| G711.UlawToLinear | baixoNivel/g711.c:31-37 | `ulaw_to_linear` transcribed operator by operator; no contract of its own, its meaning is stated by UlawToLinearFields, DecodeOddSymmetry, DecodeRange and DecodeZero |
| G711.Expand | baixoNivel/g711.c:34-35 | `((mant << 3) + 33) << seg` less the bias; no contract of its own, bounded by ExpandBounds and characterised at 0 by ExpandZero |
| G711Properties.UlawToLinearFields | baixoNivel/g711.c:31-37 | the decoder returns `Expand(segment, mantissa)` of the complemented byte, positive when bit 7 is set and negated otherwise |
| G711Properties.DecodeMagnitude | baixoNivel/g711.c:34-35 | `t = ((u & 0x0F) << 3) + 33; t <<= (u & 0x70) >> 4` leaves the expanded magnitude plus 33 in `t`, without overflowing the short |
| G711Properties.Complement | baixoNivel/g711.c:33 | `~u` stored back into an unsigned char is `0xFF - u` |
| G711Properties.LowNibble | baixoNivel/g711.c:34 | `x & 0x0F` is `x % 16` |
| G711Properties.SegmentBits | baixoNivel/g711.c:35 | `(u & 0x70) >> 4` is bits 4 to 6 of `u` |
| G711Properties.SignBit | baixoNivel/g711.c:36 | for a byte, `u & 0x80` is non-zero exactly when `u >= 0x80` |
| G711Properties.ExpandBounds | baixoNivel/g711.c:34-35 | every segment and mantissa decode to a magnitude in [0, 19551], so the shifted value (at most 153 << 7) fits in a short |
| G711Properties.ExpandZero | baixoNivel/g711.c:34-36 | the magnitude is 0 exactly for segment 0 with mantissa 0 |
| G711Properties.FlipSignFields | baixoNivel/g711.c:33-36 | toggling 0x80 changes the sign bit and leaves segment and mantissa unchanged |
| G711Properties.DecodeOddSymmetry | baixoNivel/g711.c:33-36 | decoding `b ^ 0x80` gives the negation of decoding `b`, for every byte |
| G711Properties.DecodeSign | baixoNivel/g711.c:36 | the decoded sample is at least 0 when bit 7 is set and at most 0 otherwise |
| G711Properties.DecodeRange | baixoNivel/g711.c:33-36 | every decoded sample lies in [-19551, 19551] |
| G711Properties.DecodeMaximum | baixoNivel/g711.c:33-36 | 0x80 decodes to 19551, the top of the range |
| G711Properties.DecodeMinimum | baixoNivel/g711.c:33-36 | 0x00 decodes to -19551, the bottom of the range |
| G711Properties.ZeroFields | baixoNivel/g711.c:33-35 | segment and mantissa are both 0 exactly in 0xFF and 0x7F |
| G711Properties.DecodeZero | baixoNivel/g711.c:31-37 | a byte decodes to 0 exactly when it is 0xFF or 0x7F |
| G711Properties.EncodeDecodeSign | baixoNivel/g711.c:13-37 | decoding an encoded sample keeps its sign: at least 0 for non-negative samples, at most 0 for negative ones |
| G711Properties.SilenceIsNotRoundTrip | baixoNivel/g711.c:13-37 | 0 encodes to 0xFB and 0xFF decodes to 0, so re-encoding the decoding of 0xFF does not give 0xFF back |
| G711Properties.EncodeNotMonotone | baixoNivel/g711.c:23-28 | 376 encodes to 0xF0 (decoding to 120) while the larger 400 encodes to 0xFF (decoding to 0) |
| G711.LinearToG711 | baixoNivel/g711.c:39-43 | `linear_to_g711`; no contract of its own, its meaning is stated by EncodeDispatch |
| G711.G711ToLinear | baixoNivel/g711.c:45-49 | `g711_to_linear`; no contract of its own, its meaning is stated by DecodeDispatch |
| G711Properties.EncodeDispatch | baixoNivel/g711.c:39-43 | `linear_to_g711` is µ-law for format 0 and 0 for every other format; it yields 0 exactly when the format is not µ-law |
| G711Properties.DecodeDispatch | baixoNivel/g711.c:45-49 | `g711_to_linear` is µ-law for format 0 and 0 for every other format; the A-law result equals the µ-law decoding of 0xFF |
| G711.EncodeUlaw | baixoNivel/g711.c:52-58 | `ulaw_out[i]` becomes `linear_to_ulaw(pcm[i])` for every `i < pcm_len / 2` (C division, truncated), and every other output element keeps its value |
| G711.DecodeUlaw | baixoNivel/g711.c:60-65 | `pcm[i]` becomes `ulaw_to_linear(ulaw_in[i])` for every `i < ulaw_len`, and every other output element keeps its value |

## Left out

- The `__declspec(dllexport)` export shims are not modelled. They have no behaviour of their own.
- The byte buffers seen as `short*` in host byte order (g711.c:53, 61) are not modelled. The 16-bit side of each buffer loop is an array of 16-bit values, so byte order does not appear.
- G711.EncodeUlaw, G711.DecodeUlaw: input and output are distinct arrays, so a caller passing overlapping buffers is not modelled.
- G711.EncodeUlaw, G711.DecodeUlaw: the buffers must be long enough, as a precondition. In C a short buffer is undefined behaviour, with no defined result to model.
- A-law is not modelled because the code has no A-law transform, only the sentinel 0 (modelled by `LinearToG711` and `G711ToLinear`).
- `g711_encode` and `g711_decode` are declared in g711.h but defined nowhere, so there is nothing to model.
- G711.EncodeMagnitude requires a non-negative magnitude. It is the second half of `linear_to_ulaw`, and `LinearToUlaw`, its only caller, always passes one.
- CInt.ShiftLeft is doubling on unbounded integers. C leaves `<<` of a negative value undefined, and the codec only shifts non-negative values.
- The model states no round trip and no conformance to the G.711 reference tables, because the code satisfies neither (see `SilenceIsNotRoundTrip`).
