/**
 * Bone-matrix decompression (MC_UnCompress). A compressed bone is twelve
 * little-endian unsigned 16-bit fields. Each field is centred by subtracting
 * half its range and scaled: the three translation fields by 1/64, the nine
 * rotation fields by 1/32766. Decoding is exact over `real` here; the source
 * computes in single-precision float.
 */
module BoneCodec {
  import opened Defs

  /** Number of 16-bit fields in a compressed bone (and bytes = 2 * fields). */
  const FIELD_COUNT: nat := 12
  const COMP_BYTES: nat := 24

  /** 1 << (MC_BITS - 1) with 16-bit fields. */
  const BIAS: int := 32768

  /** 1 / MC_SCALE_X (and Y, Z): translation fields are in 1/64 units. */
  const TRANSLATION_DIVISOR: real := 64.0

  /** 1 / MC_SCALE_VECT = (1 << 15) - 2. */
  const ROTATION_DIVISOR: real := 32766.0

  /** A 3x4 bone matrix: three rows, columns 0..2 rotation, column 3 translation. */
  predicate IsMatrix34(m: seq<seq<real>>)
  {
    |m| == 3 && forall r :: 0 <= r < 3 ==> |m[r]| == 4
  }

  /** The i-th 16-bit field of the compressed block, read little-endian. */
  function Field(comp: seq<Byte>, i: nat): (raw: nat)
    requires |comp| == COMP_BYTES && i < FIELD_COUNT
    ensures raw < 65536
    ensures raw % 256 == comp[2 * i] && raw / 256 == comp[2 * i + 1]
  {
    comp[2 * i] as int + 256 * (comp[2 * i + 1] as int)
  }

  /** The centred value `raw - (1 << 15)`. */
  function Centered(raw: nat): (v: int)
    requires raw < 65536
    ensures -BIAS <= v < BIAS
    ensures v + BIAS == raw
  {
    raw - BIAS
  }

  function Translation(comp: seq<Byte>, i: nat): real
    requires |comp| == COMP_BYTES && i < 3
  {
    Centered(Field(comp, i)) as real / TRANSLATION_DIVISOR
  }

  function Rotation(comp: seq<Byte>, i: nat): real
    requires |comp| == COMP_BYTES && 3 <= i < FIELD_COUNT
  {
    Centered(Field(comp, i)) as real / ROTATION_DIVISOR
  }

  /**
   * MC_UnCompress: fields 0..2 become the translation column mat[r][3];
   * fields 3..11 fill the rotation part row by row.
   */
  function UnCompress(comp: seq<Byte>): (m: seq<seq<real>>)
    requires |comp| == COMP_BYTES
    ensures IsMatrix34(m)
    ensures forall r :: 0 <= r < 3 ==>
      m[r][3] * TRANSLATION_DIVISOR == Centered(Field(comp, r)) as real
    ensures forall r, c :: 0 <= r < 3 && 0 <= c < 3 ==>
      m[r][c] * ROTATION_DIVISOR == Centered(Field(comp, 3 + 3 * r + c)) as real
  {
    [ [Rotation(comp, 3), Rotation(comp, 4), Rotation(comp, 5), Translation(comp, 0)],
      [Rotation(comp, 6), Rotation(comp, 7), Rotation(comp, 8), Translation(comp, 1)],
      [Rotation(comp, 9), Rotation(comp, 10), Rotation(comp, 11), Translation(comp, 2)] ]
  }

  /** The field a matrix entry came from: the inverse of the scaling and centring. */
  function RawOf(x: real, divisor: real): int
  {
    (x * divisor).Floor + BIAS
  }

  /** The twelve fields a decoded matrix came from, in block order. */
  function RecoveredFields(m: seq<seq<real>>): (raws: seq<int>)
    requires IsMatrix34(m)
    ensures |raws| == FIELD_COUNT
  {
    [RawOf(m[0][3], TRANSLATION_DIVISOR), RawOf(m[1][3], TRANSLATION_DIVISOR),
     RawOf(m[2][3], TRANSLATION_DIVISOR),
     RawOf(m[0][0], ROTATION_DIVISOR), RawOf(m[0][1], ROTATION_DIVISOR),
     RawOf(m[0][2], ROTATION_DIVISOR),
     RawOf(m[1][0], ROTATION_DIVISOR), RawOf(m[1][1], ROTATION_DIVISOR),
     RawOf(m[1][2], ROTATION_DIVISOR),
     RawOf(m[2][0], ROTATION_DIVISOR), RawOf(m[2][1], ROTATION_DIVISOR),
     RawOf(m[2][2], ROTATION_DIVISOR)]
  }

  /** Rebuild the 24-byte block from a decoded matrix (the encoder the format implies). */
  function Recompress(m: seq<seq<real>>): (comp: seq<int>)
    requires IsMatrix34(m)
    ensures |comp| == COMP_BYTES
  {
    var raws := RecoveredFields(m);
    seq(COMP_BYTES, k requires 0 <= k < COMP_BYTES =>
      if k % 2 == 0 then raws[k / 2] % 256 else raws[k / 2] / 256)
  }

  lemma RawOfScaled(x: real, divisor: real, v: int)
    requires divisor > 0.0 && x * divisor == v as real
    ensures RawOf(x, divisor) == v + BIAS
  {
  }

  lemma {:induction false} RecoveredFieldsOfUnCompress(comp: seq<Byte>)
    requires |comp| == COMP_BYTES
    ensures forall i :: 0 <= i < FIELD_COUNT ==> RecoveredFields(UnCompress(comp))[i] == Field(comp, i)
  {
    var m := UnCompress(comp);
    forall r | 0 <= r < 3
      ensures RawOf(m[r][3], TRANSLATION_DIVISOR) == Field(comp, r)
    {
      RawOfScaled(m[r][3], TRANSLATION_DIVISOR, Centered(Field(comp, r)));
    }
    forall r, c | 0 <= r < 3 && 0 <= c < 3
      ensures RawOf(m[r][c], ROTATION_DIVISOR) == Field(comp, 3 + 3 * r + c)
    {
      RawOfScaled(m[r][c], ROTATION_DIVISOR, Centered(Field(comp, 3 + 3 * r + c)));
    }
  }

  /** Decoding loses nothing: every byte of the block can be recovered from the decoded matrix. */
  lemma {:induction false} UnCompressRoundTrip(comp: seq<Byte>)
    requires |comp| == COMP_BYTES
    ensures Recompress(UnCompress(comp)) == comp
  {
    RecoveredFieldsOfUnCompress(comp);
    var raws := RecoveredFields(UnCompress(comp));
    var back := Recompress(UnCompress(comp));
    forall k | 0 <= k < COMP_BYTES ensures back[k] == comp[k] {
      assert raws[k / 2] == Field(comp, k / 2);
    }
  }

  /** An all-zero block decodes to the bias-centred matrix: every entry is -bias * scale. */
  lemma ZeroBlockDecodesToMinimum()
    ensures var m := UnCompress(seq(COMP_BYTES, _ => 0));
      (forall r :: 0 <= r < 3 ==> m[r][3] == -512.0) &&
      (forall r, c :: 0 <= r < 3 && 0 <= c < 3 ==> m[r][c] == -32768.0 / 32766.0)
  {
  }
}
