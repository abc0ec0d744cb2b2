/**
 * The four character tables that the build script generates for the
 * `Fairy` codec, each entry as the script computes it. `C0_LUT` is indexed
 * by the first byte of a triplet, `C3_LUT` by the third, `C1_LUT` and
 * `C2_LUT` by two neighbouring bytes packed into 16 bits with the later byte
 * high, which `swap_endianess` turns back into reading order.
 */
module BuildLuts {
  import opened Base64Spec

  /** `swap_endianess` on a 64-bit `usize`: the low byte moves up one byte, the second byte down to the bottom. */
  function SwapEndianess(x: bv64): bv64
  {
    (x << 8) | (x >> 8)
  }

  /** `C0_LUT[i]`: the character of the top six bits of `i`. */
  function C0Lut(i: bv8): (c: bv8)
    ensures IsAlphabet(c)
  {
    Char(i >> 2)
  }

  /** `C1_LUT[i]`: the character of bits 4 to 9 of `swap_endianess(i)`. */
  function C1Lut(i: bv16): (c: bv8)
    ensures IsAlphabet(c)
  {
    Char(((SwapEndianess(i as bv64) >> 4) & 0x3F) as bv8)
  }

  /** `C2_LUT[i]`: the character of bits 6 to 11 of `swap_endianess(i)`. */
  function C2Lut(i: bv16): (c: bv8)
    ensures IsAlphabet(c)
  {
    Char(((SwapEndianess(i as bv64) >> 6) & 0x3F) as bv8)
  }

  /** `C3_LUT[i]`: the character of the low six bits of `i`. */
  function C3Lut(i: bv16): (c: bv8)
    ensures IsAlphabet(c)
  {
    Char((i & 0x3F) as bv8)
  }

  /** Two bytes packed into a `u16` index, `hi` in the high byte. */
  function Pack(hi: bv8, lo: bv8): bv16
  {
    ((hi as bv16) << 8) + lo as bv16
  }

  /**
   * Looked up at the indices the `Fairy` codec uses, the four tables give
   * the four characters of the triplet `t1 t2 t3`.
   */
  lemma {:induction false} LutsGiveQuartet(t1: bv8, t2: bv8, t3: bv8)
    ensures [C0Lut(t1), C1Lut(Pack(t2, t1)), C2Lut(Pack(t3, t2)), C3Lut(t3 as bv16)] == Quartet(t1, t2, t3)
  {
    SwappedGroup1(t1, t2);
    SwappedGroup2(t2, t3);
    assert (t3 as bv16 & 0x3F) as bv8 == Group3(t3);
  }

  /** Bits 4 to 9 of the swapped index of `t2 t1` are the second 6-bit group of `t1 t2`. */
  lemma {:induction false} SwappedGroup1(t1: bv8, t2: bv8)
    ensures ((SwapEndianess(Pack(t2, t1) as bv64) >> 4) & 0x3F) as bv8 == Group1(t1, t2)
  {
  }

  /** Bits 6 to 11 of the swapped index of `t3 t2` are the third 6-bit group of `t2 t3`. */
  lemma {:induction false} SwappedGroup2(t2: bv8, t3: bv8)
    ensures ((SwapEndianess(Pack(t3, t2) as bv64) >> 6) & 0x3F) as bv8 == Group2(t2, t3)
  {
  }
}
