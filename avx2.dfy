/*
 * The AVX2 codec (src/avx2/mod.rs), a port of fastavxbase64. A 256-bit
 * register is modelled as a sequence of 32 bytes, lane 0 first; each
 * intrinsic the codec uses is written out byte by byte (or per 16- or
 * 32-bit element) with its Intel semantics, and the lemmas below show that
 * the vector steps compute the same characters and bytes as the scalar
 * codec.
 */
module Avx2 {
  import opened Base64Spec
  import opened Buffers
  import opened Seqs
  import opened Blocks
  import Simple

  /** Whether the CPU reports AVX2; the fallback wrappers branch on it. */
  datatype Cpu = Cpu(avx2: bool)

  /*
   * Intrinsics, per byte. `_mm256_shuffle_epi8` looks up a table of 16 bytes
   * per 128-bit lane: an index with its top bit set gives 0, otherwise its
   * low four bits pick the entry (bits 4 to 6 are ignored). Every table the
   * codec shuffles with repeats the same 16 bytes in both lanes, so a table
   * is modelled by those 16 bytes.
   */
  function Pshufb(table: seq<bv8>, idx: bv8): (r: bv8)
    requires |table| == 16
    ensures idx & 0x80 == 0 ==> r == table[(idx & 0x0F) as int]
  {
    if idx & 0x80 != 0 then 0 else table[(idx & 0x0F) as int]
  }

  /** `_mm256_subs_epu8`: unsigned subtraction that saturates at 0. */
  function SubsEpu8(a: bv8, b: bv8): (r: bv8)
    ensures r <= a && (a >= b ==> r + b == a) && (a < b ==> r == 0)
  {
    if a >= b then a - b else 0
  }

  /** `_mm256_cmpgt_epi8`: 0xFF where `a > b` as signed bytes, else 0 (flipping the sign bit orders signed bytes as unsigned ones). */
  function CmpGtEpi8(a: bv8, b: bv8): (r: bv8)
    ensures r == 0xFF || r == 0
    ensures a < 0x80 && b < 0x80 ==> (r == 0xFF <==> a > b)
  {
    if a ^ 0x80 > b ^ 0x80 then 0xFF else 0
  }

  /** `_mm256_cmpeq_epi8`: 0xFF where the bytes are equal, else 0. */
  function CmpEqEpi8(a: bv8, b: bv8): (r: bv8)
    ensures r == 0xFF <==> a == b
    ensures r == 0 <==> a != b
  {
    if a == b then 0xFF else 0
  }

  /* ---------------------------------------------------------------------
   * enc_translate: 6-bit values to characters.
   * ------------------------------------------------------------------- */

  /** The offsets added to a value to reach its character, per range (65, 71, -4 ten times, -19, -16, 0, 0). */
  const ENC_LUT: seq<bv8> := [65, 71, 0xFC, 0xFC, 0xFC, 0xFC, 0xFC, 0xFC, 0xFC, 0xFC, 0xFC, 0xFC, 0xED, 0xF0, 0, 0]

  /** One byte of `enc_translate`: `v + lut[sat(v - 51) - (v > 25 ? -1 : 0)]`, all arithmetic mod 256. */
  function EncTranslateByte(v: bv8): bv8
  {
    var indices := SubsEpu8(v, 51);
    var mask := CmpGtEpi8(v, 25);
    v + Pshufb(ENC_LUT, indices - mask)
  }

  /** `enc_translate` maps every 6-bit value to its character of the alphabet. */
  lemma {:induction false} EncTranslateIsChar(v: bv8)
    requires v < 64
    ensures EncTranslateByte(v) == Char(v)
  {
    if v < 26 {
      assert SubsEpu8(v, 51) - CmpGtEpi8(v, 25) == 0;
    } else if v < 52 {
      assert SubsEpu8(v, 51) - CmpGtEpi8(v, 25) == 1;
    } else {
      assert SubsEpu8(v, 51) - CmpGtEpi8(v, 25) == v - 50;
    }
  }

  /** `enc_translate` on a whole register. */
  function EncTranslate(x: seq<bv8>): (r: seq<bv8>)
    requires |x| == 32
    ensures |r| == 32
  {
    seq(32, j requires 0 <= j < 32 => EncTranslateByte(x[j]))
  }

  /* ---------------------------------------------------------------------
   * The per-byte classification and translation of the decoder.
   * ------------------------------------------------------------------- */

  const LUT_LO: seq<bv8> := [0x15, 0x11, 0x11, 0x11, 0x11, 0x11, 0x11, 0x11, 0x11, 0x11, 0x13, 0x1A, 0x1B, 0x1B, 0x1B, 0x1A]
  const LUT_HI: seq<bv8> := [0x10, 0x10, 0x01, 0x02, 0x04, 0x08, 0x04, 0x08, 0x10, 0x10, 0x10, 0x10, 0x10, 0x10, 0x10, 0x10]
  /** Added to a character to reach its value, by high nibble (-65 = 0xBF, -71 = 0xB9); entry 1 serves `/`. */
  const LUT_ROLL: seq<bv8> := [0, 16, 19, 4, 0xBF, 0xBF, 0xB9, 0xB9, 0, 0, 0, 0, 0, 0, 0, 0]
  const MASK_2F: bv8 := 0x2F

  /**
   * A byte of `_mm256_srli_epi32(str, 4) & 0x2f`: the shift is per 32-bit
   * word, so the low bit of the next byte of the word (`next`, 0 for the top
   * byte) moves into bit 4 and its second bit into bit 5, which the mask keeps.
   */
  function HiNibble(c: bv8, next: bv8): (r: bv8)
    ensures r & 0x0F == c >> 4 && r & 0x80 == 0
  {
    ((c >> 4) | (next << 4)) & MASK_2F
  }

  /** `lut_lo` looked up by `c & 0x2f`. */
  function Lo(c: bv8): bv8
  {
    Pshufb(LUT_LO, c & MASK_2F)
  }

  /** `lut_hi` looked up by the high-nibble byte. */
  function Hi(c: bv8, next: bv8): bv8
  {
    Pshufb(LUT_HI, HiNibble(c, next))
  }

  /** `lut_roll` looked up by the high-nibble byte, one lower for `/`. */
  function Roll(c: bv8, next: bv8): bv8
  {
    Pshufb(LUT_ROLL, CmpEqEpi8(c, MASK_2F) + HiNibble(c, next))
  }

  /** `lo & hi` is zero exactly for the 64 characters of the alphabet; `=` and every byte from 0x80 up give a non-zero result. */
  lemma {:induction false} ClassifyByte(c: bv8, next: bv8)
    ensures Lo(c) & Hi(c, next) == 0 <==> IsAlphabet(c)
  {
    var h := HiNibble(c, next);
    assert Hi(c, next) == LUT_HI[(c >> 4) as int];
    assert Lo(c) == LUT_LO[(c & 0x0F) as int];
  }

  /** Adding the roll to an alphabet character gives its 6-bit value. */
  lemma {:induction false} RollByte(c: bv8, next: bv8)
    requires IsAlphabet(c)
    ensures c + Roll(c, next) == Value(c)
  {
    var h := HiNibble(c, next);
    if c == 0x2F {
      assert Roll(c, next) == LUT_ROLL[1];
    } else {
      assert Roll(c, next) == LUT_ROLL[(c >> 4) as int];
    }
  }

  /* ---------------------------------------------------------------------
   * enc_reshuffle: 24 input bytes to 32 six-bit values.
   * ------------------------------------------------------------------- */

  /**
   * `_mm256_shuffle_epi8` of a register by constant indices, given as the
   * signed bytes the source writes: a negative index (top bit set) gives 0,
   * otherwise its low four bits pick a byte of the same 128-bit lane.
   */
  function ShuffleEpi8(x: seq<bv8>, idx: seq<int>): (r: seq<bv8>)
    requires |x| == 32 && |idx| == 32
    ensures |r| == 32
  {
    seq(32, j requires 0 <= j < 32 => if idx[j] < 0 then 0 else if j < 16 then x[idx[j] % 16] else x[16 + idx[j] % 16])
  }

  /**
   * The shuffle of `enc_reshuffle` in register order, byte 0 first (the
   * source's `_mm256_set_epi8` lists the same bytes from byte 31 down).
   * The indices are lane-relative, so lane 1 starts again from 0.
   */
  const ENC_RESHUFFLE: seq<int> := [5, 4, 6, 5, 8, 7, 9, 8, 11, 10, 12, 11, 14, 13, 15, 14, 1, 0, 2, 1, 4, 3, 5, 4, 7, 6, 8, 7, 10, 9, 11, 10]

  /** A 16-bit element from its low and high byte. */
  function Half(lo: bv8, hi: bv8): bv16 { (lo as bv16) | ((hi as bv16) << 8) }

  /** `_mm256_mulhi_epu16`: the high 16 bits of the unsigned 32-bit product. */
  function MulHiEpu16(a: bv16, b: bv16): bv16 { (((a as bv32) * (b as bv32)) >> 16) as bv16 }

  /** `_mm256_mullo_epi16`: the low 16 bits of the product. */
  function MulLoEpi16(a: bv16, b: bv16): bv16 { a * b }

  /**
   * The arithmetic of `enc_reshuffle` on one 32-bit element with bytes
   * `x0..x3` (low byte first): the masks 0x0fc0fc00 and 0x003f03f0 and the
   * multipliers 0x04000040 and 0x01000010 split into their 16-bit halves.
   */
  function EncReshuffleWord(x0: bv8, x1: bv8, x2: bv8, x3: bv8): (r: seq<bv8>)
    ensures |r| == 4
  {
    var lo, hi := Half(x0, x1), Half(x2, x3);
    var t1lo, t1hi := MulHiEpu16(lo & 0xFC00, 0x0040), MulHiEpu16(hi & 0x0FC0, 0x0400);
    var t3lo, t3hi := MulLoEpi16(lo & 0x03F0, 0x0010), MulLoEpi16(hi & 0x003F, 0x0100);
    var rlo, rhi := t1lo | t3lo, t1hi | t3hi;
    [(rlo & 0xFF) as bv8, (rlo >> 8) as bv8, (rhi & 0xFF) as bv8, (rhi >> 8) as bv8]
  }

  /** The shuffle puts `t2 t1 t3 t2` in each element; the arithmetic then leaves the four 6-bit groups, one per byte. */
  lemma {:induction false} EncReshuffleGroups(t1: bv8, t2: bv8, t3: bv8)
    ensures EncReshuffleWord(t2, t1, t3, t2) == [Group0(t1), Group1(t1, t2), Group2(t2, t3), Group3(t3)]
  {
  }

  /** `enc_reshuffle` on a whole register: the shuffle, then the arithmetic on each 32-bit element. */
  function EncReshuffle(x: seq<bv8>): (r: seq<bv8>)
    requires |x| == 32
    ensures |r| == 32
  {
    ReshuffleWords(ShuffleEpi8(x, ENC_RESHUFFLE))
  }

  /** The arithmetic of `enc_reshuffle` applied to each of the eight 32-bit elements. */
  function ReshuffleWords(s: seq<bv8>): (r: seq<bv8>)
    requires |s| == 32
    ensures |r| == 32
  {
    seq(32, j requires 0 <= j < 32 => EncReshuffleWord(s[4 * (j / 4)], s[4 * (j / 4) + 1], s[4 * (j / 4) + 2], s[4 * (j / 4) + 3])[j % 4])
  }

  /** Element `k` of `ReshuffleWords` depends only on element `k` of its input. */
  lemma {:induction false} ReshuffleWordAt(s: seq<bv8>, k: nat)
    requires |s| == 32 && k < 8
    ensures var w := EncReshuffleWord(s[4 * k], s[4 * k + 1], s[4 * k + 2], s[4 * k + 3]);
      var r := ReshuffleWords(s);
      r[4 * k] == w[0] && r[4 * k + 1] == w[1] && r[4 * k + 2] == w[2] && r[4 * k + 3] == w[3]
  {
    var w := EncReshuffleWord(s[4 * k], s[4 * k + 1], s[4 * k + 2], s[4 * k + 3]);
    forall j | 4 * k <= j < 4 * k + 4
      ensures ReshuffleWords(s)[j] == w[j - 4 * k]
    {
      assert j / 4 == k && j % 4 == j - 4 * k;
    }
  }

  /** `enc_translate` turns four 6-bit values of a register into their characters. */
  lemma {:induction false} TranslateQuartet(y: seq<bv8>, k: nat, g0: bv8, g1: bv8, g2: bv8, g3: bv8)
    requires |y| == 32 && k < 8 && g0 < 64 && g1 < 64 && g2 < 64 && g3 < 64
    requires y[4 * k] == g0 && y[4 * k + 1] == g1 && y[4 * k + 2] == g2 && y[4 * k + 3] == g3
    ensures var r := EncTranslate(y);
      r[4 * k] == Char(g0) && r[4 * k + 1] == Char(g1) && r[4 * k + 2] == Char(g2) && r[4 * k + 3] == Char(g3)
  {
    forall j | 4 * k <= j < 4 * k + 4
      ensures EncTranslate(y)[j] == Char(y[j])
    {
      EncTranslateIsChar(y[j]);
    }
  }

  /** Element `k` of the shuffled register holds bytes `4 + 3k + 1`, `4 + 3k`, `4 + 3k + 2`, `4 + 3k + 1` of the input. */
  lemma {:induction false} EncShuffleElement(x: seq<bv8>, k: nat)
    requires |x| == 32 && k < 8
    ensures var s := ShuffleEpi8(x, ENC_RESHUFFLE);
      s[4 * k] == x[5 + 3 * k] && s[4 * k + 1] == x[4 + 3 * k] && s[4 * k + 2] == x[6 + 3 * k] && s[4 * k + 3] == x[5 + 3 * k]
  {
    EncShuffleIndices(k);
    ShuffledTriplet(x, ENC_RESHUFFLE, k);
  }

  /** `EncShuffleElement` for any indices that, made absolute, are those of `enc_reshuffle`. */
  lemma {:induction false} ShuffledTriplet(x: seq<bv8>, idx: seq<int>, k: nat)
    requires |x| == 32 && |idx| == 32 && k < 8
    requires LaneBase(k) + idx[4 * k] == 5 + 3 * k && LaneBase(k) + idx[4 * k + 1] == 4 + 3 * k
    requires LaneBase(k) + idx[4 * k + 2] == 6 + 3 * k && LaneBase(k) + idx[4 * k + 3] == 5 + 3 * k
    ensures var s := ShuffleEpi8(x, idx);
      s[4 * k] == x[5 + 3 * k] && s[4 * k + 1] == x[4 + 3 * k] && s[4 * k + 2] == x[6 + 3 * k] && s[4 * k + 3] == x[5 + 3 * k]
  {
  }

  /** The first byte of the 128-bit lane holding element `k`. */
  function LaneBase(k: nat): (b: nat)
    requires k < 8
    ensures b == if 4 * k < 16 then 0 else 16
  {
    if k < 4 then 0 else 16
  }

  /** The shuffle's indices for element `k`, made absolute by adding the lane's base. */
  lemma {:induction false} EncShuffleIndices(k: nat)
    requires k < 8
    ensures LaneBase(k) + ENC_RESHUFFLE[4 * k] == 5 + 3 * k
    ensures LaneBase(k) + ENC_RESHUFFLE[4 * k + 1] == 4 + 3 * k
    ensures LaneBase(k) + ENC_RESHUFFLE[4 * k + 2] == 6 + 3 * k
    ensures LaneBase(k) + ENC_RESHUFFLE[4 * k + 3] == 5 + 3 * k
  {
    if k == 0 {} else if k == 1 {} else if k == 2 {} else if k == 3 {}
    else if k == 4 {} else if k == 5 {} else if k == 6 {} else {}
  }

  /** One 32-byte store of the encoder: `enc_translate` after `enc_reshuffle`. */
  function EncBlock(x: seq<bv8>): (r: seq<bv8>)
    requires |x| == 32
    ensures |r| == 32
  {
    EncTranslate(EncReshuffle(x))
  }

  /** Element `k` of a stored block is the quartet of input bytes `4 + 3k` to `6 + 3k`. */
  lemma {:induction false} EncBlockQuartet(x: seq<bv8>, k: nat)
    requires |x| == 32 && k < 8
    ensures var q, r := Quartet(x[4 + 3 * k], x[5 + 3 * k], x[6 + 3 * k]), EncBlock(x);
      r[4 * k] == q[0] && r[4 * k + 1] == q[1] && r[4 * k + 2] == q[2] && r[4 * k + 3] == q[3]
  {
    var t1, t2, t3 := x[4 + 3 * k], x[5 + 3 * k], x[6 + 3 * k];
    var s := ShuffleEpi8(x, ENC_RESHUFFLE);
    EncShuffleElement(x, k);
    ReshuffleWordAt(s, k);
    EncReshuffleGroups(t1, t2, t3);
    GroupsAreSextets(t1, t2, t3);
    TranslateQuartet(EncReshuffle(x), k, Group0(t1), Group1(t1, t2), Group2(t2, t3), Group3(t3));
  }

  /** Quartet `k` of a stored block agrees with the encoding of the 24 input bytes. */
  lemma {:induction false} EncBlockAgreesAt(x: seq<bv8>, t: seq<bv8>, k: nat)
    requires |x| == 32 && k < 8 && t == x[4..28]
    ensures 4 * k + 4 <= |Enc(t)|
    ensures var r, e := EncBlock(x), Enc(t);
      r[4 * k] == e[4 * k] && r[4 * k + 1] == e[4 * k + 1] && r[4 * k + 2] == e[4 * k + 2] && r[4 * k + 3] == e[4 * k + 3]
  {
    EncBlockQuartet(x, k);
    EncQuartetAt(t, k);
    assert t[3 * k] == x[4 + 3 * k] && t[3 * k + 1] == x[5 + 3 * k] && t[3 * k + 2] == x[6 + 3 * k];
    var w := Enc(t)[4 * k .. 4 * k + 4];
    assert Enc(t)[4 * k] == w[0] && Enc(t)[4 * k + 1] == w[1] && Enc(t)[4 * k + 2] == w[2] && Enc(t)[4 * k + 3] == w[3];
  }

  /** A stored block is the Base64 encoding of the 24 input bytes after the 4 it skips. */
  lemma {:induction false} EncBlockIsEnc(x: seq<bv8>)
    requires |x| == 32
    ensures EncBlock(x) == Enc(x[4..28])
  {
    var t := x[4..28];
    EncLengthOfTriplets(t);
    forall j | 0 <= j < 32
      ensures EncBlock(x)[j] == Enc(t)[j]
    {
      var k := j / 4;
      EncBlockAgreesAt(x, t, k);
      assert j == 4 * k || j == 4 * k + 1 || j == 4 * k + 2 || j == 4 * k + 3;
    }
  }

  /* ---------------------------------------------------------------------
   * The decode block: classification, roll and dec_reshuffle.
   * ------------------------------------------------------------------- */

  /** The byte above `x[j]` in its 32-bit word, which `_mm256_srli_epi32` shifts down into it; 0 for a word's top byte. */
  function NextInWord(x: seq<bv8>, j: int): bv8
    requires |x| == 32 && 0 <= j < 32
  {
    if j % 4 == 3 then 0 else x[j + 1]
  }

  /** The `lo` register of a block of 32 characters. */
  function LoReg(x: seq<bv8>): (r: seq<bv8>)
    requires |x| == 32
    ensures |r| == 32
  {
    seq(32, j requires 0 <= j < 32 => Lo(x[j]))
  }

  /** The `hi` register of a block. */
  function HiReg(x: seq<bv8>): (r: seq<bv8>)
    requires |x| == 32
    ensures |r| == 32
  {
    seq(32, j requires 0 <= j < 32 => Hi(x[j], NextInWord(x, j)))
  }

  /** The `roll` register of a block. */
  function RollReg(x: seq<bv8>): (r: seq<bv8>)
    requires |x| == 32
    ensures |r| == 32
  {
    seq(32, j requires 0 <= j < 32 => Roll(x[j], NextInWord(x, j)))
  }

  /** `_mm256_add_epi8`: byte-wise addition modulo 256. */
  function AddEpi8(a: seq<bv8>, b: seq<bv8>): (r: seq<bv8>)
    requires |a| == 32 && |b| == 32
    ensures |r| == 32
  {
    seq(32, j requires 0 <= j < 32 => a[j] + b[j])
  }

  /** `_mm256_testz_si256(a, b) != 0`: the two registers share no set bit. */
  predicate Testz(a: seq<bv8>, b: seq<bv8>)
    requires |a| == 32 && |b| == 32
  {
    forall j | 0 <= j < 32 :: a[j] & b[j] == 0
  }

  /** The block test of `decode` passes exactly when all 32 characters are in the alphabet. */
  lemma {:induction false} BlockCheck(x: seq<bv8>)
    requires |x| == 32
    ensures Testz(LoReg(x), HiReg(x)) <==> AllAlphabet(x)
  {
    forall j | 0 <= j < 32
      ensures LoReg(x)[j] & HiReg(x)[j] == 0 <==> IsAlphabet(x[j])
    {
      ClassifyByte(x[j], NextInWord(x, j));
    }
  }

  /** After the roll, every character of a valid block is its 6-bit value. */
  lemma {:induction false} RolledValues(x: seq<bv8>)
    requires |x| == 32 && AllAlphabet(x)
    ensures forall j | 0 <= j < 32 :: AddEpi8(x, RollReg(x))[j] == Value(x[j])
  {
    forall j | 0 <= j < 32
      ensures AddEpi8(x, RollReg(x))[j] == Value(x[j])
    {
      RollByte(x[j], NextInWord(x, j));
    }
  }

  /**
   * `_mm256_maddubs_epi16` by the bytes 0x40, 0x01: two unsigned bytes to
   * `64 * a + b`, at most 16575, so the signed saturation never applies.
   */
  function Maddubs(a: bv8, b: bv8): (r: bv32)
    ensures r < 16576
  {
    (a as bv32) * 0x40 + (b as bv32)
  }

  /** `_mm256_madd_epi16` by the 16-bit words 0x1000, 0x0001 on two results of `Maddubs`: `4096 * hi + lo`, below 2^31. */
  function MaddWord(a: bv8, b: bv8, c: bv8, d: bv8): bv32
  {
    Maddubs(a, b) * 0x1000 + Maddubs(c, d)
  }

  /** Byte `i` of a little-endian 32-bit word. */
  function ByteOf(w: bv32, i: int): bv8
    requires 0 <= i < 4
  {
    if i == 0 then (w & 0xFF) as bv8
    else if i == 1 then ((w >> 8) & 0xFF) as bv8
    else if i == 2 then ((w >> 16) & 0xFF) as bv8
    else (w >> 24) as bv8
  }

  /** The register after both multiply-adds: 32-bit element `k` packs characters 4k..4k+3. */
  function MaddReg(s: seq<bv8>): (r: seq<bv8>)
    requires |s| == 32
    ensures |r| == 32
  {
    seq(32, j requires 0 <= j < 32 => ByteOf(MaddWord(s[4 * (j / 4)], s[4 * (j / 4) + 1], s[4 * (j / 4) + 2], s[4 * (j / 4) + 3]), j % 4))
  }

  /** The byte shuffle of `dec_reshuffle`, as the source lists it (byte 0 first): bytes 2, 1, 0 of each word, then four zeros, per lane. */
  const DEC_PACK: seq<int> := [2, 1, 0, 6, 5, 4, 10, 9, 8, 14, 13, 12, -1, -1, -1, -1, 2, 1, 0, 6, 5, 4, 10, 9, 8, 14, 13, 12, -1, -1, -1, -1]

  /** The word permutation of `dec_reshuffle`; only the low three bits of an index count, so -1 picks word 7. */
  const DEC_PERM: seq<int> := [0, 1, 2, 4, 5, 6, -1, -1]

  /** `_mm256_permutevar8x32_epi32`: 32-bit element `k` of the result is element `perm[k] & 7` of `x`. */
  function PermuteVar8x32(x: seq<bv8>, perm: seq<int>): (r: seq<bv8>)
    requires |x| == 32 && |perm| == 8
    ensures |r| == 32
  {
    seq(32, j requires 0 <= j < 32 => x[4 * (perm[j / 4] % 8) + j % 4])
  }

  /** The byte shuffle and word permutation that end `dec_reshuffle`. */
  function DecPack(x: seq<bv8>): (r: seq<bv8>)
    requires |x| == 32
    ensures |r| == 32
  {
    PermuteVar8x32(ShuffleEpi8(x, DEC_PACK), DEC_PERM)
  }

  /** `dec_reshuffle`: 32 six-bit values to 24 bytes followed by 8 zero bytes. */
  function DecReshuffle(s: seq<bv8>): (r: seq<bv8>)
    requires |s| == 32
    ensures |r| == 32
  {
    DecPack(MaddReg(s))
  }

  /** The block `decode` stores for 32 characters: the roll, then `dec_reshuffle`. */
  function DecBlock(x: seq<bv8>): (r: seq<bv8>)
    requires |x| == 32
    ensures |r| == 32
  {
    DecReshuffle(AddEpi8(x, RollReg(x)))
  }

  /** Where output byte `3q + i` of `dec_reshuffle` comes from: the shuffle position and its index. */
  lemma {:induction false} DecPackIndex(q: nat, i: nat)
    requires q < 8 && i < 3
    ensures 4 * (DEC_PERM[(3 * q + i) / 4] % 8) + (3 * q + i) % 4 == (if q < 4 then 3 * q + i else 3 * q + i + 4)
    ensures DEC_PACK[if q < 4 then 3 * q + i else 3 * q + i + 4] == (if q < 4 then 4 * q + 2 - i else 4 * q - 14 - i)
  {
    assert i == 0 || i == 1 || i == 2;
    if q == 0 {
    } else if q == 1 {
    } else if q == 2 {
    } else if q == 3 {
    } else if q == 4 {
    } else if q == 5 {
    } else if q == 6 {
    } else {
    }
  }

  /** The last 8 output bytes of `dec_reshuffle` come from shuffle positions whose index is negative. */
  lemma {:induction false} DecZeroIndex(m: nat)
    requires 24 <= m < 32
    ensures var n := 4 * (DEC_PERM[m / 4] % 8) + m % 4; 28 <= n < 32 && DEC_PACK[n] < 0
  {
  }

  /** A byte shuffle followed by a word permutation reads, at output `m`, the lane byte the index at `n` names. */
  lemma {:induction false} PackedAt(x: seq<bv8>, idx: seq<int>, perm: seq<int>, m: nat, n: nat, v: int)
    requires |x| == 32 && |idx| == 32 && |perm| == 8 && m < 32 && n < 32
    requires 4 * (perm[m / 4] % 8) + m % 4 == n && idx[n] == v && 0 <= v < 16
    ensures PermuteVar8x32(ShuffleEpi8(x, idx), perm)[m] == x[(if n < 16 then 0 else 16) + v]
  {
  }

  /** Output byte `3q + i` of the final shuffle is byte `2 - i` of its input word `q`. */
  lemma {:induction false} DecPackAt(x: seq<bv8>, q: nat, i: nat, m: nat, w: nat)
    requires |x| == 32 && q < 8 && i < 3 && m == 3 * q + i && w == 4 * q + 2 - i
    ensures DecPack(x)[m] == x[w]
  {
    var n := if q < 4 then 3 * q + i else 3 * q + i + 4;
    var v := if q < 4 then 4 * q + 2 - i else 4 * q - 14 - i;
    DecPackIndex(q, i);
    PackedAt(x, DEC_PACK, DEC_PERM, m, n, v);
    assert (if n < 16 then 0 else 16) + v == 4 * q + 2 - i;
  }

  /** The last 8 bytes of the final shuffle are zero. */
  lemma {:induction false} DecPackZeros(x: seq<bv8>)
    requires |x| == 32
    ensures forall m | 24 <= m < 32 :: DecPack(x)[m] == 0
  {
    forall m | 24 <= m < 32
      ensures DecPack(x)[m] == 0
    {
      DecZeroIndex(m);
    }
  }

  /** Element `q` of the multiply-add register depends only on values 4q..4q+3. */
  lemma {:induction false} MaddRegAt(s: seq<bv8>, q: nat)
    requires |s| == 32 && q < 8
    ensures var w, r := MaddWord(s[4 * q], s[4 * q + 1], s[4 * q + 2], s[4 * q + 3]), MaddReg(s);
      r[4 * q] == ByteOf(w, 0) && r[4 * q + 1] == ByteOf(w, 1) && r[4 * q + 2] == ByteOf(w, 2)
  {
    forall j | 4 * q <= j < 4 * q + 3
      ensures MaddReg(s)[j] == ByteOf(MaddWord(s[4 * q], s[4 * q + 1], s[4 * q + 2], s[4 * q + 3]), j - 4 * q)
    {
      assert j / 4 == q && j % 4 == j - 4 * q;
    }
  }

  /** The three bytes that four 6-bit values stand for. */
  function ValueBytes(v0: bv8, v1: bv8, v2: bv8, v3: bv8): seq<bv8>
  {
    [(v0 << 2) | (v1 >> 4), (v1 << 4) | (v2 >> 2), (v2 << 6) | v3]
  }

  /** The two multiply-adds on four 6-bit values leave the three decoded bytes in bytes 2, 1, 0 of the word. */
  lemma {:induction false} MaddBytes(v0: bv8, v1: bv8, v2: bv8, v3: bv8)
    requires v0 < 64 && v1 < 64 && v2 < 64 && v3 < 64
    ensures var w := MaddWord(v0, v1, v2, v3);
      ByteOf(w, 2) == ValueBytes(v0, v1, v2, v3)[0] && ByteOf(w, 1) == ValueBytes(v0, v1, v2, v3)[1] && ByteOf(w, 0) == ValueBytes(v0, v1, v2, v3)[2]
  {
  }

  /** Four 6-bit values at 4q..4q+3 leave their three decoded bytes at 4q+2, 4q+1, 4q of the multiply-add register. */
  lemma {:induction false} MaddQuartet(s: seq<bv8>, q: nat, v0: bv8, v1: bv8, v2: bv8, v3: bv8)
    requires |s| == 32 && q < 8 && v0 < 64 && v1 < 64 && v2 < 64 && v3 < 64
    requires s[4 * q] == v0 && s[4 * q + 1] == v1 && s[4 * q + 2] == v2 && s[4 * q + 3] == v3
    ensures MaddReg(s)[4 * q + 2] == ValueBytes(v0, v1, v2, v3)[0]
    ensures MaddReg(s)[4 * q + 1] == ValueBytes(v0, v1, v2, v3)[1]
    ensures MaddReg(s)[4 * q] == ValueBytes(v0, v1, v2, v3)[2]
  {
    MaddRegAt(s, q);
    MaddBytes(v0, v1, v2, v3);
  }

  /** Bytes 4q+2, 4q+1, 4q of the input of the final shuffle become its bytes 3q, 3q+1, 3q+2. */
  lemma {:induction false} DecPackQuartet(x: seq<bv8>, q: nat, d: seq<bv8>)
    requires |x| == 32 && q < 8 && |d| == 3
    requires d[0] == x[4 * q + 2] && d[1] == x[4 * q + 1] && d[2] == x[4 * q]
    ensures DecPack(x)[3 * q] == d[0] && DecPack(x)[3 * q + 1] == d[1] && DecPack(x)[3 * q + 2] == d[2]
  {
    DecPackAt(x, q, 0, 3 * q, 4 * q + 2);
    DecPackAt(x, q, 1, 3 * q + 1, 4 * q + 1);
    DecPackAt(x, q, 2, 3 * q + 2, 4 * q);
  }

  /** Quartet `p` of the characters `x` is in the alphabet and decodes to bytes 3p..3p+2 of `r`. */
  ghost predicate QuartetDecodedAt(x: seq<bv8>, r: seq<bv8>, p: nat)
  {
    && p < 8 && |x| == 32 && |r| == 32
    && IsAlphabet(x[4 * p]) && IsAlphabet(x[4 * p + 1]) && IsAlphabet(x[4 * p + 2]) && IsAlphabet(x[4 * p + 3])
    && var d := DecodeQuartet(x[4 * p], x[4 * p + 1], x[4 * p + 2], x[4 * p + 3]);
      r[3 * p] == d[0] && r[3 * p + 1] == d[1] && r[3 * p + 2] == d[2]
  }

  /** The values of a valid quartet of `x`, placed at 4q..4q+3, decode through `dec_reshuffle` to bytes 3q..3q+2. */
  lemma {:induction false} ValuesDecodedAt(x: seq<bv8>, s: seq<bv8>, q: nat)
    requires |x| == 32 && |s| == 32 && q < 8
    requires IsAlphabet(x[4 * q]) && IsAlphabet(x[4 * q + 1]) && IsAlphabet(x[4 * q + 2]) && IsAlphabet(x[4 * q + 3])
    requires s[4 * q] == Value(x[4 * q]) && s[4 * q + 1] == Value(x[4 * q + 1])
    requires s[4 * q + 2] == Value(x[4 * q + 2]) && s[4 * q + 3] == Value(x[4 * q + 3])
    ensures QuartetDecodedAt(x, DecReshuffle(s), q)
  {
    MaddDecodes(s, q, x[4 * q], x[4 * q + 1], x[4 * q + 2], x[4 * q + 3]);
    DecPackQuartet(MaddReg(s), q, DecodeQuartet(x[4 * q], x[4 * q + 1], x[4 * q + 2], x[4 * q + 3]));
  }

  /** The multiply-add register holds the decoding of a valid quartet of `x` at 4q+2, 4q+1, 4q. */
  lemma {:induction false} MaddDecodes(s: seq<bv8>, q: nat, c0: bv8, c1: bv8, c2: bv8, c3: bv8)
    requires |s| == 32 && q < 8 && IsAlphabet(c0) && IsAlphabet(c1) && IsAlphabet(c2) && IsAlphabet(c3)
    requires s[4 * q] == Value(c0) && s[4 * q + 1] == Value(c1) && s[4 * q + 2] == Value(c2) && s[4 * q + 3] == Value(c3)
    ensures DecodeQuartet(c0, c1, c2, c3)[0] == MaddReg(s)[4 * q + 2]
    ensures DecodeQuartet(c0, c1, c2, c3)[1] == MaddReg(s)[4 * q + 1]
    ensures DecodeQuartet(c0, c1, c2, c3)[2] == MaddReg(s)[4 * q]
  {
    MaddQuartet(s, q, Value(c0), Value(c1), Value(c2), Value(c3));
    DecodeQuartetValues(c0, c1, c2, c3);
  }

  /** The decoding of a quartet, written with the values of its characters. */
  lemma {:induction false} DecodeQuartetValues(c0: bv8, c1: bv8, c2: bv8, c3: bv8)
    requires IsAlphabet(c0) && IsAlphabet(c1) && IsAlphabet(c2) && IsAlphabet(c3)
    ensures DecodeQuartet(c0, c1, c2, c3) == ValueBytes(Value(c0), Value(c1), Value(c2), Value(c3))
  {
  }

  /** Quartet `q` of a valid block decodes, through the roll and `dec_reshuffle`, to bytes 3q..3q+2 of the stored block. */
  lemma {:induction false} DecBlockQuartet(x: seq<bv8>, q: nat)
    requires |x| == 32 && q < 8 && AllAlphabet(x)
    ensures QuartetDecodedAt(x, DecBlock(x), q)
  {
    RolledValues(x);
    ValuesDecodedAt(x, AddEpi8(x, RollReg(x)), q);
  }

  /** When every quartet of `x` decodes into `r`, the first `q` quartets decode to the first `3q` bytes of `r`. */
  lemma {:induction false} DecodedPrefix(x: seq<bv8>, r: seq<bv8>, q: nat)
    requires |x| == 32 && |r| == 32 && q <= 8
    requires forall p | 0 <= p < 8 :: QuartetDecodedAt(x, r, p)
    ensures DecFull(x[..4 * q]).Some? && DecFull(x[..4 * q]).value == r[..3 * q]
    decreases q
  {
    if q == 0 {
      assert x[..0] == [];
    } else {
      var p := q - 1;
      DecodedPrefix(x, r, p);
      var a, c := x[..4 * p], x[4 * p .. 4 * q];
      assert x[..4 * q] == a + c;
      assert QuartetDecodedAt(x, r, p);
      assert IsAlphabet(c[0]) && IsAlphabet(c[1]) && IsAlphabet(c[2]) && IsAlphabet(c[3]);
      var d := DecodeQuartet(c[0], c[1], c[2], c[3]);
      assert r[3 * p] == d[0] && r[3 * p + 1] == d[1] && r[3 * p + 2] == d[2];
      DecFullSnoc(a, c);
      assert r[..3 * q] == r[..3 * p] + [r[3 * p], r[3 * p + 1], r[3 * p + 2]];
    }
  }

  /** A register holding the decoding of every quartet of `x` and then 8 zero bytes is `DecFull(x)` and the zeros. */
  lemma {:induction false} DecodedRegister(x: seq<bv8>, r: seq<bv8>)
    requires |x| == 32 && |r| == 32
    requires forall p | 0 <= p < 8 :: QuartetDecodedAt(x, r, p)
    requires forall m | 24 <= m < 32 :: r[m] == 0
    ensures DecFull(x).Some? && r == DecFull(x).value + [0, 0, 0, 0, 0, 0, 0, 0]
  {
    DecodedPrefix(x, r, 8);
    assert x[..32] == x;
    assert r[24..] == [0, 0, 0, 0, 0, 0, 0, 0];
    assert r == r[..24] + r[24..];
  }

  /** The stored block of 32 valid characters is their decoding followed by 8 zero bytes. */
  lemma {:induction false} DecBlockIsDecFull(x: seq<bv8>)
    requires |x| == 32 && AllAlphabet(x)
    ensures DecFull(x).Some? && DecBlock(x) == DecFull(x).value + [0, 0, 0, 0, 0, 0, 0, 0]
  {
    var r := DecBlock(x);
    forall p | 0 <= p < 8
      ensures QuartetDecodedAt(x, r, p)
    {
      DecBlockQuartet(x, p);
    }
    DecPackZeros(MaddReg(AddEpi8(x, RollReg(x))));
    DecodedRegister(x, r);
  }

  /* ---------------------------------------------------------------------
   * The encode loop: masked and unaligned 32-byte loads, 32-byte stores.
   * ------------------------------------------------------------------- */

  /** `_mm256_maskload_epi32` reads 32-bit element `i` only when bit 31 of mask element `i` is set. */
  predicate LaneLoaded(m: bv32)
  {
    m & 0x8000_0000 != 0
  }

  /** Every element the mask loads lies inside `mem` when the load starts at `base`. */
  predicate MaskFits(mem: seq<bv8>, base: int, mask: seq<bv32>)
  {
    && |mask| == 8
    && forall i | 0 <= i < 8 :: LaneLoaded(mask[i]) ==> 0 <= base + 4 * i && base + 4 * i + 4 <= |mem|
  }

  /**
   * `_mm256_maskload_epi32(mem + base, mask)`: a loaded element copies four
   * bytes of `mem`, any other element is zero and is not read.
   */
  function MaskLoad(mem: seq<bv8>, base: int, mask: seq<bv32>): (r: seq<bv8>)
    requires MaskFits(mem, base, mask)
    ensures |r| == 32
  {
    seq(32, j requires 0 <= j < 32 && MaskFits(mem, base, mask) =>
      if LaneLoaded(mask[j / 4]) then mem[base + j] else 0)
  }

  /** The mask of `encode`: element 0 clear, elements 1 to 7 equal to `i32::MIN` (listed from element 0 up). */
  const ENCODE_MASK: seq<bv32> := [0, 0x8000_0000, 0x8000_0000, 0x8000_0000, 0x8000_0000, 0x8000_0000, 0x8000_0000, 0x8000_0000]

  /**
   * The first load of `encode`, four bytes before the input, skips exactly
   * those four bytes: it reads only the first 28 input bytes and the block
   * holds them after four zero bytes.
   */
  lemma {:induction false} FirstLoad(str: seq<bv8>)
    requires |str| >= 28
    ensures MaskFits(str, -4, ENCODE_MASK)
    ensures MaskLoad(str, -4, ENCODE_MASK) == [0, 0, 0, 0] + str[..28]
  {
    var r := MaskLoad(str, -4, ENCODE_MASK);
    forall j | 0 <= j < 32
      ensures r[j] == ([0, 0, 0, 0] + str[..28])[j]
    {
      if j >= 4 {
        assert LaneLoaded(ENCODE_MASK[j / 4]);
      }
    }
  }

  /** A 32-byte store of `EncBlock(x)` after the encoding of `done` leaves the encoding of `done` and the 24 block bytes. */
  lemma {:induction false} BlockStored(d0: seq<bv8>, d: seq<bv8>, d1: seq<bv8>, at: nat, done: seq<bv8>, x: seq<bv8>)
    requires |x| == 32 && |done| % 3 == 0 && at + |Enc(done)| + 32 <= |d0|
    requires d == Splice(d0, at, Enc(done)) && d1 == Splice(d, at + |Enc(done)|, EncBlock(x))
    ensures |Enc(done + x[4..28])| == |Enc(done)| + 32
    ensures d1 == Splice(d0, at, Enc(done + x[4..28]))
  {
    EncBlockIsEnc(x);
    EncLengthOfTriplets(x[4..28]);
    SpliceEncAppend(d0, at, done, x[4..28]);
  }

  /**
   * One pass of the loop: `enc_reshuffle`, `enc_translate` and the 32-byte
   * store of the block after the encoding of `done`.
   */
  method StoreBlock(dest: array<bv8>, at: nat, destOffset: nat, input: seq<bv8>, ghost d0: seq<bv8>, ghost done: seq<bv8>)
    requires |input| == 32 && |done| % 3 == 0 && destOffset == |Enc(done)| && at + destOffset + 32 <= dest.Length == |d0|
    requires dest[..] == Splice(d0, at, Enc(done))
    modifies dest
    ensures destOffset + 32 == |Enc(done + input[4..28])|
    ensures dest[..] == Splice(d0, at, Enc(done + input[4..28]))
  {
    var block := EncBlock(input);
    Store(dest, at + destOffset, block);
    BlockStored(d0, old(dest[..]), dest[..], at, done, input);
  }

  /** A block stored at `m`, after `o` bytes encoded while 28 input bytes remain, fits in the encoding of the whole input. */
  lemma {:induction false} BlockFits(o: nat, m: nat, n: nat, k: nat)
    requires o == 24 * k && o + 28 <= n && 3 * m == 4 * o
    ensures o % 3 == 0 && m + 32 <= EncodeLen(n)
  {
    assert o == 3 * (8 * k);
  }

  /** The input bytes the blocks stored so far encode, when the first block holds `first`. */
  ghost function Consumed(first: seq<bv8>, str: seq<bv8>, o: nat): (r: seq<bv8>)
    requires |first| == 24 && (o == 0 || 24 <= o <= |str|)
    ensures |r| == o
  {
    if o == 0 then [] else first + str[24..o]
  }

  /** One more block extends what the blocks encode by the 24 bytes it holds at 4..28. */
  lemma {:induction false} ConsumedStep(first: seq<bv8>, str: seq<bv8>, o: nat, input: seq<bv8>)
    requires |first| == 24 && (o == 0 || 24 <= o) && o + 28 <= |str| && |input| == 32
    requires o == 0 ==> input[4..28] == first
    requires o > 0 ==> input == str[o - 4 .. o + 28]
    ensures Consumed(first, str, o) + input[4..28] == Consumed(first, str, o + 24)
  {
    if o > 0 {
      forall j | 4 <= j < 28
        ensures input[j] == str[o - 4 + j]
      {
      }
      assert input[4..28] == str[o..o + 24];
      assert first + str[24..o] + str[o..o + 24] == first + str[24..o + 24];
    }
  }

  /**
   * The loop of `encode` (entered when at least 28 bytes are given): the
   * first block comes from the masked load, each next one from an
   * unaligned load four bytes before `strOffset`, every block advances the
   * offsets by 24 and 32, and the loop stops once fewer than 32 bytes are
   * left. The output is the encoding of the bytes the first load placed at
   * 4..28 followed by the rest of the input up to `strOffset`.
   */
  method EncodeBlocks(dest: array<bv8>, at: nat, str: seq<bv8>, mask: seq<bv32>) returns (strOffset: nat, destOffset: nat)
    requires |str| >= 28 && MaskFits(str, -4, mask)
    requires at + EncodeLen(|str|) <= dest.Length
    modifies dest
    ensures 24 <= strOffset && strOffset % 24 == 0 && 4 <= |str| - strOffset < 32
    ensures 3 * destOffset == 4 * strOffset
    ensures destOffset == |Enc(Consumed(MaskLoad(str, -4, mask)[4..28], str, strOffset))| && at + destOffset <= dest.Length
    ensures dest[..] == Splice(old(dest[..]), at, Enc(Consumed(MaskLoad(str, -4, mask)[4..28], str, strOffset)))
  {
    var input := MaskLoad(str, -4, mask);
    ghost var first := input[4..28];
    ghost var blocks: nat := 0;
    strOffset, destOffset := 0, 0;
    SpliceEmpty(dest[..], at);
    while true
      invariant strOffset == 24 * blocks && strOffset + 28 <= |str| && |input| == 32
      invariant destOffset == |Enc(Consumed(first, str, strOffset))| && 3 * destOffset == 4 * strOffset
      invariant strOffset == 0 ==> input[4..28] == first
      invariant strOffset > 0 ==> input == str[strOffset - 4 .. strOffset + 28]
      invariant dest[..] == Splice(old(dest[..]), at, Enc(Consumed(first, str, strOffset)))
      decreases |str| - strOffset
    {
      BlockFits(strOffset, destOffset, |str|, blocks);
      StoreBlock(dest, at, destOffset, input, old(dest[..]), Consumed(first, str, strOffset));
      ConsumedStep(first, str, strOffset, input);
      strOffset := strOffset + 24;
      destOffset := destOffset + 32;
      blocks := blocks + 1;
      if |str| - strOffset < 32 {
        Blocks24(strOffset, blocks);
        break;
      }
      input := str[strOffset - 4 .. strOffset + 28];
    }
  }

  /** With the mask of `encode`, the blocks encode the input itself, from its first byte. */
  lemma {:induction false} FirstLoadConsumed(str: seq<bv8>, o: nat)
    requires |str| >= 28 && 24 <= o <= |str|
    ensures MaskFits(str, -4, ENCODE_MASK)
    ensures Consumed(MaskLoad(str, -4, ENCODE_MASK)[4..28], str, o) == str[..o]
  {
    FirstLoad(str);
    assert MaskLoad(str, -4, ENCODE_MASK)[4..28] == str[..24];
    assert str[..24] + str[24..o] == str[..o];
  }

  /** The scalar tail written after the encoding of the first `o` bytes completes the encoding. */
  lemma {:induction false} TailStored(d0: seq<bv8>, d: seq<bv8>, d1: seq<bv8>, at: nat, str: seq<bv8>, o: nat, m: nat, n: nat)
    requires o % 3 == 0 && o <= |str| && m == |Enc(str[..o])| && n == |Enc(str[o..])| && at + m + n <= |d0|
    requires d == Splice(d0, at, Enc(str[..o])) && d1 == Splice(d, at + m, Enc(str[o..]))
    ensures m + n == |Enc(str)|
    ensures d1 == Splice(d0, at, Enc(str))
  {
    assert str[o..] == str[o..|str|];
    SpliceEncLast(d0, at, str, o, |str|);
  }

  /** A whole number of triplets leaves the rest of the output for the remaining bytes. */
  lemma {:induction false} EncodeLenSplit(o: nat, n: nat)
    requires o % 3 == 0 && o <= n
    ensures EncodeLen(n) == 4 * o / 3 + EncodeLen(n - o)
  {
  }

  /**
   * AVX2 `encode`: at least 28 bytes go through the vector loop, and the 4
   * to 31 bytes it leaves go to the scalar `simple::encode`; the empty
   * input writes nothing. The output is the Base64 encoding of `str`.
   */
  method Encode(dest: array<bv8>, at: nat, str: seq<bv8>) returns (r: nat)
    requires at + EncodeLen(|str|) <= dest.Length
    modifies dest
    ensures r == |Enc(str)| == EncodeLen(|str|)
    ensures dest[..] == Splice(old(dest[..]), at, Enc(str))
  {
    EncLength(str);
    var strOffset, destOffset := 0, 0;
    if |str| >= 28 {
      FirstLoad(str);
      strOffset, destOffset := EncodeBlocks(dest, at, str, ENCODE_MASK);
      FirstLoadConsumed(str, strOffset);
    } else {
      SpliceEmpty(dest[..], at);
      assert str[..0] == [];
    }
    EncLength(str[..strOffset]);
    r := EncodeRest(dest, at, str, strOffset, destOffset, old(dest[..]));
  }

  /**
   * The end of `encode`: nothing more when no input is left, otherwise the
   * scalar `simple::encode` of the bytes after `strOffset`, written after
   * the `destOffset` characters already stored.
   */
  method EncodeRest(dest: array<bv8>, at: nat, str: seq<bv8>, strOffset: nat, destOffset: nat, ghost d0: seq<bv8>) returns (r: nat)
    requires strOffset % 3 == 0 && strOffset <= |str| && destOffset == |Enc(str[..strOffset])|
    requires at + EncodeLen(|str|) <= dest.Length == |d0| && at + destOffset <= dest.Length
    requires dest[..] == Splice(d0, at, Enc(str[..strOffset]))
    modifies dest
    ensures r == |Enc(str)| == EncodeLen(|str|)
    ensures dest[..] == Splice(d0, at, Enc(str))
  {
    EncLength(str);
    EncLength(str[..strOffset]);
    if |str| - strOffset == 0 {
      assert str[..strOffset] == str;
      return destOffset;
    }
    EncodeLenSplit(strOffset, |str|);
    ghost var before := dest[..];
    var n := Simple.Encode(str[strOffset..], dest, at + destOffset);
    TailStored(d0, before, dest[..], at, str, strOffset, destOffset, n);
    r := destOffset + n;
  }

  /** `encode_with_fallback`: the vector path when the CPU has AVX2, the scalar codec otherwise; both write the same encoding. */
  method EncodeWithFallback(cpu: Cpu, dest: array<bv8>, at: nat, str: seq<bv8>) returns (r: nat)
    requires at + EncodeLen(|str|) <= dest.Length
    modifies dest
    ensures r == |Enc(str)| == EncodeLen(|str|)
    ensures dest[..] == Splice(old(dest[..]), at, Enc(str))
  {
    if cpu.avx2 {
      r := Encode(dest, at, str);
    } else {
      EncLength(str);
      r := Simple.Encode(str, dest, at);
    }
  }
}
