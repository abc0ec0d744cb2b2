/**
 * The encoders of `codecs::safesimd`. `encode_alt` is the block, triplet
 * and tail scheme of `codec::simplesimd`; `encode` keeps its block loop but
 * encodes the remaining triplets one by one through the `E` tables, writes
 * the padded tail through the same tables and then a NUL byte after the
 * text. The module's own lookup tables are not part of this model; they
 * follow the same formulas as the scalar codec's (`Luts.E0`, `Luts.E1`,
 * `Luts.E2`), and its `CHARPAD` is `=`.
 */
module SafeSimd {
  import opened Base64Spec
  import opened Luts
  import opened Buffers
  import opened Seqs
  import opened Blocks
  import Simple
  import SimpleSimd

  /** `encode_32_inner`: triplet `v` at `3 * v` through the `E` tables to the quartet at `4 * v`, for `v` in 0..8; returns 32. */
  method Encode32Inner(src: seq<bv8>, dest: array<bv8>, at: nat) returns (r: nat)
    requires 24 <= |src| && at + 32 <= dest.Length
    modifies dest
    ensures r == |Enc(src[..24])| == 32
    ensures dest[..] == Splice(old(dest[..]), at, Enc(src[..24]))
  {
    assert src[..0] == [];
    for v := 0 to 8
      invariant |Enc(src[..3 * v])| == 4 * v
      invariant dest[..] == Splice(old(dest[..]), at, Enc(src[..3 * v]))
    {
      var i, destI := v * 3, v * 4;
      var t1, t2, t3 := src[i], src[i + 1], src[i + 2];
      ghost var d := dest[..];
      Store(dest, at + destI, Simple.EncodeTriplet(t1, t2, t3));
      SpliceEncStep(old(dest[..]), d, dest[..], at, src, i, destI);
    }
    r := 32;
  }

  /** `encode_32_inner_alt`: the zipped `n_split` loop over exactly 8 triplets; returns the constant 32. */
  method Encode32InnerAlt(src: seq<bv8>, dest: array<bv8>, at: nat) returns (r: nat)
    requires |src| == 24 && at + 32 <= dest.Length
    modifies dest
    ensures r == |Enc(src)| == 32
    ensures dest[..] == Splice(old(dest[..]), at, Enc(src))
  {
    var _ := SimpleSimd.EncodeAnyInner(src, dest, at);
    r := 32;
  }

  /** `encode_32`: 8 triplets read from the start of `src` without a length check. */
  method Encode32(src: seq<bv8>, dest: array<bv8>, at: nat) returns (r: nat)
    requires 24 <= |src| && at + 32 <= dest.Length
    modifies dest
    ensures r == |Enc(src[..24])| == 32
    ensures dest[..] == Splice(old(dest[..]), at, Enc(src[..24]))
  {
    r := Encode32InnerAlt(src[..24], dest, at);
  }

  /** `encode_32_avx`: the same loop compiled for AVX. */
  method Encode32Avx(src: seq<bv8>, dest: array<bv8>, at: nat) returns (r: nat)
    requires 24 <= |src| && at + 32 <= dest.Length
    modifies dest
    ensures r == |Enc(src[..24])| == 32
    ensures dest[..] == Splice(old(dest[..]), at, Enc(src[..24]))
  {
    r := Encode32InnerAlt(src[..24], dest, at);
  }

  /** `encode_32_avx2`: the same loop compiled for AVX2. */
  method Encode32Avx2(src: seq<bv8>, dest: array<bv8>, at: nat) returns (r: nat)
    requires 24 <= |src| && at + 32 <= dest.Length
    modifies dest
    ensures r == |Enc(src[..24])| == 32
    ensures dest[..] == Splice(old(dest[..]), at, Enc(src[..24]))
  {
    r := Encode32InnerAlt(src[..24], dest, at);
  }

  /** `encode_any`: the `|src| / 3` whole triplets through the zipped `n_split` loop; returns `4 * (|src| / 3)`. */
  method EncodeAny(src: seq<bv8>, dest: array<bv8>, at: nat) returns (r: nat)
    requires at + 4 * (|src| / 3) <= dest.Length
    modifies dest
    ensures r == |Enc(src[..|src| / 3 * 3])| == 4 * (|src| / 3)
    ensures dest[..] == Splice(old(dest[..]), at, Enc(src[..|src| / 3 * 3]))
  {
    var srcLen := |src| / 3;
    r := SimpleSimd.EncodeAnyInner(src[..3 * srcLen], dest, at);
  }

  /**
   * `encode_alt`: blocks, whole triplets, `src_i` recomputed from the
   * characters written, then the padded tail, exactly as
   * `simplesimd::encode`; the count is `encode_len(|src|)`.
   */
  method EncodeAlt(src: seq<bv8>, dest: array<bv8>, at: nat) returns (r: nat)
    requires at + EncodeLen(|src|) <= dest.Length
    modifies dest
    ensures r == |Enc(src)| == EncodeLen(|src|)
    ensures dest[..] == Splice(old(dest[..]), at, Enc(src))
  {
    r := SimpleSimd.Encode(src, dest, at);
  }

  /**
   * `encode`: the Base64 encoding of `src` followed by a NUL byte; the
   * count includes the NUL, so the destination needs one byte more than
   * `encode_len(|src|)`. The empty input writes only the NUL and returns 1.
   */
  method Encode(src: seq<bv8>, dest: array<bv8>, at: nat) returns (r: nat)
    requires at + EncodeLen(|src|) + 1 <= dest.Length
    modifies dest
    ensures r == |Enc(src)| + 1 == EncodeLen(|src|) + 1
    ensures dest[..] == Splice(old(dest[..]), at, Enc(src) + [0])
  {
    EncLength(src);
    var destI := EncodeText(src, dest, at);
    ghost var text := dest[..];
    dest[at + destI] := 0;
    NulWritten(old(dest[..]), text, dest[..], at, Enc(src));
    r := destI + 1;
  }

  /** The part of `encode` before the NUL: blocks, whole triplets, then the padded tail. */
  method EncodeText(src: seq<bv8>, dest: array<bv8>, at: nat) returns (destI: nat)
    requires at + EncodeLen(|src|) <= dest.Length
    modifies dest
    ensures destI == |Enc(src)| == EncodeLen(|src|)
    ensures dest[..] == Splice(old(dest[..]), at, Enc(src))
  {
    var srcI;
    srcI, destI := EncodeBlocks(src, dest, at);
    srcI, destI := EncodeTriplets(src, dest, at, srcI, destI, old(dest[..]));
    ghost var mid := dest[..];
    SimpleSimd.TailFits(srcI, destI, |src|);
    var n := EncodeTail(src[srcI..], dest, at + destI);
    SpliceEncTail(old(dest[..]), mid, dest[..], at, src, srcI, destI);
    destI := destI + n;
  }

  /** The block loop of `encode`: 24 bytes to 32 characters while at least 24 bytes remain. */
  method EncodeBlocks(src: seq<bv8>, dest: array<bv8>, at: nat) returns (srcI: nat, destI: nat)
    requires at + EncodeLen(|src|) <= dest.Length
    modifies dest
    ensures srcI % 24 == 0 && |src| - 24 < srcI <= |src| && 3 * destI == 4 * srcI
    ensures Simple.BlocksWritten(old(dest[..]), dest[..], at, src, srcI)
  {
    srcI, destI := 0, 0;
    ghost var blocks: nat := 0;
    assert src[..0] == [];
    SpliceEmpty(dest[..], at);
    while |src| - srcI >= 24
      invariant srcI == 24 * blocks && srcI <= |src| && 3 * destI == 4 * srcI
      invariant Simple.BlocksWritten(old(dest[..]), dest[..], at, src, srcI)
      decreases |src| - srcI
    {
      EncodeBlock(src, dest, at, srcI, destI, old(dest[..]));
      srcI, destI := srcI + 24, destI + 32;
      blocks := blocks + 1;
    }
    Blocks24(srcI, blocks);
  }

  /** One pass of the block loop: the 24 bytes at `srcI` through `encode_32` to the 32 characters at `destI`. */
  method EncodeBlock(src: seq<bv8>, dest: array<bv8>, at: nat, srcI: nat, destI: nat, ghost d0: seq<bv8>)
    requires at + EncodeLen(|src|) <= dest.Length && srcI + 24 <= |src| && 3 * destI == 4 * srcI
    requires Simple.BlocksWritten(d0, dest[..], at, src, srcI)
    modifies dest
    ensures Simple.BlocksWritten(d0, dest[..], at, src, srcI + 24)
  {
    ghost var d := dest[..];
    var block := src[srcI..srcI + 24];
    var _ := Encode32(block, dest, at + destI);
    assert block[..24] == block;
    Simple.BlockWritten(d0, d, dest[..], at, src, srcI, destI, block);
  }

  /**
   * The `step_by(3)` loop of `encode`: when more than 2 bytes remain, the
   * triplet at `src_i` goes through the `E` tables, `dest_i` grows by 4 and
   * `src_i` is set to `i + 3`, so `src_i == i` at the head of every pass;
   * at most 2 bytes are left afterwards.
   */
  method EncodeTriplets(src: seq<bv8>, dest: array<bv8>, at: nat, srcI0: nat, destI0: nat, ghost d0: seq<bv8>) returns (srcI: nat, destI: nat)
    requires at + EncodeLen(|src|) <= dest.Length == |d0|
    requires Simple.BlocksWritten(d0, dest[..], at, src, srcI0) && 3 * destI0 == 4 * srcI0
    modifies dest
    ensures 3 * destI == 4 * srcI && |src| - srcI <= 2
    ensures Simple.BlocksWritten(d0, dest[..], at, src, srcI)
  {
    srcI, destI := srcI0, destI0;
    if |src| - srcI > 2 {
      var i := srcI;
      while i < |src| - 2
        invariant srcI == i && i <= |src| && 3 * destI == 4 * srcI
        invariant Simple.BlocksWritten(d0, dest[..], at, src, srcI)
        decreases |src| - i
      {
        var t1, t2, t3 := src[srcI], src[srcI + 1], src[srcI + 2];
        ghost var d := dest[..];
        Store(dest, at + destI, Simple.EncodeTriplet(t1, t2, t3));
        SpliceEncStep(d0, d, dest[..], at, src, srcI, destI);
        destI := destI + 4;
        srcI := i + 3;
        i := i + 3;
      }
    }
  }

  /** The final 1 or 2 bytes through the `E` tables: two characters and `==`, or three characters and `=`. */
  function TableTail(t: seq<bv8>): (r: seq<bv8>)
    requires 1 <= |t| <= 2
    ensures r == Tail(t)
  {
    if |t| == 1 then
      [E0(t[0]), E1((t[0] & 0x03) << 4), PAD, PAD]
    else
      [E0(t[0]), E1(((t[0] & 0x03) << 4) | ((t[1] >> 4) & 0x0F)), E2((t[1] & 0x0F) << 2), PAD]
  }

  /** The `match` on the bytes left: nothing for 0, one padded quartet for 1 or 2. */
  method EncodeTail(t: seq<bv8>, dest: array<bv8>, at: nat) returns (written: nat)
    requires |t| <= 2 && at + |Tail(t)| <= dest.Length
    modifies dest
    ensures written == |Tail(t)|
    ensures dest[..] == Splice(old(dest[..]), at, Tail(t))
  {
    if |t| == 0 {
      SpliceEmpty(dest[..], at);
      written := 0;
    } else {
      Store(dest, at, TableTail(t));
      written := 4;
    }
  }

  /** The NUL written right after the text extends it by one zero byte. */
  lemma {:induction false} NulWritten(d0: seq<bv8>, d: seq<bv8>, d1: seq<bv8>, at: nat, text: seq<bv8>)
    requires at + |text| + 1 <= |d0| && d == Splice(d0, at, text) && d1 == d[at + |text| := 0]
    ensures d1 == Splice(d0, at, text + [0])
  {
    assert d1 == Splice(d, at + |text|, [0]);
    SpliceSplice(d0, at, text, [0]);
  }
}
