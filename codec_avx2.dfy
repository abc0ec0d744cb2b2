/**
 * The AVX2 encoder of the `codec` module (`codec::avx2`), the one the crate's
 * public `encode` functions call. Its block functions `enc_reshuffle` and
 * `enc_translate` are the same code as in the `avx2` module and are modelled
 * there (`Avx2.EncBlock`); its loop is the same as well, with two
 * differences: the scalar tail goes to `simplesimd::encode`, and the mask of
 * the first load is `0x8000000` in every loaded element instead of
 * `i32::MIN`.
 *
 * `_mm256_maskload_epi32` tests bit 31 of each mask element, and
 * `0x8000000` only has bit 27 set, so the first load reads nothing and the
 * first block encodes 24 zero bytes. `EncodeWithMask` models the loop for
 * any mask; `EncodeAsWritten` instantiates it with the mask as written and
 * `FirstBlockLost` shows the output it gives; `Encode` instantiates it with
 * the mask of the `avx2` module, the evidently intended one.
 * `EncodeWithFallback`, and through it the crate's public functions, call
 * the loop as written.
 */
module CodecAvx2 {
  import opened Base64Spec
  import opened Buffers
  import opened Seqs
  import opened Blocks
  import Avx2
  import SimpleSimd

  /** The mask as written, from element 0 up: element 0 clear, elements 1 to 7 equal to `0x8000000`. */
  const CODEC_MASK: seq<bv32> := [0, 0x0800_0000, 0x0800_0000, 0x0800_0000, 0x0800_0000, 0x0800_0000, 0x0800_0000, 0x0800_0000]

  /** Twenty-four zero bytes. */
  const ZERO_TRIPLETS: seq<bv8> := [0, 0, 0, 0, 0, 0, 0, 0, 0, 0, 0, 0, 0, 0, 0, 0, 0, 0, 0, 0, 0, 0, 0, 0]

  /** No element of the mask as written has bit 31 set: the load reads no byte of the input and yields 32 zero bytes. */
  lemma {:induction false} MaskLoadsNothing(str: seq<bv8>)
    ensures Avx2.MaskFits(str, -4, CODEC_MASK)
    ensures forall j | 0 <= j < 32 :: Avx2.MaskLoad(str, -4, CODEC_MASK)[j] == 0
  {
    forall i | 0 <= i < 8
      ensures !Avx2.LaneLoaded(CODEC_MASK[i])
    {
    }
  }

  /**
   * The bytes the loop encodes with a given mask: when the vector loop runs,
   * the 24 bytes the first load placed at 4..28, then the input from byte
   * 24 on; otherwise the input itself.
   */
  ghost function Loaded(str: seq<bv8>, mask: seq<bv32>): (r: seq<bv8>)
    requires |str| >= 28 ==> Avx2.MaskFits(str, -4, mask)
    ensures |r| == |str|
  {
    if |str| >= 28 then Avx2.MaskLoad(str, -4, mask)[4..28] + str[24..] else str
  }

  /**
   * `encode` with the first load done through `mask`: at least 28 bytes go
   * through the vector loop, the 4 to 31 bytes it leaves through
   * `simplesimd::encode`. The count returned is `encode_len(|str|)` whatever
   * the mask, since no offset depends on the data; the output is the
   * encoding of the bytes the loads delivered.
   */
  method EncodeWithMask(dest: array<bv8>, at: nat, str: seq<bv8>, mask: seq<bv32>) returns (r: nat)
    requires |str| >= 28 ==> Avx2.MaskFits(str, -4, mask)
    requires at + EncodeLen(|str|) <= dest.Length
    modifies dest
    ensures r == |Enc(Loaded(str, mask))| == EncodeLen(|str|)
    ensures dest[..] == Splice(old(dest[..]), at, Enc(Loaded(str, mask)))
  {
    var strOffset, destOffset := 0, 0;
    ghost var done: seq<bv8> := [];
    if |str| >= 28 {
      strOffset, destOffset := Avx2.EncodeBlocks(dest, at, str, mask);
      done := Avx2.Consumed(Avx2.MaskLoad(str, -4, mask)[4..28], str, strOffset);
      EncLengthOfTriplets(done);
    } else {
      SpliceEmpty(dest[..], at);
    }
    r := EncodeRest(dest, at, str, strOffset, destOffset, old(dest[..]), done);
    LoadedParts(str, mask, strOffset, done);
  }

  /** What the blocks encoded followed by the rest of the input is what the loads delivered. */
  lemma {:induction false} LoadedParts(str: seq<bv8>, mask: seq<bv32>, o: nat, done: seq<bv8>)
    requires |str| >= 28 ==> Avx2.MaskFits(str, -4, mask)
    requires o <= |str| && (|str| >= 28 ==> 24 <= o && done == Avx2.Consumed(Avx2.MaskLoad(str, -4, mask)[4..28], str, o))
    requires |str| < 28 ==> o == 0 && done == []
    ensures done + str[o..] == Loaded(str, mask)
  {
    if |str| >= 28 {
      var first := Avx2.MaskLoad(str, -4, mask)[4..28];
      assert str[24..o] + str[o..] == str[24..];
      AppendAssoc(first, str[24..o], str[o..]);
    }
  }

  /**
   * The end of `encode`: nothing more when no input is left, otherwise
   * `simplesimd::encode` of the bytes after `strOffset`, written after the
   * encoding of the bytes `done` the blocks stored.
   */
  method EncodeRest(dest: array<bv8>, at: nat, str: seq<bv8>, strOffset: nat, destOffset: nat, ghost d0: seq<bv8>, ghost done: seq<bv8>) returns (r: nat)
    requires strOffset % 3 == 0 && strOffset <= |str| && |done| == strOffset && 3 * destOffset == 4 * strOffset
    requires destOffset == |Enc(done)| && at + EncodeLen(|str|) <= dest.Length == |d0|
    requires dest[..] == Splice(d0, at, Enc(done))
    modifies dest
    ensures r == |Enc(done + str[strOffset..])| == EncodeLen(|str|)
    ensures dest[..] == Splice(d0, at, Enc(done + str[strOffset..]))
  {
    var rest := str[strOffset..];
    Avx2.EncodeLenSplit(strOffset, |str|);
    EncLength(done + rest);
    if |str| - strOffset == 0 {
      assert done + rest == done;
      return destOffset;
    }
    EncLength(rest);
    var n := SimpleSimd.Encode(rest, dest, at + destOffset);
    SpliceEncAppend(d0, at, done, rest);
    r := destOffset + n;
  }

  /** `encode` as written: the mask that loads nothing. */
  method EncodeAsWritten(dest: array<bv8>, at: nat, str: seq<bv8>) returns (r: nat)
    requires at + EncodeLen(|str|) <= dest.Length
    modifies dest
    ensures r == EncodeLen(|str|)
    ensures |str| >= 28 ==> r == |Enc(ZERO_TRIPLETS + str[24..])|
    ensures |str| < 28 ==> r == |Enc(str)|
    ensures |str| >= 28 ==> dest[..] == Splice(old(dest[..]), at, Enc(ZERO_TRIPLETS + str[24..]))
    ensures |str| < 28 ==> dest[..] == Splice(old(dest[..]), at, Enc(str))
  {
    MaskLoadsNothing(str);
    r := EncodeWithMask(dest, at, str, CODEC_MASK);
    if |str| >= 28 {
      assert Avx2.MaskLoad(str, -4, CODEC_MASK)[4..28] == ZERO_TRIPLETS;
    }
  }

  /**
   * With the mask as written, an input of at least 28 bytes whose first
   * byte is 4 or more is encoded wrongly: the first character is `A`, the
   * character of a zero group, instead of the character of its top six bits.
   */
  lemma {:induction false} FirstBlockLost(str: seq<bv8>)
    requires |str| >= 28 && str[0] >= 4
    ensures Enc(ZERO_TRIPLETS + str[24..])[0] == 0x41
    ensures Enc(str)[0] == Char(str[0] >> 2) != 0x41
  {
    var z := ZERO_TRIPLETS + str[24..];
    assert Enc(z) == Quartet(z[0], z[1], z[2]) + Enc(z[3..]);
    assert Enc(str) == Quartet(str[0], str[1], str[2]) + Enc(str[3..]);
    ValueOfChar(str[0] >> 2);
  }

  /** The smallest such input: 28 bytes `0xFF` encode to `/` first, but the loop writes `A`. */
  lemma {:induction false} FirstBlockLostExample()
    ensures var s: seq<bv8> := seq(28, _ => 0xFF); Enc(s)[0] == 0x2F && Enc(ZERO_TRIPLETS + s[24..])[0] == 0x41
  {
    var s: seq<bv8> := seq(28, _ => 0xFF);
    FirstBlockLost(s);
  }

  /** `encode` with the mask of the `avx2` module: the Base64 encoding of the whole input. */
  method Encode(dest: array<bv8>, at: nat, str: seq<bv8>) returns (r: nat)
    requires at + EncodeLen(|str|) <= dest.Length
    modifies dest
    ensures r == |Enc(str)| == EncodeLen(|str|)
    ensures dest[..] == Splice(old(dest[..]), at, Enc(str))
  {
    EncLength(str);
    if |str| >= 28 {
      Avx2.FirstLoad(str);
      assert Avx2.MaskLoad(str, -4, Avx2.ENCODE_MASK)[4..28] + str[24..] == str;
    }
    r := EncodeWithMask(dest, at, str, Avx2.ENCODE_MASK);
  }

  /**
   * The bytes `encode_with_fallback` encodes: with AVX2 and at least 28
   * bytes of input, the first 24 read as zeros; otherwise the input itself.
   */
  function Delivered(cpu: Avx2.Cpu, str: seq<bv8>): (r: seq<bv8>)
    ensures |r| == |str|
  {
    if cpu.avx2 && |str| >= 28 then ZERO_TRIPLETS + str[24..] else str
  }

  /**
   * `encode_with_fallback`: with AVX2 the loop as written, otherwise
   * `simplesimd::encode`; both write the encoding of the delivered bytes
   * and return `encode_len(|str|)`.
   */
  method EncodeWithFallback(cpu: Avx2.Cpu, dest: array<bv8>, at: nat, str: seq<bv8>) returns (r: nat)
    requires at + EncodeLen(|str|) <= dest.Length
    modifies dest
    ensures r == |Enc(Delivered(cpu, str))| == EncodeLen(|str|)
    ensures dest[..] == Splice(old(dest[..]), at, Enc(Delivered(cpu, str)))
  {
    if cpu.avx2 {
      r := EncodeAsWritten(dest, at, str);
    } else {
      EncLength(str);
      r := SimpleSimd.Encode(str, dest, at);
    }
  }

  /**
   * `encode_with_fallback` writes the encoding of its input exactly when the
   * CPU lacks AVX2, the input is shorter than 28 bytes, or its first 24
   * bytes are zero.
   */
  lemma {:induction false} FallbackEncodesInput(cpu: Avx2.Cpu, str: seq<bv8>)
    ensures Enc(Delivered(cpu, str)) == Enc(str) <==> !cpu.avx2 || |str| < 28 || str[..24] == ZERO_TRIPLETS
  {
    var d := Delivered(cpu, str);
    if Enc(d) == Enc(str) {
      DecOfEnc(d);
      DecOfEnc(str);
      if cpu.avx2 && |str| >= 28 {
        assert d[..24] == ZERO_TRIPLETS;
      }
    } else if cpu.avx2 && |str| >= 28 && str[..24] == ZERO_TRIPLETS {
      SplitAt(str, 24);
    }
  }
}
