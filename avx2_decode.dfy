/** The states of the decode loop of the AVX2 codec and the outcomes `decode` promises. */
module Avx2DecodeState {
  import opened Base64Spec
  import opened Buffers
  import Simple

  /** The 8 zero bytes a stored block leaves after its 24 decoded bytes. */
  const ZEROS: seq<bv8> := [0, 0, 0, 0, 0, 0, 0, 0]

  /** What the stores have left past the decoded bytes: nothing before the first block, 8 zero bytes after one. */
  function Overhang(srcI: nat): (r: seq<bv8>)
    ensures |r| <= 8 && (srcI > 0 ==> r == ZEROS)
  {
    if srcI == 0 then [] else ZEROS
  }

  /** The first `srcI` characters of `src` are whole valid blocks decoding to `destI` bytes, and at least 13 characters follow a stored block. */
  ghost predicate BlocksValid(src: seq<bv8>, srcI: nat, destI: nat)
  {
    && srcI % 32 == 0 && srcI <= |src| && 4 * destI == 3 * srcI
    && (srcI > 0 ==> |src| - srcI >= 13)
    && DecFull(src[..srcI]).Some? && |DecFull(src[..srcI]).value| == destI
  }

  /**
   * The state of the loop of `decode`: the first `srcI` characters of `src`
   * are whole valid blocks, their decoding is written from `at` and is
   * followed by the overhang of the last store, and a stored block always
   * leaves at least 13 characters behind it.
   */
  ghost predicate BlocksDecoded(d0: seq<bv8>, d: seq<bv8>, at: nat, src: seq<bv8>, srcI: nat, destI: nat)
  {
    && BlocksValid(src, srcI, destI) && |d| == |d0|
    && at + destI + |Overhang(srcI)| <= |d0|
    && d == Splice(d0, at, DecFull(src[..srcI]).value + Overhang(srcI))
  }

  /**
   * What `decode` promises: it succeeds exactly on valid Base64, with the
   * decoding written from `at`; an input whose length is not a multiple of
   * 4 is rejected with the length of the part left after the stored blocks;
   * a rejected character is reported as the scalar decoder reports it.
   */
  ghost predicate DecodedByBlocks(d0: seq<bv8>, d1: seq<bv8>, at: nat, src: seq<bv8>, r: Result<nat>)
  {
    && (r.Ok? <==> Dec(src).Some?)
    && (r.Ok? ==> r.value == |Dec(src).value| && at + r.value <= |d0| && d1 == Splice(d0, at, Dec(src).value))
    && (0 < |src| && (|src| < 4 || |src| % 4 != 0) ==>
          r.Err? && r.error.InputModError? && 0 < r.error.len <= |src| && (|src| - r.error.len) % 32 == 0)
    && (r.Err? ==> r.error.InvalidInput? || r.error.InputModError?)
    && (r.Err? && r.error.InvalidInput? ==> InvalidReported(src, r.error))
  }

  /** `t` is valid Base64, and `d1` is `d0` with its `n` decoded bytes written from `at`. */
  ghost predicate AcceptedAt(d0: seq<bv8>, d1: seq<bv8>, at: nat, t: seq<bv8>, n: nat)
  {
    Dec(t).Some? && n == |Dec(t).value| && at + n <= |d0| && d1 == Splice(d0, at, Dec(t).value)
  }

  /** How the scalar decoder rejects a text `t` with `e`: the error of `decode`, with the rest after the blocks starting at `srcI`. */
  ghost predicate RejectedAs(t: seq<bv8>, e: CodecError, srcI: nat)
  {
    && Dec(t).None?
    && (e.InvalidInput? || e.InputModError?)
    && (|t| % 4 != 0 ==> e.InputModError? && 0 < e.len <= |t| && (|t| - e.len) % 32 == srcI % 32)
    && (e.InvalidInput? ==> InvalidReported(t, e))
  }

  /** The character error `e` for the text `t` of whole quartets: its first invalid quartet, or else its invalid 2 or 3 last characters. */
  ghost predicate InvalidReported(t: seq<bv8>, e: CodecError)
  {
    && |t| % 4 == 0
    && (|| FirstInvalid(Body(t), e)
        || (DecFull(Body(t)).Some? && DecTail(Leftover(t)).None? && e == InvalidInput(Leftover(t))))
  }
}

/*
 * The decode loop of the AVX2 codec (src/avx2/mod.rs): 32 characters at a
 * time through the decode block while enough input remains, then the
 * scalar decoder on the rest.
 */
module Avx2Decode {
  import opened Base64Spec
  import opened Buffers
  import opened Seqs
  import opened Blocks
  import opened Avx2
  import opened Avx2DecodeState
  import Simple

  /* ---------------------------------------------------------------------
   * The decode loop: unaligned 32-byte loads and stores, then the scalar
   * decoder on the rest.
   * ------------------------------------------------------------------- */

  /** Storing the decoding `w` of the next 32 characters and 8 zero bytes extends the decoded blocks by 24 bytes, and the zeros become the overhang. */
  lemma {:induction false} BlockDecodedStep(d0: seq<bv8>, d: seq<bv8>, d1: seq<bv8>, at: nat, src: seq<bv8>, srcI: nat, destI: nat, w: seq<bv8>)
    requires BlocksDecoded(d0, d, at, src, srcI, destI) && |src| - srcI >= 45 && at + destI + 32 <= |d0|
    requires DecFull(src[srcI..srcI + 32]).Some? && w == DecFull(src[srcI..srcI + 32]).value
    requires d1 == Splice(d, at + destI, w + ZEROS)
    ensures BlocksDecoded(d0, d1, at, src, srcI + 32, destI + 24)
  {
    BlocksValidStep(src, srcI, destI);
    var p, q := DecFull(src[..srcI]).value, DecFull(src[..srcI + 32]).value;
    assert |p| == destI && q == p + w;
    StoreOverhang(d0, d, d1, at, p, Overhang(srcI), w, q, Overhang(srcI + 32));
  }

  /** One more valid block of 32 characters, with at least 13 after it, keeps the blocks valid. */
  lemma {:induction false} BlocksValidStep(src: seq<bv8>, srcI: nat, destI: nat)
    requires BlocksValid(src, srcI, destI) && |src| - srcI >= 45 && DecFull(src[srcI..srcI + 32]).Some?
    ensures BlocksValid(src, srcI + 32, destI + 24)
    ensures DecFull(src[..srcI + 32]).value == DecFull(src[..srcI]).value + DecFull(src[srcI..srcI + 32]).value
  {
    BlockAppended(src, srcI);
  }

  /** The first `srcI + 32` characters decode to the first `srcI` and then the block after them. */
  lemma {:induction false} BlockAppended(src: seq<bv8>, srcI: nat)
    requires srcI % 4 == 0 && srcI + 32 <= |src| && DecFull(src[..srcI]).Some? && DecFull(src[srcI..srcI + 32]).Some?
    ensures DecFull(src[..srcI + 32]).Some?
    ensures DecFull(src[..srcI + 32]).value == DecFull(src[..srcI]).value + DecFull(src[srcI..srcI + 32]).value
  {
    var a, x := src[..srcI], src[srcI..srcI + 32];
    assert src[..srcI + 32] == a + x;
    DecFullAppend(a, x);
  }

  /** A store of `w` and 8 zero bytes right after `p` covers the overhang `z` left behind `p`. */
  lemma {:induction false} StoreOverhang(d0: seq<bv8>, d: seq<bv8>, d1: seq<bv8>, at: nat, p: seq<bv8>, z: seq<bv8>, w: seq<bv8>, q: seq<bv8>, z1: seq<bv8>)
    requires |z| <= 8 && at + |p| + |w| + 8 <= |d0| && q == p + w && z1 == ZEROS
    requires d == Splice(d0, at, p + z) && d1 == Splice(d, at + |p|, w + ZEROS)
    ensures at + |q| + |z1| <= |d0| && |d1| == |d0| && d1 == Splice(d0, at, q + z1)
  {
    SpliceOver(d0, at, p, z, w + ZEROS);
    AppendAssoc(p, w, ZEROS);
  }

  /**
   * One pass of the loop of `decode`: the 32 characters at `srcI` are
   * checked with `_mm256_testz_si256`; a block with a character outside the
   * alphabet ends the loop with nothing written, a valid one is rolled to
   * its values, packed by `dec_reshuffle` and stored with 32-byte width.
   */
  method DecodeBlock(out: array<bv8>, at: nat, src: seq<bv8>, srcI: nat, destI: nat, ghost d0: seq<bv8>) returns (valid: bool)
    requires BlocksDecoded(d0, out[..], at, src, srcI, destI) && |src| - srcI >= 45
    requires 4 * at + 3 * |src| <= 4 * out.Length
    modifies out
    ensures valid <==> AllAlphabet(src[srcI..srcI + 32])
    ensures !valid ==> out[..] == old(out[..])
    ensures valid ==> BlocksDecoded(d0, out[..], at, src, srcI + 32, destI + 24)
  {
    var x := src[srcI..srcI + 32];
    BlockCheck(x);
    if !Testz(LoReg(x), HiReg(x)) {
      return false;
    }
    StoreDecBlock(out, at + destI, x);
    BlockDecodedStep(d0, old(out[..]), out[..], at, src, srcI, destI, DecFull(x).value);
    return true;
  }

  /** The roll, `dec_reshuffle` and the 32-byte store of a block of valid characters: their decoding and 8 zero bytes. */
  method StoreDecBlock(out: array<bv8>, pos: nat, x: seq<bv8>)
    requires |x| == 32 && AllAlphabet(x) && pos + 32 <= out.Length
    modifies out
    ensures DecFull(x).Some? && |DecFull(x).value| == 24
    ensures out[..] == Splice(old(out[..]), pos, DecFull(x).value + ZEROS)
  {
    var block := DecBlock(x);
    DecBlockIsDecFull(x);
    Store(out, pos, block);
  }

  /** A valid text decoded from `at` is what `decode` promises on success. */
  lemma {:induction false} AcceptedByBlocks(d0: seq<bv8>, d1: seq<bv8>, at: nat, src: seq<bv8>, n: nat)
    requires AcceptedAt(d0, d1, at, src, n)
    ensures DecodedByBlocks(d0, d1, at, src, Ok(n))
  {
  }

  /** What the scalar decoder promises, cut into its success and failure halves. */
  lemma {:induction false} TailOutcome(d: seq<bv8>, d1: seq<bv8>, at: nat, t: seq<bv8>, r: Result<nat>)
    requires Simple.Decoded(d, d1, at, t, r)
    ensures r.Ok? ==> AcceptedAt(d, d1, at, t, r.value)
    ensures r.Err? ==> RejectedAs(t, r.error, 0)
  {
  }

  /**
   * The call of `simple::decode` on the characters left after the blocks,
   * written after the decoded blocks; its outcome is the outcome of
   * `decode` on the whole text.
   */
  method DecodeTail(out: array<bv8>, at: nat, src: seq<bv8>, srcI: nat, destI: nat, ghost d0: seq<bv8>) returns (r: Result<nat>)
    requires 4 * at + 3 * |src| <= 4 * out.Length && BlocksDecoded(d0, out[..], at, src, srcI, destI)
    modifies out
    ensures DecodedByBlocks(d0, out[..], at, src, r)
  {
    assert BlocksValid(src, srcI, destI);
    var t, tAt := src[srcI..], at + destI;
    var tail := Simple.Decode(t, out, tAt);
    r := if tail.Err? then Err(tail.error) else Ok(destI + tail.value);
    TailJoined(d0, old(out[..]), out[..], at, src, srcI, destI, t, tAt, tail, r);
  }

  /**
   * The outcome of the scalar decoder on the rest `t` after the blocks,
   * written from `tAt`, is the outcome of `decode` on the whole text.
   */
  lemma {:induction false} TailJoined(d0: seq<bv8>, d: seq<bv8>, d1: seq<bv8>, at: nat, src: seq<bv8>, srcI: nat, destI: nat, t: seq<bv8>, tAt: nat, tail: Result<nat>, r: Result<nat>)
    requires BlocksDecoded(d0, d, at, src, srcI, destI)
    requires srcI <= |src| && t == src[srcI..] && tAt == at + destI && Simple.Decoded(d, d1, tAt, t, tail)
    requires r == if tail.Err? then Err(tail.error) else Ok(destI + tail.value)
    ensures DecodedByBlocks(d0, d1, at, src, r)
  {
    TailOutcome(d, d1, tAt, t, tail);
    if tail.Err? {
      TailRejected(src, srcI, destI, t, tail.error);
      RejectedByBlocks(d0, d1, at, src, tail.error, srcI);
    } else {
      TailAccepted(d0, d, d1, at, src, srcI, destI, t, tAt, tail.value);
      AcceptedByBlocks(d0, d1, at, src, destI + tail.value);
    }
  }

  /** The scalar decoder accepted the rest `t` after the blocks: the whole text is valid and its decoding covers the overhang. */
  lemma {:induction false} TailAccepted(d0: seq<bv8>, d: seq<bv8>, d1: seq<bv8>, at: nat, src: seq<bv8>, srcI: nat, destI: nat, t: seq<bv8>, tAt: nat, n: nat)
    requires BlocksDecoded(d0, d, at, src, srcI, destI)
    requires srcI <= |src| && t == src[srcI..] && tAt == at + destI && AcceptedAt(d, d1, tAt, t, n)
    ensures AcceptedAt(d0, d1, at, src, destI + n)
  {
    if srcI == 0 {
      assert t == src;
      SpliceEmpty(d0, at);
    } else {
      assert Overhang(srcI) == ZEROS;
      BlockMultiple(srcI);
      JoinAccepted(d0, d, d1, at, src, srcI, DecFull(src[..srcI]).value, t, tAt);
    }
  }

  /** A whole number of 32-character blocks is a whole number of quartets. */
  lemma {:induction false} BlockMultiple(k: nat)
    requires k % 32 == 0
    ensures k % 4 == 0
  {
    assert k == 4 * (8 * (k / 32));
  }

  /**
   * Valid text `b` after the first `k` characters, decoded from `bAt` over
   * the zeros after the decoding `p` of those `k` valid characters: the
   * whole of `src` is valid and decoded from `at`.
   */
  lemma {:induction false} JoinAccepted(d0: seq<bv8>, d: seq<bv8>, d1: seq<bv8>, at: nat, src: seq<bv8>, k: nat, p: seq<bv8>, b: seq<bv8>, bAt: nat)
    requires k <= |src| && k % 4 == 0 && DecFull(src[..k]) == Some(p) && |src| - k >= 13
    requires b == src[k..] && bAt == at + |p| && Dec(b).Some? && at + |p| + 8 <= |d0|
    requires d == Splice(d0, at, p + ZEROS) && bAt + |Dec(b).value| <= |d| && d1 == Splice(d, bAt, Dec(b).value)
    ensures Dec(src).Some? && Dec(src).value == p + Dec(b).value
    ensures d1 == Splice(d0, at, Dec(src).value)
  {
    ValidAfterBlocks(src, k, p, b);
    SpliceOver(d0, at, p, ZEROS, Dec(b).value);
  }

  /** Valid text `b` after `k` valid characters decoding to `p`: `src` is valid, decodes to `p` and then `b`'s bytes, at least 8 of them. */
  lemma {:induction false} ValidAfterBlocks(src: seq<bv8>, k: nat, p: seq<bv8>, b: seq<bv8>)
    requires k <= |src| && k % 4 == 0 && DecFull(src[..k]) == Some(p) && |src| - k >= 13
    requires b == src[k..] && Dec(b).Some?
    ensures Dec(src).Some? && Dec(src).value == p + Dec(b).value && |Dec(b).value| >= 8
  {
    var a := src[..k];
    SplitAt(src, k);
    DecSplit(a, b);
    DecAtLeastEight(b);
  }

  /** A text rejected as `decode` rejects it is what `decode` promises on failure. */
  lemma {:induction false} RejectedByBlocks(d0: seq<bv8>, d1: seq<bv8>, at: nat, src: seq<bv8>, e: CodecError, srcI: nat)
    requires srcI % 32 == 0 && RejectedAs(src, e, srcI)
    ensures DecodedByBlocks(d0, d1, at, src, Err(e))
  {
  }

  /** The scalar decoder rejected the rest `t` after the blocks: so is the whole text, with the same error. */
  lemma {:induction false} TailRejected(src: seq<bv8>, srcI: nat, destI: nat, t: seq<bv8>, e: CodecError)
    requires BlocksValid(src, srcI, destI)
    requires t == src[srcI..] && RejectedAs(t, e, 0)
    ensures RejectedAs(src, e, srcI)
  {
    var a := src[..srcI];
    SplitAt(src, srcI);
    if srcI > 0 {
      JoinRejected(a, t, e);
    }
  }

  /** Text `b` that the scalar decoder rejects with `e`, after valid blocks `a`: `a + b` is rejected for the same reason. */
  lemma {:induction false} JoinRejected(a: seq<bv8>, b: seq<bv8>, e: CodecError)
    requires |a| % 4 == 0 && DecFull(a).Some? && |b| >= 13 && RejectedAs(b, e, 0)
    ensures RejectedAs(a + b, e, |a|)
  {
    WholeQuartetsFirst(|a|, |b|);
    DecSplit(a, b);
    if |b| % 4 != 0 {
      ShiftMod32(|a|, |b| - e.len);
    }
    if e.InvalidInput? {
      JoinInvalid(a, b, e);
    }
  }

  /** Adding a multiple of 32 keeps the remainder modulo 32. */
  lemma {:induction false} ShiftMod32(x: int, y: int)
    requires y % 32 == 0
    ensures (x + y) % 32 == x % 32
  {
    assert y == 32 * (y / 32);
  }

  /** An invalid character in the text `b` after valid blocks `a` is the one reported for `a + b`. */
  lemma {:induction false} JoinInvalid(a: seq<bv8>, b: seq<bv8>, e: CodecError)
    requires |a| % 4 == 0 && DecFull(a).Some? && |b| >= 4 && InvalidReported(b, e)
    ensures InvalidReported(a + b, e)
  {
    WholeQuartetsFirst(|a|, |b|);
    BadTailSplit(a, b, e);
    FirstInvalidSplit(a, b, e);
  }

  /** Invalid last characters of `b`, after whole valid quartets `a`, are the invalid last characters of `a + b`. */
  lemma {:induction false} BadTailSplit(a: seq<bv8>, b: seq<bv8>, e: CodecError)
    requires |a| % 4 == 0 && DecFull(a).Some? && |b| >= 4 && |b| % 4 == 0 && |a + b| % 4 == 0
    ensures DecFull(Body(b)).Some? && DecTail(Leftover(b)).None? && e == InvalidInput(Leftover(b)) ==>
      DecFull(Body(a + b)).Some? && DecTail(Leftover(a + b)).None? && e == InvalidInput(Leftover(a + b))
  {
    BodySplit(a, b);
  }

  /** The loop of `decode`: blocks of 32 valid characters while at least 45 characters remain. */
  method DecodeBlocks(out: array<bv8>, at: nat, src: seq<bv8>) returns (srcI: nat, destI: nat)
    requires 4 * at + 3 * |src| <= 4 * out.Length
    modifies out
    ensures BlocksDecoded(old(out[..]), out[..], at, src, srcI, destI)
  {
    ghost var d0 := out[..];
    srcI, destI := 0, 0;
    assert src[..0] == [];
    SpliceEmpty(d0, at);
    while |src| - srcI >= 45
      invariant BlocksDecoded(d0, out[..], at, src, srcI, destI)
      decreases |src| - srcI
    {
      var valid := DecodeBlock(out, at, src, srcI, destI, d0);
      if !valid {
        break;
      }
      srcI, destI := srcI + 32, destI + 24;
    }
  }

  /**
   * `decode`: 32 characters at a time to 24 bytes while at least 45
   * characters remain and the block is valid, then `simple::decode` on the
   * rest, whose error is passed on unchanged.
   */
  method Decode(out: array<bv8>, at: nat, src: seq<bv8>) returns (r: Result<nat>)
    requires 4 * at + 3 * |src| <= 4 * out.Length
    modifies out
    ensures DecodedByBlocks(old(out[..]), out[..], at, src, r)
  {
    ghost var d0 := out[..];
    var srcI, destI := DecodeBlocks(out, at, src);
    r := DecodeTail(out, at, src, srcI, destI, d0);
  }

  /** `decode_with_fallback`: the vector path when the CPU has AVX2, `simple::decode` otherwise; both succeed exactly on valid Base64, and the error of the path taken is passed on unchanged. */
  method DecodeWithFallback(cpu: Cpu, out: array<bv8>, at: nat, src: seq<bv8>) returns (r: Result<nat>)
    requires 4 * at + 3 * |src| <= 4 * out.Length
    modifies out
    ensures r.Ok? <==> Dec(src).Some?
    ensures r.Ok? ==> r.value == |Dec(src).value| && out[..] == Splice(old(out[..]), at, Dec(src).value)
    ensures cpu.avx2 ==> DecodedByBlocks(old(out[..]), out[..], at, src, r)
    ensures !cpu.avx2 ==> Simple.Decoded(old(out[..]), out[..], at, src, r)
  {
    if cpu.avx2 {
      r := Decode(out, at, src);
    } else {
      r := Simple.Decode(src, out, at);
    }
  }
}
