/**
 * The scalar encoder of the `codec` module (`codec::simplesimd`): 24-byte
 * blocks through an 8-triplet loop, then the remaining whole triplets, then
 * the padded tail, every triplet split into 6-bit groups by shifting the
 * 24-bit number `t1 << 16 + t2 << 8 + t3` (`n_split`) and looked up in
 * `CHARS`.
 */
module SimpleSimd {
  import opened Base64Spec
  import opened Buffers
  import opened Seqs
  import opened Blocks
  import Simple

  /** The 24-bit number `t1 << 16 + t2 << 8 + t3`, computed on 32 bits. */
  function Number(t1: bv8, t2: bv8, t3: bv8): bv32
  {
    ((t1 as bv32) << 16) + ((t2 as bv32) << 8) + t3 as bv32
  }

  /** The three bytes do not overlap, so the sum is their bitwise or. */
  lemma {:induction false} NumberIsOr(t1: bv8, t2: bv8, t3: bv8)
    ensures Number(t1, t2, t3) == ((t1 as bv32) << 16) | ((t2 as bv32) << 8) | t3 as bv32
  {
  }

  /** Shifting and masking the number gives the four 6-bit groups of section 4 of RFC 4648. */
  lemma {:induction false} NumberGroups(t1: bv8, t2: bv8, t3: bv8)
    ensures var n := Number(t1, t2, t3);
      && Sextet(n, 18) == Group0(t1)
      && Sextet(n, 12) == Group1(t1, t2)
      && Sextet(n, 6) == Group2(t2, t3)
      && Sextet(n, 0) == Group3(t3)
  {
    NumberIsOr(t1, t2, t3);
  }

  /**
   * `n_split`: the four 6-bit groups of the number, each below 64 so that
   * it indexes `CHARS`.
   */
  function NSplit(t1: bv8, t2: bv8, t3: bv8): (g: seq<bv8>)
    ensures |g| == 4 && g[0] < 64 && g[1] < 64 && g[2] < 64 && g[3] < 64
    ensures g == [Group0(t1), Group1(t1, t2), Group2(t2, t3), Group3(t3)]
  {
    var n := Number(t1, t2, t3);
    NumberGroups(t1, t2, t3);
    GroupsAreSextets(t1, t2, t3);
    [Sextet(n, 18), Sextet(n, 12), Sextet(n, 6), Sextet(n, 0)]
  }

  /** The six bits of `n` from bit `k` up: `(n >> k) & 0x3F`, always below 64. */
  function Sextet(n: bv32, k: nat): (r: bv8)
    requires k <= 26
    ensures r < 64
  {
    ((n >> k) & 0x3F) as bv8
  }

  /** The four characters written for a triplet: `CHARS` at each group of `n_split`. */
  function SplitChars(t1: bv8, t2: bv8, t3: bv8): (q: seq<bv8>)
    ensures q == Quartet(t1, t2, t3)
  {
    var g := NSplit(t1, t2, t3);
    [Char(g[0]), Char(g[1]), Char(g[2]), Char(g[3])]
  }

  /**
   * The final 1 or 2 bytes: `n_split` of the number with the missing bytes
   * zero, two characters and `==`, or three characters and `=`.
   */
  function SplitTail(t: seq<bv8>): (r: seq<bv8>)
    requires 1 <= |t| <= 2
    ensures r == Tail(t)
  {
    if |t| == 1 then
      var g := NSplit(t[0], 0, 0);
      [Char(g[0]), Char(g[1]), PAD, PAD]
    else
      var g := NSplit(t[0], t[1], 0);
      [Char(g[0]), Char(g[1]), Char(g[2]), PAD]
  }

  /** The zipped loop over triplets and quartets; returns 4 per triplet. */
  method EncodeAnyInner(src: seq<bv8>, dest: array<bv8>, at: nat) returns (r: nat)
    requires |src| % 3 == 0 && 3 * at + 4 * |src| <= 3 * dest.Length
    modifies dest
    ensures r == |Enc(src)| && 3 * r == 4 * |src|
    ensures dest[..] == Splice(old(dest[..]), at, Enc(src))
  {
    var n := |src| / 3;
    var i, srcI, destI := 0, 0, 0;
    while i < n
      invariant i <= n && 3 * n == |src| && srcI == 3 * i && destI == 4 * i
      invariant |Enc(src[..srcI])| == destI
      invariant dest[..] == Splice(old(dest[..]), at, Enc(src[..srcI]))
    {
      var t1, t2, t3 := src[srcI], src[srcI + 1], src[srcI + 2];
      ghost var d := dest[..];
      Store(dest, at + destI, SplitChars(t1, t2, t3));
      SpliceEncStep(old(dest[..]), d, dest[..], at, src, srcI, destI);
      i, srcI, destI := i + 1, srcI + 3, destI + 4;
    }
    assert src[..srcI] == src;
    r := destI;
  }

  /** The same loop over exactly 8 triplets; it returns the constant 32. */
  method Encode32Inner(src: seq<bv8>, dest: array<bv8>, at: nat) returns (r: nat)
    requires |src| == 24 && at + 32 <= dest.Length
    modifies dest
    ensures r == |Enc(src)| == 32
    ensures dest[..] == Splice(old(dest[..]), at, Enc(src))
  {
    var _ := EncodeAnyInner(src, dest, at);
    r := 32;
  }

  /** `encode_32`: 8 triplets read from the start of `src` without a length check. */
  method Encode32(src: seq<bv8>, dest: array<bv8>, at: nat) returns (r: nat)
    requires 24 <= |src| && at + 32 <= dest.Length
    modifies dest
    ensures r == |Enc(src[..24])| == 32
    ensures dest[..] == Splice(old(dest[..]), at, Enc(src[..24]))
  {
    r := Encode32Inner(src[..24], dest, at);
  }

  /** `encode_any`: the `|src| / 3` whole triplets of `src`; returns `4 * (|src| / 3)`. */
  method EncodeAny(src: seq<bv8>, dest: array<bv8>, at: nat) returns (r: nat)
    requires at + 4 * (|src| / 3) <= dest.Length
    modifies dest
    ensures r == |Enc(src[..|src| / 3 * 3])| == 4 * (|src| / 3)
    ensures dest[..] == Splice(old(dest[..]), at, Enc(src[..|src| / 3 * 3]))
  {
    var srcLen := |src| / 3;
    r := EncodeAnyInner(src[..3 * srcLen], dest, at);
  }

  /**
   * `encode`: the Base64 encoding of `src` written into `dest` from `at`;
   * the count returned is `encode_len(|src|)` and nothing else changes.
   */
  method Encode(src: seq<bv8>, dest: array<bv8>, at: nat) returns (r: nat)
    requires at + EncodeLen(|src|) <= dest.Length
    modifies dest
    ensures r == |Enc(src)| == EncodeLen(|src|)
    ensures dest[..] == Splice(old(dest[..]), at, Enc(src))
  {
    EncLength(src);
    var srcI, destI := EncodeBlocks(src, dest, at);
    srcI, destI := EncodeTriplets(src, dest, at, srcI, destI, old(dest[..]));
    ghost var mid := dest[..];
    TailFits(srcI, destI, |src|);
    var n := EncodeTail(src[srcI..], dest, at + destI);
    SpliceEncTail(old(dest[..]), mid, dest[..], at, src, srcI, destI);
    r := destI + n;
  }

  /**
   * When more than 2 bytes follow the blocks, their whole triplets through
   * `encode_any`, and `src_i` recomputed as `(dest_i / 4) * 3`; at most 2
   * bytes are left.
   */
  method EncodeTriplets(src: seq<bv8>, dest: array<bv8>, at: nat, srcI0: nat, destI0: nat, ghost d0: seq<bv8>) returns (srcI: nat, destI: nat)
    requires at + EncodeLen(|src|) <= dest.Length == |d0|
    requires Simple.BlocksWritten(d0, dest[..], at, src, srcI0) && 3 * destI0 == 4 * srcI0
    modifies dest
    ensures 3 * destI == 4 * srcI && |src| - srcI <= 2
    ensures Simple.BlocksWritten(d0, dest[..], at, src, srcI)
  {
    srcI, destI := srcI0, destI0;
    if |src| - srcI > 2 {
      ghost var d := dest[..];
      var rest := src[srcI..];
      TripletsFit(srcI, destI, |rest|, |src|);
      var n := EncodeAny(rest, dest, at + destI);
      TripletsWritten(d0, d, dest[..], at, src, srcI, destI, rest);
      Rederive(srcI + |rest| / 3 * 3, destI + n);
      destI := destI + n;
      srcI := (destI / 4) * 3;
    }
  }

  /**
   * The block loop of `encode`: while at least 24 bytes remain, 24 bytes
   * are encoded to 32 characters and the offsets advance by 24 and 32.
   */
  method EncodeBlocks(src: seq<bv8>, dest: array<bv8>, at: nat) returns (srcI: nat, destI: nat)
    requires at + EncodeLen(|src|) <= dest.Length
    modifies dest
    ensures srcI % 24 == 0 && |src| - 24 < srcI <= |src| && 3 * destI == 4 * srcI
    ensures Simple.BlocksWritten(old(dest[..]), dest[..], at, src, srcI)
  {
    srcI, destI := 0, 0;
    ghost var blocks: nat := 0;
    assert src[..0] == [];
    SpliceEmpty(dest[..], at);
    while |src| - srcI >= 24
      invariant srcI == 24 * blocks && srcI <= |src| && 3 * destI == 4 * srcI
      invariant Simple.BlocksWritten(old(dest[..]), dest[..], at, src, srcI)
      decreases |src| - srcI
    {
      EncodeBlock(src, dest, at, srcI, destI, old(dest[..]));
      srcI, destI := srcI + 24, destI + 32;
      blocks := blocks + 1;
    }
    Blocks24(srcI, blocks);
  }

  /** One pass of the block loop: the 24 bytes at `srcI` through `encode_32` to the 32 characters at `destI`. */
  method EncodeBlock(src: seq<bv8>, dest: array<bv8>, at: nat, srcI: nat, destI: nat, ghost d0: seq<bv8>)
    requires at + EncodeLen(|src|) <= dest.Length && srcI + 24 <= |src| && 3 * destI == 4 * srcI
    requires Simple.BlocksWritten(d0, dest[..], at, src, srcI)
    modifies dest
    ensures Simple.BlocksWritten(d0, dest[..], at, src, srcI + 24)
  {
    ghost var d := dest[..];
    var block := src[srcI..srcI + 24];
    var _ := Encode32(block, dest, at + destI);
    assert block[..24] == block;
    Simple.BlockWritten(d0, d, dest[..], at, src, srcI, destI, block);
  }

  /** The whole triplets after the blocks fit in the encoding of the whole input. */
  lemma {:induction false} TripletsFit(srcI: nat, destI: nat, n: nat, len: nat)
    requires srcI + n == len && 3 * destI == 4 * srcI
    ensures destI + 4 * (n / 3) <= EncodeLen(len)
  {
  }

  /**
   * The triplets of `rest`, written after the encoding of the first `srcI`
   * bytes, extend it to the first `srcI + |rest| / 3 * 3` bytes, which is
   * the source index recomputed from the characters written.
   */
  lemma {:induction false} TripletsWritten(d0: seq<bv8>, d: seq<bv8>, d1: seq<bv8>, at: nat, src: seq<bv8>, srcI: nat, destI: nat, rest: seq<bv8>)
    requires Simple.BlocksWritten(d0, d, at, src, srcI) && 3 * destI == 4 * srcI
    requires rest == src[srcI..] && at + destI + 4 * (|rest| / 3) <= |d0|
    requires |Enc(rest[..|rest| / 3 * 3])| == 4 * (|rest| / 3)
    requires d1 == Splice(d, at + destI, Enc(rest[..|rest| / 3 * 3]))
    ensures Simple.BlocksWritten(d0, d1, at, src, srcI + |rest| / 3 * 3)
    ensures 3 * (destI + 4 * (|rest| / 3)) == 4 * (srcI + |rest| / 3 * 3)
  {
    var m := |rest| / 3;
    var piece := rest[..3 * m];
    assert piece == src[srcI..srcI + |piece|];
    MultipleOfThree(m);
    EncLengthOfTriplets(piece);
    Simple.PieceWritten(d0, d, d1, at, src, srcI, destI, piece);
  }

  /** `src_i = (dest_i / 4) * 3` recovers a whole number of triplets from its characters. */
  lemma {:induction false} Rederive(s: nat, d: nat)
    requires s % 3 == 0 && 3 * d == 4 * s
    ensures d / 4 * 3 == s
  {
    var m := s / 3;
    assert d == 4 * m;
  }

  /** The padded tail fits after the whole triplets. */
  lemma {:induction false} TailFits(srcI: nat, destI: nat, len: nat)
    requires srcI % 3 == 0 && srcI <= len <= srcI + 2 && 3 * destI == 4 * srcI
    ensures destI + (if len == srcI then 0 else 4) == EncodeLen(len)
  {
  }

  /** The `match` on the bytes left: nothing for 0, one padded quartet for 1 or 2. */
  method EncodeTail(t: seq<bv8>, dest: array<bv8>, at: nat) returns (written: nat)
    requires |t| <= 2 && at + |Tail(t)| <= dest.Length
    modifies dest
    ensures written == |Tail(t)|
    ensures dest[..] == Splice(old(dest[..]), at, Tail(t))
  {
    if |t| == 0 {
      SpliceEmpty(dest[..], at);
      written := 0;
    } else {
      Store(dest, at, SplitTail(t));
      written := 4;
    }
  }
}
