/**
 * The scalar codec ported from chromium's base64: encoding and decoding
 * through the `E` and `D` lookup tables, 24 bytes to 32 characters per
 * block, then whole triplets (quartets), then the padded tail.
 *
 * Slices of packed 3-byte and 4-byte records are modelled by stride-3 and
 * stride-4 indexing: a source slice is a `seq<bv8>`, a destination slice is
 * an array with the offset where the slice starts.
 */
module Simple {
  import opened Base64Spec
  import opened Luts
  import opened Buffers
  import opened Seqs
  import opened Blocks

  /** The four characters written for one triplet `t1 t2 t3`. */
  function EncodeTriplet(t1: bv8, t2: bv8, t3: bv8): (q: seq<bv8>)
    ensures q == Quartet(t1, t2, t3)
  {
    [E0(t1),
     E1(((t1 & 0x03) << 4) | ((t2 >> 4) & 0x0F)),
     E1(((t2 & 0x0F) << 2) | ((t3 >> 6) & 0x03)),
     E2(t3)]
  }

  /** The final 1 or 2 bytes: two characters and `==`, or three characters and `=`. */
  function EncodeTail(t: seq<bv8>): (r: seq<bv8>)
    requires 1 <= |t| <= 2
    ensures r == Tail(t)
  {
    if |t| == 1 then
      [E0(t[0]), E1((t[0] & 0x03) << 4), PAD, PAD]
    else
      [E0(t[0]),
       E1(((t[0] & 0x03) << 4) | ((t[1] >> 4) & 0x0F)),
       E1((t[1] & 0x0F) << 2),
       PAD]
  }

  /** Encodes the triplets of `src` into `dest` from `at`; returns 4 per triplet. */
  method EncodeAnyInner(src: seq<bv8>, dest: array<bv8>, at: nat) returns (r: nat)
    requires |src| % 3 == 0 && 3 * at + 4 * |src| <= 3 * dest.Length
    modifies dest
    ensures r == |Enc(src)| && 3 * r == 4 * |src|
    ensures dest[..] == Splice(old(dest[..]), at, Enc(src))
  {
    var n := |src| / 3;
    var i, srcI, destI := 0, 0, 0;
    while i < n
      invariant i <= n && 3 * n == |src| && srcI == 3 * i && destI == 4 * i
      invariant |Enc(src[..srcI])| == destI
      invariant dest[..] == Splice(old(dest[..]), at, Enc(src[..srcI]))
    {
      var t1, t2, t3 := src[srcI], src[srcI + 1], src[srcI + 2];
      ghost var d := dest[..];
      Store(dest, at + destI, EncodeTriplet(t1, t2, t3));
      SpliceEncStep(old(dest[..]), d, dest[..], at, src, srcI, destI);
      i, srcI, destI := i + 1, srcI + 3, destI + 4;
    }
    assert src[..srcI] == src;
    r := destI;
  }

  /** The 8-triplet loop; it returns the constant 32. */
  method Encode32Inner(src: seq<bv8>, dest: array<bv8>, at: nat) returns (r: nat)
    requires |src| == 24 && at + 32 <= dest.Length
    modifies dest
    ensures r == |Enc(src)| == 32
    ensures dest[..] == Splice(old(dest[..]), at, Enc(src))
  {
    var _ := EncodeAnyInner(src, dest, at);
    EncLengthOfTriplets(src);
    r := 32;
  }

  /** Reads 8 triplets from the start of `src` without checking its length. */
  method Encode32(src: seq<bv8>, dest: array<bv8>, at: nat) returns (r: nat)
    requires 24 <= |src| && at + 32 <= dest.Length
    modifies dest
    ensures r == |Enc(src[..24])| == 32
    ensures dest[..] == Splice(old(dest[..]), at, Enc(src[..24]))
  {
    r := Encode32Inner(src[..24], dest, at);
  }

  /** Encodes the `|src| / 3` whole triplets of `src`. */
  method EncodeAny(src: seq<bv8>, dest: array<bv8>, at: nat) returns (r: nat)
    requires at + 4 * (|src| / 3) <= dest.Length
    modifies dest
    ensures r == |Enc(src[..|src| / 3 * 3])| == 4 * (|src| / 3)
    ensures dest[..] == Splice(old(dest[..]), at, Enc(src[..|src| / 3 * 3]))
  {
    var srcLen := |src| / 3;
    r := EncodeAnyInner(src[..3 * srcLen], dest, at);
  }

  /**
   * Encodes `src` into `dest`: 24-byte chunks, each to its own 32-byte
   * destination chunk, until the final chunk shorter than 24, which gets
   * its whole triplets and then its padded tail.
   */
  method Encode(src: seq<bv8>, dest: array<bv8>, at: nat) returns (r: nat)
    requires at + EncodeLen(|src|) <= dest.Length
    modifies dest
    ensures r == |Enc(src)| == EncodeLen(|src|)
    ensures dest[..] == Splice(old(dest[..]), at, Enc(src))
  {
    EncLength(src);
    var destI := 0;
    var numChunks := 0;
    while 24 * numChunks < |src|
      invariant BlocksWritten(old(dest[..]), dest[..], at, src, 24 * numChunks)
      invariant destI == 0
      decreases |src| - 24 * numChunks
    {
      var last, written := EncodeChunk(src, dest, at, numChunks, old(dest[..]));
      if last {
        destI := destI + written;
        break;
      }
      numChunks := numChunks + 1;
    }
    if |src| <= 24 * numChunks {
      assert src[..24 * numChunks] == src;
    }
    r := destI + numChunks * 32;
  }

  /**
   * One pass of the chunk loop: chunk `k` of `src` (24 bytes, or fewer for
   * the final one) encoded into destination chunk `k`. A full chunk goes
   * through `Encode32`; the final chunk completes the encoding and reports
   * the characters written for it.
   */
  method EncodeChunk(src: seq<bv8>, dest: array<bv8>, at: nat, k: nat, ghost d0: seq<bv8>) returns (last: bool, written: nat)
    requires at + EncodeLen(|src|) <= dest.Length && 24 * k < |src|
    requires BlocksWritten(d0, dest[..], at, src, 24 * k)
    modifies dest
    ensures last <==> |src| < 24 * k + 24
    ensures last ==> written + 32 * k == |Enc(src)| && at + |Enc(src)| <= |d0| && dest[..] == Splice(d0, at, Enc(src))
    ensures !last ==> BlocksWritten(d0, dest[..], at, src, 24 * k + 24)
  {
    var lo := 24 * k;
    var hi := if |src| < lo + 24 then |src| else lo + 24;
    var chunk := src[lo..hi];
    var base := at + 32 * k;
    ghost var before := dest[..];
    ChunkFits(src, k, hi, at, dest.Length);
    if |chunk| < 24 {
      assert chunk == src[lo..];
      written := EncodeFinalChunk(chunk, dest, base);
      LastChunkWritten(d0, before, dest[..], at, src, lo, 32 * k, chunk);
      return true, written;
    }
    var _ := Encode32(chunk, dest, base);
    assert chunk[..24] == chunk;
    BlockWritten(d0, before, dest[..], at, src, lo, 32 * k, chunk);
    last, written := false, 32;
  }

  /**
   * The first `n` bytes of `src` are encoded into the `4 * n / 3` bytes of
   * `d` from `at`.
   */
  ghost predicate BlocksWritten(d0: seq<bv8>, d: seq<bv8>, at: nat, src: seq<bv8>, n: nat)
  {
    && n <= |src| && n % 3 == 0 && |d| == |d0|
    && 3 * |Enc(src[..n])| == 4 * n && at + |Enc(src[..n])| <= |d0|
    && d == Splice(d0, at, Enc(src[..n]))
  }

  /** One more block of 24 bytes, written after the first `lo` bytes. */
  lemma {:induction false} BlockWritten(d0: seq<bv8>, d: seq<bv8>, d1: seq<bv8>, at: nat, src: seq<bv8>, lo: nat, m: nat, block: seq<bv8>)
    requires BlocksWritten(d0, d, at, src, lo) && lo + 24 <= |src| && 3 * m == 4 * lo && at + m + 32 <= |d0|
    requires block == src[lo..lo + 24] && |Enc(block)| == 32
    requires d1 == Splice(d, at + m, Enc(block))
    ensures BlocksWritten(d0, d1, at, src, lo + 24)
  {
    PieceWritten(d0, d, d1, at, src, lo, m, block);
  }

  /** A whole number of triplets `src[lo..lo + |piece|]`, written after the first `lo` bytes, extends the encoded prefix. */
  lemma {:induction false} PieceWritten(d0: seq<bv8>, d: seq<bv8>, d1: seq<bv8>, at: nat, src: seq<bv8>, lo: nat, m: nat, piece: seq<bv8>)
    requires BlocksWritten(d0, d, at, src, lo) && 3 * m == 4 * lo
    requires lo + |piece| <= |src| && piece == src[lo..lo + |piece|] && |piece| % 3 == 0
    requires at + m + |Enc(piece)| <= |d0| && d1 == Splice(d, at + m, Enc(piece))
    ensures BlocksWritten(d0, d1, at, src, lo + |piece|)
  {
    var hi := lo + |piece|;
    EncExtend(src, lo, hi);
    EncLengthOfTriplets(piece);
    SpliceSplice(d0, at, Enc(src[..lo]), Enc(piece));
  }

  /** The encoding of `src[..hi]` is that of `src[..lo]` followed by that of `src[lo..hi]`, both whole triplets. */
  lemma {:induction false} EncExtend(src: seq<bv8>, lo: nat, hi: nat)
    requires lo % 3 == 0 && (hi - lo) % 3 == 0 && lo <= hi <= |src|
    ensures hi % 3 == 0
    ensures Enc(src[..hi]) == Enc(src[..lo]) + Enc(src[lo..hi])
  {
    PrefixSlice(src, lo, hi);
    EncAppend(src[..lo], src[lo..hi]);
  }

  /** The final chunk, written after the first `lo` bytes, completes the encoding. */
  lemma {:induction false} LastChunkWritten(d0: seq<bv8>, d: seq<bv8>, d1: seq<bv8>, at: nat, src: seq<bv8>, lo: nat, m: nat, chunk: seq<bv8>)
    requires BlocksWritten(d0, d, at, src, lo) && chunk == src[lo..] && 3 * m == 4 * lo
    requires at + m + |Enc(chunk)| <= |d| && d1 == Splice(d, at + m, Enc(chunk))
    ensures |Enc(src)| == m + |Enc(chunk)|
    ensures d1 == Splice(d0, at, Enc(src))
  {
    assert src[lo..|src|] == chunk;
    SpliceEncLast(d0, at, src, lo, |src|);
  }

  /**
   * The final chunk, shorter than 24 bytes: its whole triplets, then
   * `src_i` recomputed from the characters written, then the padded tail.
   */
  method EncodeFinalChunk(chunk: seq<bv8>, dest: array<bv8>, base: nat) returns (destI: nat)
    requires 0 < |chunk| < 24 && base + EncodeLen(|chunk|) <= dest.Length
    modifies dest
    ensures destI == |Enc(chunk)| == EncodeLen(|chunk|)
    ensures dest[..] == Splice(old(dest[..]), base, Enc(chunk))
  {
    var srcI;
    srcI, destI := EncodeFinalTriplets(chunk, dest, base);
    ghost var mid := dest[..];
    var written := EncodeFinalTail(chunk[srcI..], dest, base + destI);
    SpliceEncTail(old(dest[..]), mid, dest[..], base, chunk, srcI, destI);
    destI := destI + written;
    EncLength(chunk);
  }

  /** The whole triplets of the final chunk, and `src_i` recomputed from the characters written. */
  method EncodeFinalTriplets(chunk: seq<bv8>, dest: array<bv8>, base: nat) returns (srcI: nat, destI: nat)
    requires 0 < |chunk| < 24 && base + EncodeLen(|chunk|) <= dest.Length
    modifies dest
    ensures srcI == |chunk| / 3 * 3 && srcI % 3 == 0 && srcI <= |chunk| <= srcI + 2
    ensures destI == |Enc(chunk[..srcI])|
    ensures base + destI + |Tail(chunk[srcI..])| <= dest.Length
    ensures dest[..] == Splice(old(dest[..]), base, Enc(chunk[..srcI]))
  {
    TripletsOf(|chunk|);
    destI := 0;
    srcI := 0;
    if |chunk| > 2 {
      var written := EncodeAny(chunk, dest, base);
      destI := destI + written;
      srcI := (destI / 4) * 3;
    } else {
      SpliceEmpty(dest[..], base);
      assert chunk[..0] == [];
    }
  }

  /** The padded tail after the whole triplets: nothing, or one quartet ending in `=` or `==`. */
  method EncodeFinalTail(t: seq<bv8>, dest: array<bv8>, at: nat) returns (written: nat)
    requires |t| <= 2 && at + |Tail(t)| <= dest.Length
    modifies dest
    ensures written == |Tail(t)|
    ensures dest[..] == Splice(old(dest[..]), at, Tail(t))
  {
    if |t| == 0 {
      SpliceEmpty(dest[..], at);
      written := 0;
    } else {
      Store(dest, at, EncodeTail(t));
      written := 4;
    }
  }

  /** The arithmetic of the final chunk: whole triplets, the index recomputed from the characters, the tail. */
  lemma {:induction false} TripletsOf(n: nat)
    ensures var q := n / 3;
      && (4 * q) / 4 * 3 == 3 * q && 3 * q <= n <= 3 * q + 2
      && EncodeLen(n) == 4 * q + (if n == 3 * q then 0 else 4)
  {
  }

  /** The destination chunk of a source chunk fits in `EncodeLen(|src|)`. */
  lemma {:induction false} ChunkFits(src: seq<bv8>, k: nat, hi: nat, at: nat, len: nat)
    requires 24 * k < hi <= |src| && hi <= 24 * k + 24 && at + EncodeLen(|src|) <= len
    ensures at + 32 * k + EncodeLen(hi - 24 * k) <= len
  {
  }

  // ---------------------------------------------------------------------
  // Decoding

  /**
   * Decodes the `|src| / 4` quartets of `src` into `dest` from `at`, three
   * bytes each, through the OR of the four table lookups; stops at the first
   * quartet whose OR reaches `BADCHAR` and reports its characters.
   */
  method DecodeAnyInner(src: seq<bv8>, dest: array<bv8>, at: nat) returns (r: Result<nat>)
    requires |src| % 4 == 0 && 4 * at + 3 * |src| <= 4 * dest.Length
    modifies dest
    ensures DecodedQuartets(old(dest[..]), dest[..], at, src, r)
  {
    var n := |src| / 4;
    var i, srcI, destI := 0, 0, 0;
    assert src[..0] == [];
    while i < n
      invariant i <= n && 4 * n == |src| && srcI == 4 * i && 4 * destI == 3 * srcI
      invariant QuartetsWritten(old(dest[..]), dest[..], at, src, srcI)
    {
      var c0, c1, c2, c3 := src[srcI], src[srcI + 1], src[srcI + 2], src[srcI + 3];
      var x := D0(c0) | D1(c1) | D2(c2) | D3(c3);
      DecodeLookups(c0, c1, c2, c3);
      if x >= BADCHAR {
        QuartetRejected(old(dest[..]), dest[..], at, src, srcI, c0, c1, c2, c3);
        return Err(InvalidInput(src[srcI..srcI + 4]));
      }
      ghost var before := dest[..];
      var w := [Byte0(x), Byte1(x), Byte2(x)];
      Store(dest, at + destI, w);
      QuartetWritten(old(dest[..]), before, dest[..], at, src, srcI, destI, c0, c1, c2, c3, w);
      i, srcI, destI := i + 1, srcI + 4, destI + 3;
    }
    AllQuartetsWritten(old(dest[..]), dest[..], at, src, destI);
    r := Ok(destI);
  }

  /** The quartet at offset `n` has a character outside the alphabet: decoding stops there. */
  lemma {:induction false} QuartetRejected(d0: seq<bv8>, d: seq<bv8>, at: nat, t: seq<bv8>, n: nat, c0: bv8, c1: bv8, c2: bv8, c3: bv8)
    requires |t| % 4 == 0 && 4 * at + 3 * |t| <= 4 * |d0| && n + 4 <= |t|
    requires t[n] == c0 && t[n + 1] == c1 && t[n + 2] == c2 && t[n + 3] == c3
    requires !(IsAlphabet(c0) && IsAlphabet(c1) && IsAlphabet(c2) && IsAlphabet(c3))
    ensures QuartetsWritten(d0, d, at, t, n) ==> DecodedQuartets(d0, d, at, t, Err(InvalidInput(t[n..n + 4])))
  {
    if QuartetsWritten(d0, d, at, t, n) {
      assert t[n..n + 4] == [c0, c1, c2, c3];
      StopsAtQuartet(t, n);
    }
  }

  /** Every quartet of `t` written: the decoding is complete, three bytes per quartet. */
  lemma {:induction false} AllQuartetsWritten(d0: seq<bv8>, d: seq<bv8>, at: nat, t: seq<bv8>, m: nat)
    requires 4 * m == 3 * |t|
    ensures QuartetsWritten(d0, d, at, t, |t|) ==> DecodedQuartets(d0, d, at, t, Ok(m))
  {
    if QuartetsWritten(d0, d, at, t, |t|) {
      assert t[..|t|] == t;
      ValidPrefixOfDecFull(t);
    }
  }

  /** The 8-quartet loop; on success it returns the constant 24. */
  method Decode32Inner(src: seq<bv8>, dest: array<bv8>, at: nat) returns (r: Result<nat>)
    requires |src| == 32 && at + 24 <= dest.Length
    modifies dest
    ensures DecodedQuartets(old(dest[..]), dest[..], at, src, r)
    ensures r.Ok? ==> r.value == 24
  {
    r := DecodeAnyInner(src, dest, at);
    if r.Ok? {
      r := Ok(24);
    }
  }

  /** Reads 8 quartets from the start of `src` without checking its length. */
  method Decode32(src: seq<bv8>, dest: array<bv8>, at: nat) returns (r: Result<nat>)
    requires 32 <= |src| && at + 24 <= dest.Length
    modifies dest
    ensures DecodedQuartets(old(dest[..]), dest[..], at, src[..32], r)
    ensures r.Ok? ==> r.value == 24
  {
    r := Decode32Inner(src[..32], dest, at);
  }

  /** Decodes the `|src| / 4` whole quartets of `src`. */
  method DecodeAny(src: seq<bv8>, dest: array<bv8>, at: nat) returns (r: Result<nat>)
    requires 4 * at + 3 * |src| <= 4 * dest.Length
    modifies dest
    ensures DecodedQuartets(old(dest[..]), dest[..], at, Quartets(src), r)
  {
    var srcLen := |src| / 4;
    QuartetsLength(src);
    assert src[..4 * srcLen] == Quartets(src);
    r := DecodeAnyInner(src[..4 * srcLen], dest, at);
  }

  /**
   * What `Decode` promises: an input whose length is not 0 and not a
   * positive multiple of 4 is rejected with nothing written; otherwise `r`
   * succeeds exactly when `src` is valid Base64, with its decoding written
   * from `at`; any other input of whole quartets is rejected with
   * `InvalidInput`, naming the first invalid quartet or the invalid tail and
   * leaving the valid prefix of the whole quartets written.
   */
  ghost predicate Decoded(d0: seq<bv8>, d1: seq<bv8>, at: nat, src: seq<bv8>, r: Result<nat>)
  {
    && (0 < |src| && (|src| < 4 || |src| % 4 != 0) ==> r == Err(InputModError(|src|)) && d1 == d0)
    && (r.Ok? <==> Dec(src).Some?)
    && (r.Ok? ==> r.value == |Dec(src).value| && at + r.value <= |d0| && d1 == Splice(d0, at, Dec(src).value))
    && (0 < |src| && |src| % 4 == 0 && r.Err? ==> r.error.InvalidInput?)
    && (r.Err? && r.error.InvalidInput? ==> (
      && |src| % 4 == 0
      && at + |ValidPrefix(Body(src))| <= |d0|
      && d1 == Splice(d0, at, ValidPrefix(Body(src)))
      && (|| FirstInvalid(Body(src), r.error)
          || (DecFull(Body(src)).Some? && DecTail(Leftover(src)).None? && r.error == InvalidInput(Leftover(src))))))
  }

  /**
   * Decodes `src` into `dest`. The empty input decodes to nothing; any other
   * length below 4 or not a multiple of 4 is rejected before anything is
   * written. After a trailing `==` or `=` is stripped, blocks of 32
   * characters go to 24 bytes while at least 36 characters remain, the rest
   * of the whole quartets go three bytes each, and the 2 or 3 characters
   * left decode to 1 or 2 bytes.
   */
  method Decode(src: seq<bv8>, dest: array<bv8>, at: nat) returns (r: Result<nat>)
    requires 4 * at + 3 * |src| <= 4 * dest.Length
    modifies dest
    ensures Decoded(old(dest[..]), dest[..], at, src, r)
  {
    if |src| == 0 {
      EmptyDecoded(dest[..], at, src);
      return Ok(0);
    }
    if |src| < 4 || |src| % 4 != 0 {
      LengthRejected(dest[..], at, src);
      return Err(InputModError(|src|));
    }
    r := DecodeWhole(src, dest, at);
  }

  /** `Decode` on an input whose length is a positive multiple of 4. */
  method DecodeWhole(src: seq<bv8>, dest: array<bv8>, at: nat) returns (r: Result<nat>)
    requires |src| >= 4 && |src| % 4 == 0 && 4 * at + 3 * |src| <= 4 * dest.Length
    modifies dest
    ensures Decoded(old(dest[..]), dest[..], at, src, r)
  {
    var s := StripPadding(src);
    StrippedParts(src, s);
    var body, srcI := DecodeBody(s, dest, at);
    if body.Err? {
      BodyRejected(src, old(dest[..]), dest[..], at, body);
      return Err(body.error);
    }
    r := DecodeLeftover(src, s, srcI, body.value, dest, at, old(dest[..]));
  }

  /** The 0, 2 or 3 characters after the whole quartets, decoded after the `destI` bytes they gave. */
  method DecodeLeftover(src: seq<bv8>, s: seq<bv8>, srcI: nat, destI: nat, dest: array<bv8>, at: nat, ghost d0: seq<bv8>)
    returns (r: Result<nat>)
    requires |src| >= 4 && |src| % 4 == 0 && 4 * at + 3 * |src| <= 4 * dest.Length && |d0| == dest.Length
    requires s == StripPadding(src) && srcI == |Body(src)|
    requires DecodedQuartets(d0, dest[..], at, Body(src), Ok(destI))
    modifies dest
    ensures Decoded(d0, dest[..], at, src, r)
  {
    TailFits(src, s, srcI, at, destI, dest.Length);
    var t := s[srcI..];
    ghost var before := dest[..];
    var tail := DecodeTail(t, dest, at + destI);
    r := if tail.Ok? then Ok(destI + tail.value) else Err(tail.error);
    TailDecoded(src, t, d0, before, dest[..], at, destI, tail, r);
  }

  lemma {:induction false} EmptyDecoded(d: seq<bv8>, at: nat, src: seq<bv8>)
    requires |src| == 0 && at <= |d|
    ensures Decoded(d, d, at, src, Ok(0))
  {
    SpliceEmpty(d, at);
  }

  lemma {:induction false} LengthRejected(d: seq<bv8>, at: nat, src: seq<bv8>)
    requires 0 < |src| && (|src| < 4 || |src| % 4 != 0)
    ensures Decoded(d, d, at, src, Err(InputModError(|src|)))
  {
  }

  /**
   * The whole quartets of the stripped input `s`: blocks of 32 characters
   * while at least 36 characters remain, then the remaining whole quartets.
   * On success `srcI` is where the 0, 2 or 3 leftover characters start.
   */
  method DecodeBody(s: seq<bv8>, dest: array<bv8>, at: nat) returns (r: Result<nat>, srcI: nat)
    requires 4 * at + 3 * |s| <= 4 * dest.Length
    modifies dest
    ensures DecodedQuartets(old(dest[..]), dest[..], at, Quartets(s), r)
    ensures r.Ok? ==> srcI == |Quartets(s)|
  {
    var blocks;
    blocks, srcI := DecodeBlocks(s, dest, at);
    if blocks.Err? {
      return blocks, srcI;
    }
    r, srcI := DecodeRest(s, dest, at, srcI, blocks.value, old(dest[..]));
  }

  /**
   * The whole quartets left after the blocks, from `srcI`, decoded by
   * `DecodeAny` after the `destI` bytes the blocks wrote.
   */
  method DecodeRest(s: seq<bv8>, dest: array<bv8>, at: nat, srcI0: nat, destI: nat, ghost d0: seq<bv8>)
    returns (r: Result<nat>, srcI: nat)
    requires 4 * at + 3 * |s| <= 4 * dest.Length && |d0| == dest.Length
    requires srcI0 % 4 == 0 && 4 * destI == 3 * srcI0 && srcI0 <= |Quartets(s)| && |s| < srcI0 + 36
    requires QuartetsWritten(d0, dest[..], at, Quartets(s), srcI0)
    modifies dest
    ensures DecodedQuartets(d0, dest[..], at, Quartets(s), r)
    ensures r.Ok? ==> srcI == |Quartets(s)|
  {
    var len := |s|;
    var leftover := len % 4;
    var lenNopad := if leftover == 0 then len else len / 4 * 4;
    NopadIsQuartets(s, lenNopad);
    srcI := srcI0;
    if lenNopad > srcI {
      var rest := s[srcI..lenNopad];
      ghost var before := dest[..];
      var res := DecodeAny(rest, dest, at + destI);
      RestDecoded(s, rest, srcI, lenNopad, d0, before, dest[..], at, destI, res);
      if res.Err? {
        return Err(res.error), srcI;
      }
      r, srcI := Ok(destI + res.value), lenNopad;
    } else {
      BlocksCoverBody(s, d0, dest[..], at, srcI, destI);
      r := Ok(destI);
    }
  }

  /**
   * The loop over blocks of 32 characters, run while at least 36 characters
   * of the stripped input remain. On success the blocks before `srcI` are
   * decoded in place; on failure the first invalid quartet is reported.
   */
  method DecodeBlocks(s: seq<bv8>, dest: array<bv8>, at: nat) returns (r: Result<nat>, srcI: nat)
    requires 4 * at + 3 * |s| <= 4 * dest.Length
    modifies dest
    ensures r.Ok? ==> (srcI % 4 == 0 && 4 * r.value == 3 * srcI && srcI <= |Quartets(s)| && |s| < srcI + 36
      && QuartetsWritten(old(dest[..]), dest[..], at, Quartets(s), srcI))
    ensures r.Err? ==> DecodedQuartets(old(dest[..]), dest[..], at, Quartets(s), r)
  {
    var len := |s|;
    ghost var body := Quartets(s);
    srcI := 0;
    var destI := 0;
    assert body[..0] == [];
    while srcI + 36 <= len
      invariant srcI % 4 == 0 && 4 * destI == 3 * srcI && srcI <= |body|
      invariant QuartetsWritten(old(dest[..]), dest[..], at, body, srcI)
      decreases len - srcI
    {
      ghost var before := dest[..];
      var res := Decode32(s[srcI..srcI + 32], dest, at + destI);
      if res.Err? {
        BlockRejected(s, body, old(dest[..]), before, dest[..], at, srcI, destI, res);
        return Err(res.error), srcI;
      }
      BlockDecoded(s, body, old(dest[..]), before, dest[..], at, srcI, destI, res);
      srcI := srcI + 32;
      destI := destI + 24;
    }
    r := Ok(destI);
  }

  /**
   * One block of 32 valid characters at offset `lo` decoded by `Decode32`
   * after the `m` bytes before it extends the decoded quartets by eight;
   * `body` stands for the whole quartets of `s`.
   */
  lemma {:induction false} BlockDecoded(s: seq<bv8>, body: seq<bv8>, d0: seq<bv8>, d: seq<bv8>, d1: seq<bv8>, at: nat, lo: nat, m: nat, res: Result<nat>)
    requires |body| % 4 == 0 && |body| <= |s| < |body| + 4 && body == s[..|body|]
    requires 4 * at + 3 * |s| <= 4 * |d0| && lo + 36 <= |s| && 4 * m == 3 * lo
    requires QuartetsWritten(d0, d, at, body, lo)
    requires res.Ok? && DecodedQuartets(d, d1, at + m, s[lo..lo + 32][..32], res)
    ensures QuartetsWritten(d0, d1, at, body, lo + 32)
  {
    SliceOfPrefix(s, body, lo, lo + 32);
    PieceDecoded(d0, d, d1, at, body, lo, lo + 32, m);
  }

  /** A block of 32 characters that `Decode32` rejects makes the whole quartets invalid. */
  lemma {:induction false} BlockRejected(s: seq<bv8>, body: seq<bv8>, d0: seq<bv8>, d: seq<bv8>, d1: seq<bv8>, at: nat, lo: nat, m: nat, res: Result<nat>)
    requires |body| % 4 == 0 && |body| <= |s| < |body| + 4 && body == s[..|body|]
    requires 4 * at + 3 * |s| <= 4 * |d0| && lo + 36 <= |s| && 4 * m == 3 * lo
    requires QuartetsWritten(d0, d, at, body, lo)
    requires res.Err? && DecodedQuartets(d, d1, at + m, s[lo..lo + 32][..32], res)
    ensures DecodedQuartets(d0, d1, at, body, Err(res.error))
  {
    SliceOfPrefix(s, body, lo, lo + 32);
    PieceRejected(d0, d, d1, at, body, lo, lo + 32, m, res.error);
  }

  /** The source's `len_nopad` is the length of the whole quartets. */
  lemma {:induction false} NopadIsQuartets(s: seq<bv8>, lenNopad: nat)
    requires lenNopad == if |s| % 4 == 0 then |s| else |s| / 4 * 4
    ensures lenNopad == |Quartets(s)|
  {
    QuartetsLength(s);
  }

  /** What the blocks leave of the whole quartets is itself whole quartets. */
  lemma {:induction false} RestOfQuartets(s: seq<bv8>, srcI: nat, lenNopad: nat)
    requires srcI % 4 == 0 && srcI < lenNopad == |Quartets(s)|
    ensures s[srcI..lenNopad] == Quartets(s)[srcI..lenNopad]
    ensures Quartets(s[srcI..lenNopad]) == s[srcI..lenNopad]
  {
    QuartetsAfter(lenNopad, srcI);
    WholeQuartets(s[srcI..lenNopad]);
  }

  /**
   * The remaining whole quartets after the blocks, decoded (or rejected) by
   * `DecodeAny`, complete the decoding (or rejection) of all whole quartets
   * of the stripped text.
   */
  lemma {:induction false} RestDecoded(s: seq<bv8>, rest: seq<bv8>, srcI: nat, lenNopad: nat, d0: seq<bv8>, d: seq<bv8>, d1: seq<bv8>, at: nat, destI: nat, res: Result<nat>)
    requires lenNopad == |Quartets(s)| && srcI < lenNopad && srcI % 4 == 0 && 4 * destI == 3 * srcI && rest == s[srcI..lenNopad]
    requires 4 * at + 3 * |s| <= 4 * |d0|
    ensures QuartetsWritten(d0, d, at, Quartets(s), srcI) && DecodedQuartets(d, d1, at + destI, Quartets(rest), res) ==>
      DecodedQuartets(d0, d1, at, Quartets(s), if res.Ok? then Ok(destI + res.value) else Err(res.error))
  {
    var body := Quartets(s);
    if QuartetsWritten(d0, d, at, body, srcI) && DecodedQuartets(d, d1, at + destI, Quartets(rest), res) {
      RestOfQuartets(s, srcI, lenNopad);
      if res.Err? {
        PieceRejected(d0, d, d1, at, body, srcI, lenNopad, destI, res.error);
      } else {
        PieceDecoded(d0, d, d1, at, body, srcI, lenNopad, destI);
        assert body[..lenNopad] == body;
        ValidPrefixOfDecFull(body);
      }
    }
  }

  /** When the blocks reach the end of the whole quartets, nothing is left for `DecodeAny`. */
  lemma {:induction false} BlocksCoverBody(s: seq<bv8>, d0: seq<bv8>, d: seq<bv8>, at: nat, srcI: nat, destI: nat)
    requires srcI == |Quartets(s)| && 4 * destI == 3 * srcI
    requires QuartetsWritten(d0, d, at, Quartets(s), srcI)
    ensures DecodedQuartets(d0, d, at, Quartets(s), Ok(destI))
  {
    var body := Quartets(s);
    assert body[..srcI] == body;
    ValidPrefixOfDecFull(body);
  }

  /** The stripped text splits into the whole quartets and the 0, 2 or 3 characters left. */
  lemma {:induction false} StrippedParts(src: seq<bv8>, s: seq<bv8>)
    requires |src| >= 4 && |src| % 4 == 0 && s == StripPadding(src)
    ensures Quartets(s) == Body(src) && s[|Quartets(s)|..] == Leftover(src)
    ensures |Leftover(src)| == 0 || |Leftover(src)| == 2 || |Leftover(src)| == 3
    ensures DecFull(Body(src)).None? ==> Dec(src).None?
  {
  }

  /** An invalid quartet among the whole quartets makes `src` invalid. */
  lemma {:induction false} BodyRejected(src: seq<bv8>, d0: seq<bv8>, d: seq<bv8>, at: nat, body: Result<nat>)
    requires |src| >= 4 && |src| % 4 == 0 && 4 * at + 3 * |src| <= 4 * |d0| && body.Err?
    ensures DecodedQuartets(d0, d, at, Body(src), body) ==> Decoded(d0, d, at, src, Err(body.error))
  {
    StrippedParts(src, StripPadding(src));
  }

  /**
   * The whole quartets are decoded into `d`; the tail then either completes
   * the decoding of `src` or makes it invalid.
   */
  lemma {:induction false} TailDecoded(src: seq<bv8>, t: seq<bv8>, d0: seq<bv8>, d: seq<bv8>, d1: seq<bv8>, at: nat, destI: nat, tail: Result<nat>, r: Result<nat>)
    requires |src| >= 4 && |src| % 4 == 0 && 4 * at + 3 * |src| <= 4 * |d0| && t == Leftover(src)
    requires r == (if tail.Ok? then Ok(destI + tail.value) else Err(tail.error))
    requires DecodedQuartets(d0, d, at, Body(src), Ok(destI)) && DecodedTail(d, d1, at + destI, t, tail)
    ensures Decoded(d0, d1, at, src, r)
  {
    StrippedParts(src, StripPadding(src));
    var q := Body(src);
    ValidPrefixOfDecFull(q);
    if tail.Ok? {
      SpliceSplice(d0, at, DecFull(q).value, DecTail(Leftover(src)).value);
    }
  }

  /** The leftover characters are 0, 2 or 3, and what they decode to fits in the destination. */
  lemma {:induction false} TailFits(src: seq<bv8>, s: seq<bv8>, srcI: nat, at: nat, destI: nat, len: nat)
    requires |src| >= 4 && |src| % 4 == 0 && 4 * at + 3 * |src| <= 4 * len
    requires s == StripPadding(src) && srcI == |Body(src)| && 4 * destI == 3 * srcI
    ensures srcI <= |s| && s[srcI..] == Leftover(src) && (|Leftover(src)| == 0 || |Leftover(src)| == 2 || |Leftover(src)| == 3)
    ensures at + destI <= len && at + destI + |Leftover(src)| <= len + 1
  {
    StrippedParts(src, s);
  }

  /**
   * What the tail decoder leaves behind: the bytes of a valid tail written
   * from `at` and their count, or the error carrying the tail with nothing written.
   */
  ghost predicate DecodedTail(d0: seq<bv8>, d1: seq<bv8>, at: nat, t: seq<bv8>, r: Result<nat>)
  {
    && (|t| == 0 || |t| == 2 || |t| == 3)
    && (r.Ok? <==> DecTail(t).Some?)
    && (r.Ok? ==> r.value == |DecTail(t).value| && at + r.value <= |d0| && d1 == Splice(d0, at, DecTail(t).value))
    && (r.Err? ==> r.error == InvalidInput(t) && d1 == d0)
  }

  /** The 0, 2 or 3 characters left after the whole quartets: nothing, one byte or two bytes. */
  method DecodeTail(t: seq<bv8>, dest: array<bv8>, at: nat) returns (r: Result<nat>)
    requires |t| == 0 || |t| == 2 || |t| == 3
    requires at <= dest.Length && at + |t| <= dest.Length + 1
    modifies dest
    ensures DecodedTail(old(dest[..]), dest[..], at, t, r)
  {
    match |t| {
      case 0 =>
        SpliceEmpty(dest[..], at);
        r := Ok(0);
      case 2 =>
        var x := D0(t[0]) | D1(t[1]);
        DecodeLookups2(t);
        if x >= BADCHAR {
          return Err(InvalidInput(t));
        }
        Store(dest, at, [Byte0(x)]);
        r := Ok(1);
      case 3 =>
        var x := D0(t[0]) | D1(t[1]) | D2(t[2]);
        DecodeLookups3(t);
        if x >= BADCHAR {
          return Err(InvalidInput(t));
        }
        Store(dest, at, [Byte0(x), Byte1(x)]);
        r := Ok(2);
      case _ =>
        assert false;
    }
  }

  /*
   * Two places where the decoder as written departs from what it evidently
   * intends. `Decode` above follows the intended behaviour; the members
   * below model the code as written (`DecodeAsWritten` as a whole) and
   * exhibit the inputs that show it.
   */

  /**
   * The block loop's guard as written: `len - 4 - srcI` is an unsigned
   * difference, so it has no value (a panic on overflow, or a wrapped value
   * that sends the loop past the end of `src`) when `len < 4 + srcI`;
   * otherwise it says whether one more 32-character block is decoded.
   */
  function BlockGuardAsWritten(len: nat, srcI: nat): (r: Option<bool>)
    ensures r.None? <==> len < 4 + srcI
    ensures r.Some? ==> (r.value <==> srcI + 36 <= len)
  {
    if len < 4 + srcI then None else Some(!(len - 4 - srcI < 32))
  }

  /**
   * The guard underflows on the shortest padded inputs: `AA==` is valid
   * Base64 for the byte `00`, yet once the padding is stripped only two
   * characters remain.
   */
  lemma {:induction false} PaddedPairUnderflows()
    ensures var src := [0x41 as bv8, 0x41, PAD, PAD];
      Dec(src) == Some([0]) && BlockGuardAsWritten(|StripPadding(src)|, 0).None?
  {
    assert Value(0x41) == 0;
    var src := [0x41 as bv8, 0x41, PAD, PAD];
    var s := StripPadding(src);
    assert s == [0x41, 0x41];
    assert |s| / 4 * 4 == 0;
    assert Body(src) == s[..0] == [];
    assert Leftover(src) == s[0..] == s;
    assert AllAlphabet(Leftover(src));
    assert DecTail(Leftover(src)) == Some([0]);
    assert Dec(src) == Some([] + [0]);
    assert [] + [0 as bv8] == [0];
  }

  /** Likewise `AAA=`, valid Base64 for the bytes `00 00`, leaves three characters. */
  lemma {:induction false} PaddedTripleUnderflows()
    ensures var src := [0x41 as bv8, 0x41, 0x41, PAD];
      Dec(src) == Some([0, 0]) && BlockGuardAsWritten(|StripPadding(src)|, 0).None?
  {
    assert Value(0x41) == 0;
    var src := [0x41 as bv8, 0x41, 0x41, PAD];
    var s := StripPadding(src);
    assert s == [0x41, 0x41, 0x41];
    assert |s| / 4 * 4 == 0;
    assert Body(src) == s[..0] == [];
    assert Leftover(src) == s[0..] == s;
    assert AllAlphabet(Leftover(src));
    assert DecTail(Leftover(src)) == Some([0, 0]);
    assert Dec(src) == Some([] + [0, 0]);
    assert [] + [0 as bv8, 0] == [0, 0];
  }

  /**
   * The 2- or 3-character tail as written: the lookups are ORed and the low
   * bytes stored without comparing the word against `BADCHAR`.
   */
  function DecodeTailAsWritten(t: seq<bv8>): (r: seq<bv8>)
    requires |t| == 0 || |t| == 2 || |t| == 3
    ensures |r| == if |t| == 0 then 0 else |t| - 1
    ensures DecTail(t).Some? ==> r == DecTail(t).value
  {
    if |t| == 0 then []
    else if |t| == 2 then
      var x := D0(t[0]) | D1(t[1]);
      DecodeLookups2(t);
      [Byte0(x)]
    else
      var x := D0(t[0]) | D1(t[1]) | D2(t[2]);
      DecodeLookups3(t);
      [Byte0(x), Byte1(x)]
  }

  /**
   * A character outside the alphabet in the tail goes unnoticed: `A*`
   * decodes to `0xFF` as written, so `AAAAA*==` is accepted with the
   * bytes `00 00 00 FF` although it is not valid Base64.
   */
  lemma {:induction false} UncheckedTail()
    ensures DecTail([0x41, 0x2A]).None? && DecodeTailAsWritten([0x41, 0x2A]) == [0xFF]
    ensures var src := [0x41 as bv8, 0x41, 0x41, 0x41, 0x41, 0x2A, PAD, PAD];
      && Body(src) == [0x41, 0x41, 0x41, 0x41] && DecFull(Body(src)) == Some([0, 0, 0])
      && Leftover(src) == [0x41, 0x2A] && Dec(src).None?
  {
    var t := [0x41 as bv8, 0x2A];
    assert !IsAlphabet(t[1]);
    var src := [0x41 as bv8, 0x41, 0x41, 0x41, 0x41, 0x2A, PAD, PAD];
    assert StripPadding(src) == [0x41, 0x41, 0x41, 0x41, 0x41, 0x2A];
    var b := Body(src);
    assert b == [0x41, 0x41, 0x41, 0x41];
    assert DecFull(b[4..]) == Some([]);
    assert Value(0x41) == 0;
    assert DecodeQuartet(0x41, 0x41, 0x41, 0x41) == [0, 0, 0];
    assert DecFull(b) == Some([0, 0, 0] + []);
    assert [0 as bv8, 0, 0] + [] == [0, 0, 0];
  }

  /** Once a block is taken, the guard has a value at the next offset: it can only underflow before the first block. */
  lemma {:induction false} GuardUnderflowsFirst(len: nat, srcI: nat)
    requires BlockGuardAsWritten(len, srcI) == Some(true)
    ensures BlockGuardAsWritten(len, srcI + 32).Some?
  {
  }

  /**
   * `decode` as written, on values: `None` where it panics, `Some(Err(e))`
   * where it returns the error `e`, and `Some(Ok(b))` where it returns `Ok`
   * having written the bytes `b`. The length checks, the stripping and the
   * checked whole quartets are those of `Decode`; the block guard is the
   * unsigned one, which only the first pass can underflow, and the tail is
   * stored unchecked.
   */
  ghost function DecodeAsWritten(src: seq<bv8>): (r: Option<Result<seq<bv8>>>)
    ensures r.Some? && r.value.Err? ==> r.value.error == InputModError(|src|) || FirstInvalid(Body(src), r.value.error)
  {
    if |src| == 0 then Some(Ok([]))
    else if |src| < 4 || |src| % 4 != 0 then Some(Err(InputModError(|src|)))
    else if BlockGuardAsWritten(|StripPadding(src)|, 0).None? then None
    else
      var b := Body(src);
      if DecFull(b).None? then
        FirstInvalidExists(b);
        var m := |ValidPrefix(b)| / 3 * 4;
        Some(Err(InvalidInput(b[m..m + 4])))
      else
        Some(Ok(DecFull(b).value + DecodeTailAsWritten(Leftover(src))))
  }

  /**
   * The decoder as written against Base64 decoding: it panics exactly on the
   * four-character padded inputs; where it returns, it accepts every valid
   * text with its bytes and rejects only invalid ones, and the invalid texts
   * it accepts are those whose tail has a character outside the alphabet.
   */
  lemma {:induction false} AsWrittenAgainstDec(src: seq<bv8>)
    ensures DecodeAsWritten(src).None? <==> |src| == 4 && src[3] == PAD
    ensures DecodeAsWritten(src).Some? && Dec(src).Some? ==> DecodeAsWritten(src).value == Ok(Dec(src).value)
    ensures DecodeAsWritten(src).Some? && DecodeAsWritten(src).value.Err? ==> Dec(src).None?
    ensures DecodeAsWritten(src).Some? && DecodeAsWritten(src).value.Ok? && Dec(src).None? ==>
      |src| % 4 == 0 && DecFull(Body(src)).Some? && DecTail(Leftover(src)).None?
  {
    if |src| >= 4 && |src| % 4 == 0 {
      var s := StripPadding(src);
      if |src| == 4 {
        assert |s| < 4 <==> src[3] == PAD;
      } else {
        assert |src| >= 8;
      }
      StrippedParts(src, s);
    }
  }

  /** The two departures on concrete inputs: `AA==` makes it panic, `AAAAA*==` is accepted as `00 00 00 FF`. */
  lemma {:induction false} AsWrittenExamples()
    ensures DecodeAsWritten([0x41, 0x41, PAD, PAD]).None? && Dec([0x41, 0x41, PAD, PAD]) == Some([0])
    ensures DecodeAsWritten([0x41, 0x41, 0x41, 0x41, 0x41, 0x2A, PAD, PAD]) == Some(Ok([0, 0, 0, 0xFF]))
    ensures Dec([0x41, 0x41, 0x41, 0x41, 0x41, 0x2A, PAD, PAD]).None?
  {
    PaddedPairUnderflows();
    UncheckedTail();
    var src := [0x41 as bv8, 0x41, 0x41, 0x41, 0x41, 0x2A, PAD, PAD];
    assert |StripPadding(src)| == 6;
    assert [0 as bv8, 0, 0] + [0xFF] == [0, 0, 0, 0xFF];
  }
}
