/**
 * How the encoders and decoders build their output piece by piece: writing
 * the encoding of `a` and then the encoding of `b` right after it writes the
 * encoding of `a + b` when `a` is whole triplets, and likewise for decoding
 * whole quartets.
 */
module Blocks {
  import opened Base64Spec
  import opened Buffers
  import opened Seqs

  lemma {:induction false} SpliceEncAppend(d: seq<bv8>, at: nat, a: seq<bv8>, b: seq<bv8>)
    requires |a| % 3 == 0 && at + |Enc(a)| + |Enc(b)| <= |d|
    ensures |Enc(a + b)| == |Enc(a)| + |Enc(b)|
    ensures Splice(Splice(d, at, Enc(a)), at + |Enc(a)|, Enc(b)) == Splice(d, at, Enc(a + b))
  {
    EncAppend(a, b);
    SpliceSplice(d, at, Enc(a), Enc(b));
  }

  /** Writing the quartet of the triplet at `k` after the encoding of the first `k` bytes of `src` extends it by one triplet. */
  lemma {:induction false} SpliceEncStep(d0: seq<bv8>, d: seq<bv8>, d1: seq<bv8>, at: nat, src: seq<bv8>, k: nat, m: nat)
    requires k % 3 == 0 && k + 3 <= |src| && m == |Enc(src[..k])| && at + m + 4 <= |d0|
    requires d == Splice(d0, at, Enc(src[..k])) && d1 == Splice(d, at + m, Quartet(src[k], src[k + 1], src[k + 2]))
    ensures |Enc(src[..k + 3])| == m + 4
    ensures d1 == Splice(d0, at, Enc(src[..k + 3]))
  {
    EncSnoc(src[..k], src[k], src[k + 1], src[k + 2]);
    PrefixSnoc3(src, k);
    SpliceSplice(d0, at, Enc(src[..k]), Quartet(src[k], src[k + 1], src[k + 2]));
  }

  /** Writing the encoding of the rest of `src` after the whole blocks before `lo`. */
  lemma {:induction false} SpliceEncLast(d: seq<bv8>, at: nat, src: seq<bv8>, lo: nat, hi: nat)
    requires lo % 3 == 0 && lo <= hi == |src| && at + |Enc(src[..lo])| + |Enc(src[lo..hi])| <= |d|
    ensures |Enc(src)| == |Enc(src[..lo])| + |Enc(src[lo..hi])|
    ensures Splice(Splice(d, at, Enc(src[..lo])), at + |Enc(src[..lo])|, Enc(src[lo..hi])) == Splice(d, at, Enc(src))
  {
    SpliceEncAppend(d, at, src[..lo], src[lo..hi]);
    PrefixSlice(src, lo, hi);
    assert src[..lo] + src[lo..hi] == src;
  }

  /** Writing the padded tail after the whole triplets of `s`. */
  lemma {:induction false} SpliceEncTail(d0: seq<bv8>, d1: seq<bv8>, d2: seq<bv8>, at: nat, s: seq<bv8>, k: nat, m: nat)
    requires k % 3 == 0 && k <= |s| <= k + 2 && m == |Enc(s[..k])|
    requires at + m + |Tail(s[k..])| <= |d0|
    requires d1 == Splice(d0, at, Enc(s[..k])) && d2 == Splice(d1, at + m, Tail(s[k..]))
    ensures |Enc(s)| == m + |Tail(s[k..])|
    ensures d2 == Splice(d0, at, Enc(s))
  {
    SplitAt(s, k);
    EncSplit(s[..k], s[k..]);
    SpliceSplice(d0, at, Enc(s[..k]), Tail(s[k..]));
  }

  /** A multiple of three has no remainder. */
  lemma {:induction false} MultipleOfThree(m: nat)
    ensures (3 * m) % 3 == 0
  {
  }

  // ---------------------------------------------------------------------
  // Decoding

  /** The first `n` characters of `t` are valid quartets, and `d` is `d0` with their bytes written from `at`. */
  ghost predicate QuartetsWritten(d0: seq<bv8>, d: seq<bv8>, at: nat, t: seq<bv8>, n: nat)
  {
    && n % 4 == 0 && n <= |t| && |d| == |d0|
    && DecFull(t[..n]).Some?
    && at + |DecFull(t[..n]).value| <= |d0|
    && d == Splice(d0, at, DecFull(t[..n]).value)
  }

  /**
   * What a decoder of whole quartets `t` leaves behind: `d1` is `d0` with the
   * valid prefix of `t` written from `at`, and `r` is either the number of
   * bytes written (three per quartet) when every quartet is valid, or the
   * error for the first invalid quartet.
   */
  ghost predicate DecodedQuartets(d0: seq<bv8>, d1: seq<bv8>, at: nat, t: seq<bv8>, r: Result<nat>)
  {
    && (r.Ok? <==> DecFull(t).Some?)
    && (r.Ok? ==> 4 * r.value == 3 * |t|)
    && (r.Err? ==> FirstInvalid(t, r.error))
    && at + |ValidPrefix(t)| <= |d0|
    && d1 == Splice(d0, at, ValidPrefix(t))
  }

  /** Writing `w`, the bytes of the valid quartet at offset `n`, after the `m` bytes of the ones before it. */
  lemma {:induction false} QuartetWritten(d0: seq<bv8>, d: seq<bv8>, d1: seq<bv8>, at: nat, t: seq<bv8>, n: nat, m: nat,
                                          c0: bv8, c1: bv8, c2: bv8, c3: bv8, w: seq<bv8>)
    requires n + 4 <= |t| && 4 * m == 3 * n && at + m + 3 <= |d0|
    requires t[n] == c0 && t[n + 1] == c1 && t[n + 2] == c2 && t[n + 3] == c3
    requires IsAlphabet(c0) && IsAlphabet(c1) && IsAlphabet(c2) && IsAlphabet(c3) && w == DecodeQuartet(c0, c1, c2, c3)
    ensures QuartetsWritten(d0, d, at, t, n) && d1 == Splice(d, at + m, w) ==> QuartetsWritten(d0, d1, at, t, n + 4)
  {
    if QuartetsWritten(d0, d, at, t, n) && d1 == Splice(d, at + m, w) {
      DecFullStep(t, n);
      SpliceSplice(d0, at, DecFull(t[..n]).value, w);
    }
  }

  /** The valid quartets from `lo` to `hi` of `t`, decoded after the `m` bytes of the ones before `lo`. */
  lemma {:induction false} PieceDecoded(d0: seq<bv8>, d: seq<bv8>, d1: seq<bv8>, at: nat, t: seq<bv8>, lo: nat, hi: nat, m: nat)
    requires QuartetsWritten(d0, d, at, t, lo) && lo <= hi <= |t| && 4 * m == 3 * lo && 4 * at + 3 * hi <= 4 * |d0|
    requires DecFull(t[lo..hi]).Some? && d1 == Splice(d, at + m, ValidPrefix(t[lo..hi]))
    ensures QuartetsWritten(d0, d1, at, t, hi)
  {
    var a, p := t[..lo], t[lo..hi];
    ValidPrefixOfDecFull(p);
    PrefixSlice(t, lo, hi);
    DecFullAppend(a, p);
    SpliceSplice(d0, at, DecFull(a).value, DecFull(p).value);
  }

  /**
   * The quartets from `lo` to `hi` of `t` include an invalid one, and the
   * decoder wrote their valid prefix after the `m` bytes of the ones before
   * `lo`: the whole of `t` is invalid, `d1` holds its valid prefix, and the
   * piece's first invalid quartet is `t`'s.
   */
  lemma {:induction false} PieceRejected(d0: seq<bv8>, d: seq<bv8>, d1: seq<bv8>, at: nat, t: seq<bv8>, lo: nat, hi: nat, m: nat, e: CodecError)
    requires |t| % 4 == 0 && 4 * at + 3 * |t| <= 4 * |d0| && QuartetsWritten(d0, d, at, t, lo) && lo <= hi <= |t| && 4 * m == 3 * lo
    requires DecFull(t[lo..hi]).None? && FirstInvalid(t[lo..hi], e) && hi % 4 == 0
    requires d1 == Splice(d, at + m, ValidPrefix(t[lo..hi]))
    ensures DecodedQuartets(d0, d1, at, t, Err(e))
  {
    RejectedSlice(t, lo, hi, e);
    SpliceSplice(d0, at, DecFull(t[..lo]).value, ValidPrefix(t[lo..hi]));
  }

  /** `RejectedPiece` for the three parts of `t` cut at `lo` and `hi`. */
  lemma {:induction false} RejectedSlice(t: seq<bv8>, lo: nat, hi: nat, e: CodecError)
    requires |t| % 4 == 0 && lo % 4 == 0 && hi % 4 == 0 && lo <= hi <= |t|
    requires DecFull(t[..lo]).Some? && DecFull(t[lo..hi]).None? && FirstInvalid(t[lo..hi], e)
    ensures DecFull(t).None? && FirstInvalid(t, e)
    ensures ValidPrefix(t) == DecFull(t[..lo]).value + ValidPrefix(t[lo..hi])
  {
    var a, p, c := t[..lo], t[lo..hi], t[hi..];
    ThreeParts(t, lo, hi);
    QuartetsAfter(hi, lo);
    QuartetsAfter(|t|, hi);
    RejectedPiece(a, p, c, e);
  }

  // ---------------------------------------------------------------------
  // Decoding a text after a run of whole valid quartets

  /** Padding is stripped from the end, so a prefix of whole quartets is kept as it is. */
  lemma {:induction false} StripPaddingAppend(a: seq<bv8>, b: seq<bv8>)
    requires |b| >= 2
    ensures StripPadding(a + b) == a + StripPadding(b)
  {
    var ab := a + b;
    assert ab[|ab| - 2] == b[|b| - 2] && ab[|ab| - 1] == b[|b| - 1];
    assert ab[..|ab| - 2] == a + b[..|b| - 2];
    assert ab[..|ab| - 1] == a + b[..|b| - 1];
  }

  /** `a`, whole quartets in front of a text of at least 2 characters, joins its body and leaves its leftover alone. */
  lemma {:induction false} BodyAppend(a: seq<bv8>, b: seq<bv8>)
    requires |a| % 4 == 0 && |b| >= 2
    ensures Body(a + b) == a + Body(b) && Leftover(a + b) == Leftover(b)
  {
    StripPaddingAppend(a, b);
    var sb := StripPadding(b);
    QuartetsLength(a + sb);
    QuartetsLength(sb);
    assert |Quartets(a + sb)| == |a| + |Quartets(sb)|;
    assert (a + sb)[..|a| + |Quartets(sb)|] == a + sb[..|Quartets(sb)|];
    assert (a + sb)[|a| + |Quartets(sb)|..] == sb[|Quartets(sb)|..];
  }

  /** Whole valid quartets `a` in front of `b` join the body of `b`, and its quartets decode exactly when those of `b` do. */
  lemma {:induction false} BodySplit(a: seq<bv8>, b: seq<bv8>)
    requires |a| % 4 == 0 && DecFull(a).Some? && |b| >= 2
    ensures Body(a + b) == a + Body(b) && Leftover(a + b) == Leftover(b)
    ensures DecFull(Body(a + b)).Some? <==> DecFull(Body(b)).Some?
    ensures DecFull(Body(b)).Some? ==> DecFull(Body(a + b)).value == DecFull(a).value + DecFull(Body(b)).value
  {
    BodyAppend(a, b);
    DecFullAppend(a, Body(b));
  }

  /**
   * Decoding `a + b`, with `a` whole valid quartets and `b` at least one
   * quartet long, is decoding `a` and then `b`; it fails exactly when `b`
   * fails.
   */
  lemma {:induction false} DecSplit(a: seq<bv8>, b: seq<bv8>)
    requires |a| % 4 == 0 && DecFull(a).Some? && |b| >= 4
    ensures Dec(a + b).Some? <==> Dec(b).Some?
    ensures Dec(b).Some? ==> Dec(a + b).value == DecFull(a).value + Dec(b).value
  {
    BodySplit(a, b);
    WholeQuartetsFirst(|a|, |b|);
    DecJoined(a + b, b, DecFull(a).value);
  }

  /** Whole quartets in front of a text leave its length modulo 4 alone. */
  lemma {:induction false} WholeQuartetsFirst(m: nat, n: nat)
    requires m % 4 == 0
    ensures (m + n) % 4 == n % 4
  {
    var k := m / 4;
    assert m + n == 4 * k + n;
  }

  /** Two texts of the same length modulo 4 with the same leftover, whose bodies decode alike up to a prefix `pre`, decode alike up to `pre`. */
  lemma {:induction false} DecJoined(t: seq<bv8>, u: seq<bv8>, pre: seq<bv8>)
    requires |t| >= 4 && |u| >= 4 && |t| % 4 == |u| % 4 && Leftover(t) == Leftover(u)
    requires DecFull(Body(t)).Some? <==> DecFull(Body(u)).Some?
    requires DecFull(Body(u)).Some? ==> DecFull(Body(t)).value == pre + DecFull(Body(u)).value
    ensures Dec(t).Some? <==> Dec(u).Some?
    ensures Dec(u).Some? ==> Dec(t).value == pre + Dec(u).value
  {
    if |u| % 4 == 0 && DecFull(Body(u)).Some? && DecTail(Leftover(u)).Some? {
      AppendAssoc(pre, DecFull(Body(u)).value, DecTail(Leftover(u)).value);
    }
  }

  /** The first invalid quartet of the body of `b` is that of `a + b` when `a` is whole valid quartets. */
  lemma {:induction false} FirstInvalidSplit(a: seq<bv8>, b: seq<bv8>, e: CodecError)
    requires |a| % 4 == 0 && DecFull(a).Some? && |b| >= 2
    ensures FirstInvalid(Body(b), e) ==> FirstInvalid(Body(a + b), e)
  {
    if FirstInvalid(Body(b), e) {
      BodyAppend(a, b);
      ValidPrefixAppend(a, Body(b));
      FirstInvalidAfter(a, Body(b), e);
    }
  }

  /** A valid text of at least 13 characters decodes to at least 8 bytes. */
  lemma {:induction false} DecAtLeastEight(t: seq<bv8>)
    requires |t| >= 13 && Dec(t).Some?
    ensures |Dec(t).value| >= 8
  {
    QuartetsLength(StripPadding(t));
  }

  /** `k` blocks of 24 bytes are a multiple of 24 bytes. */
  lemma {:induction false} Blocks24(o: nat, k: nat)
    requires o == 24 * k
    ensures o % 24 == 0
  {
  }
}
