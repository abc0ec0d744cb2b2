/**
 * The Base64 encoding of RFC 4648 section 4 (standard alphabet, `=` padding),
 * stated as pure functions. Every encoder and decoder of the crate is proved
 * against `Enc` and `Dec` below.
 *
 * Bytes are `bv8`; a byte buffer is a `seq<bv8>`.
 */
module Base64Spec {
  import opened Seqs

  datatype Option<T> = None | Some(value: T)

  /**
   * The error variants the codecs return. `Io` stands for the variant that
   * wraps a `std::io::Error` (its payload is not modelled); `InvalidInput`
   * carries the characters of the rejected quartet in place of the formatted
   * message; `InputModError` carries the rejected input length.
   */
  datatype CodecError =
    | Io
    | BufferOverflow
    | Unknown
    | InvalidInput(chars: seq<bv8>)
    | InputModError(len: nat)

  datatype Result<T> = Ok(value: T) | Err(error: CodecError)

  /** The padding character `=`. */
  const PAD: bv8 := 0x3D

  /** The 64 characters `A-Z a-z 0-9 + /` of section 4 of RFC 4648. */
  predicate IsAlphabet(c: bv8)
  {
    || (0x41 <= c <= 0x5A)
    || (0x61 <= c <= 0x7A)
    || (0x30 <= c <= 0x39)
    || c == 0x2B
    || c == 0x2F
  }

  /** `CHARS[v]`: the character of a 6-bit value (table 1 of RFC 4648). */
  function Char(v: bv8): (c: bv8)
    requires v < 64
    ensures IsAlphabet(c) && c != PAD
  {
    if v < 26 then v + 0x41
    else if v < 52 then v - 26 + 0x61
    else if v < 62 then v - 52 + 0x30
    else if v == 62 then 0x2B
    else 0x2F
  }

  /** The 6-bit value of an alphabet character. */
  function Value(c: bv8): (v: bv8)
    requires IsAlphabet(c)
    ensures v < 64
  {
    if 0x41 <= c <= 0x5A then c - 0x41
    else if 0x61 <= c <= 0x7A then c - 0x61 + 26
    else if 0x30 <= c <= 0x39 then c - 0x30 + 52
    else if c == 0x2B then 62
    else 63
  }

  /** `Char` and `Value` are inverse bijections between 0..63 and the alphabet. */
  lemma {:induction false} ValueOfChar(v: bv8)
    requires v < 64
    ensures Value(Char(v)) == v
  {
    if v < 26 {
    } else if v < 52 {
    } else if v < 62 {
    }
  }

  lemma {:induction false} CharOfValue(c: bv8)
    requires IsAlphabet(c)
    ensures Char(Value(c)) == c
  {
    if 0x41 <= c <= 0x5A {
    } else if 0x61 <= c <= 0x7A {
    } else if 0x30 <= c <= 0x39 {
    }
  }

  /** Output length of an encoding of `n` bytes: `4 * ceil(n / 3)`. */
  function EncodeLen(n: nat): (r: nat)
    ensures r % 4 == 0
    ensures 4 * n <= 3 * r < 4 * n + 12
    ensures r == 0 <==> n == 0
  {
    if n % 3 == 0 then n / 3 * 4 else n / 3 * 4 + 4
  }

  lemma {:induction false} EncodeLenOfTriplets(k: nat)
    ensures (3 * k) % 3 == 0 && EncodeLen(3 * k) == 4 * k
  {
  }

  /** The four 6-bit groups of the 24-bit group `t1 t2 t3`, most significant first. */
  function Group0(t1: bv8): bv8 { t1 >> 2 }
  function Group1(t1: bv8, t2: bv8): bv8 { ((t1 & 0x03) << 4) | ((t2 >> 4) & 0x0F) }
  function Group2(t2: bv8, t3: bv8): bv8 { ((t2 & 0x0F) << 2) | ((t3 >> 6) & 0x03) }
  function Group3(t3: bv8): bv8 { t3 & 0x3F }

  lemma {:induction false} GroupsAreSextets(t1: bv8, t2: bv8, t3: bv8)
    ensures Group0(t1) < 64 && Group1(t1, t2) < 64 && Group2(t2, t3) < 64 && Group3(t3) < 64
  {
  }

  /** The four characters of a full triplet. */
  function Quartet(t1: bv8, t2: bv8, t3: bv8): (q: seq<bv8>)
    ensures |q| == 4
  {
    GroupsAreSextets(t1, t2, t3);
    [Char(Group0(t1)), Char(Group1(t1, t2)), Char(Group2(t2, t3)), Char(Group3(t3))]
  }

  /** The final 0, 1 or 2 bytes: 2 or 3 characters from the zero-extended triplet, then padding. */
  function Tail(s: seq<bv8>): (r: seq<bv8>)
    requires |s| <= 2
    ensures |r| == if |s| == 0 then 0 else 4
  {
    if |s| == 0 then []
    else if |s| == 1 then Quartet(s[0], 0, 0)[..2] + [PAD, PAD]
    else Quartet(s[0], s[1], 0)[..3] + [PAD]
  }

  /** The Base64 encoding of `s`. */
  function Enc(s: seq<bv8>): seq<bv8>
    decreases |s|
  {
    if |s| <= 2 then Tail(s) else Quartet(s[0], s[1], s[2]) + Enc(s[3..])
  }

  /** Encoding distributes over concatenation at a triplet boundary. */
  lemma {:induction false} EncAppend(a: seq<bv8>, b: seq<bv8>)
    requires |a| % 3 == 0
    ensures Enc(a + b) == Enc(a) + Enc(b)
    decreases |a|
  {
    if |a| == 0 {
      assert a + b == b;
    } else {
      EncAppendStep(a, b);
      EncAppend(a[3..], b);
      AppendAssoc(Quartet(a[0], a[1], a[2]), Enc(a[3..]), Enc(b));
    }
  }

  /** `Enc` of `a + b` unfolded once, on the first triplet of `a`. */
  lemma EncAppendStep(a: seq<bv8>, b: seq<bv8>)
    requires |a| >= 3
    ensures Enc(a + b) == Quartet(a[0], a[1], a[2]) + Enc(a[3..] + b)
  {
    var ab := a + b;
    assert ab[0] == a[0] && ab[1] == a[1] && ab[2] == a[2];
    DropAppend(a, b, 3);
  }


  /** One whole triplet encodes to its quartet. */
  lemma {:induction false} EncOfTriplet(t1: bv8, t2: bv8, t3: bv8)
    ensures Enc([t1, t2, t3]) == Quartet(t1, t2, t3)
  {
    assert [t1, t2, t3][3..] == [];
  }

  /** Appending one triplet appends its quartet. */
  lemma {:induction false} EncSnoc(a: seq<bv8>, t1: bv8, t2: bv8, t3: bv8)
    requires |a| % 3 == 0
    ensures Enc(a + [t1, t2, t3]) == Enc(a) + Quartet(t1, t2, t3)
  {
    EncAppend(a, [t1, t2, t3]);
    EncOfTriplet(t1, t2, t3);
  }

  /** Quartet `k` of the output depends only on bytes `3k..3k+2` of the input. */
  lemma {:induction false} EncQuartetAt(s: seq<bv8>, k: nat)
    requires 3 * k + 3 <= |s|
    ensures 4 * k + 4 <= |Enc(s)|
    ensures Enc(s)[4 * k .. 4 * k + 4] == Quartet(s[3 * k], s[3 * k + 1], s[3 * k + 2])
  {
    var a, b := s[..3 * k], s[3 * k..];
    SplitAt(s, 3 * k);
    EncAppend(a, b);
    EncLengthOfTriplets(a);
    assert Enc(b) == Quartet(b[0], b[1], b[2]) + Enc(b[3..]);
    SliceAfterPrefix(Enc(a), Enc(b), 4);
  }

  /** A whole number of triplets encodes to 4 characters per triplet. */
  lemma {:induction false} EncLengthOfTriplets(s: seq<bv8>)
    requires |s| % 3 == 0
    ensures 3 * |Enc(s)| == 4 * |s| && |Enc(s)| % 4 == 0
    decreases |s|
  {
    if |s| > 0 {
      EncLengthOfTriplets(s[3..]);
      assert Enc(s) == Quartet(s[0], s[1], s[2]) + Enc(s[3..]);
      var k := |Enc(s[3..])|;
      assert |Enc(s)| == k + 4;
    }
  }

  /** The output length is `EncodeLen` of the input length. */
  lemma {:induction false} EncLength(s: seq<bv8>)
    ensures |Enc(s)| == EncodeLen(|s|)
  {
    var full, tail := SplitAtTriplets(s);
    EncSplit(full, tail);
  }

  /** The output splits into the quartets of the whole triplets and the padded tail. */
  lemma {:induction false} EncSplit(full: seq<bv8>, tail: seq<bv8>)
    requires |full| % 3 == 0 && |tail| <= 2
    ensures Enc(full + tail) == Enc(full) + Tail(tail)
    ensures 3 * |Enc(full)| == 4 * |full| && |Enc(full)| % 4 == 0
  {
    EncAppend(full, tail);
    EncLengthOfTriplets(full);
  }

  /** Splits a byte string at its last whole triplet. */
  lemma {:induction false} SplitAtTriplets(s: seq<bv8>) returns (full: seq<bv8>, tail: seq<bv8>)
    ensures s == full + tail && |full| % 3 == 0 && |tail| == |s| % 3
    ensures |full| == |s| / 3 * 3
  {
    var k := |s| / 3;
    full, tail := s[..3 * k], s[3 * k..];
  }

  /** Padding follows `|s| % 3`: `==` for 1, `=` for 2, none for 0. */
  lemma {:induction false} EncPadding(s: seq<bv8>)
    ensures var r := Enc(s);
      && (|s| % 3 == 0 ==> forall i :: 0 <= i < |r| ==> r[i] != PAD)
      && (|s| % 3 == 1 ==> r[|r| - 1] == PAD && r[|r| - 2] == PAD && r[|r| - 3] != PAD)
      && (|s| % 3 == 2 ==> r[|r| - 1] == PAD && r[|r| - 2] != PAD)
  {
    var full, tail := SplitAtTriplets(s);
    EncSplit(full, tail);
    EncAllChars(full);
  }

  /** Every output byte is an alphabet character or `=`, so the output is ASCII text. */
  lemma {:induction false} EncIsText(s: seq<bv8>)
    ensures forall i :: 0 <= i < |Enc(s)| ==> IsAlphabet(Enc(s)[i]) || Enc(s)[i] == PAD
    decreases |s|
  {
    if |s| > 2 {
      EncIsText(s[3..]);
    }
  }

  /** Without a tail the output holds alphabet characters only. */
  lemma {:induction false} EncAllChars(s: seq<bv8>)
    requires |s| % 3 == 0
    ensures forall i :: 0 <= i < |Enc(s)| ==> IsAlphabet(Enc(s)[i])
    decreases |s|
  {
    if |s| > 0 {
      EncAllChars(s[3..]);
    }
  }

  // ---------------------------------------------------------------------
  // Decoding

  predicate AllAlphabet(t: seq<bv8>)
  {
    forall i :: 0 <= i < |t| ==> IsAlphabet(t[i])
  }

  /** The three bytes of four alphabet characters. */
  function DecodeQuartet(c0: bv8, c1: bv8, c2: bv8, c3: bv8): (r: seq<bv8>)
    requires IsAlphabet(c0) && IsAlphabet(c1) && IsAlphabet(c2) && IsAlphabet(c3)
    ensures |r| == 3
  {
    var v0, v1, v2, v3 := Value(c0), Value(c1), Value(c2), Value(c3);
    [(v0 << 2) | (v1 >> 4), (v1 << 4) | (v2 >> 2), (v2 << 6) | v3]
  }

  /** Decoding a quartet undoes `Quartet`. */
  lemma {:induction false} DecodeQuartetOfQuartet(t1: bv8, t2: bv8, t3: bv8)
    ensures var q := Quartet(t1, t2, t3);
      AllAlphabet(q) && DecodeQuartet(q[0], q[1], q[2], q[3]) == [t1, t2, t3]
  {
    var g0, g1, g2, g3 := Group0(t1), Group1(t1, t2), Group2(t2, t3), Group3(t3);
    GroupsAreSextets(t1, t2, t3);
    var q := Quartet(t1, t2, t3);
    assert q == [Char(g0), Char(g1), Char(g2), Char(g3)];
    DecodeChars(g0, g1, g2, g3);
    Regroup(t1, t2, t3);
  }

  /** Decoding the characters of four 6-bit values packs the values back into three bytes. */
  lemma {:induction false} DecodeChars(g0: bv8, g1: bv8, g2: bv8, g3: bv8)
    requires g0 < 64 && g1 < 64 && g2 < 64 && g3 < 64
    ensures DecodeQuartet(Char(g0), Char(g1), Char(g2), Char(g3)) == [(g0 << 2) | (g1 >> 4), (g1 << 4) | (g2 >> 2), (g2 << 6) | g3]
  {
    ValueOfChar(g0);
    ValueOfChar(g1);
    ValueOfChar(g2);
    ValueOfChar(g3);
  }

  /** Reassembling the four 6-bit groups gives back the three bytes. */
  lemma {:induction false} Regroup(t1: bv8, t2: bv8, t3: bv8)
    ensures (Group0(t1) << 2) | (Group1(t1, t2) >> 4) == t1
    ensures (Group1(t1, t2) << 4) | (Group2(t2, t3) >> 2) == t2
    ensures (Group2(t2, t3) << 6) | Group3(t3) == t3
  {
  }

  /**
   * A run of whole quartets without padding; `None` if any character is
   * outside the alphabet or the run does not end on a quartet boundary.
   */
  function DecFull(t: seq<bv8>): (r: Option<seq<bv8>>)
    ensures r.Some? ==> |t| % 4 == 0 && 4 * |r.value| == 3 * |t|
    decreases |t|
  {
    if |t| == 0 then Some([])
    else if |t| < 4 then None
    else if !(IsAlphabet(t[0]) && IsAlphabet(t[1]) && IsAlphabet(t[2]) && IsAlphabet(t[3])) then None
    else match DecFull(t[4..])
      case None => None
      case Some(rest) => Some(DecodeQuartet(t[0], t[1], t[2], t[3]) + rest)
  }

  /** The 0, 2 or 3 characters left once the padding is stripped. */
  function DecTail(t: seq<bv8>): (r: Option<seq<bv8>>)
    requires |t| == 0 || |t| == 2 || |t| == 3
    ensures r.Some? ==> |r.value| == if |t| == 0 then 0 else |t| - 1
  {
    if |t| == 0 then Some([])
    else if !AllAlphabet(t) then None
    else if |t| == 2 then Some([(Value(t[0]) << 2) | (Value(t[1]) >> 4)])
    else Some([(Value(t[0]) << 2) | (Value(t[1]) >> 4), (Value(t[1]) << 4) | (Value(t[2]) >> 2)])
  }

  /** A valid tail decodes as the quartet completed with `A` (value 0), less the bytes the padding stands for. */
  lemma {:induction false} Tail3AsQuartet(t: seq<bv8>)
    requires |t| == 3 && AllAlphabet(t)
    ensures DecTail(t) == Some(DecodeQuartet(t[0], t[1], t[2], 0x41)[..2])
  {
    var c0, c1, c2 := t[0], t[1], t[2];
    assert IsAlphabet(c0) && IsAlphabet(c1) && IsAlphabet(c2);
    var q := DecodeQuartet(c0, c1, c2, 0x41);
    assert q[..2] == [q[0], q[1]];
  }

  lemma {:induction false} Tail2AsQuartet(t: seq<bv8>)
    requires |t| == 2 && AllAlphabet(t)
    ensures DecTail(t) == Some(DecodeQuartet(t[0], t[1], 0x41, 0x41)[..1])
  {
    var c0, c1 := t[0], t[1];
    assert IsAlphabet(c0) && IsAlphabet(c1);
    var q := DecodeQuartet(c0, c1, 0x41, 0x41);
    assert q[..1] == [q[0]];
  }

  /** Removes a trailing `==`, or else a trailing `=`. */
  function StripPadding(t: seq<bv8>): (r: seq<bv8>)
    ensures |t| - 2 <= |r| <= |t| && r == t[..|r|]
  {
    if |t| >= 2 && t[|t| - 2] == PAD && t[|t| - 1] == PAD then t[..|t| - 2]
    else if |t| >= 1 && t[|t| - 1] == PAD then t[..|t| - 1]
    else t
  }

  /** The whole quartets at the start of `t`: all of `t` but its last `|t| % 4` characters. */
  function Quartets(t: seq<bv8>): (r: seq<bv8>)
    ensures |r| % 4 == 0 && |r| <= |t| < |r| + 4 && r == t[..|r|]
  {
    t[..QuartetsLen(|t|)]
  }

  /** The largest multiple of 4 that is at most `n`. */
  function QuartetsLen(n: nat): (r: nat)
    ensures r % 4 == 0 && r <= n < r + 4
  {
    if n < 4 then 0 else 4 + QuartetsLen(n - 4)
  }

  /** Text made of whole quartets is its own whole quartets. */
  lemma {:induction false} WholeQuartets(t: seq<bv8>)
    requires |t| % 4 == 0
    ensures Quartets(t) == t
  {
  }

  /** The number of characters in the whole quartets, as the source computes it. */
  lemma {:induction false} QuartetsLength(t: seq<bv8>)
    ensures |Quartets(t)| == |t| / 4 * 4
  {
  }

  /** The whole quartets of `t` once its padding is stripped. */
  function Body(t: seq<bv8>): (r: seq<bv8>)
    ensures |r| % 4 == 0 && |r| <= |t| && r == t[..|r|]
  {
    Quartets(StripPadding(t))
  }

  /** The characters between `Body(t)` and the padding: 0, 2 or 3 of them when `|t|` is a multiple of 4. */
  function Leftover(t: seq<bv8>): (r: seq<bv8>)
    ensures StripPadding(t) == Body(t) + r
    ensures |r| < 4 && (|t| % 4 == 0 ==> |r| != 1)
  {
    var s := StripPadding(t);
    s[|Quartets(s)|..]
  }

  /**
   * Base64 decoding: the empty text decodes to nothing; otherwise the length
   * must be a positive multiple of 4, at most two `=` may end the text, and
   * every other character must be in the alphabet.
   */
  function Dec(t: seq<bv8>): Option<seq<bv8>>
  {
    if |t| == 0 then Some([])
    else if |t| < 4 || |t| % 4 != 0 then None
    else
      var quartets, tail := DecFull(Body(t)), DecTail(Leftover(t));
      if quartets.Some? && tail.Some? then Some(quartets.value + tail.value) else None
  }

  /** Decoding of whole quartets distributes over concatenation. */
  lemma {:induction false} DecFullAppend(a: seq<bv8>, b: seq<bv8>)
    requires |a| % 4 == 0 && |b| % 4 == 0
    ensures DecFull(a + b).Some? <==> DecFull(a).Some? && DecFull(b).Some?
    ensures DecFull(a + b).Some? ==> DecFull(a + b).value == DecFull(a).value + DecFull(b).value
    decreases |a|
  {
    if |a| == 0 {
      assert a + b == b;
    } else {
      DecFullAppendStep(a, b);
      DecFullAppend(a[4..], b);
      if IsAlphabet(a[0]) && IsAlphabet(a[1]) && IsAlphabet(a[2]) && IsAlphabet(a[3]) && DecFull(a + b).Some? {
        AppendAssoc(DecodeQuartet(a[0], a[1], a[2], a[3]), DecFull(a[4..]).value, DecFull(b).value);
      }
    }
  }

  /** `DecFull` of `a + b` unfolded once, on the first quartet of `a`. */
  lemma DecFullAppendStep(a: seq<bv8>, b: seq<bv8>)
    requires |a| >= 4
    ensures DecFull(a + b) ==
      if !(IsAlphabet(a[0]) && IsAlphabet(a[1]) && IsAlphabet(a[2]) && IsAlphabet(a[3])) then None
      else match DecFull(a[4..] + b)
        case None => None
        case Some(rest) => Some(DecodeQuartet(a[0], a[1], a[2], a[3]) + rest)
  {
    var ab := a + b;
    assert ab[0] == a[0] && ab[1] == a[1] && ab[2] == a[2] && ab[3] == a[3];
    DropAppend(a, b, 4);
  }


  /** A single quartet decodes iff its four characters are in the alphabet. */
  lemma {:induction false} DecFullOfQuartet(q: seq<bv8>)
    requires |q| == 4
    ensures DecFull(q).Some? <==> AllAlphabet(q)
    ensures DecFull(q).Some? ==> DecFull(q).value == DecodeQuartet(q[0], q[1], q[2], q[3])
  {
    assert q[4..] == [];
    if !AllAlphabet(q) {
      var i :| 0 <= i < 4 && !IsAlphabet(q[i]);
      assert i == 0 || i == 1 || i == 2 || i == 3;
    }
  }

  /** Appending one quartet: the decoding grows by that quartet's triplet, or fails. */
  lemma {:induction false} DecFullSnoc(a: seq<bv8>, q: seq<bv8>)
    requires |a| % 4 == 0 && |q| == 4
    ensures DecFull(a + q).Some? <==> DecFull(a).Some? && AllAlphabet(q)
    ensures DecFull(a + q).Some? ==>
      DecFull(a + q).value == DecFull(a).value + DecodeQuartet(q[0], q[1], q[2], q[3])
  {
    DecFullAppend(a, q);
    DecFullOfQuartet(q);
  }

  /** Whole quartets decode back to their triplets. */
  lemma {:induction false} DecFullOfEnc(s: seq<bv8>)
    requires |s| % 3 == 0
    ensures |Enc(s)| % 4 == 0 && DecFull(Enc(s)) == Some(s)
    decreases |s|
  {
    EncLengthOfTriplets(s);
    if |s| > 0 {
      var q := Quartet(s[0], s[1], s[2]);
      DecodeQuartetOfQuartet(s[0], s[1], s[2]);
      var e := Enc(s);
      assert e == q + Enc(s[3..]);
      assert e[0] == q[0] && e[1] == q[1] && e[2] == q[2] && e[3] == q[3];
      assert e[4..] == Enc(s[3..]);
      DecFullOfEnc(s[3..]);
      Split3(s);
    }
  }

  /** The characters of the tail without its padding. */
  function TailChars(t: seq<bv8>): (r: seq<bv8>)
    requires |t| <= 2
    ensures |r| == if |t| == 0 then 0 else |t| + 1
  {
    if |t| == 0 then []
    else if |t| == 1 then Quartet(t[0], 0, 0)[..2]
    else Quartet(t[0], t[1], 0)[..3]
  }

  /** The tail decodes back to its 1 or 2 bytes. */
  lemma {:induction false} DecTailOfTailChars(t: seq<bv8>)
    requires |t| <= 2
    ensures DecTail(TailChars(t)) == Some(t)
  {
    if |t| == 1 {
      DecTailOfOne(t[0]);
      assert t == [t[0]];
    } else if |t| == 2 {
      DecTailOfTwo(t[0], t[1]);
      assert t == [t[0], t[1]];
    }
  }

  lemma {:induction false} DecTailOfOne(t0: bv8)
    ensures DecTail(TailChars([t0])) == Some([t0])
  {
    var q := Quartet(t0, 0, 0);
    DecodeQuartetOfQuartet(t0, 0, 0);
    var d := DecodeQuartet(q[0], q[1], q[2], q[3]);
    assert d[0] == t0;
    var tc := TailChars([t0]);
    assert tc == [q[0], q[1]];
    assert AllAlphabet(tc);
  }

  lemma {:induction false} DecTailOfTwo(t0: bv8, t1: bv8)
    ensures DecTail(TailChars([t0, t1])) == Some([t0, t1])
  {
    var q := Quartet(t0, t1, 0);
    DecodeQuartetOfQuartet(t0, t1, 0);
    var d := DecodeQuartet(q[0], q[1], q[2], q[3]);
    assert d[0] == t0 && d[1] == t1;
    var tc := TailChars([t0, t1]);
    assert tc == [q[0], q[1], q[2]];
    assert AllAlphabet(tc);
  }

  /** Stripping the padding of an encoding leaves the quartets and the tail characters. */
  lemma {:induction false} StripPaddingOfEnc(full: seq<bv8>, tail: seq<bv8>)
    requires |full| % 3 == 0 && |tail| <= 2
    ensures StripPadding(Enc(full + tail)) == Enc(full) + TailChars(tail)
  {
    EncSplit(full, tail);
    EncAllChars(full);
    var ef := Enc(full);
    var e := Enc(full + tail);
    if |tail| == 0 {
      assert e == ef;
      if |e| > 0 {
        assert e[|e| - 1] != PAD;
      }
    } else if |tail| == 1 {
      assert e == (ef + TailChars(tail)) + [PAD, PAD];
    } else {
      assert e == (ef + TailChars(tail)) + [PAD];
      assert e[|e| - 2] == TailChars(tail)[2];
    }
  }

  lemma {:induction false} RoundDownToQuartet(n: nat, a: nat, r: nat)
    requires n == a + r && a % 4 == 0 && r < 4
    ensures n / 4 * 4 == a && n % 4 == r
  {
  }

  /** Dec of a padded text whose unpadded form is whole quartets followed by a decodable tail. */
  lemma {:induction false} DecOfParts(e: seq<bv8>, ef: seq<bv8>, tc: seq<bv8>, full: seq<bv8>, tail: seq<bv8>)
    requires |e| >= 4 && |e| % 4 == 0
    requires StripPadding(e) == ef + tc && |ef| % 4 == 0 && |tc| < 4
    requires DecFull(ef) == Some(full) && DecTail(tc) == Some(tail)
    ensures Dec(e) == Some(full + tail)
  {
    var st := StripPadding(e);
    RoundDownToQuartet(|st|, |ef|, |tc|);
    assert |Body(e)| == |ef|;
    assert Body(e) == st[..|ef|] == ef;
    assert Leftover(e) == st[|ef|..] == tc;
  }

  /** Round trip: decoding an encoding gives back the input. */
  lemma {:induction false} DecOfEnc(s: seq<bv8>)
    ensures Dec(Enc(s)) == Some(s)
  {
    var full, tail := SplitAtTriplets(s);
    EncLength(s);
    if |s| > 0 {
      StripPaddingOfEnc(full, tail);
      EncSplit(full, tail);
      DecFullOfEnc(full);
      DecTailOfTailChars(tail);
      DecOfParts(Enc(s), Enc(full), TailChars(tail), full, tail);
    }
  }

  // ---------------------------------------------------------------------
  // What a decoder has written when it stops at an invalid quartet

  /** The bytes of the whole quartets of `t` before its first quartet with a character outside the alphabet. */
  function ValidPrefix(t: seq<bv8>): (r: seq<bv8>)
    ensures 4 * |r| <= 3 * |t| && |r| % 3 == 0
    decreases |t|
  {
    if |t| < 4 || !(IsAlphabet(t[0]) && IsAlphabet(t[1]) && IsAlphabet(t[2]) && IsAlphabet(t[3])) then []
    else DecodeQuartet(t[0], t[1], t[2], t[3]) + ValidPrefix(t[4..])
  }

  /**
   * `e` is the error for the first invalid quartet of `t`: the quartet right
   * after the valid prefix, whose characters the error carries.
   */
  ghost predicate FirstInvalid(t: seq<bv8>, e: CodecError)
  {
    var m := |ValidPrefix(t)| / 3 * 4;
    m + 4 <= |t| && e == InvalidInput(t[m..m + 4]) && !AllAlphabet(t[m..m + 4])
  }

  /** Whole quartets that do not decode have a first invalid quartet, right after the valid prefix. */
  lemma {:induction false} FirstInvalidExists(t: seq<bv8>)
    requires |t| % 4 == 0 && DecFull(t).None?
    ensures |ValidPrefix(t)| / 3 * 4 + 4 <= |t|
    ensures FirstInvalid(t, InvalidInput(t[|ValidPrefix(t)| / 3 * 4..|ValidPrefix(t)| / 3 * 4 + 4]))
    decreases |t|
  {
    if IsAlphabet(t[0]) && IsAlphabet(t[1]) && IsAlphabet(t[2]) && IsAlphabet(t[3]) {
      var u := t[4..];
      FirstInvalidExists(u);
      var k := |ValidPrefix(u)| / 3;
      assert |ValidPrefix(t)| == 3 * (k + 1);
      QuartetsOfTriplets(k + 1);
      SliceOfDrop(t, 4, 4 * k, 4 * k + 4);
    } else {
      assert t[0..4][0] == t[0] && t[0..4][1] == t[1] && t[0..4][2] == t[2] && t[0..4][3] == t[3];
    }
  }

  /** When every quartet is valid, the valid prefix is the whole decoding. */
  lemma {:induction false} ValidPrefixOfDecFull(t: seq<bv8>)
    requires |t| % 4 == 0 && DecFull(t).Some?
    ensures ValidPrefix(t) == DecFull(t).value
    decreases |t|
  {
    if |t| > 0 {
      ValidPrefixOfDecFull(t[4..]);
    }
  }

  /** One step of `ValidPrefix` on a concatenation whose left part holds a whole quartet. */
  lemma ValidPrefixAppendStep(a: seq<bv8>, b: seq<bv8>)
    requires |a| >= 4
    ensures ValidPrefix(a + b) ==
      if IsAlphabet(a[0]) && IsAlphabet(a[1]) && IsAlphabet(a[2]) && IsAlphabet(a[3])
      then DecodeQuartet(a[0], a[1], a[2], a[3]) + ValidPrefix(a[4..] + b)
      else []
  {
    var ab := a + b;
    assert ab[0] == a[0] && ab[1] == a[1] && ab[2] == a[2] && ab[3] == a[3];
    DropAppend(a, b, 4);
  }

  /** The valid prefix of a concatenation of whole quartets. */
  lemma {:induction false} ValidPrefixAppend(a: seq<bv8>, b: seq<bv8>)
    requires |a| % 4 == 0 && |b| % 4 == 0
    ensures ValidPrefix(a + b) == if DecFull(a).Some? then DecFull(a).value + ValidPrefix(b) else ValidPrefix(a)
    decreases |a|
  {
    if |a| == 0 {
      assert a + b == b;
    } else {
      ValidPrefixAppendStep(a, b);
      ValidPrefixAppend(a[4..], b);
      if IsAlphabet(a[0]) && IsAlphabet(a[1]) && IsAlphabet(a[2]) && IsAlphabet(a[3]) {
        var q := DecodeQuartet(a[0], a[1], a[2], a[3]);
        if DecFull(a[4..]).Some? {
          assert DecFull(a).value == q + DecFull(a[4..]).value;
          AppendAssoc(q, DecFull(a[4..]).value, ValidPrefix(b));
        }
      }
    }
  }

  /**
   * Decoding stops at the quartet at offset `n`, after valid ones, when that
   * quartet has a character outside the alphabet: the whole text does not
   * decode, the valid prefix is the decoding of the first `n` characters, and
   * the error names the quartet.
   */
  lemma {:induction false} StopsAtQuartet(t: seq<bv8>, n: nat)
    requires |t| % 4 == 0 && n % 4 == 0 && n + 4 <= |t| && DecFull(t[..n]).Some?
    requires !AllAlphabet(t[n..n + 4])
    ensures DecFull(t).None?
    ensures ValidPrefix(t) == DecFull(t[..n]).value
    ensures FirstInvalid(t, InvalidInput(t[n..n + 4]))
  {
    var a, q, rest := t[..n], t[n..n + 4], t[n + 4..];
    QuartetsAfter(|t|, n + 4);
    SplitAtQuartet(t, n);
    StopsAt(a, q, rest);
    FirstInvalidAt(t, n);
  }

  lemma {:induction false} FirstInvalidAt(t: seq<bv8>, n: nat)
    requires |t| % 4 == 0 && n % 4 == 0 && n + 4 <= |t| && !AllAlphabet(t[n..n + 4])
    requires DecFull(t[..n]).Some? && ValidPrefix(t) == DecFull(t[..n]).value
    ensures FirstInvalid(t, InvalidInput(t[n..n + 4]))
  {
    var k := n / 4;
    assert n == 4 * k;
    assert |ValidPrefix(t)| == 3 * k;
    QuartetsOfTriplets(k);
  }

  lemma {:induction false} SplitAtQuartet(t: seq<bv8>, i: nat)
    requires i + 4 <= |t|
    ensures t == t[..i] + (t[i..i + 4] + t[i + 4..])
  {
  }

  lemma {:induction false} StopsAt(a: seq<bv8>, q: seq<bv8>, rest: seq<bv8>)
    requires |a| % 4 == 0 && |q| == 4 && |rest| % 4 == 0
    requires DecFull(a).Some? && !AllAlphabet(q)
    ensures DecFull(a + (q + rest)).None?
    ensures ValidPrefix(a + (q + rest)) == DecFull(a).value
  {
    var qr := q + rest;
    assert |qr| == |rest| + 4;
    AddQuartet(|rest|);
    DecFullAppend(a, qr);
    DecFullAppend(q, rest);
    DecFullOfQuartet(q);
    ValidPrefixAppend(a, qr);
    PrefixOfAppend(q, rest);
    assert !(IsAlphabet(q[0]) && IsAlphabet(q[1]) && IsAlphabet(q[2]) && IsAlphabet(q[3]));
  }

  lemma {:induction false} QuartetSum(m: nat, n: nat)
    requires m % 4 == 0 && n % 4 == 0
    ensures (m + n) % 4 == 0
  {
  }

  lemma {:induction false} AddQuartet(n: nat)
    requires n % 4 == 0
    ensures (n + 4) % 4 == 0
  {
  }

  lemma {:induction false} QuartetsAfter(n: nat, m: nat)
    requires n % 4 == 0 && m % 4 == 0 && m <= n
    ensures (n - m) % 4 == 0
  {
  }

  lemma {:induction false} QuartetsOfTriplets(k: nat)
    ensures (3 * k) / 3 * 4 == 4 * k
  {
  }

  /** One more valid quartet, at offset `n`, extends the decoding of the first `n` characters. */
  lemma {:induction false} DecFullStep(t: seq<bv8>, n: nat)
    requires n % 4 == 0 && n + 4 <= |t| && DecFull(t[..n]).Some?
    requires IsAlphabet(t[n]) && IsAlphabet(t[n + 1]) && IsAlphabet(t[n + 2]) && IsAlphabet(t[n + 3])
    ensures DecFull(t[..n + 4]) == Some(DecFull(t[..n]).value + DecodeQuartet(t[n], t[n + 1], t[n + 2], t[n + 3]))
  {
    var p, q := t[..n], t[n..n + 4];
    PrefixSlice(t, n, n + 4);
    Slice4(t, n);
    assert AllAlphabet(q);
    DecFullSnoc(p, q);
  }

  /**
   * A piece with an invalid quartet, after valid quartets `a`: the whole does
   * not decode, its valid prefix ends inside the piece, and its first invalid
   * quartet is the piece's.
   */
  lemma {:induction false} RejectedPiece(a: seq<bv8>, p: seq<bv8>, c: seq<bv8>, e: CodecError)
    requires |a| % 4 == 0 && |p| % 4 == 0 && |c| % 4 == 0
    ensures DecFull(a).Some? && DecFull(p).None? && FirstInvalid(p, e) ==>
      && DecFull(a + (p + c)).None?
      && ValidPrefix(a + (p + c)) == DecFull(a).value + ValidPrefix(p)
      && FirstInvalid(a + (p + c), e)
  {
    if DecFull(a).Some? && DecFull(p).None? && FirstInvalid(p, e) {
      RejectedPieceValid(a, p, c, e);
    }
  }

  lemma {:induction false} RejectedPieceValid(a: seq<bv8>, p: seq<bv8>, c: seq<bv8>, e: CodecError)
    requires |a| % 4 == 0 && |p| % 4 == 0 && |c| % 4 == 0
    requires DecFull(a).Some? && DecFull(p).None? && FirstInvalid(p, e)
    ensures DecFull(a + (p + c)).None?
    ensures ValidPrefix(a + (p + c)) == DecFull(a).value + ValidPrefix(p)
    ensures FirstInvalid(a + (p + c), e)
  {
    var pc := p + c;
    QuartetSum(|p|, |c|);
    DecFullAppend(p, c);
    DecFullAppend(a, pc);
    ValidPrefixAppend(p, c);
    ValidPrefixAppend(a, pc);
    FirstInvalidBefore(p, c, e);
    FirstInvalidAfter(a, pc, e);
  }

  /** The first invalid quartet of `a` is that of `a + b` when `b` leaves the valid prefix unchanged. */
  lemma {:induction false} FirstInvalidBefore(a: seq<bv8>, b: seq<bv8>, e: CodecError)
    requires FirstInvalid(a, e) && ValidPrefix(a + b) == ValidPrefix(a)
    ensures FirstInvalid(a + b, e)
  {
    var m := |ValidPrefix(a)| / 3 * 4;
    SliceInLeft(a, b, m, m + 4);
  }

  /** The first invalid quartet of `b` is that of `a + b` when `a` is valid. */
  lemma {:induction false} FirstInvalidAfter(a: seq<bv8>, b: seq<bv8>, e: CodecError)
    requires |a| % 4 == 0 && DecFull(a).Some? && FirstInvalid(b, e)
    requires ValidPrefix(a + b) == DecFull(a).value + ValidPrefix(b)
    ensures FirstInvalid(a + b, e)
  {
    var m := |ValidPrefix(b)| / 3 * 4;
    ShiftQuartets(|a|, |DecFull(a).value|, |ValidPrefix(b)|, |ValidPrefix(a + b)|);
    SliceInRight(a, b, m, 4, |ValidPrefix(a + b)| / 3 * 4);
  }

  lemma {:induction false} ShiftQuartets(n: nat, w: nat, v: nat, total: nat)
    requires 4 * w == 3 * n && v % 3 == 0 && total == w + v
    ensures total / 3 * 4 == n + v / 3 * 4
  {
  }
}
