/**
 * The lookup tables of the scalar codec. The table modules themselves are
 * not part of this model; each table is given by the formula its entries
 * follow and the lemmas below state what the codec relies on:
 *   - `E0/E1/E2` map an index to a character of the alphabet;
 *   - `D0..D3` map a character to its 6-bit value already shifted into
 *     place in a little-endian 32-bit word, or to `BADCHAR` for any byte
 *     outside the alphabet, so that the OR of four lookups is below
 *     `BADCHAR` exactly when the quartet is valid, and then holds the three
 *     decoded bytes in its low three bytes.
 */
module Luts {
  import opened Base64Spec

  function E0(t: bv8): bv8 { Char(t >> 2) }
  function E1(x: bv8): bv8 { Char(x & 0x3F) }
  function E2(x: bv8): bv8 { Char(x & 0x3F) }

  /** Any lookup that ORs in this value marks the quartet invalid. */
  const BADCHAR: bv32 := 0x01FF_FFFF

  /** The little-endian 32-bit word whose bytes in memory order are `b0, b1, b2, 0`. */
  function Word(b0: bv8, b1: bv8, b2: bv8): bv32
  {
    (b0 as bv32) | ((b1 as bv32) << 8) | ((b2 as bv32) << 16)
  }

  /** First character: its six bits at the top of byte 0. */
  function D0(c: bv8): bv32
  {
    if IsAlphabet(c) then Word(Value(c) << 2, 0, 0) else BADCHAR
  }

  /** Second character: its top two bits at the bottom of byte 0, its low four at the top of byte 1. */
  function D1(c: bv8): bv32
  {
    if IsAlphabet(c) then Word(Value(c) >> 4, Value(c) << 4, 0) else BADCHAR
  }

  /** Third character: its top four bits at the bottom of byte 1, its low two at the top of byte 2. */
  function D2(c: bv8): bv32
  {
    if IsAlphabet(c) then Word(0, Value(c) >> 2, Value(c) << 6) else BADCHAR
  }

  /** Fourth character: its six bits at the bottom of byte 2. */
  function D3(c: bv8): bv32
  {
    if IsAlphabet(c) then Word(0, 0, Value(c)) else BADCHAR
  }

  /** Byte 0, 1 and 2 of a 32-bit word in little-endian memory order. */
  function Byte0(x: bv32): bv8 { (x & 0xFF) as bv8 }
  function Byte1(x: bv32): bv8 { ((x >> 8) & 0xFF) as bv8 }
  function Byte2(x: bv32): bv8 { ((x >> 16) & 0xFF) as bv8 }

  /**
   * Four valid characters: the OR stays below `BADCHAR` and its low three
   * bytes are the decoded triplet; one invalid character pushes it to
   * `BADCHAR` or above.
   */
  lemma {:induction false} DecodeLookups(c0: bv8, c1: bv8, c2: bv8, c3: bv8)
    ensures var x := D0(c0) | D1(c1) | D2(c2) | D3(c3);
      && (x < BADCHAR <==> IsAlphabet(c0) && IsAlphabet(c1) && IsAlphabet(c2) && IsAlphabet(c3))
      && (x < BADCHAR ==> [Byte0(x), Byte1(x), Byte2(x)] == DecodeQuartet(c0, c1, c2, c3))
  {
    if IsAlphabet(c0) && IsAlphabet(c1) && IsAlphabet(c2) && IsAlphabet(c3) {
      var q := DecodeQuartet(c0, c1, c2, c3);
      ValidLookups(c0, c1, c2, c3);
      WordBytes(D0(c0) | D1(c1) | D2(c2) | D3(c3), q[0], q[1], q[2]);
    } else {
      assert D0(c0) == BADCHAR || D1(c1) == BADCHAR || D2(c2) == BADCHAR || D3(c3) == BADCHAR;
      OrWithBad(D0(c0), D1(c1), D2(c2), D3(c3));
    }
  }

  /** Four alphabet characters: the OR of their lookups is the word of their decoded triplet. */
  lemma {:induction false} ValidLookups(c0: bv8, c1: bv8, c2: bv8, c3: bv8)
    requires IsAlphabet(c0) && IsAlphabet(c1) && IsAlphabet(c2) && IsAlphabet(c3)
    ensures var q := DecodeQuartet(c0, c1, c2, c3);
      D0(c0) | D1(c1) | D2(c2) | D3(c3) == Word(q[0], q[1], q[2])
  {
    var v0, v1, v2, v3 := Value(c0), Value(c1), Value(c2), Value(c3);
    WordOr(v0 << 2, 0, 0, v1 >> 4, v1 << 4, 0);
    WordOr((v0 << 2) | (v1 >> 4), v1 << 4, 0, 0, v2 >> 2, v2 << 6);
    WordOr((v0 << 2) | (v1 >> 4), (v1 << 4) | (v2 >> 2), v2 << 6, 0, 0, v3);
  }

  /** The OR of two words is the word of the ORs of their bytes. */
  lemma {:induction false} WordOr(a0: bv8, a1: bv8, a2: bv8, b0: bv8, b1: bv8, b2: bv8)
    ensures Word(a0, a1, a2) | Word(b0, b1, b2) == Word(a0 | b0, a1 | b1, a2 | b2)
  {
  }

  /** A word is below `BADCHAR`, and its bytes are the ones it was built from. */
  lemma {:induction false} WordBytes(x: bv32, b0: bv8, b1: bv8, b2: bv8)
    requires x == Word(b0, b1, b2)
    ensures x < BADCHAR && Byte0(x) == b0 && Byte1(x) == b1 && Byte2(x) == b2
  {
  }

  /**
   * Three characters (the `=`-padded tail): the OR of `D0..D2`. A fourth
   * character `A` (value 0, lookup 0) would change nothing, so the tail
   * reads as the quartet completed with `A`.
   */
  lemma {:induction false} DecodeLookups3(t: seq<bv8>)
    requires |t| == 3
    ensures var x := D0(t[0]) | D1(t[1]) | D2(t[2]);
      && (x < BADCHAR <==> DecTail(t).Some?)
      && (x < BADCHAR ==> DecTail(t).value == [Byte0(x), Byte1(x)])
  {
    var c0, c1, c2 := t[0], t[1], t[2];
    DecodeLookups(c0, c1, c2, 0x41);
    assert D3(0x41) == 0;
    if IsAlphabet(c0) && IsAlphabet(c1) && IsAlphabet(c2) {
      assert AllAlphabet(t);
      Tail3AsQuartet(t);
    }
  }

  /** Two characters (the `==`-padded tail): the OR of `D0` and `D1`, read as the quartet completed with `AA`. */
  lemma {:induction false} DecodeLookups2(t: seq<bv8>)
    requires |t| == 2
    ensures var x := D0(t[0]) | D1(t[1]);
      && (x < BADCHAR <==> DecTail(t).Some?)
      && (x < BADCHAR ==> DecTail(t).value == [Byte0(x)])
  {
    var c0, c1 := t[0], t[1];
    DecodeLookups(c0, c1, 0x41, 0x41);
    assert D2(0x41) == 0 && D3(0x41) == 0;
    if IsAlphabet(c0) && IsAlphabet(c1) {
      assert AllAlphabet(t);
      Tail2AsQuartet(t);
    }
  }

  /** An OR in which one operand is `BADCHAR` is at least `BADCHAR`. */
  lemma {:induction false} OrWithBad(a: bv32, b: bv32, c: bv32, d: bv32)
    requires a == BADCHAR || b == BADCHAR || c == BADCHAR || d == BADCHAR
    ensures a | b | c | d >= BADCHAR
  {
  }
}
