/**
 * The crate's first, scalar encoder (`encode::encode`): it appends the
 * characters of every chunk of 3 to a growing vector, the last chunk
 * zero-extended and cut to one character more than it has bytes, then the
 * padding, and returns the vector as a `String`.
 */
module Encode {
  import opened Base64Spec
  import opened Buffers
  import opened Codecs
  import opened Seqs
  import SimpleSimd

  /** `push_chars`: the first `numChars` characters of the triplet at the start of `chunk`, pushed one at a time. */
  method PushChars(chunk: seq<bv8>, output: seq<bv8>, numChars: nat) returns (o: seq<bv8>)
    requires |chunk| >= 3 && numChars <= 4
    ensures o == output + Quartet(chunk[0], chunk[1], chunk[2])[..numChars]
  {
    var nSplit := SimpleSimd.NSplit(chunk[0], chunk[1], chunk[2]);
    ghost var q := Quartet(chunk[0], chunk[1], chunk[2]);
    o := output;
    for i := 0 to numChars
      invariant o == output + q[..i]
    {
      assert q[..i + 1] == q[..i] + [q[i]];
      o := o + [Char(nSplit[i])];
    }
  }

  /**
   * `encode`: the Base64 encoding of `input`, every byte of it an alphabet
   * character or `=`, so the conversion to `String` cannot fail. The empty
   * input makes `chunks_len - 1` underflow, so `input` must not be empty.
   */
  method Encode(input: seq<bv8>) returns (s: seq<bv8>)
    requires |input| > 0
    ensures s == Enc(input)
    ensures forall i | 0 <= i < |s| :: IsAlphabet(s[i]) || s[i] == PAD
  {
    var chunks := SliceChunks(input, 3);
    var chunksLen := |chunks|;
    var output := PushChunks(input, chunks[..chunksLen - 1]);
    output := PushLast(input, output);
    EncIsText(input);
    s := output;
  }

  /** The loop over all chunks but the last: four characters each, the first `4 * (|chunks| - 1)` of the text. */
  method PushChunks(input: seq<bv8>, chunks: seq<seq<bv8>>) returns (output: seq<bv8>)
    requires |input| > 0 && chunks == SliceChunks(input, 3)[..(|input| + 2) / 3 - 1]
    ensures 3 * |chunks| < |input| <= 3 * |chunks| + 3
    ensures |Enc(input)| == 4 * |chunks| + 4 && output == Enc(input)[..4 * |chunks|]
  {
    ChunksLen(|input|);
    EncLength(input);
    ghost var text := Enc(input);
    output := [];
    for k := 0 to |chunks|
      invariant output == text[..4 * k]
    {
      ChunkAt(input, 3, k);
      EncQuartetAt(input, k);
      output := PushChars(chunks[k], output, 4);
      assert text[..4 * k + 4] == text[..4 * k] + text[4 * k..4 * k + 4];
    }
  }

  /**
   * The last chunk, zero-extended, with one character more than it has
   * bytes, then `=` for each byte missing: what is left of the text.
   */
  method PushLast(input: seq<bv8>, output: seq<bv8>) returns (o: seq<bv8>)
    requires |input| > 0 && |output| % 4 == 0 && 3 * (|output| / 4) < |input| <= 3 * (|output| / 4) + 3
    requires |Enc(input)| == |output| + 4 && output == Enc(input)[..|output|]
    ensures o == Enc(input)
  {
    ghost var i := |output| / 4;
    var lastChunk := if |input| % 3 == 0 then input[|input| - 3..] else input[|input| / 3 * 3..];
    assert lastChunk == input[3 * i..];
    var finalChunk := Splice([0, 0, 0], 0, lastChunk);
    LastChunk(input, i);
    LastTextSplit(lastChunk, finalChunk);
    ghost var text := Enc(input);
    assert text == output + Enc(lastChunk);
    var numChars := if |lastChunk| == 1 then 2 else if |lastChunk| == 2 then 3 else 4;
    o := PushChars(finalChunk, output, numChars);
    ghost var chars := o;
    if |input| % 3 == 1 {
      o := o + [PAD];
      o := o + [PAD];
      assert Padding(|lastChunk|) == [PAD, PAD];
    } else if |input| % 3 == 2 {
      o := o + [PAD];
      assert Padding(|lastChunk|) == [PAD];
    }
    assert o == chars + Padding(|lastChunk|);
    AppendAssoc(output, Quartet(finalChunk[0], finalChunk[1], finalChunk[2])[..numChars], Padding(|lastChunk|));
  }

  /** The test `simple`: `hello\n` encodes to `aGVsbG8K`. */
  lemma {:induction false} EncodeHello()
    ensures Enc([0x68, 0x65, 0x6C, 0x6C, 0x6F, 0x0A]) == [0x61, 0x47, 0x56, 0x73, 0x62, 0x47, 0x38, 0x4B]
  {
    var s: seq<bv8> := [0x68, 0x65, 0x6C, 0x6C, 0x6F, 0x0A];
    assert s[3..][3..] == [];
  }

  /** The test `simple`: `helllo\n` encodes to `aGVsbGxvCg==`. */
  lemma {:induction false} EncodeHelllo()
    ensures Enc([0x68, 0x65, 0x6C, 0x6C, 0x6C, 0x6F, 0x0A]) == [0x61, 0x47, 0x56, 0x73, 0x62, 0x47, 0x78, 0x76, 0x43, 0x67, 0x3D, 0x3D]
  {
    var s: seq<bv8> := [0x68, 0x65, 0x6C, 0x6C, 0x6C, 0x6F, 0x0A];
    assert s[3..][3..] == [0x0A];
  }
}
