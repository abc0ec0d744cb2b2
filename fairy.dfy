/**
 * The `Fairy` codec of `codecs`: the same `encode_buf` loop as `Vanilla`,
 * but every character is looked up in one of the four tables of the build
 * script and stored with its own `push`, so the text may fill the output to
 * its last byte.
 */
module Fairy {
  import opened Base64Spec
  import opened Buffers
  import opened Codecs
  import opened BuildLuts

  /**
   * `push_chars_lut`: the four table characters of the triplet at the start
   * of `chunk`, which are characters `j` to `j + 3` of `text`, pushed one by
   * one; the first `push` that finds the buffer full stops it.
   */
  method PushCharsLut(chunk: seq<bv8>, output: CodecBuf, ghost b0: seq<bv8>, ghost p0: nat, ghost text: seq<bv8>, ghost j: nat) returns (r: Result<()>)
    requires |chunk| >= 3 && j + 4 <= |text| && text[j..j + 4] == Quartet(chunk[0], chunk[1], chunk[2])
    requires Written(output, b0, p0, text[..j])
    modifies output, output.buf
    ensures r.Ok? <==> p0 + j + 4 <= BUF_LEN
    ensures r.Ok? ==> Written(output, b0, p0, text[..j + 4])
    ensures r.Err? ==> r.error == BufferOverflow && Stopped(output, b0, p0, text)
  {
    var c0 := C0Lut(chunk[0]);
    var i := Pack(chunk[1], chunk[0]);
    var c1 := C1Lut(i);
    i := Pack(chunk[2], chunk[1]);
    var c2 := C2Lut(i);
    var c3 := C3Lut(chunk[2] as bv16);
    ghost var e := text[j..j + 4];
    TableChars(chunk[0], chunk[1], chunk[2], e, c0, c1, c2, c3);
    assert text[j] == e[0] && text[j + 1] == e[1] && text[j + 2] == e[2] && text[j + 3] == e[3];
    r := PushTwo(output, c0, c1, b0, p0, text, j);
    if r.Err? {
      return;
    }
    r := PushTwo(output, c2, c3, b0, p0, text, j + 2);
  }

  /** The four table characters of a triplet are its quartet. */
  lemma {:induction false} TableChars(t1: bv8, t2: bv8, t3: bv8, q: seq<bv8>, c0: bv8, c1: bv8, c2: bv8, c3: bv8)
    requires q == Quartet(t1, t2, t3)
    requires c0 == C0Lut(t1) && c1 == C1Lut(Pack(t2, t1)) && c2 == C2Lut(Pack(t3, t2)) && c3 == C3Lut(t3 as bv16)
    ensures q == [c0, c1, c2, c3]
  {
    LutsGiveQuartet(t1, t2, t3);
  }

  /** Up to two pushes of `c0 c1`, characters `j` and `j + 1` of `text`, stopping at the first failure. */
  method PushTwo(output: CodecBuf, c0: bv8, c1: bv8, ghost b0: seq<bv8>, ghost p0: nat, ghost text: seq<bv8>, ghost j: nat) returns (r: Result<()>)
    requires j + 2 <= |text| && text[j] == c0 && text[j + 1] == c1
    requires Written(output, b0, p0, text[..j])
    modifies output, output.buf
    ensures r.Ok? <==> p0 + j + 2 <= BUF_LEN
    ensures r.Ok? ==> Written(output, b0, p0, text[..j + 2])
    ensures r.Err? ==> r.error == BufferOverflow && Stopped(output, b0, p0, text)
  {
    r := PushNext(output, c0, b0, p0, text, j);
    if r.Err? {
      return;
    }
    r := PushNext(output, c1, b0, p0, text, j + 1);
  }

  /**
   * `push_chars_lut_n`: for a last chunk of 1 to 3 bytes, the first
   * `|chunk| + 1` table characters, a missing byte read as zero; it returns
   * after two characters for one byte and after three for two.
   */
  method PushCharsLutN(chunk: seq<bv8>, output: CodecBuf, ghost b0: seq<bv8>, ghost p0: nat, ghost text: seq<bv8>, ghost j: nat) returns (r: Result<()>)
    requires 1 <= |chunk| <= 3 && j + |chunk| + 1 <= |text| && text[j..j + |chunk| + 1] == Enc(chunk)[..|chunk| + 1]
    requires Written(output, b0, p0, text[..j])
    modifies output, output.buf
    ensures r.Ok? <==> p0 + j + |chunk| + 1 <= BUF_LEN
    ensures r.Ok? ==> Written(output, b0, p0, text[..j + |chunk| + 1])
    ensures r.Err? ==> r.error == BufferOverflow && Stopped(output, b0, p0, text)
  {
    var t1 := if |chunk| > 1 then chunk[1] else 0;
    var t2 := if |chunk| > 2 then chunk[2] else 0;
    var c0 := C0Lut(chunk[0]);
    var i := Pack(t1, chunk[0]);
    var c1 := C1Lut(i);
    i := Pack(t2, t1);
    var c2 := C2Lut(i);
    var c3 := C3Lut(t2 as bv16);
    LastChunkText(chunk, t1, t2, text, j, c0, c1, c2, c3);
    r := PushTwo(output, c0, c1, b0, p0, text, j);
    if r.Err? || |chunk| < 2 {
      return;
    }
    r := PushNext(output, c2, b0, p0, text, j + 2);
    if r.Err? || |chunk| < 3 {
      return;
    }
    r := PushNext(output, c3, b0, p0, text, j + 3);
  }

  /** The table characters of a last chunk are the `|chunk| + 1` characters of `text` from `j`. */
  lemma {:induction false} LastChunkText(chunk: seq<bv8>, t1: bv8, t2: bv8, text: seq<bv8>, j: nat, c0: bv8, c1: bv8, c2: bv8, c3: bv8)
    requires 1 <= |chunk| <= 3 && j + |chunk| + 1 <= |text| && text[j..j + |chunk| + 1] == Enc(chunk)[..|chunk| + 1]
    requires t1 == (if |chunk| > 1 then chunk[1] else 0) && t2 == (if |chunk| > 2 then chunk[2] else 0)
    requires c0 == C0Lut(chunk[0]) && c1 == C1Lut(Pack(t1, chunk[0])) && c2 == C2Lut(Pack(t2, t1)) && c3 == C3Lut(t2 as bv16)
    ensures text[j] == c0 && text[j + 1] == c1
    ensures |chunk| >= 2 ==> text[j + 2] == c2
    ensures |chunk| == 3 ==> text[j + 3] == c3
  {
    var q := Quartet(chunk[0], t1, t2);
    LastChunkQuartet(chunk, t1, t2);
    TableChars(chunk[0], t1, t2, q, c0, c1, c2, c3);
    var e := text[j..j + |chunk| + 1];
    assert e == q[..|chunk| + 1];
    assert text[j] == e[0] && text[j + 1] == e[1];
    if |chunk| >= 2 {
      assert text[j + 2] == e[2];
    }
    if |chunk| == 3 {
      assert text[j + 3] == e[3];
    }
  }

  /** A last chunk of 1 to 3 bytes, a missing byte read as zero: its encoding starts with `|chunk| + 1` characters of that triplet's quartet. */
  lemma {:induction false} LastChunkQuartet(chunk: seq<bv8>, t1: bv8, t2: bv8)
    requires 1 <= |chunk| <= 3
    requires t1 == (if |chunk| > 1 then chunk[1] else 0) && t2 == (if |chunk| > 2 then chunk[2] else 0)
    ensures |Enc(chunk)| == 4 && Enc(chunk)[..|chunk| + 1] == Quartet(chunk[0], t1, t2)[..|chunk| + 1]
  {
    LastText(chunk, Splice([0, 0, 0], 0, chunk));
  }

  /**
   * `encode_buf`: appends the Base64 encoding of the input's filled part to
   * the output and succeeds exactly when the whole text fits in the buffer;
   * on `BufferOverflow` the output holds the part of the text pushed before
   * the full buffer was found. An empty input reaches `unreachable!`.
   */
  method EncodeBuf(input: CodecBuf, output: CodecBuf) returns (r: Result<()>)
    requires input.Valid() && output.Valid() && input.buf != output.buf && input.bufPos > 0
    modifies output, output.buf
    ensures r.Ok? <==> old(output.bufPos) + EncodeLen(input.bufPos) <= BUF_LEN
    ensures r.Ok? ==> Written(output, old(output.buf[..]), old(output.bufPos), Enc(input.AsRef()))
    ensures r.Err? ==> r.error == BufferOverflow && Stopped(output, old(output.buf[..]), old(output.bufPos), Enc(input.AsRef()))
  {
    ghost var b0, p0 := output.buf[..], output.bufPos;
    ghost var text := Enc(input.AsRef());
    EncLength(input.AsRef());
    var lastChunk, i;
    r, lastChunk, i := EncodeChunks(input, output, b0, p0);
    if r.Err? {
      return;
    }
    LastChunk(input.AsRef(), i);
    r := EncodeLast(output, lastChunk, input.Len(), b0, p0, text, 4 * i);
  }

  /**
   * The end of `encode_buf`, for an input of `len` bytes whose text is
   * `text` and whose first `j` characters are written: the last chunk
   * through `push_chars_lut_n`, then `=` for each byte missing.
   */
  method EncodeLast(output: CodecBuf, lastChunk: seq<bv8>, len: nat, ghost b0: seq<bv8>, ghost p0: nat, ghost text: seq<bv8>, ghost j: nat) returns (r: Result<()>)
    requires 1 <= |lastChunk| <= 3 && len % 3 == |lastChunk| % 3
    requires |text| == j + 4 && text[j..] == Enc(lastChunk) && Written(output, b0, p0, text[..j])
    modifies output, output.buf
    ensures r.Ok? <==> p0 + |text| <= BUF_LEN
    ensures r.Ok? ==> Written(output, b0, p0, text)
    ensures r.Err? ==> r.error == BufferOverflow && Stopped(output, b0, p0, text)
  {
    LastText(lastChunk, Splice([0, 0, 0], 0, lastChunk));
    assert text[j..j + |lastChunk| + 1] == Enc(lastChunk)[..|lastChunk| + 1];
    r := PushCharsLutN(lastChunk, output, b0, p0, text, j);
    if r.Err? {
      return;
    }
    r := PushPadding(output, len, b0, p0, text, j + |lastChunk| + 1);
  }

  /**
   * The `for` loop of `encode_buf`: every chunk of 3 but the last through
   * `push_chars_lut`. It stops at the first overflow, which leaves too
   * little room for the text; otherwise it hands on the last chunk, 1 to 3
   * bytes from `3 * i`, with the first `4 * i` characters written.
   */
  method EncodeChunks(input: CodecBuf, output: CodecBuf, ghost b0: seq<bv8>, ghost p0: nat) returns (r: Result<()>, lastChunk: seq<bv8>, i: nat)
    requires input.Valid() && input.buf != output.buf && input.bufPos > 0
    requires Written(output, b0, p0, [])
    modifies output, output.buf
    ensures r.Err? ==> r.error == BufferOverflow && Stopped(output, b0, p0, Enc(input.AsRef()))
    ensures r.Err? ==> p0 + |Enc(input.AsRef())| > BUF_LEN
    ensures r.Ok? ==> 3 * i < input.bufPos <= 3 * i + 3 && lastChunk == input.AsRef()[3 * i..]
    ensures r.Ok? ==> 4 * i <= |Enc(input.AsRef())| && Written(output, b0, p0, Enc(input.AsRef())[..4 * i])
  {
    ghost var data := input.AsRef();
    ghost var text := Enc(data);
    EncLength(data);
    ChunksLen(|data|);
    var chunks := input.Chunks(3);
    var chunksLen := |chunks|;
    lastChunk := [];
    i := 0;
    assert text[..0] == [];
    while true
      invariant i < chunksLen && 4 * i <= |text|
      invariant Written(output, b0, p0, text[..4 * i])
      decreases chunksLen - i
    {
      if i == chunksLen - 1 {
        lastChunk := chunks[i];
        break;
      }
      assert chunks[i] == data[3 * i..3 * i + 3];
      EncQuartetAt(data, i);
      r := PushCharsLut(chunks[i], output, b0, p0, text, 4 * i);
      if r.Err? {
        assert |text| >= 4 * i + 8;
        return;
      }
      i := i + 1;
    }
    r := Ok(());
  }
}
