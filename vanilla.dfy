/**
 * The `Vanilla` codec of `codecs`, the default one: `encode_buf` encodes the
 * filled part of one `CodecBuf` and appends the text to another, a triplet at
 * a time through `push_chars` (one `extend_by_slice` per triplet), then the
 * padding through `push`.
 *
 * `extend_by_slice` refuses a slice that would end at the last byte of the
 * buffer, so the text of a whole number of triplets must end one byte early,
 * and a full round of `encode_stream` (768 bytes, 1024 characters) fails.
 * `EncodeBufWithin` models the codec for either bound of the slice:
 * `EncodeBuf` is the codec as written, `EncodeBufCorrected` lets the slice
 * end at the end of the buffer.
 */
module Vanilla {
  import opened Base64Spec
  import opened Buffers
  import opened Codecs
  import SimpleSimd

  /**
   * When `encode_buf` succeeds, starting with `p0` bytes in the output: the
   * text ends by `room` when its last bytes come from `extend_by_slice`
   * (no padding), and by the end of the buffer when they come from `push`.
   */
  predicate Fits(p0: nat, n: nat, room: nat)
  {
    if n % 3 == 0 then p0 + EncodeLen(n) <= room else p0 + EncodeLen(n) <= BUF_LEN
  }

  /**
   * `push_chars`: the four 6-bit groups of the triplet at the start of
   * `chunk`, their first `numChars` characters appended with one
   * `extend_by_slice` bounded by `room`.
   */
  method PushChars(chunk: seq<bv8>, output: CodecBuf, numChars: nat, room: nat) returns (r: Result<()>)
    requires |chunk| >= 3 && numChars <= 4 && output.Valid() && room <= BUF_LEN
    modifies output, output.buf
    ensures output.Valid()
    ensures r.Err? <==> old(output.bufPos) + numChars > room
    ensures r.Err? ==> r.error == BufferOverflow && output.bufPos == old(output.bufPos) && output.buf[..] == old(output.buf[..])
    ensures r.Ok? ==> output.bufPos == old(output.bufPos) + numChars
    ensures r.Ok? ==> output.buf[..] == Splice(old(output.buf[..]), old(output.bufPos), Quartet(chunk[0], chunk[1], chunk[2])[..numChars])
  {
    var nSplit := SimpleSimd.NSplit(chunk[0], chunk[1], chunk[2]);
    var o0, o1, o2, o3 := Char(nSplit[0]), Char(nSplit[1]), Char(nSplit[2]), Char(nSplit[3]);
    r := output.ExtendWithin([o0, o1, o2, o3][..numChars], room);
  }

  /** `push_chars` of the next `numChars` characters of `text`, the first `j` being written. */
  method PushCharsNext(chunk: seq<bv8>, output: CodecBuf, numChars: nat, room: nat, ghost b0: seq<bv8>, ghost p0: nat, ghost text: seq<bv8>, ghost j: nat) returns (r: Result<()>)
    requires |chunk| >= 3 && 0 < numChars <= 4 && room <= BUF_LEN && j + numChars <= |text|
    requires text[j..j + numChars] == Quartet(chunk[0], chunk[1], chunk[2])[..numChars]
    requires Written(output, b0, p0, text[..j])
    modifies output, output.buf
    ensures r.Err? <==> p0 + j + numChars > room
    ensures r.Err? ==> r.error == BufferOverflow && Stopped(output, b0, p0, text)
    ensures r.Ok? ==> Written(output, b0, p0, text[..j + numChars])
  {
    r := PushChars(chunk, output, numChars, room);
    if r.Ok? {
      WrittenMore(b0, p0, text, j, Quartet(chunk[0], chunk[1], chunk[2])[..numChars]);
    }
  }

  /**
   * `encode_buf` with the slices bounded by `room`: appends the Base64
   * encoding of the input's filled part to the output, and succeeds exactly
   * when `Fits`; on `BufferOverflow` the output holds the part of the text
   * written before the failing call. An empty input reaches `unreachable!`.
   */
  method EncodeBufWithin(input: CodecBuf, output: CodecBuf, room: nat) returns (r: Result<()>)
    requires input.Valid() && output.Valid() && input.buf != output.buf
    requires input.bufPos > 0 && BUF_LEN - 1 <= room <= BUF_LEN
    modifies output, output.buf
    ensures r.Ok? <==> Fits(old(output.bufPos), input.bufPos, room)
    ensures r.Ok? ==> Written(output, old(output.buf[..]), old(output.bufPos), Enc(input.AsRef()))
    ensures r.Err? ==> r.error == BufferOverflow && Stopped(output, old(output.buf[..]), old(output.bufPos), Enc(input.AsRef()))
  {
    ghost var b0, p0 := output.buf[..], output.bufPos;
    ghost var text := Enc(input.AsRef());
    EncLength(input.AsRef());
    var lastChunk;
    var i;
    r, lastChunk, i := EncodeChunks(input, output, room, b0, p0);
    if r.Err? {
      return;
    }
    LastChunk(input.AsRef(), i);
    r := EncodeLast(output, room, lastChunk, input.Len(), b0, p0, text, 4 * i);
  }

  /**
   * The `for` loop of `encode_buf`: every chunk of 3 but the last through
   * `push_chars`, 4 characters each. It stops at the first overflow, which
   * leaves too little room for the text; otherwise it hands on the last
   * chunk, 1 to 3 bytes from `3 * i`, with the first `4 * i` characters
   * written.
   */
  method EncodeChunks(input: CodecBuf, output: CodecBuf, room: nat, ghost b0: seq<bv8>, ghost p0: nat) returns (r: Result<()>, lastChunk: seq<bv8>, i: nat)
    requires input.Valid() && input.buf != output.buf && input.bufPos > 0 && BUF_LEN - 1 <= room <= BUF_LEN
    requires Written(output, b0, p0, [])
    modifies output, output.buf
    ensures r.Err? ==> r.error == BufferOverflow && Stopped(output, b0, p0, Enc(input.AsRef()))
    ensures r.Err? ==> p0 + |Enc(input.AsRef())| > BUF_LEN
    ensures r.Ok? ==> 3 * i < input.bufPos <= 3 * i + 3 && lastChunk == input.AsRef()[3 * i..]
    ensures r.Ok? ==> 4 * i <= |Enc(input.AsRef())| && Written(output, b0, p0, Enc(input.AsRef())[..4 * i])
  {
    ghost var data := input.AsRef();
    ghost var text := Enc(data);
    EncLength(data);
    ChunksLen(|data|);
    var chunks := input.Chunks(3);
    var chunksLen := |chunks|;
    lastChunk := [];
    i := 0;
    assert text[..0] == [];
    while true
      invariant i < chunksLen && 4 * i <= |text|
      invariant Written(output, b0, p0, text[..4 * i])
      decreases chunksLen - i
    {
      if i == chunksLen - 1 {
        lastChunk := chunks[i];
        break;
      }
      assert chunks[i] == data[3 * i..3 * i + 3];
      EncQuartetAt(data, i);
      r := PushCharsNext(chunks[i], output, 4, room, b0, p0, text, 4 * i);
      if r.Err? {
        assert |text| >= 4 * i + 8;
        return;
      }
      i := i + 1;
    }
    r := Ok(());
  }

  /**
   * The end of `encode_buf`, for an input of `len` bytes whose text is
   * `text` and whose first `j` characters are written: the last chunk,
   * zero-extended to a triplet, gives one character more than it has
   * bytes, then `=` for each byte missing, pushed one at a time.
   */
  method EncodeLast(output: CodecBuf, room: nat, lastChunk: seq<bv8>, len: nat, ghost b0: seq<bv8>, ghost p0: nat, ghost text: seq<bv8>, ghost j: nat) returns (r: Result<()>)
    requires BUF_LEN - 1 <= room <= BUF_LEN
    requires 1 <= |lastChunk| <= 3 && len % 3 == |lastChunk| % 3
    requires |text| == j + 4 && text[j..] == Enc(lastChunk) && Written(output, b0, p0, text[..j])
    modifies output, output.buf
    ensures r.Ok? <==> if len % 3 == 0 then p0 + |text| <= room else p0 + |text| <= BUF_LEN
    ensures r.Ok? ==> Written(output, b0, p0, text)
    ensures r.Err? ==> r.error == BufferOverflow && Stopped(output, b0, p0, text)
  {
    var finalChunk := Splice([0, 0, 0], 0, lastChunk);
    var numChars := if |lastChunk| == 1 then 2 else if |lastChunk| == 2 then 3 else 4;
    LastText(lastChunk, finalChunk);
    ghost var chars := Quartet(finalChunk[0], finalChunk[1], finalChunk[2])[..numChars];
    assert text[j..j + numChars] == chars;
    r := PushCharsNext(finalChunk, output, numChars, room, b0, p0, text, j);
    if r.Err? {
      return;
    }
    r := PushPadding(output, len, b0, p0, text, j + numChars);
  }

  /** `encode_buf` as written: the slices may not reach the last byte of the buffer. */
  method EncodeBuf(input: CodecBuf, output: CodecBuf) returns (r: Result<()>)
    requires input.Valid() && output.Valid() && input.buf != output.buf && input.bufPos > 0
    modifies output, output.buf
    ensures r.Ok? <==> Fits(old(output.bufPos), input.bufPos, BUF_LEN - 1)
    ensures r.Ok? ==> Written(output, old(output.buf[..]), old(output.bufPos), Enc(input.AsRef()))
    ensures r.Err? ==> r.error == BufferOverflow && Stopped(output, old(output.buf[..]), old(output.bufPos), Enc(input.AsRef()))
  {
    r := EncodeBufWithin(input, output, BUF_LEN - 1);
  }

  /** `encode_buf` with slices allowed to fill the buffer: succeeds exactly when the whole text fits. */
  method EncodeBufCorrected(input: CodecBuf, output: CodecBuf) returns (r: Result<()>)
    requires input.Valid() && output.Valid() && input.buf != output.buf && input.bufPos > 0
    modifies output, output.buf
    ensures r.Ok? <==> old(output.bufPos) + EncodeLen(input.bufPos) <= BUF_LEN
    ensures r.Ok? ==> Written(output, old(output.buf[..]), old(output.bufPos), Enc(input.AsRef()))
    ensures r.Err? ==> r.error == BufferOverflow && Stopped(output, old(output.buf[..]), old(output.bufPos), Enc(input.AsRef()))
  {
    r := EncodeBufWithin(input, output, BUF_LEN);
  }

  /**
   * As written, a whole number of triplets fails exactly when its text
   * would fill the output to the last byte: in particular a full round of
   * `encode_stream`, 768 bytes into an empty output, always fails, while
   * the corrected bound accepts it.
   */
  lemma {:induction false} FullRoundRejected(p0: nat, n: nat)
    requires n % 3 == 0
    ensures Fits(p0, n, BUF_LEN - 1) <==> p0 + EncodeLen(n) < BUF_LEN
    ensures !Fits(0, BUF_LEN / 4 * 3, BUF_LEN - 1) && Fits(0, BUF_LEN / 4 * 3, BUF_LEN)
  {
    RoundFillsBuffer();
  }
}
