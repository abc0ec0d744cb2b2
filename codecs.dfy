/**
 * The fixed-capacity byte buffer `CodecBuf` that the `codecs` encoders read
 * their input from and push their output into: an array of `BUF_LEN` bytes
 * and the position up to which it is filled.
 */
module Codecs {
  import opened Base64Spec
  import opened Buffers
  import opened Seqs

  /** The capacity of a buffer; one round of `encode_stream` reads `BUF_LEN / 4 * 3` bytes. */
  const BUF_LEN: nat := 1024

  /** The pieces `chunks(size)` yields: `size` elements each, the last one possibly shorter. */
  function SliceChunks(s: seq<bv8>, size: nat): (r: seq<seq<bv8>>)
    requires size > 0
    ensures |r| == (|s| + size - 1) / size
    decreases |s|
  {
    if |s| == 0 then []
    else if |s| <= size then
      ChunkCount(|s|, size);
      [s]
    else
      ChunkCount(|s|, size);
      [s[..size]] + SliceChunks(s[size..], size)
  }

  /** The number of chunks: none for no element, one up to `size`, and one more for every further `size`. */
  lemma {:induction false} ChunkCount(n: nat, size: nat)
    requires size > 0
    ensures n == 0 ==> (n + size - 1) / size == 0
    ensures 0 < n <= size ==> (n + size - 1) / size == 1
    ensures n > size ==> (n + size - 1) / size == (n - size + size - 1) / size + 1
  {
    if n > size {
      var a := n - size + size - 1;
      assert n + size - 1 == a + size;
      DivPlus(a, size);
    }
  }

  lemma {:induction false} DivPlus(a: nat, size: nat)
    requires size > 0
    ensures (a + size) / size == a / size + 1
  {
    var q, r := a / size, a % size;
    var Q, R := (a + size) / size, (a + size) % size;
    assert Q * size + R == q * size + r + size;
    var k := Q - q - 1;
    assert k * size == r - R;
  }

  /** Chunk `i` is the slice from `i * size`, `size` long or up to the end. */
  lemma {:induction false} ChunkAt(s: seq<bv8>, size: nat, i: nat)
    requires size > 0 && i < (|s| + size - 1) / size
    ensures i * size < |s|
    ensures SliceChunks(s, size)[i] == s[i * size .. if |s| < i * size + size then |s| else i * size + size]
  {
    ChunkSlice(s, size, i);
    OffsetIsProduct(i, size);
  }

  /** `i` strides of `size`, counted without multiplication. */
  function Offset(i: nat, size: nat): (r: nat)
    ensures i > 0 ==> r >= size
  {
    if i == 0 then 0 else Offset(i - 1, size) + size
  }

  lemma {:induction false} OffsetIsProduct(i: nat, size: nat)
    ensures Offset(i, size) == i * size
  {
    if i > 0 {
      OffsetIsProduct(i - 1, size);
      assert i * size == (i - 1) * size + size;
    }
  }

  /** `ChunkAt` with the start of chunk `i` written as `Offset(i, size)`. */
  lemma {:induction false} ChunkSlice(s: seq<bv8>, size: nat, i: nat)
    requires size > 0 && i < |SliceChunks(s, size)|
    ensures Offset(i, size) < |s|
    ensures SliceChunks(s, size)[i] == s[Offset(i, size) .. if |s| < Offset(i, size) + size then |s| else Offset(i, size) + size]
    decreases |s|
  {
    var r := SliceChunks(s, size);
    if i == 0 {
      assert r[0] == if |s| <= size then s else s[..size];
    } else {
      assert |s| > size;
      var t := s[size..];
      assert r == [s[..size]] + SliceChunks(t, size);
      ChunkSlice(t, size, i - 1);
      var j := Offset(i - 1, size);
      assert r[i] == SliceChunks(t, size)[i - 1];
      var hi := if |t| < j + size then |t| else j + size;
      SliceOfDrop(s, size, j, hi);
    }
  }

  /** One round of `encode_stream`: `BUF_LEN / 4 * 3` bytes encode to exactly `BUF_LEN` characters, with no padding. */
  lemma {:induction false} RoundFillsBuffer()
    ensures BUF_LEN / 4 * 3 == 768 && 768 % 3 == 0
    ensures EncodeLen(BUF_LEN / 4 * 3) == BUF_LEN
  {
  }

  /**
   * `out` holds `w`, written from position `p0` over the array contents
   * `b0`: its filled part ends right after `w` and no other byte differs.
   */
  ghost predicate Written(out: CodecBuf, b0: seq<bv8>, p0: nat, w: seq<bv8>)
    reads out, out.buf
  {
    && out.Valid() && |b0| == BUF_LEN && p0 + |w| <= BUF_LEN
    && out.bufPos == p0 + |w| && out.buf[..] == Splice(b0, p0, w)
  }

  /** `out` stopped partway through `text`: it holds a proper prefix of `text`, written from `p0`. */
  ghost predicate Stopped(out: CodecBuf, b0: seq<bv8>, p0: nat, text: seq<bv8>)
    reads out, out.buf
  {
    && out.Valid() && p0 <= out.bufPos < p0 + |text|
    && Written(out, b0, p0, text[..out.bufPos - p0])
  }

  /** Writing the next `|s|` bytes of `text` after its first `j` extends the written prefix. */
  lemma {:induction false} WrittenMore(b0: seq<bv8>, p0: nat, text: seq<bv8>, j: nat, s: seq<bv8>)
    requires p0 + j + |s| <= |b0| && j + |s| <= |text| && text[j..j + |s|] == s
    ensures Splice(Splice(b0, p0, text[..j]), p0 + j, s) == Splice(b0, p0, text[..j + |s|])
  {
    assert text[..j + |s|] == text[..j] + s;
    SpliceSplice(b0, p0, text[..j], s);
  }

  /** `push` of byte `j` of `text` into a buffer holding the `j` bytes before it. */
  method PushNext(out: CodecBuf, val: bv8, ghost b0: seq<bv8>, ghost p0: nat, ghost text: seq<bv8>, ghost j: nat) returns (r: Result<()>)
    requires j < |text| && text[j] == val && Written(out, b0, p0, text[..j])
    modifies out, out.buf
    ensures r.Err? <==> p0 + j >= BUF_LEN
    ensures r.Err? ==> r.error == BufferOverflow && Stopped(out, b0, p0, text)
    ensures r.Ok? ==> Written(out, b0, p0, text[..j + 1])
  {
    ghost var d := out.buf[..];
    r := out.Push(val);
    if r.Ok? {
      assert out.buf[..] == Splice(d, p0 + j, [val]);
      assert text[j..j + 1] == [val];
      WrittenMore(b0, p0, text, j, [val]);
    }
  }

  /** The `match` on `len % 3`: `==` after one byte left over, `=` after two, each through `push`. */
  method PushPadding(output: CodecBuf, len: nat, ghost b0: seq<bv8>, ghost p0: nat, ghost text: seq<bv8>, ghost j: nat) returns (r: Result<()>)
    requires |text| == j + (3 - len % 3) % 3 && Written(output, b0, p0, text[..j])
    requires forall k | j <= k < |text| :: text[k] == PAD
    modifies output, output.buf
    ensures r.Ok? <==> p0 + |text| <= BUF_LEN
    ensures r.Ok? ==> Written(output, b0, p0, text)
    ensures r.Err? ==> r.error == BufferOverflow && Stopped(output, b0, p0, text)
  {
    r := Ok(());
    if len % 3 == 1 {
      r := PushNext(output, PAD, b0, p0, text, j);
      if r.Err? {
        return;
      }
      r := PushNext(output, PAD, b0, p0, text, j + 1);
    } else if len % 3 == 2 {
      r := PushNext(output, PAD, b0, p0, text, j);
    }
    assert text[..|text|] == text;
  }

  /** The encoding of `n` bytes has four characters per chunk of 3. */
  lemma {:induction false} ChunksLen(n: nat)
    ensures EncodeLen(n) == 4 * ((n + 2) / 3)
  {
  }

  /** The text of the last chunk, from byte `3 * i`, is the last quartet of the text. */
  lemma {:induction false} LastChunk(data: seq<bv8>, i: nat)
    requires 3 * i < |data| <= 3 * i + 3
    ensures |Enc(data)| == 4 * i + 4 && Enc(data)[4 * i..] == Enc(data[3 * i..])
  {
    var full, last := data[..3 * i], data[3 * i..];
    assert data == full + last;
    EncAppend(full, last);
    EncLengthOfTriplets(full);
    EncLength(last);
  }

  /** One to three bytes, zero-extended to `f`: the leading characters of `f`'s quartet, then padding. */
  lemma {:induction false} LastText(last: seq<bv8>, f: seq<bv8>)
    requires 1 <= |last| <= 3 && f == Splice([0, 0, 0], 0, last)
    ensures |Enc(last)| == 4 && Enc(last)[..|last| + 1] == Quartet(f[0], f[1], f[2])[..|last| + 1]
    ensures forall k | |last| + 1 <= k < 4 :: Enc(last)[k] == PAD
  {
    if |last| == 3 {
      assert f == last;
      EncOfTriplet(last[0], last[1], last[2]);
    } else if |last| == 2 {
      assert f == [last[0], last[1], 0];
    } else {
      assert f == [last[0], 0, 0];
    }
  }

  /** The `=` that follow the characters of a last chunk of `n` bytes. */
  function Padding(n: nat): (r: seq<bv8>)
    requires 1 <= n <= 3
    ensures |r| == 3 - n && forall k | 0 <= k < |r| :: r[k] == PAD
  {
    if n == 1 then [PAD, PAD] else if n == 2 then [PAD] else []
  }

  /** The text of a last chunk of 1 to 3 bytes, zero-extended to `f`: `|last| + 1` characters of `f`'s quartet, then the padding. */
  lemma {:induction false} LastTextSplit(last: seq<bv8>, f: seq<bv8>)
    requires 1 <= |last| <= 3 && f == Splice([0, 0, 0], 0, last)
    ensures Enc(last) == Quartet(f[0], f[1], f[2])[..|last| + 1] + Padding(|last|)
  {
    LastText(last, f);
    var e, q := Enc(last), Quartet(f[0], f[1], f[2])[..|last| + 1];
    assert e == e[..|last| + 1] + e[|last| + 1..];
    assert e[|last| + 1..] == Padding(|last|);
  }

  class CodecBuf {
    const buf: array<bv8>
    var bufPos: nat

    ghost predicate Valid()
      reads this
    {
      buf.Length == BUF_LEN && bufPos <= BUF_LEN
    }

    /** `new`: a zeroed buffer, empty. */
    constructor ()
      ensures Valid() && fresh(buf)
      ensures bufPos == 0 && buf[..] == seq(BUF_LEN, _ => 0)
    {
      buf := new bv8[BUF_LEN](_ => 0);
      bufPos := 0;
    }

    /** `as_ref`: the filled part of the buffer. */
    function AsRef(): (r: seq<bv8>)
      requires Valid()
      reads this, buf
      ensures |r| == bufPos
    {
      buf[..bufPos]
    }

    /** `len`: the number of bytes in the filled part. */
    function Len(): (n: nat)
      requires Valid()
      reads this, buf
      ensures n == |AsRef()| <= BUF_LEN
    {
      bufPos
    }

    /** `chunks`: the filled part in pieces of `chunkSize`; together they are exactly that part. */
    function Chunks(chunkSize: nat): (r: seq<seq<bv8>>)
      requires Valid() && chunkSize > 0
      reads this, buf
      ensures |r| == (|AsRef()| + chunkSize - 1) / chunkSize
      ensures forall i | 0 <= i < |r| :: i * chunkSize < bufPos && r[i] == AsRef()[i * chunkSize .. if bufPos < i * chunkSize + chunkSize then bufPos else i * chunkSize + chunkSize]
    {
      var r := SliceChunks(AsRef(), chunkSize);
      forall i | 0 <= i < |r|
        ensures i * chunkSize < bufPos
        ensures r[i] == AsRef()[i * chunkSize .. if bufPos < i * chunkSize + chunkSize then bufPos else i * chunkSize + chunkSize]
      {
        ChunkAt(AsRef(), chunkSize, i);
      }
      r
    }

    /**
     * `push`: fails with `BufferOverflow` and changes nothing when the
     * buffer is full; otherwise stores `val` at the position and advances
     * it, every other slot unchanged.
     */
    method Push(val: bv8) returns (r: Result<()>)
      requires Valid()
      modifies this, buf
      ensures Valid()
      ensures r.Err? <==> old(bufPos) >= BUF_LEN
      ensures r.Err? ==> r.error == BufferOverflow && bufPos == old(bufPos) && buf[..] == old(buf[..])
      ensures r.Ok? ==> bufPos == old(bufPos) + 1 && buf[..] == old(buf[..])[old(bufPos) := val]
      ensures r.Ok? ==> AsRef() == old(AsRef()) + [val]
    {
      if bufPos >= BUF_LEN {
        return Err(BufferOverflow);
      }
      buf[bufPos] := val;
      bufPos := bufPos + 1;
      assert buf[..bufPos] == old(buf[..bufPos]) + [val];
      r := Ok(());
    }

    /**
     * `extend_by_slice`: fails with `BufferOverflow` and changes nothing
     * when the slice would reach the end of the buffer (`>=`, so a
     * successful call never fills the buffer); otherwise copies the slice
     * to the position and advances it.
     */
    method ExtendBySlice(slice: seq<bv8>) returns (r: Result<()>)
      requires Valid()
      modifies this, buf
      ensures Valid()
      ensures r.Err? <==> old(bufPos) + |slice| >= BUF_LEN
      ensures r.Err? ==> r.error == BufferOverflow && bufPos == old(bufPos) && buf[..] == old(buf[..])
      ensures r.Ok? ==> bufPos == old(bufPos) + |slice| < BUF_LEN && buf[..] == Splice(old(buf[..]), old(bufPos), slice)
      ensures r.Ok? ==> AsRef() == old(AsRef()) + slice
    {
      r := ExtendWithin(slice, BUF_LEN - 1);
    }

    /**
     * `extend_by_slice` with the bound as a parameter: fails when the
     * slice would end past `room`. As written `room` is `BUF_LEN - 1`;
     * with `room == BUF_LEN` a slice may fill the buffer exactly.
     */
    method ExtendWithin(slice: seq<bv8>, room: nat) returns (r: Result<()>)
      requires Valid() && room <= BUF_LEN
      modifies this, buf
      ensures Valid()
      ensures r.Err? <==> old(bufPos) + |slice| > room
      ensures r.Err? ==> r.error == BufferOverflow && bufPos == old(bufPos) && buf[..] == old(buf[..])
      ensures r.Ok? ==> bufPos == old(bufPos) + |slice| <= room && buf[..] == Splice(old(buf[..]), old(bufPos), slice)
      ensures r.Ok? ==> AsRef() == old(AsRef()) + slice
    {
      if bufPos + |slice| > room {
        return Err(BufferOverflow);
      }
      Store(buf, bufPos, slice);
      bufPos := bufPos + |slice|;
      assert buf[..bufPos] == old(buf[..bufPos]) + slice;
      r := Ok(());
    }

    /** `copy_from_slice`: the slice becomes the whole filled part; the rest of the array is unchanged. */
    method CopyFromSlice(slice: seq<bv8>)
      requires Valid() && |slice| <= BUF_LEN
      modifies this, buf
      ensures Valid()
      ensures bufPos == |slice| && buf[..] == Splice(old(buf[..]), 0, slice)
      ensures AsRef() == slice
    {
      Store(buf, 0, slice);
      bufPos := |slice|;
      assert buf[..bufPos] == slice;
    }

    /** `clear`: empties the filled part without touching the array. */
    method Clear()
      requires Valid()
      modifies this
      ensures Valid()
      ensures bufPos == 0 && AsRef() == []
      ensures buf[..] == old(buf[..])
    {
      bufPos := 0;
    }
  }
}
