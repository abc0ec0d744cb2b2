/**
 * The crate's public encoding functions. `EncodeOptions::encode` allocates
 * `encode_len` bytes and fills them through `codec::avx2`'s
 * `encode_with_fallback`; `encode_mut` writes into a caller's slice after
 * checking its length. Whether the CPU has AVX2 is a parameter; with AVX2
 * and at least 28 bytes of input the first 24 bytes are encoded as zeros
 * (`CodecAvx2.Delivered`).
 */
module Lib {
  import opened Base64Spec
  import opened Buffers
  import Avx2
  import CodecAvx2

  /** `EncodeOptions`, which has no fields. */
  datatype EncodeOptions = EncodeOptions
  {
    /**
     * `encode`: the Base64 encoding of the bytes `encode_with_fallback`
     * delivers, `encode_len(input)` characters, all of them ASCII, so the
     * unchecked conversion to `String` is sound.
     */
    method Encode(cpu: Avx2.Cpu, input: seq<bv8>) returns (s: seq<bv8>)
      ensures s == Enc(CodecAvx2.Delivered(cpu, input)) && |s| == EncodeLen(|input|)
      ensures forall i | 0 <= i < |s| :: IsAlphabet(s[i]) || s[i] == PAD
    {
      var output := new bv8[EncodeLen(|input|)](_ => 0);
      var _ := CodecAvx2.EncodeWithFallback(cpu, output, 0, input);
      s := output[..];
      EncIsText(CodecAvx2.Delivered(cpu, input));
    }

    /**
     * `encode_mut`: `BufferOverflow`, with the slice untouched, when it is
     * shorter than `encode_len(input)`; otherwise the encoding of the
     * delivered bytes written at its start, the rest of it unchanged, and
     * its length returned.
     */
    method EncodeMut(cpu: Avx2.Cpu, input: seq<bv8>, output: array<bv8>) returns (r: Result<nat>)
      modifies output
      ensures r.Err? <==> output.Length < EncodeLen(|input|)
      ensures r.Err? ==> r.error == BufferOverflow && output[..] == old(output[..])
      ensures r.Ok? ==> r.value == |Enc(CodecAvx2.Delivered(cpu, input))| == EncodeLen(|input|)
      ensures r.Ok? ==> output[..] == Splice(old(output[..]), 0, Enc(CodecAvx2.Delivered(cpu, input)))
    {
      if output.Length < EncodeLen(|input|) {
        r := Err(BufferOverflow);
      } else {
        var n := CodecAvx2.EncodeWithFallback(cpu, output, 0, input);
        r := Ok(n);
      }
    }
  }

  /** `encode`: `EncodeOptions::default().encode(input)`. */
  method Encode(cpu: Avx2.Cpu, input: seq<bv8>) returns (s: seq<bv8>)
    ensures s == Enc(CodecAvx2.Delivered(cpu, input)) && |s| == EncodeLen(|input|)
    ensures forall i | 0 <= i < |s| :: IsAlphabet(s[i]) || s[i] == PAD
  {
    var options := EncodeOptions;
    s := options.Encode(cpu, input);
  }

  /** `encode_mut`: `EncodeOptions::default().encode_mut(input, output)`. */
  method EncodeMut(cpu: Avx2.Cpu, input: seq<bv8>, output: array<bv8>) returns (r: Result<nat>)
    modifies output
    ensures r.Err? <==> output.Length < EncodeLen(|input|)
    ensures r.Err? ==> r.error == BufferOverflow && output[..] == old(output[..])
    ensures r.Ok? ==> r.value == |Enc(CodecAvx2.Delivered(cpu, input))| == EncodeLen(|input|)
    ensures r.Ok? ==> output[..] == Splice(old(output[..]), 0, Enc(CodecAvx2.Delivered(cpu, input)))
  {
    var options := EncodeOptions;
    r := options.EncodeMut(cpu, input, output);
  }

  /**
   * The test `zero_len`: `encode_mut` of the empty input into an
   * `encode_len(0)`-byte slice succeeds with 0 and leaves the slice empty,
   * and `encode` of it gives the empty text.
   */
  method ZeroLen(cpu: Avx2.Cpu) returns (len: nat, written: seq<bv8>, text: seq<bv8>)
    ensures len == 0 && written == [] && text == []
  {
    var output := new bv8[EncodeLen(0)];
    var r := EncodeMut(cpu, [], output);
    len, written := r.value, output[..];
    text := Encode(cpu, []);
  }
}
