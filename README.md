# bs64 in Dafny

A model of the Base64 codecs of the `bs64` crate, which follow section 4 of
RFC 4648: the standard alphabet `A-Z a-z 0-9 + /`, `=` padding. The crate
has several encoders that do the same work in different loop shapes. All
of them are modelled here:

- the scalar chromiumbase64 port (`simple`): encoder and decoder;
- the AVX2 port of fastavxbase64 (`avx2`): encoder and decoder, with each
  intrinsic written out byte by byte;
- its twin under `codec::avx2`, which is what the crate's public functions
  call;
- the arithmetic-split encoders `codec::simplesimd`, `codecs::safesimd`,
  `encode` and `codecs::vanilla`;
- the two-byte lookup-table encoder `codecs::fairy`, with the table
  formulas of `build.rs`;
- the fixed-capacity buffer `CodecBuf`;
- the public `encode_len`, `encode` and `encode_mut`.

Bytes are `bv8`. A destination slice is an `array<bv8>` with a start
offset `at`. Every method that writes it states its whole new contents as
`Splice(old contents, at, written bytes)`, so nothing outside the written
range changes. The reference is the module `Base64Spec`:

- `Enc` is the encoding, defined triplet by triplet.
- `Dec` is the decoding: the empty text, or a positive multiple of 4
  characters with at most two trailing `=`.
- `DecOfEnc` proves `Dec(Enc(s)) == Some(s)`.

The encoders fall into three groups:

- The slice encoders are proved to write `Enc` of their input and to
  return `EncodeLen`. These are `simple`, `codec::simplesimd`,
  `codecs::safesimd`, `avx2`, `encode` and the corrected `codec::avx2` loop.
- The `codec::avx2` loop as written, `encode_with_fallback` and the public
  functions of `lib.rs` are proved to write `Enc(Delivered(cpu, input))`.
  With AVX2 and at least 28 bytes, that is the encoding of the input with
  its first 24 bytes read as zeros (see "## Findings").
- The `codecs` buffer encoders append `Enc` of the filled part when it
  fits. Otherwise they report `BufferOverflow` and leave a proper prefix of
  it pushed.

The decoders are the corrected ones (see "## Left out" and "## Findings").
Each is proved to succeed exactly on the texts `Dec` accepts and to write
`Dec`'s bytes. A length that is not a positive multiple of 4 is rejected
with `InputModError`. Any other rejected text is rejected with
`InvalidInput`, naming the first invalid quartet or the invalid tail. The
scalar decoder leaves the valid prefix written. The AVX2 decoder reports no
other error and passes on the scalar decoder's error for the characters
after its blocks.

Module map:

| module | file | models |
|---|---|---|
| `Base64Spec` | base64_spec.dfy | the alphabet, `encode_len`, the reference encoding and decoding |
| `Buffers`, `Seqs`, `Blocks` | buffers.dfy, seqs.dfy, blocks.dfy | writes into a slice; sequence facts; piecewise encoding and decoding |
| `Luts` | luts.dfy | the scalar codec's `E0..E2`, `D0..D3`, `BADCHAR` tables, by formula |
| `Simple` | simple.dfy | `src/simple/mod.rs` |
| `Avx2`, `Avx2DecodeState`, `Avx2Decode` | avx2.dfy, avx2_decode.dfy | `src/avx2/mod.rs` |
| `CodecAvx2` | codec_avx2.dfy | `src/codec/avx2/mod.rs` |
| `SimpleSimd` | simplesimd.dfy | `src/codec/simplesimd/mod.rs` |
| `SafeSimd` | safesimd.dfy | `src/codecs/safesimd/mod.rs` |
| `Codecs` | codecs.dfy | `CodecBuf` and the error type of `src/codecs/mod.rs` |
| `Vanilla`, `Fairy`, `BuildLuts` | vanilla.dfy, fairy.dfy, build_luts.dfy | the `Codec` encoders and the generated tables |
| `Encode` | encode.dfy | `src/encode.rs` |
| `Lib` | lib.dfy | `src/lib.rs` |

## Model

| member | source | states |
|---|---|---|
| Base64Spec.Char | src/lib.rs:6 | `CHARS[v]` for a 6-bit value is one of the 64 alphabet characters and never `=` |
| Base64Spec.ValueOfChar | src/lib.rs:6 | looking a value's character back up gives the value: `CHARS` is injective on 0..63 |
| Base64Spec.CharOfValue | src/lib.rs:6 | every alphabet character is `CHARS` of its value: `CHARS` covers the alphabet |
| Base64Spec.EncodeLen | src/lib.rs:11-16 | `encode_len(n)` is a multiple of 4, lies in `[4n/3, 4n/3 + 4)`, and is 0 exactly for the empty input |
| Base64Spec.EncodeLenOfTriplets | src/lib.rs:11-16 | on `3k` bytes, the branch without a remainder gives `4k` |
| Base64Spec.EncLength | src/lib.rs:11-16 | the encoding of any input has exactly `encode_len` characters |
| Base64Spec.GroupsAreSextets | src/simple/mod.rs:33-37 | the four index expressions of a triplet are each below 64, so every table index is in range |
| Base64Spec.Regroup | src/simple/mod.rs:33-37 | the four 6-bit groups of a triplet reassemble into its three bytes: the split loses nothing |
| Base64Spec.EncQuartetAt | src/simple/mod.rs:32-38 | quartet `k` of the output depends only on input bytes `3k..3k+2` |
| Base64Spec.EncAppend | src/simple/mod.rs:81-126 | encoding distributes over concatenation at a triplet boundary, which lets every encoder write chunk by chunk |
| Base64Spec.EncSplit | src/simple/mod.rs:91-117 | the output is the quartets of the whole triplets followed by the padded tail |
| Base64Spec.EncPadding | src/simple/mod.rs:97-115 | padding follows `len % 3`: `==` after one byte left, `=` after two, none otherwise |
| Base64Spec.EncIsText | src/lib.rs:19-23 | every output byte is an alphabet character or `=`, which makes the unchecked UTF-8 conversion sound |
| Base64Spec.DecodeQuartetOfQuartet | src/simple/mod.rs:128-149 | the characters of a triplet's quartet are in the alphabet and decode back to the triplet |
| Base64Spec.DecodeChars | src/simple/mod.rs:128-149 | decoding four characters packs their 6-bit values back into three bytes |
| Base64Spec.DecFullAppend | src/simple/mod.rs:218-240 | whole quartets decode as a concatenation exactly when both parts decode, to the concatenated bytes |
| Base64Spec.DecFullOfQuartet | src/simple/mod.rs:137-140 | one quartet decodes exactly when its four characters are in the alphabet |
| Base64Spec.DecFullOfEnc | src/simple/mod.rs:218-229 | the quartets of whole triplets decode back to the triplets |
| Base64Spec.Tail3AsQuartet | src/simple/mod.rs:249-261 | a valid 3-character tail decodes as its quartet completed with `A`, less the byte the `=` stands for |
| Base64Spec.Tail2AsQuartet | src/simple/mod.rs:244-248 | a valid 2-character tail decodes as its quartet completed with `AA`, less the two padded bytes |
| Base64Spec.StripPadding | src/simple/mod.rs:209-213 | stripping removes at most two characters and keeps a prefix of the text |
| Base64Spec.Quartets | src/simple/mod.rs:231-240 | `len_nopad` keeps whole quartets only: a multiple of 4, a prefix, fewer than 4 characters dropped |
| Base64Spec.QuartetsLength | src/simple/mod.rs:231-240 | the whole quartets are `len / 4 * 4` characters long, as the source computes them |
| Base64Spec.Leftover | src/simple/mod.rs:231-240 | the stripped text is the whole quartets then the leftover, which for a multiple-of-4 input is never 1 character |
| Base64Spec.DecTailOfTailChars | src/simple/mod.rs:242-263 | the characters of a 1- or 2-byte tail decode back to those bytes |
| Base64Spec.StripPaddingOfEnc | src/simple/mod.rs:209-213 | stripping the padding of an encoding leaves exactly its quartets and tail characters |
| Base64Spec.DecOfEnc | src/simple/mod.rs:195-266 | round trip: decoding the encoding of any bytes gives those bytes back |
| Base64Spec.FirstInvalidExists | src/simple/mod.rs:137-140 | whole quartets that do not decode have a first invalid quartet, right after their valid prefix |
| Base64Spec.ValidPrefixOfDecFull | src/simple/mod.rs:218-229 | when every quartet is valid, the bytes written before a rejection are the whole decoding |
| Base64Spec.ValidPrefixAppend | src/simple/mod.rs:218-229 | the bytes written before a rejection, for a concatenation of whole quartets |
| Base64Spec.StopsAtQuartet | src/simple/mod.rs:137-140 | an invalid quartet after valid ones: the text does not decode, the bytes before it are written, and the error names it |
| Base64Spec.DecFullSnoc | src/simple/mod.rs:159-180 | one more quartet extends the decoding by its triplet, or makes it fail when a character is outside the alphabet |
| Base64Spec.DecFullStep | src/simple/mod.rs:128-149 | one more valid quartet extends the decoding of the characters before it |
| Base64Spec.RejectedPiece | src/simple/mod.rs:218-229 | a piece with an invalid quartet after valid ones makes the whole text invalid, with the piece's error |
| Base64Spec.FirstInvalidBefore | src/simple/mod.rs:218-229 | the first invalid quartet of a prefix stays the first for the whole text |
| Base64Spec.FirstInvalidAfter | src/simple/mod.rs:218-229 | after valid quartets, the first invalid quartet of the rest is the first of the whole |
| Buffers.SpliceSplice | src/simple/mod.rs:81-126 | writing `a` and then `b` right after it writes `a + b` |
| Buffers.Store | src/avx2/mod.rs:110-113 | a slice copy or an unaligned 32-byte store writes its bytes from the offset and changes nothing else |
| Blocks.SpliceEncAppend | src/simple/mod.rs:119-122 | writing the encoding of whole triplets `a`, then that of `b` after it, writes the encoding of `a + b` |
| Blocks.SpliceEncTail | src/simple/mod.rs:97-115 | the padded tail written after the whole triplets completes the encoding |
| Blocks.PieceRejected | src/simple/mod.rs:218-229 | a block that contains an invalid quartet leaves the valid prefix of the whole text written and its first error |
| Blocks.StripPaddingAppend | src/simple/mod.rs:209-213 | padding is stripped from the end only, so leading whole quartets are untouched |
| Blocks.BodySplit | src/avx2/mod.rs:238-239 | valid quartets in front of a text join its body, and the body decodes exactly when the text's body does |
| Blocks.DecSplit | src/avx2/mod.rs:238-239 | valid blocks in front of a text: the whole decodes exactly when the text does, to the blocks' bytes then the text's |
| Blocks.DecJoined | src/avx2/mod.rs:238-239 | two texts with the same leftover whose bodies decode alike up to a prefix decode alike up to that prefix |
| Blocks.FirstInvalidSplit | src/avx2/mod.rs:238-239 | the first invalid quartet of the rest after valid blocks is that of the whole text |
| Blocks.DecAtLeastEight | src/avx2/mod.rs:175 | a valid text of at least 13 characters decodes to at least 8 bytes, which the 8-byte overhang of a store needs |
| Luts.DecodeLookups | src/simple/mod.rs:128-149 | the OR of the four lookups is below `BADCHAR` exactly when the quartet is valid, and then its low three bytes are the decoded triplet |
| Luts.ValidLookups | src/simple/mod.rs:128-149 | for four alphabet characters the OR of the lookups is the word of their decoded triplet |
| Luts.DecodeLookups3 | src/simple/mod.rs:249-261 | the OR of `D0..D2` on a 3-character tail is below `BADCHAR` exactly when the tail is valid, and then holds its two bytes |
| Luts.DecodeLookups2 | src/simple/mod.rs:244-248 | the OR of `D0, D1` on a 2-character tail is below `BADCHAR` exactly when the tail is valid, and then holds its byte |
| Simple.EncodeTriplet | src/simple/mod.rs:33-37 | the four table characters of a triplet are its Base64 quartet |
| Simple.EncodeTail | src/simple/mod.rs:97-115 | the table characters of a 1- or 2-byte tail and the `=` after them are the padded tail of the encoding |
| Simple.EncodeAnyInner | src/simple/mod.rs:26-41 | writes the encoding of the triplets and returns 4 per triplet |
| Simple.Encode32Inner | src/simple/mod.rs:43-53 | writes the encoding of 8 triplets and returns 32 |
| Simple.Encode32 | src/simple/mod.rs:59-64 | writes the encoding of the first 24 bytes of `src` and returns 32 |
| Simple.EncodeAny | src/simple/mod.rs:70-76 | writes the encoding of the `len / 3` whole triplets and returns `4 * (len / 3)` |
| Simple.Encode | src/simple/mod.rs:81-126 | writes the Base64 encoding of `src` at `at`, changes nothing else, and returns `encode_len(len)` |
| Simple.EncodeChunk | src/simple/mod.rs:89-123 | one pass of the chunk loop: a full chunk extends the written encoding by 24 bytes; the final chunk completes it |
| Simple.BlockWritten | src/simple/mod.rs:119-122 | a 24-byte block written at destination chunk `k` extends the encoded prefix |
| Simple.PieceWritten | src/simple/mod.rs:119-122 | any whole number of triplets written right after the encoded prefix extends it to the bytes they came from |
| Simple.LastChunkWritten | src/simple/mod.rs:91-117 | the final chunk written after the blocks completes the encoding and the count |
| Simple.EncodeFinalChunk | src/simple/mod.rs:91-117 | the final chunk, shorter than 24 bytes, is written as its encoding with `encode_len` characters |
| Simple.EncodeFinalTriplets | src/simple/mod.rs:92-95 | the whole triplets of the final chunk, and `src_i = (dest_i / 4) * 3` is the number of bytes they consumed |
| Simple.EncodeFinalTail | src/simple/mod.rs:97-115 | the bytes left after the triplets (0, 1 or 2) are written as the padded tail |
| Simple.TripletsOf | src/simple/mod.rs:92-97 | the index recomputed from the characters is the whole triplets, and the tail brings the total to `encode_len` |
| Simple.DecodeAnyInner | src/simple/mod.rs:128-149 | decodes whole quartets; succeeds with 3 bytes per quartet when all are valid, else stops at the first invalid one, reports its four characters, and leaves the bytes before it written |
| Simple.QuartetRejected | src/simple/mod.rs:137-140 | a quartet with a character outside the alphabet stops decoding with an error naming its characters |
| Simple.Decode32Inner | src/simple/mod.rs:159-180 | decodes 8 quartets with the same outcome as `decode_any_inner`, returning 24 on success |
| Simple.Decode32 | src/simple/mod.rs:186-191 | decodes the first 32 characters of `src`, returning 24 on success |
| Simple.DecodeAny | src/simple/mod.rs:151-157 | decodes the `len / 4` whole quartets of `src` |
| Simple.Decode | src/simple/mod.rs:195-266 | the empty text gives `Ok(0)`; a length not a positive multiple of 4 gives `InputModError(len)` with nothing written; otherwise it succeeds exactly on valid Base64 with the decoded bytes written and counted, and a rejection names the first invalid quartet or the invalid tail, with the valid prefix written |
| Simple.DecodeWhole | src/simple/mod.rs:208-265 | the same outcome for an input whose length is a positive multiple of 4 |
| Simple.EmptyDecoded | src/simple/mod.rs:196-198 | the empty input decodes to nothing, with nothing written |
| Simple.LengthRejected | src/simple/mod.rs:204-206 | any other length below 4 or not a multiple of 4 is rejected with its length, with nothing written |
| Simple.DecodeBody | src/simple/mod.rs:215-240 | decodes the whole quartets of the stripped text and reports where the leftover starts |
| Simple.DecodeBlocks | src/simple/mod.rs:218-229 | the 32-character block loop: on success the blocks before `src_i` are decoded in place and fewer than 36 characters remain; on failure the first invalid quartet is reported |
| Simple.BlockDecoded | src/simple/mod.rs:221-228 | a valid block of 32 characters extends the decoded quartets by 24 bytes |
| Simple.BlockRejected | src/simple/mod.rs:221-228 | a block that `decode_32` rejects makes the whole quartets invalid with its error |
| Simple.DecodeRest | src/simple/mod.rs:231-240 | the whole quartets after the blocks, decoded by `decode_any`, complete or reject the decoding of all whole quartets |
| Simple.NopadIsQuartets | src/simple/mod.rs:231-236 | the source's `len_nopad` is the length of the whole quartets |
| Simple.StrippedParts | src/simple/mod.rs:209-240 | the stripped text is the body then 0, 2 or 3 leftover characters, so the `unreachable!` arm is never taken |
| Simple.TailDecoded | src/simple/mod.rs:242-265 | the tail after the decoded quartets either completes the decoding with its bytes counted, or makes the text invalid |
| Simple.DecodeTail | src/simple/mod.rs:242-263 | 0, 2 or 3 characters: nothing, one byte or two bytes written exactly for a valid tail; otherwise an error carrying the tail, with nothing written |
| Simple.BlockGuardAsWritten | src/simple/mod.rs:220 | the unsigned guard has no value exactly when `len < 4 + src_i`; otherwise it says whether `src_i + 36 <= len` |
| Simple.PaddedPairUnderflows | src/simple/mod.rs:220 | `AA==` is valid Base64 for `00`, yet the guard underflows on it |
| Simple.PaddedTripleUnderflows | src/simple/mod.rs:220 | `AAA=` is valid Base64 for `00 00`, yet the guard underflows on it |
| Simple.DecodeTailAsWritten | src/simple/mod.rs:242-261 | the unchecked tail has 1 or 2 bytes and agrees with Base64 decoding on every valid tail |
| Simple.UncheckedTail | src/simple/mod.rs:242-261 | the invalid tail `A*` is stored as `FF` without an error, so `AAAAA*==` gets past the tail although it is not Base64 |
| Simple.GuardUnderflowsFirst | src/simple/mod.rs:218-229 | after one block is taken the guard has a value at the next offset, so only the first test can underflow |
| Simple.DecodeAsWritten | src/simple/mod.rs:195-266 | `decode` as written on values: every error it returns is `InputModError(len)` or names the first invalid quartet |
| Simple.AsWrittenAgainstDec | src/simple/mod.rs:195-266 | the decoder as written panics exactly on 4-character padded inputs; otherwise it accepts every valid text with its bytes, rejects only invalid ones, and accepts an invalid one only when its tail is outside the alphabet |
| Simple.AsWrittenExamples | src/simple/mod.rs:195-266 | `AA==` panics although it decodes to `00`; `AAAAA*==` is accepted as `00 00 00 FF` although it is not Base64 |
| Avx2.SubsEpu8 | src/avx2/mod.rs:65 | saturating subtraction: the difference when `a >= b`, else 0 |
| Avx2.CmpGtEpi8 | src/avx2/mod.rs:66 | all ones exactly when `a > b` for bytes below 0x80, else zero |
| Avx2.CmpEqEpi8 | src/avx2/mod.rs:215 | all ones exactly when the bytes are equal, else zero |
| Avx2.Pshufb | src/avx2/mod.rs:214-219 | a table lookup by the low four bits of an index whose top bit is clear, so bits 4 to 6 are ignored |
| Avx2.EncTranslateIsChar | src/avx2/mod.rs:60-70 | `enc_translate` maps every 6-bit value to its alphabet character |
| Avx2.ClassifyByte | src/avx2/mod.rs:193-221 | `lut_lo & lut_hi` is zero exactly for the 64 alphabet characters; `=` and bytes from 0x80 up are flagged |
| Avx2.RollByte | src/avx2/mod.rs:203-225 | adding the roll to an alphabet character gives its 6-bit value |
| Avx2.EncReshuffleGroups | src/avx2/mod.rs:51-57 | the multiply-shift arithmetic on `t2 t1 t3 t2` leaves the four 6-bit groups of `t1 t2 t3` |
| Avx2.EncShuffleElement | src/avx2/mod.rs:43-49 | element `k` of the shuffled register holds input bytes `5+3k, 4+3k, 6+3k, 5+3k` |
| Avx2.EncBlockQuartet | src/avx2/mod.rs:40-70 | element `k` of a stored block is the quartet of input bytes `4+3k..6+3k` |
| Avx2.EncBlockIsEnc | src/avx2/mod.rs:40-70 | a stored block is the Base64 encoding of the 24 input bytes after the 4 it skips |
| Avx2.BlockCheck | src/avx2/mod.rs:211-223 | the `testz` check of a block passes exactly when all 32 characters are in the alphabet |
| Avx2.RolledValues | src/avx2/mod.rs:219-225 | after the roll, every character of a valid block is its 6-bit value |
| Avx2.Maddubs | src/avx2/mod.rs:137-156 | the byte multiply-add never reaches signed saturation |
| Avx2.MaddBytes | src/avx2/mod.rs:137-156 | both multiply-adds on four 6-bit values leave the three decoded bytes in word bytes 2, 1, 0 |
| Avx2.DecPackZeros | src/avx2/mod.rs:137-156 | the last 8 bytes of `dec_reshuffle` are zero |
| Avx2.DecBlockQuartet | src/avx2/mod.rs:225-235 | quartet `q` of a valid block decodes to bytes `3q..3q+2` of the stored block |
| Avx2.DecBlockIsDecFull | src/avx2/mod.rs:225-235 | the stored block of 32 valid characters is their decoding followed by 8 zero bytes |
| Avx2.MaskLoad | src/avx2/mod.rs:104-105 | a masked load gives 32 bytes, zero in every element the mask does not load |
| Avx2.FirstLoad | src/avx2/mod.rs:91-105 | the first masked load, four bytes before the input, reads only input bytes 0..27 and puts them after four zeros |
| Avx2.BlockStored | src/avx2/mod.rs:110-115 | a block stored after the encoding of the bytes before it extends that encoding by the 24 block bytes |
| Avx2.StoreBlock | src/avx2/mod.rs:108-115 | one pass of the loop writes the encoding of the next 24 bytes after the characters before it |
| Avx2.BlockFits | src/avx2/mod.rs:107-122 | every 32-byte store lies inside the `encode_len` characters of the output |
| Avx2.ConsumedStep | src/avx2/mod.rs:114-121 | one more block extends the encoded bytes by the 24 it holds |
| Avx2.EncodeBlocks | src/avx2/mod.rs:107-122 | the block loop advances 24 and 32 per pass and stops with 4 to 31 bytes left; what it has written is the encoding of the bytes its loads delivered |
| Avx2.FirstLoadConsumed | src/avx2/mod.rs:93-105 | with this mask the blocks encode the input itself, from its first byte |
| Avx2.TailStored | src/avx2/mod.rs:125-134 | the scalar tail written after the blocks completes the encoding |
| Avx2.EncodeLenSplit | src/avx2/mod.rs:125-134 | whole triplets leave the rest of `encode_len` to the remaining bytes |
| Avx2.Encode | src/avx2/mod.rs:85-135 | writes the Base64 encoding of the input and returns `encode_len(len)`; the empty input writes nothing |
| Avx2.EncodeRest | src/avx2/mod.rs:125-134 | the bytes after the blocks go to `simple::encode` right after the stored characters, completing the encoding |
| Avx2.EncodeWithFallback | src/avx2/mod.rs:72-78 | with or without AVX2, writes the Base64 encoding of the input and returns `encode_len(len)` |
| Avx2DecodeState.Overhang | src/avx2/mod.rs:233-235 | nothing before the first store, then the 8 zero bytes past the last decoded block |
| Avx2Decode.BlockDecodedStep | src/avx2/mod.rs:225-236 | storing one block's decoding and 8 zeros extends the decoded blocks by 24 bytes, with the zeros as the new overhang |
| Avx2Decode.BlocksValidStep | src/avx2/mod.rs:175-236 | one more valid block with at least 13 characters after it keeps the decoded blocks valid |
| Avx2Decode.BlockAppended | src/avx2/mod.rs:225-236 | the first `src_i + 32` characters decode to the first `src_i` and then the block |
| Avx2Decode.StoreOverhang | src/avx2/mod.rs:233-235 | a 32-byte store right after the decoded bytes covers the previous overhang |
| Avx2Decode.DecodeBlock | src/avx2/mod.rs:176-236 | a block with a character outside the alphabet ends the loop with nothing written; a valid one is stored, decoded, after the previous blocks |
| Avx2Decode.StoreDecBlock | src/avx2/mod.rs:225-235 | the roll, `dec_reshuffle` and the store write the block's decoding and then 8 zero bytes |
| Avx2Decode.AcceptedByBlocks | src/avx2/mod.rs:238-239 | a valid text written from `at` is what `decode` promises on success |
| Avx2Decode.TailOutcome | src/avx2/mod.rs:238 | the promise of `simple::decode` splits into its success and failure halves |
| Avx2Decode.DecodeTail | src/avx2/mod.rs:238-239 | `simple::decode` of the characters left after the blocks gives the outcome of `decode` on the whole text |
| Avx2Decode.TailJoined | src/avx2/mod.rs:238-239 | the scalar decoder's outcome on the rest after the blocks is the outcome on the whole text |
| Avx2Decode.TailAccepted | src/avx2/mod.rs:238-239 | the scalar decoder accepted the rest: the whole text is valid and its decoding covers the overhang |
| Avx2Decode.JoinAccepted | src/avx2/mod.rs:238-239 | valid text after valid blocks, written over the zeros the blocks left: the whole text is decoded from `at` |
| Avx2Decode.ValidAfterBlocks | src/avx2/mod.rs:238-239 | valid blocks then valid text: the whole is valid and decodes to the blocks' bytes then the text's |
| Avx2Decode.RejectedByBlocks | src/avx2/mod.rs:238 | a text rejected the way `simple::decode` rejects it is what `decode` promises on failure |
| Avx2Decode.TailRejected | src/avx2/mod.rs:238 | the scalar decoder rejected the rest after the blocks: the whole text is rejected, with the same error |
| Avx2Decode.JoinRejected | src/avx2/mod.rs:238 | a rejected text after valid blocks is rejected, within the whole, for the same reason |
| Avx2Decode.JoinInvalid | src/avx2/mod.rs:238 | an invalid quartet after valid blocks is the one reported for the whole text |
| Avx2Decode.BadTailSplit | src/avx2/mod.rs:238 | an invalid tail after valid blocks is the invalid tail of the whole text |
| Avx2Decode.DecodeBlocks | src/avx2/mod.rs:175-236 | the loop runs while at least 45 characters remain and leaves valid decoded blocks, 8 zeros after them, and at least 13 characters after every stored block |
| Avx2Decode.Decode | src/avx2/mod.rs:171-240 | succeeds exactly on valid Base64 with its bytes written from `at`; a length not a multiple of 4 is rejected with the length of the part after the blocks; no error other than `InvalidInput` or `InputModError`, and a rejected character is reported as the scalar decoder reports it |
| Avx2Decode.DecodeWithFallback | src/avx2/mod.rs:158-164 | with or without AVX2, succeeds exactly on valid Base64 and then writes and counts its bytes; the outcome, error included, is that of `decode` with AVX2 and that of `simple::decode` without |
| CodecAvx2.MaskLoadsNothing | src/codec/avx2/mod.rs:86-98 | no element of the mask as written has bit 31 set, so the first load reads nothing and yields 32 zero bytes |
| CodecAvx2.Loaded | src/codec/avx2/mod.rs:97-116 | what the loads deliver has the length of the input |
| CodecAvx2.EncodeWithMask | src/codec/avx2/mod.rs:79-128 | for any first-load mask, writes the encoding of the bytes the loads delivered; the count is `encode_len(len)` whatever the mask |
| CodecAvx2.LoadedParts | src/codec/avx2/mod.rs:100-116 | the bytes the blocks encoded, followed by the rest of the input, are what the loads delivered |
| CodecAvx2.EncodeRest | src/codec/avx2/mod.rs:117-127 | the rest after the blocks goes through `simplesimd::encode`, completing the encoding of the delivered bytes |
| CodecAvx2.EncodeAsWritten | src/codec/avx2/mod.rs:79-128 | from 28 bytes on, writes the encoding of the input with its first 24 bytes read as zeros; below 28, the encoding of the input; the count is `encode_len(len)` |
| CodecAvx2.FirstBlockLost | src/codec/avx2/mod.rs:86-98 | with the mask as written, an input of at least 28 bytes whose first byte is 4 or more starts with `A` instead of its first character |
| CodecAvx2.FirstBlockLostExample | src/codec/avx2/mod.rs:86-98 | 28 bytes `FF` encode to `/` first, but the loop as written writes `A` |
| CodecAvx2.Encode | src/codec/avx2/mod.rs:79-128 | with the mask of `src/avx2/mod.rs`, writes the Base64 encoding of the whole input and returns `encode_len(len)` |
| CodecAvx2.Delivered | src/codec/avx2/mod.rs:70-76 | the bytes `encode_with_fallback` encodes have the length of the input |
| CodecAvx2.EncodeWithFallback | src/codec/avx2/mod.rs:70-76 | the loop as written with AVX2, `simplesimd::encode` otherwise: writes the encoding of the delivered bytes and returns `encode_len(len)` |
| CodecAvx2.FallbackEncodesInput | src/codec/avx2/mod.rs:70-98 | `encode_with_fallback` writes the encoding of its own input exactly when the CPU lacks AVX2, the input is shorter than 28 bytes, or its first 24 bytes are zero |
| SimpleSimd.NumberIsOr | src/codec/simplesimd/mod.rs:23 | the bytes of `t1 << 16 + t2 << 8 + t3` do not overlap, so the sum is their OR |
| SimpleSimd.NumberGroups | src/codec/simplesimd/mod.rs:24-29 | the shifts and masks of `n_split` give the four 6-bit groups of RFC 4648 |
| SimpleSimd.NSplit | src/codec/simplesimd/mod.rs:24-29 | each part of `n_split` is below 64, so it indexes `CHARS`, and they are the triplet's groups |
| SimpleSimd.Sextet | src/codec/simplesimd/mod.rs:24-29 | a shift and the `0x3F` mask of `n_split` leave a value below 64 |
| SimpleSimd.SplitChars | src/codec/simplesimd/mod.rs:30-34 | the characters written for a triplet are its Base64 quartet |
| SimpleSimd.SplitTail | src/codec/simplesimd/mod.rs:102-136 | the characters written for a 1- or 2-byte tail, with their padding, are the padded tail of the encoding |
| SimpleSimd.EncodeAnyInner | src/codec/simplesimd/mod.rs:21-38 | writes the encoding of the triplets and returns 4 per triplet |
| SimpleSimd.Encode32Inner | src/codec/simplesimd/mod.rs:41-58 | writes the encoding of 8 triplets and returns 32 |
| SimpleSimd.Encode32 | src/codec/simplesimd/mod.rs:62-68 | writes the encoding of the first 24 bytes and returns 32, whatever they are |
| SimpleSimd.EncodeAny | src/codec/simplesimd/mod.rs:72-79 | writes the encoding of the whole triplets and returns `4 * (len / 3)`, whatever the bytes |
| SimpleSimd.Encode | src/codec/simplesimd/mod.rs:81-139 | writes the Base64 encoding of `src`, changes nothing else, returns `encode_len(len)`; the empty input writes nothing |
| SimpleSimd.EncodeBlocks | src/codec/simplesimd/mod.rs:85-95 | the block loop keeps `3 * dest_i == 4 * src_i` and stops with fewer than 24 bytes left, having written the encoding of the bytes before `src_i` |
| SimpleSimd.EncodeBlock | src/codec/simplesimd/mod.rs:88-93 | one pass of the block loop extends the encoded prefix by 24 bytes |
| SimpleSimd.EncodeTriplets | src/codec/simplesimd/mod.rs:97-100 | `src_i = (dest_i / 4) * 3` is the input consumed, with at most 2 bytes left |
| SimpleSimd.TripletsWritten | src/codec/simplesimd/mod.rs:97-100 | the triplets written after the blocks extend the encoded prefix to the recomputed `src_i` |
| SimpleSimd.Rederive | src/codec/simplesimd/mod.rs:99 | `(dest_i / 4) * 3` recovers the bytes behind whole quartets |
| SimpleSimd.TailFits | src/codec/simplesimd/mod.rs:102-136 | the padded tail ends the output exactly at `encode_len(len)` |
| SimpleSimd.EncodeTail | src/codec/simplesimd/mod.rs:102-136 | nothing for 0 bytes left, one padded quartet for 1 or 2 |
| SafeSimd.Encode32Inner | src/codecs/safesimd/mod.rs:23-35 | triplet `v` goes to the quartet at `4v` for `v` in 0..8; writes the encoding of 24 bytes and returns 32 |
| SafeSimd.Encode32InnerAlt | src/codecs/safesimd/mod.rs:58-75 | writes the encoding of exactly 8 triplets and returns 32 |
| SafeSimd.Encode32 | src/codecs/safesimd/mod.rs:101-107 | writes the encoding of the first 24 bytes and returns 32 |
| SafeSimd.Encode32Avx | src/codecs/safesimd/mod.rs:78-86 | the same, compiled for AVX |
| SafeSimd.Encode32Avx2 | src/codecs/safesimd/mod.rs:89-97 | the same, compiled for AVX2 |
| SafeSimd.EncodeAny | src/codecs/safesimd/mod.rs:111-118 | writes the encoding of the whole triplets and returns `4 * (len / 3)` |
| SafeSimd.EncodeAlt | src/codecs/safesimd/mod.rs:120-178 | writes the Base64 encoding of `src` and returns `encode_len(len)` |
| SafeSimd.Encode | src/codecs/safesimd/mod.rs:180-234 | writes the Base64 encoding followed by a NUL and returns `encode_len(len) + 1`; the empty input writes only the NUL |
| SafeSimd.EncodeBlocks | src/codecs/safesimd/mod.rs:184-194 | the block loop keeps `3 * dest_i == 4 * src_i` and stops with fewer than 24 bytes left, the bytes before `src_i` encoded |
| SafeSimd.EncodeText | src/codecs/safesimd/mod.rs:184-230 | blocks, triplets and the padded tail write the Base64 encoding and return `encode_len(len)` |
| SafeSimd.EncodeBlock | src/codecs/safesimd/mod.rs:188-193 | one pass of the block loop extends the encoded prefix by 24 bytes |
| SafeSimd.EncodeTriplets | src/codecs/safesimd/mod.rs:200-210 | the `step_by(3)` loop keeps `src_i == i`, grows `dest_i` by 4 per triplet and leaves at most 2 bytes |
| SafeSimd.TableTail | src/codecs/safesimd/mod.rs:212-230 | the table characters of a 1- or 2-byte tail and their `=` are the padded tail |
| SafeSimd.EncodeTail | src/codecs/safesimd/mod.rs:212-230 | nothing for 0 bytes left, one padded quartet for 1 or 2 |
| SafeSimd.NulWritten | src/codecs/safesimd/mod.rs:232-233 | the NUL written after the text extends it by one zero byte |
| Codecs.CodecBuf.constructor | src/codecs/mod.rs:21-26 | `new`: a zeroed buffer of `BUF_LEN` bytes, position 0 |
| Codecs.CodecBuf.AsRef | src/codecs/mod.rs:70-74 | the filled part, `buf_pos` bytes long |
| Codecs.CodecBuf.Len | src/codecs/mod.rs:65-67 | the length of the filled part, at most `BUF_LEN` |
| Codecs.CodecBuf.Chunks | src/codecs/mod.rs:46-48 | the filled part in pieces of `chunk_size`, each the slice at its offset, the last possibly shorter |
| Codecs.CodecBuf.Push | src/codecs/mod.rs:28-35 | fails with `BufferOverflow` and changes nothing exactly when the buffer is full; otherwise stores the byte at the position and advances, every other slot unchanged |
| Codecs.CodecBuf.ExtendBySlice | src/codecs/mod.rs:37-44 | fails and changes nothing exactly when `buf_pos + len >= BUF_LEN`, so it never fills the buffer; otherwise appends the slice |
| Codecs.CodecBuf.ExtendWithin | src/codecs/mod.rs:37-44 | `extend_by_slice` with its bound as a parameter: fails exactly when the slice would end past it, else appends the slice |
| Codecs.CodecBuf.CopyFromSlice | src/codecs/mod.rs:50-53 | the slice becomes the whole filled part, the rest of the array unchanged |
| Codecs.CodecBuf.Clear | src/codecs/mod.rs:61-63 | empties the filled part without touching the array |
| Codecs.SliceChunks | src/codecs/mod.rs:46-48 | the number of chunks is the length divided by the size, rounded up |
| Codecs.ChunkAt | src/codecs/mod.rs:46-48 | chunk `i` is the slice from `i * size`, `size` long or up to the end |
| Codecs.ChunkSlice | src/codecs/mod.rs:46-48 | chunk `i` starts after `i` strides of `size` and is `size` long or runs to the end |
| Codecs.RoundFillsBuffer | src/codecs/mod.rs:110 | one round of `encode_stream` reads 768 bytes, a multiple of 3, whose encoding is exactly `BUF_LEN` characters |
| Codecs.PushNext | src/codecs/mod.rs:28-35 | a `push` of the next character of a text extends the written prefix, or stops the text there on a full buffer |
| Codecs.PushPadding | src/codecs/vanilla/mod.rs:37-45 | the padding pushes succeed exactly when the whole text fits, leaving it written |
| Codecs.LastTextSplit | src/codecs/vanilla/mod.rs:26-45 | the text of a last chunk of 1 to 3 bytes is `len + 1` characters of its zero-extended quartet, then the padding |
| Codecs.ChunksLen | src/codecs/vanilla/mod.rs:15-24 | the encoding has four characters per chunk of 3 |
| Vanilla.PushChars | src/codecs/vanilla/mod.rs:56-68 | appends the first `num_chars` characters of the triplet's quartet with one `extend_by_slice`, or fails with nothing changed |
| Vanilla.PushCharsNext | src/codecs/vanilla/mod.rs:56-68 | `push_chars` of the next characters of a text extends the written prefix, or stops it |
| Vanilla.EncodeChunks | src/codecs/vanilla/mod.rs:15-24 | every chunk but the last appends its 4 characters in input order; an overflow means the text does not fit |
| Vanilla.EncodeLast | src/codecs/vanilla/mod.rs:26-45 | the zero-extended last chunk and its padding complete the text, or overflow |
| Vanilla.EncodeBufWithin | src/codecs/vanilla/mod.rs:14-48 | appends the Base64 encoding of the input's filled part, succeeding exactly when it fits under the slices' bound; on overflow the output holds a prefix of the text |
| Vanilla.EncodeBuf | src/codecs/vanilla/mod.rs:14-48 | `encode_buf` as written: succeeds exactly when the text fits without a slice reaching the last byte of the buffer |
| Vanilla.EncodeBufCorrected | src/codecs/vanilla/mod.rs:14-48 | with slices allowed to fill the buffer: succeeds exactly when the whole text fits |
| Vanilla.FullRoundRejected | src/codecs/mod.rs:38 | as written, whole triplets fail exactly when their text would fill the output to its last byte, so a full 768-byte round always fails; the corrected bound accepts it |
| BuildLuts.C0Lut | build.rs:19-26 | every `C0_LUT` entry is an alphabet character |
| BuildLuts.C1Lut | build.rs:28-35 | every `C1_LUT` entry is an alphabet character |
| BuildLuts.C2Lut | build.rs:37-44 | every `C2_LUT` entry is an alphabet character |
| BuildLuts.C3Lut | build.rs:46-53 | every `C3_LUT` entry is an alphabet character |
| BuildLuts.SwappedGroup1 | build.rs:9-11 | the unmasked `swap_endianess` still gives the second 6-bit group at bits 4 to 9 |
| BuildLuts.SwappedGroup2 | build.rs:9-11 | and the third 6-bit group at bits 6 to 11 |
| BuildLuts.LutsGiveQuartet | src/codecs/fairy/mod.rs:60-72 | the four tables at the indices the codec uses give the Base64 quartet of the triplet |
| Fairy.TableChars | src/codecs/fairy/mod.rs:60-72 | the four table characters of a triplet are its quartet |
| Fairy.PushCharsLut | src/codecs/fairy/mod.rs:60-72 | pushes the triplet's quartet one character at a time; the first full buffer stops it and what was pushed stays |
| Fairy.PushTwo | src/codecs/fairy/mod.rs:75-93 | up to two pushes, stopping at the first failure |
| Fairy.PushCharsLutN | src/codecs/fairy/mod.rs:75-93 | for a last chunk of 1 to 3 bytes, pushes its first `len + 1` characters, missing bytes read as zero |
| Fairy.LastChunkQuartet | src/codecs/fairy/mod.rs:75-93 | a last chunk's encoding starts with `len + 1` characters of its zero-extended quartet |
| Fairy.EncodeChunks | src/codecs/fairy/mod.rs:18-27 | every chunk but the last through `push_chars_lut`; an overflow means the text does not fit |
| Fairy.EncodeLast | src/codecs/fairy/mod.rs:29-45 | the last chunk and its padding complete the text, or overflow |
| Fairy.EncodeBuf | src/codecs/fairy/mod.rs:17-48 | appends the Base64 encoding of the input's filled part and succeeds exactly when it fits; on overflow the pushes made stay |
| Encode.PushChars | src/encode.rs:4-10 | appends exactly the first `num_chars` characters of the triplet's quartet |
| Encode.PushChunks | src/encode.rs:13-18 | every chunk but the last appends its quartet: the first `4 * (chunks - 1)` characters of the text |
| Encode.PushLast | src/encode.rs:21-44 | the zero-extended last chunk and its padding complete the text |
| Encode.Encode | src/encode.rs:12-47 | the Base64 encoding of the input, every byte alphabet or `=`, so the conversion to `String` cannot fail |
| Encode.EncodeHello | src/encode.rs:56-57 | `hello\n` encodes to `aGVsbG8K` |
| Encode.EncodeHelllo | src/encode.rs:59-60 | `helllo\n` encodes to `aGVsbGxvCg==` |
| Lib.EncodeOptions.Encode | src/lib.rs:19-23 | `encode_len` characters, the encoding of the bytes `encode_with_fallback` delivers, all alphabet or `=` |
| Lib.EncodeOptions.EncodeMut | src/lib.rs:25-31 | `BufferOverflow` with the slice untouched exactly when it is shorter than `encode_len`; otherwise the encoding of the delivered bytes at its start, the rest unchanged, and its length |
| Lib.Encode | src/lib.rs:43-45 | the same as `EncodeOptions::encode` |
| Lib.EncodeMut | src/lib.rs:47-49 | the same as `EncodeOptions::encode_mut` |
| Lib.ZeroLen | tests/test_static.rs:9-21 | the empty input: `encode_mut` returns 0 and leaves an empty slice, and `encode` gives the empty text |

## Left out

- Packed structs: the `#[repr(packed)]` `Bytes`/`Chars` views, `from_raw_parts` and reading a `u32`'s bytes through pointers are modelled as stride-3/4 indexing and little-endian byte extraction.
- `CHARS` (src/lib.rs:6) is given by the range formula `Base64Spec.Char`, not by its 64-entry literal.
- The lookup-table modules of the scalar codecs are not part of this model. Their tables are given by the formulas in `Luts`, `SafeSimd.TableTail` and `BuildLuts`, and only the properties the codecs rely on are proved.
- Error messages: the `format!` text of `InvalidInput` is modelled as the characters it names. `InputModError` carries the length.
- The `CodecError` of src/codec/mod.rs and its `std::io::Error` variant are folded into one `CodecError` datatype.
- I/O is not modelled: `CodecBuf::read_from`, `Codec::encode`, `Codec::encode_stream` and the `sponge` codec.
- `decode_stream` and `decode_buf` of the `Codec` encoders are `todo!()` and are not modelled.
- `DecodeOptions::decode` and the public `decode` wrap the external `data_encoding` crate and are not modelled.
- The CLI and benchmark binaries are not modelled. The file writing in `build.rs` is not modelled; its per-index formulas are.
- CPU feature detection is a `Cpu` parameter.
- Undersized destinations are not modelled. Too-short zips, panics on slice bounds and undefined behaviour through `from_raw_parts_mut` become `requires` on `dest.Length`.
- Avx2.Maddubs, Avx2.MaddReg: the multiply-add intrinsics are written for the constant multipliers the codec passes them, not for arbitrary operands.
- Codecs.CodecBuf.Chunks requires a positive chunk size: `chunks(0)` panics.
- Codecs.CodecBuf.CopyFromSlice requires a slice of at most `BUF_LEN` bytes: a longer one panics.
- Simple.Decode: models the decoder with the guard `src_i + 36 <= len` and a `BADCHAR`-checked tail, the evidently intended one. The code as written is `Simple.DecodeAsWritten`: it panics on `AA==` and `AAA=` and accepts an invalid tail. `Simple.AsWrittenAgainstDec` relates the two (see Findings).
- Simple.DecodeWhole, Simple.DecodeTail: likewise the corrected guard and checked tail. `Simple.BlockGuardAsWritten` and `Simple.DecodeTailAsWritten` are the code as written.
- Avx2Decode.Decode: hands the characters left after its blocks to the corrected `Simple.Decode`. As written, that call inherits the unchecked tail. It also inherits the panic on `AA==`/`AAA=`, but only when no block was taken: at least 13 characters follow a stored block.
- Avx2Decode.DecodeWithFallback: without AVX2 it calls the corrected `Simple.Decode` on the whole input. As written it panics on `AA==`/`AAA=` and accepts an invalid padded tail, as `Simple.AsWrittenAgainstDec` states.
- Simple.Decode, Avx2Decode.Decode, Avx2Decode.DecodeWithFallback: the requirement `4 * at + 3 * |src| <= 4 * dest.Length` asks for up to 2 bytes more room than the decoder writes. For example, `AAA=` writes 2 bytes but the requirement asks for 3. The source only needs room for the decoded bytes; the looser bound keeps the room argument linear in `|src|`.
- Vanilla.EncodeBuf, Fairy.EncodeBuf, Encode.Encode require a non-empty input. On the empty input the source reaches `unreachable!` or underflows `chunks_len - 1`, which is a panic, not a result.
- Codecs.RoundFillsBuffer: `BUF_LEN` (1024) is documented as divisible by 3, which it is not. The model uses the value 1024 and proves the property `encode_stream` relies on: 768 bytes encode to exactly 1024 characters.
- CodecAvx2.EncodeWithFallback and the `Lib` members state the behaviour as written: with AVX2 and 28 or more input bytes, the first 24 bytes are encoded as zeros. `CodecAvx2.Encode` is the evidently intended loop (see Findings).

## Findings

| source | as written | input that shows it | evidently intended | confidence | as-written member | corrected member |
|---|---|---|---|---|---|---|
| src/simple/mod.rs:220 | the block guard `len - 4 - src_i >= 32` is an unsigned subtraction, which underflows when the stripped text is shorter than 4 characters | `AA==` (stripped to 2 characters) and `AAA=` (3), valid Base64 for `00` and `00 00` | take a block only while `src_i + 36 <= len` | not executed | Simple.BlockGuardAsWritten, Simple.PaddedPairUnderflows, Simple.DecodeAsWritten | Simple.Decode |
| src/simple/mod.rs:242-261 | the 2- and 3-character tails are ORed and stored without comparing the word against `BADCHAR` | `AAAAA*==` is accepted as `00 00 00 FF` | reject a tail with a character outside the alphabet, as the whole quartets are rejected | not executed | Simple.DecodeTailAsWritten, Simple.UncheckedTail, Simple.AsWrittenExamples | Simple.DecodeTail |
| src/codec/avx2/mod.rs:86-98 | the first load's mask elements are `0x8000000` (bit 27), so `_mm256_maskload_epi32` loads no element and the first 24 bytes are encoded as zeros | 28 bytes `FF`: the text should start with `/`, the loop writes `A` | the mask of src/avx2/mod.rs:93-102, bit 31 set in elements 1 to 7 | not executed | CodecAvx2.EncodeAsWritten, CodecAvx2.FirstBlockLost, CodecAvx2.FirstBlockLostExample | CodecAvx2.Encode |
| src/codecs/mod.rs:38 | `extend_by_slice` rejects a slice when `buf_pos + len >= BUF_LEN`, so a slice can never fill the buffer | one `encode_stream` round of 768 bytes, whose 1024 characters fail on the last quartet | reject only when `buf_pos + len > BUF_LEN` | not executed | Vanilla.EncodeBuf, Vanilla.FullRoundRejected | Vanilla.EncodeBufCorrected |
