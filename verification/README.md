# AIFF chunk decoders in Dafny

This project models the AIFF / AIFF-C chunk decoders of music-metadata's
`src/aiff/Chunk.ts`:

- `Header.get`, which reads the 8-byte header in front of every chunk: a
  four-character tag and an unsigned big-endian 32-bit body size.
- The `Common` constructor, which rejects a Common (`COMM`) chunk whose
  declared size is below the fixed part of its body. That fixed part is
  18 bytes in plain AIFF and 22 in AIFF-C.
- `Common.get`, which reads the following from the body:
  - the channel count, frame count and sample size;
  - the sample rate, with the exponent-shift rule the source applies to
    the 80-bit extended-precision field;
  - in AIFF-C, the compression type and the length-checked,
    even-padded compression-name pstring;
  - in plain AIFF, the fixed name "PCM".

The decoders are pure functions over a byte sequence and an offset.
Failures are values (`Result`), not exceptions. The JavaScript operators
the source relies on are written out in `JsNumber`:

- `<<` and `>>` work on 32-bit integers and take their shift count modulo 32.
- `%` is a truncated remainder.

Node's buffer reads are in `Bytes`: `readUInt16BE`, `readUInt32BE` and
`readInt8`.

Each decoder has a partner it is proved against:

- `BeValue` is an independent reference definition of big-endian numbers.
- `ExtendedValue` is the exact value of an 80-bit extended number. For
  exponent words 16367 to 16398 the rate rule is proved to be its floor.
  Outside that range it is not, and two lemmas exhibit where it fails.
- `ChunkEncoding` holds writers for headers, rate fields, pstrings and
  whole Common bodies. Decoding what they write gives back what was
  written.
- `PstringFieldSize` is the layout of an even-padded pstring. The source's
  signed-byte arithmetic check is proved to accept exactly that layout.

Files:

- `Power.dfy`: powers of two.
- `Wrappers.dfy`: `Option`, `Result`.
- `Bytes.dfy`: bytes, the big-endian value of a byte sequence and its
  encoder, the buffer reads, Latin-1.
- `JsNumber.dfy`: ToInt32, shift counts, `<<`, `>>`, `%`.
- `Extended.dfy`: the sample-rate rule, the exact extended value, and the
  rate encoder.
- `Chunk.dfy`: the decoders themselves.
- `ChunkEncoding.dfy`: writers and round trips.
- `ChunkProperties.dfy`: locality, the pstring check's consequences, and
  worked examples.

Points where the code's behaviour is easy to misread:

- The mantissa word comes from a 16-bit read, so it is below 65536.
  The right-shift example used here is 8000 Hz: word `0x400B`, mantissa
  `0xFA00`.
- Of the 18 bytes of fixed fields, `get` reads only the first 12. The low
  48 bits of the rate's significand are never read, so the model requires
  only those 12 bytes to be present.
- The right shift is JavaScript's arithmetic `>>`, not a logical shift.
  The two agree here because the mantissa word is never negative.
- JavaScript takes the shift count modulo 32, and `<<` wraps to a signed
  32-bit result. Both are modelled, not corrected. The lemmas
  `Extended.SampleRateShiftWraps` and `Extended.SampleRateOverflows` state
  their effect.

## Model

| member | source | states |
|---|---|---|
| Chunk.GetHeader | src/aiff/Chunk.ts:20-30 | The tag is the four bytes at the offset. The size is the unsigned big-endian value of the next four bytes, so it is below 2^32. |
| ChunkEncoding.HeaderRoundTrip | src/aiff/Chunk.ts:20-30 | A header written anywhere in a buffer, with any bytes around it, decodes to itself. |
| ChunkEncoding.HeaderEncodesItsBytes | src/aiff/Chunk.ts:20-30 | Every decoded header can be re-encoded, and re-encoding gives back the exact 8 bytes it was read from. Header decoding therefore loses nothing. |
| ChunkProperties.HeaderDependsOnlyOnItsBytes | src/aiff/Chunk.ts:23-29 | Two buffers that agree on the 8 header bytes decode to the same header, wherever those bytes sit. |
| Chunk.NewCommon | src/aiff/Chunk.ts:51-55 | Construction fails exactly when the declared size is below 22 (AIFF-C) or 18 (plain AIFF). The error names that minimum. On success the token keeps the container kind and uses the declared size as its length. |
| ChunkProperties.ConstructorExamples | src/aiff/Chunk.ts:52-54 | The boundary sizes 17/18 for AIFF and 18/21/22 for AIFF-C are rejected or accepted as the minimum dictates. |
| Chunk.GetFixedFields | src/aiff/Chunk.ts:60-68 | Only body bytes 0-12 need be present. The channels, frames and sample size are the big-endian values of bytes 0-2, 2-6 and 6-8, each within its width. The rate is the shift rule applied to the words at bytes 8 and 10. |
| Extended.SampleRate | src/aiff/Chunk.ts:60-67 | The rate is always a signed 32-bit integer. A word below 16398 never produces more than the mantissa word, and never a negative rate. |
| Extended.SampleRateUnshifted | src/aiff/Chunk.ts:67 | At exponent word 16398 the rate is the mantissa word itself. |
| Extended.SampleRateLeftShift | src/aiff/Chunk.ts:67 | For a word 1 to 31 above 16398 whose product fits in 31 bits, the rate is the mantissa times 2^(word - 16398). |
| Extended.SampleRateRightShift | src/aiff/Chunk.ts:67 | For a word 1 to 31 below 16398, the rate is the mantissa divided by 2^(16398 - word), rounded down. |
| Extended.SampleRateShiftWraps | src/aiff/Chunk.ts:60-67 | Words 32 or more away from 16398 give the same rate as the word 32 closer, because JavaScript takes shift counts modulo 32. |
| Extended.SampleRateOverflows | src/aiff/Chunk.ts:67 | A large left shift wraps to a negative rate: word 16414 with mantissa 0xFFFF gives -65536. |
| Extended.SampleRateIsFloorOfExtended | src/aiff/Chunk.ts:59-67 | For exponent words from 16367 to 16398, the rate read from the top 16 significand bits is the floor of the true extended-precision value. |
| Extended.SampleRateNotFloorAboveRange | src/aiff/Chunk.ts:60-67 | Above exponent word 16398 the rule can fall below the floor: a normalised 96001 Hz (word 0x400F) is read as 96000, because the left shift drops the significand bit worth 1. |
| Extended.SampleRateNotFloorBelowRange | src/aiff/Chunk.ts:60-67 | At word 16366 the shift of -32 wraps to 0: every normalised significand is read as its top 16 bits, at least 32768, although its value is below 1. |
| Extended.SampleRateExactForWholeValues | src/aiff/Chunk.ts:59-67 | When the 48 unread significand bits are zero and a left shift does not overflow, the rate equals the extended value exactly. |
| ChunkEncoding.RateFieldRoundTrip | src/aiff/Chunk.ts:60-67 | Every whole rate below 2^16, written as a normalised extended number, is read back exactly, both by the shift rule and as an extended value. |
| ChunkProperties.SampleRateExamples | src/aiff/Chunk.ts:60-67 | The rule gives 44100, 96000 and 8000 Hz for normalised fields, and 44100 Hz for the unnormalised field 22050 shifted left once. The examples cover the unshifted, left-shifted and right-shifted cases. |
| JsNumber.ShiftLeft | src/aiff/Chunk.ts:67 | `<<` yields a signed 32-bit value. A zero shift count gives ToInt32 of the operand. |
| JsNumber.ShiftLeftWraps | src/aiff/Chunk.ts:67 | `<<` is multiplication by 2^(count mod 32), reduced modulo 2^32. It is exact when the product fits in 32 signed bits. |
| JsNumber.ShiftRight | src/aiff/Chunk.ts:67 | `>>` yields a signed 32-bit value. A zero shift count gives ToInt32 of the operand. |
| JsNumber.ShiftRightFloors | src/aiff/Chunk.ts:67 | `>>` is floor division of the 32-bit operand by 2^(count mod 32). |
| JsNumber.ShiftCount | src/aiff/Chunk.ts:67 | The effective shift count is below 32, is congruent to the requested count modulo 32, and equals it when it is already below 32. |
| JsNumber.ToInt32 | src/aiff/Chunk.ts:67 | The result is a signed 32-bit integer congruent to the input modulo 2^32, and equal to it when it already fits. |
| JsNumber.Rem | src/aiff/Chunk.ts:74 | `%` has the sign of the dividend, is smaller in magnitude than the divisor, and differs from the dividend by a multiple of the divisor. |
| Bytes.S8 | src/aiff/Chunk.ts:73 | `readInt8` gives the unique value in [-128, 128) congruent to the byte modulo 256. It is non-negative exactly when the byte is below 0x80. |
| Bytes.U16BE | src/aiff/Chunk.ts:60-66 | `readUInt16BE` is the big-endian value of the two bytes at the offset. |
| Bytes.U32BE | src/aiff/Chunk.ts:65 | `readUInt32BE` is the big-endian value of the four bytes at the offset. |
| Bytes.Latin1 | src/aiff/Chunk.ts:76 | The 'binary' string has one character per byte, whose code is the byte. |
| Bytes.Latin1BytesOfLatin1 | src/aiff/Chunk.ts:76 | The 'binary' decoding is injective: the bytes are recovered from the string. |
| Bytes.EncodeBEOfBeValue | src/aiff/Chunk.ts:60-66 | A big-endian value re-encoded at its width gives back its bytes. The unsigned reads therefore lose nothing. |
| Chunk.PstringLengthMatchesField | src/aiff/Chunk.ts:72-79 | For a declared length above 22, the signed-length-plus-padding check passes exactly when the length byte is below 0x80 and the length is 22 plus the even-padded pstring size. |
| Chunk.GetCompression | src/aiff/Chunk.ts:70-83 | Plain AIFF yields no type and the name "PCM". AIFF-C yields the four bytes at 18 as the type. With a length of 22 or less there is no name. Above 22, the result is a success exactly when the pstring fills the body, and the name is the Latin-1 reading of the counted bytes at 23. The only failure is IllegalPstringLength. |
| Chunk.GetCommon | src/aiff/Chunk.ts:57-86 | All of the above together: the fixed fields and rate on success, the compression fields, and the single failure mode. Plain AIFF never fails. |
| ChunkEncoding.CommonRoundTrip | src/aiff/Chunk.ts:51-86 | A written Common body passes the constructor at its own size and decodes to the record written. This covers plain AIFF and AIFF-C, with and without a name. |
| ChunkEncoding.CompressionRoundTrip | src/aiff/Chunk.ts:70-83 | The compression type and pstring written after any 18 bytes read back as written. |
| ChunkProperties.CommonTranslationInvariant | src/aiff/Chunk.ts:57-86 | Decoding at an offset equals decoding the buffer cut at that offset. |
| ChunkProperties.PlainAiffIgnoresLengthAndTail | src/aiff/Chunk.ts:60-83 | A plain AIFF decode always succeeds. It depends only on the 12 fixed-field bytes it reads, never on the declared length or later bytes. |
| ChunkProperties.AifcNameShape | src/aiff/Chunk.ts:72-76 | A successful AIFF-C read of the compression fields, with a name field, implies a non-negative signed length byte and an even declared length of at least 24. |
| ChunkProperties.AifcRejectsOddOrNegative | src/aiff/Chunk.ts:72-79 | An AIFF-C chunk longer than 22 with an odd length, or with a negative signed length byte, is always rejected with IllegalPstringLength. |
| ChunkProperties.PlainAiffChunkExample | src/aiff/Chunk.ts:20-86 | A concrete 26-byte plain AIFF chunk decodes to 2 channels, 1000 frames, 16 bits, 44100 Hz and "PCM". |
| ChunkProperties.AifcNameExample | src/aiff/Chunk.ts:51-86 | A concrete AIFF-C body with type "sowt" and name "Swaps" decodes when its length is declared as 28. Declared as 29, it is rejected. |

## Left out

- `FourCcToken.get` (src/common/FourCC.ts) is not part of this model. The tag is kept as its four raw bytes. Any validation it performs, and its conversion to a string, are not modelled.
- `readUInt16BE`, `readUInt32BE` and `readInt8` raise a RangeError in Node when they read past the end of the buffer. Here those reads are preconditions instead: `off + 8 <= |buf|` for the header, and `Chunk.ReadsInBounds` for the Common body.
- Chunk.GetCompression: the name read through `Token.StringType(strLen, 'binary')` is different. It decodes with `Buffer.toString`, which cuts the end down to the buffer length, so a buffer ending inside the name yields a shorter name instead of an error. `ReadsInBounds` requires the whole name to be present, so this shortened-name case is excluded rather than modelled.
- Chunk.GetCommon: excludes the same shortened-name case, through the same `ReadsInBounds` precondition.
- The assertion error from the constructor and the thrown `Error('Illegal pstring length')` become the values `ChunkTooSmall(minimum)` and `IllegalPstringLength`. Messages and exception classes are not modelled.
- `Token.StringType(n, 'binary')` is modelled as one Latin-1 character per byte. No other string encoding is modelled.
- The sign bit of the 80-bit number: the source reads it as part of the exponent word, and the rule is modelled on the whole word. `Extended.ExtendedValue` covers only positive, finite numbers with an exponent below 0x7FFF.
- Extended.SampleRateIsFloorOfExtended: holds only for exponent words 16367 to 16398, because the rule itself is not the floor outside that range. Above it, a left shift drops significand bits of the integer part: 96001 Hz is read as 96000 (`Extended.SampleRateNotFloorAboveRange`). At 16366 and below, the shift count wraps modulo 32: word 16366 shifts by 0 and reads at least 32768 for a value below 1 (`Extended.SampleRateNotFloorBelowRange`).
- The token's `len` property is modelled as `Chunk.HeaderLen` for the header and as the token's `len` for Common. The declared length is not checked against the buffer.
- Chunk-tree traversal, file I/O and the rest of the parser are not modelled.
- ChunkEncoding.EncodeRateField: writes only whole rates below 2^16, each at a shift of zero or less. Larger rates the rule also reads back exactly, such as 96000 Hz (word 0x400F, significand 0xBB80 * 2^48), are covered by `Extended.SampleRateExactForWholeValues` and `ChunkProperties.SampleRateExamples`, not by the round trip.
- ChunkEncoding.CommonRoundTrip: covers only records the writer can produce. Those are rates from 0 to 65535, AIFF-C names shorter than 128 Latin-1 characters, and "PCM" as the plain AIFF name. Larger exact rates such as 88200, 96000, 176400 and 192000 Hz are left to `Extended.SampleRateExactForWholeValues`.
