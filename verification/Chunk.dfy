/** The AIFF / AIFF-C chunk decoders: the 8-byte header that prefixes every
    chunk, and the Common chunk (`COMM`) carrying the sample format. Both are
    pure reads of a buffer at an offset. */
module Chunk {
  import opened Wrappers
  import opened Bytes
  import opened JsNumber
  import opened Extended

  /** Bytes consumed by a chunk header. */
  const HeaderLen: nat := 8

  /** A chunk header: a four-byte tag and the number of body bytes that follow. */
  datatype ChunkHeader = ChunkHeader(chunkID: seq<Byte>, size: nat)

  /** A four-character code, kept as its raw bytes. */
  function FourCC(buf: seq<Byte>, off: nat): (tag: seq<Byte>)
    requires off + 4 <= |buf|
    ensures |tag| == 4
  {
    buf[off..off + 4]
  }

  /** `Header.get`: the tag, then the body size as an unsigned big-endian
      32-bit number. The tag is kept as its four raw bytes; whatever checks
      the four-character-code reader makes of its own are not modelled. */
  function GetHeader(buf: seq<Byte>, off: nat): (h: ChunkHeader)
    requires off + HeaderLen <= |buf|
    ensures h.chunkID == buf[off..off + 4]
    ensures h.size == BeValue(buf[off + 4..off + 8])
    ensures h.size < TwoTo32
  {
    ChunkHeader(FourCC(buf, off), U32BE(buf, off + 4))
  }

  /** A decoded Common chunk. */
  datatype Common = Common(
    numChannels: nat,
    numSampleFrames: nat,
    sampleSize: nat,
    sampleRate: int,
    compressionType: Option<seq<Byte>>,
    compressionName: Option<string>)

  /** The fields every Common body starts with: channel count, frame count,
      sample size and the extended-precision sample rate. They occupy 18
      bytes, but only the first 12 are read: the low 48 bits of the rate's
      significand are skipped. */
  function GetFixedFields(buf: seq<Byte>, off: nat): (c: Common)
    requires off + 12 <= |buf|
    ensures c.numChannels == BeValue(buf[off..off + 2]) < 0x1_0000
    ensures c.numSampleFrames == BeValue(buf[off + 2..off + 6]) < TwoTo32
    ensures c.sampleSize == BeValue(buf[off + 6..off + 8]) < 0x1_0000
    ensures c.sampleRate == SampleRate(BeValue(buf[off + 8..off + 10]), BeValue(buf[off + 10..off + 12]))
    ensures c.compressionType == None && c.compressionName == None
  {
    var rate := SampleRate(U16BE(buf, off + 8), U16BE(buf, off + 10));
    Common(U16BE(buf, off), U32BE(buf, off + 2), U16BE(buf, off + 6), rate, None, None)
  }

  /** A constructed `Common` token: the container's AIFF-C flag and the
      declared body length it will report as consumed. */
  datatype CommonToken = CommonToken(isAifc: bool, len: nat)

  /** The two ways decoding a Common chunk fails. */
  datatype Error =
    | ChunkTooSmall(minimum: nat)
    | IllegalPstringLength

  /** The fixed part of the body: 18 bytes, plus the 4-byte compression type in AIFF-C. */
  function MinimumCommonSize(isAifc: bool): nat {
    if isAifc then 22 else 18
  }

  /** The `Common` constructor: rejects a declared size below the fixed part
      of the body, otherwise records the size as the token's length. */
  function NewCommon(header: ChunkHeader, isAifc: bool): (r: Result<CommonToken, Error>)
    ensures r.Failure? <==> (if isAifc then header.size < 22 else header.size < 18)
    ensures r.Failure? ==> r.error == ChunkTooSmall(MinimumCommonSize(isAifc))
    ensures r.Success? ==> r.value.isAifc == isAifc && r.value.len == header.size
  {
    var minimum := MinimumCommonSize(isAifc);
    if header.size >= minimum then Success(CommonToken(isAifc, header.size))
    else Failure(ChunkTooSmall(minimum))
  }

  /** The decoder's consistency check on the compression-name pstring: the
      signed length byte, plus the pad computed with JavaScript's `%`, must
      account for the declared length after the 23 bytes before the name. */
  predicate PstringLengthMatches(len: int, lengthByte: Byte) {
    var strLen := S8(lengthByte);
    23 + strLen + Rem(strLen + 1, 2) == len
  }

  /** Bytes a pstring of `n` characters occupies: the length byte, the
      characters, and a pad byte when that total is odd. */
  function PstringFieldSize(n: nat): (size: nat)
    ensures size % 2 == 0 && n + 1 <= size <= n + 2 && size >= 2
  {
    if n % 2 == 0 then n + 2 else n + 1
  }

  /** A Common body holding a name field has an even length of at least 24. */
  lemma BodyWithNameIsEven(n: nat)
    ensures (22 + PstringFieldSize(n)) % 2 == 0
    ensures 22 + PstringFieldSize(n) >= 24
  {
  }

  /** The pstring length test accepts exactly a non-negative length byte whose even-padded
      pstring fills the body after the 22-byte fixed part. */
  lemma PstringLengthMatchesField(len: int, lengthByte: Byte)
    requires len > 22
    ensures PstringLengthMatches(len, lengthByte) <==>
      lengthByte < 0x80 && len == 22 + PstringFieldSize(lengthByte)
  {
    var strLen := S8(lengthByte);
    var pad := Rem(strLen + 1, 2);
    if lengthByte < 0x80 {
      assert strLen == lengthByte;
      assert pad == (strLen + 1) % 2 by {
        assert 0 <= pad < 2 && (strLen + 1 - pad) % 2 == 0;
      }
    } else {
      assert strLen < 0 && pad <= 0;
    }
  }

  /** Every byte `get` reads lies inside the buffer: the 12 bytes of the fixed
      fields it reads, the compression type and length byte in AIFF-C, and the
      name when the length check passes. */
  predicate ReadsInBounds(t: CommonToken, buf: seq<Byte>, off: nat) {
    && off + 12 <= |buf|
    && (t.isAifc ==> off + 22 <= |buf|)
    && (t.isAifc && t.len > 22 ==>
          && off + 23 <= |buf|
          && (PstringLengthMatches(t.len, buf[off + 22]) ==> off + 23 + S8(buf[off + 22]) <= |buf|))
  }

  /** The compression type and name `Common.get` sets: a type and an optional
      pstring name in AIFF-C, the name "PCM" and no type in plain AIFF. */
  datatype Compression = Compression(compressionType: Option<seq<Byte>>, compressionName: Option<string>)

  function GetCompression(t: CommonToken, buf: seq<Byte>, off: nat): (r: Result<Compression, Error>)
    requires ReadsInBounds(t, buf, off)
    ensures !t.isAifc ==> r == Success(Compression(None, Some("PCM")))
    ensures t.isAifc && r.Success? ==> r.value.compressionType == Some(buf[off + 18..off + 22])
    ensures t.isAifc && t.len <= 22 ==> r.Success? && r.value.compressionName == None
    ensures t.isAifc && t.len > 22 ==>
      (r.Success? <==> buf[off + 22] < 0x80 && t.len == 22 + PstringFieldSize(buf[off + 22]))
    ensures t.isAifc && t.len > 22 && r.Success? ==>
      && off + 23 + buf[off + 22] <= |buf|
      && r.value.compressionName == Some(Latin1(buf[off + 23..off + 23 + buf[off + 22]]))
    ensures r.Failure? ==> r.error == IllegalPstringLength
  {
    if t.isAifc then
      var compressionType := Some(FourCC(buf, off + 18));
      if t.len > 22 then
        PstringLengthMatchesField(t.len, buf[off + 22]);
        var strLen := S8(buf[off + 22]);
        if PstringLengthMatches(t.len, buf[off + 22]) then
          Success(Compression(compressionType, Some(Latin1(buf[off + 23..off + 23 + strLen]))))
        else
          Failure(IllegalPstringLength)
      else
        Success(Compression(compressionType, None))
    else
      Success(Compression(None, Some("PCM")))
  }

  /** `Common.get`: the integer fields, the sample rate by the exponent-shift
      rule, and the compression fields: type and optional pstring name in
      AIFF-C, the name "PCM" in plain AIFF. */
  function GetCommon(t: CommonToken, buf: seq<Byte>, off: nat): (r: Result<Common, Error>)
    requires ReadsInBounds(t, buf, off)
    ensures r.Success? ==>
      && r.value.numChannels == BeValue(buf[off..off + 2]) < 0x1_0000
      && r.value.numSampleFrames == BeValue(buf[off + 2..off + 6]) < TwoTo32
      && r.value.sampleSize == BeValue(buf[off + 6..off + 8]) < 0x1_0000
    ensures r.Success? ==>
      r.value.sampleRate == SampleRate(BeValue(buf[off + 8..off + 10]), BeValue(buf[off + 10..off + 12]))
    ensures !t.isAifc ==>
      r.Success? && r.value.compressionType == None && r.value.compressionName == Some("PCM")
    ensures t.isAifc && r.Success? ==> r.value.compressionType == Some(buf[off + 18..off + 22])
    ensures t.isAifc && t.len <= 22 ==> r.Success? && r.value.compressionName == None
    ensures t.isAifc && t.len > 22 ==>
      (r.Success? <==> buf[off + 22] < 0x80 && t.len == 22 + PstringFieldSize(buf[off + 22]))
    ensures t.isAifc && t.len > 22 && r.Success? ==>
      && off + 23 + buf[off + 22] <= |buf|
      && r.value.compressionName == Some(Latin1(buf[off + 23..off + 23 + buf[off + 22]]))
    ensures r.Failure? ==> r.error == IllegalPstringLength
  {
    var fixed := GetFixedFields(buf, off);
    match GetCompression(t, buf, off)
    case Success(c) =>
      Success(fixed.(compressionType := c.compressionType, compressionName := c.compressionName))
    case Failure(e) =>
      Failure(e)
  }
}
