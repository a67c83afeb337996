/** Writers for the layouts the decoders read: the inverse direction, used to
    state round trips. */
module ChunkEncoding {
  import opened Wrappers
  import opened Power
  import opened Bytes
  import opened JsNumber
  import opened Extended
  import opened Chunk

  predicate WellFormedHeader(h: ChunkHeader) {
    |h.chunkID| == 4 && h.size < TwoTo32
  }

  function EncodeHeader(h: ChunkHeader): (bytes: seq<Byte>)
    requires WellFormedHeader(h)
    ensures |bytes| == HeaderLen
  {
    h.chunkID + EncodeU32(h.size)
  }

  /** Decoding a header written at any offset, with anything around it, gives
      the header back and consumes exactly its 8 bytes. */
  lemma HeaderRoundTrip(h: ChunkHeader, before: seq<Byte>, after: seq<Byte>)
    requires WellFormedHeader(h)
    ensures var buf := before + EncodeHeader(h) + after;
      |before| + HeaderLen <= |buf| && GetHeader(buf, |before|) == h
  {
    var buf := before + EncodeHeader(h) + after;
    var off := |before|;
    assert buf[off..off + 4] == h.chunkID;
    assert buf[off + 4..off + 8] == EncodeU32(h.size);
  }

  /** Re-encoding a decoded header gives back the eight bytes it was read from. */
  lemma HeaderEncodesItsBytes(buf: seq<Byte>, off: nat)
    requires off + HeaderLen <= |buf|
    ensures WellFormedHeader(GetHeader(buf, off))
    ensures EncodeHeader(GetHeader(buf, off)) == buf[off..off + HeaderLen]
  {
    var h := GetHeader(buf, off);
    var sizeBytes := buf[off + 4..off + 8];
    EncodeU32OfBeValue(sizeBytes);
    assert EncodeHeader(h) == buf[off..off + 4] + sizeBytes;
    assert buf[off..off + HeaderLen] == buf[off..off + 4] + sizeBytes;
  }

  /** The ten-byte extended number for a whole rate below 2^16: the exponent
      word and top significand bits `EncodeRate` chooses, then 48 zero bits. */
  function EncodeRateField(rate: nat): (bytes: seq<Byte>)
    requires rate < 0x1_0000
    ensures |bytes| == 10
    ensures BeValue(bytes[0..2]) == EncodeRate(rate).0
    ensures BeValue(bytes[2..4]) == EncodeRate(rate).1
    ensures BeValue(bytes[2..]) == EncodeRate(rate).1 * TwoTo48
  {
    var (word, high) := EncodeRate(rate);
    var top := EncodeU16(high);
    var significand := top + [0, 0, 0, 0, 0, 0];
    var bytes := EncodeU16(word) + significand;
    assert bytes[0..2] == EncodeU16(word);
    assert bytes[2..] == significand;
    assert bytes[2..4] == significand[..2] == top;
    SignificandOfTopBits(significand);
    bytes
  }

  /** The rate field decodes, by the decoder's rule and as an extended number,
      to the rate written. */
  lemma RateFieldRoundTrip(rate: nat)
    requires rate < 0x1_0000
    ensures var bytes := EncodeRateField(rate);
      && BeValue(bytes[0..2]) < 0x7FFF && BeValue(bytes[2..4]) < 0x1_0000
      && SampleRate(BeValue(bytes[0..2]), BeValue(bytes[2..4])) == rate
      && ExtendedValue(BeValue(bytes[0..2]), BeValue(bytes[2..])) == rate as real
  {
  }

  /** A significand whose low six bytes are zero is its top 16 bits times 2^48. */
  lemma SignificandOfTopBits(s: seq<Byte>)
    requires |s| == 8 && forall i :: 2 <= i < 8 ==> s[i] == 0
    ensures BeValue(s) == BeValue(s[..2]) * TwoTo48
  {
    BeValueZeroTail(s, 6);
    Pow2Values();
  }

  /** The even-padded pstring field of a compression name. */
  function EncodePstring(name: string): (bytes: seq<Byte>)
    requires IsLatin1(name) && |name| < 0x80
    ensures |bytes| == PstringFieldSize(|name|)
  {
    [|name|] + Latin1Bytes(name) + (if |name| % 2 == 0 then [0] else [])
  }

  /** The first 18 body bytes, common to AIFF and AIFF-C, can hold these fields. */
  predicate FixedFieldsEncodable(c: Common) {
    && c.numChannels < 0x1_0000
    && c.numSampleFrames < TwoTo32
    && c.sampleSize < 0x1_0000
    && 0 <= c.sampleRate < 0x1_0000
  }

  /** A Common record the writer can produce for the given container kind:
      fields within their widths, a whole rate below 2^16, no compression
      fields but the name "PCM" in plain AIFF, a four-byte type and an optional
      Latin-1 name shorter than 128 characters in AIFF-C. */
  predicate Encodable(c: Common, isAifc: bool) {
    && FixedFieldsEncodable(c)
    && (if isAifc then
          && c.compressionType.Some? && |c.compressionType.value| == 4
          && (c.compressionName.Some? ==>
                IsLatin1(c.compressionName.value) && |c.compressionName.value| < 0x80)
        else
          c.compressionType == None && c.compressionName == Some("PCM"))
  }

  /** Channels, frames, sample size and the rate field, laid out so that the
      decoder's fixed-field reads give them back. */
  function EncodeFixedFields(c: Common): (bytes: seq<Byte>)
    requires FixedFieldsEncodable(c)
    ensures |bytes| == 18
    ensures GetFixedFields(bytes, 0) == c.(compressionType := None, compressionName := None)
  {
    var rateField := EncodeRateField(c.sampleRate);
    var bytes := EncodeU16(c.numChannels) + EncodeU32(c.numSampleFrames)
      + EncodeU16(c.sampleSize) + rateField;
    FixedFieldsOfParts(EncodeU16(c.numChannels), EncodeU32(c.numSampleFrames),
      EncodeU16(c.sampleSize), rateField);
    RateFieldRoundTrip(c.sampleRate);
    bytes
  }

  /** The fixed-field reads of four concatenated parts are the parts' values. */
  lemma FixedFieldsOfParts(channels: seq<Byte>, frames: seq<Byte>, size: seq<Byte>, rate: seq<Byte>)
    requires |channels| == 2 && |frames| == 4 && |size| == 2 && |rate| == 10
    ensures var bytes := channels + frames + size + rate;
      && |bytes| == 18
      && GetFixedFields(bytes, 0) == Common(BeValue(channels), BeValue(frames), BeValue(size),
           SampleRate(BeValue(rate[0..2]), BeValue(rate[2..4])), None, None)
  {
    var bytes := channels + frames + size + rate;
    assert bytes[0..2] == channels;
    assert bytes[2..6] == frames;
    assert bytes[6..8] == size;
    assert bytes[8..10] == rate[0..2];
    assert bytes[10..12] == rate[2..4];
  }

  /** What follows the fixed fields: nothing in plain AIFF; the compression
      type and, when there is one, the name's pstring in AIFF-C. */
  function EncodeCompression(c: Common, isAifc: bool): (bytes: seq<Byte>)
    requires Encodable(c, isAifc)
    ensures isAifc ==> |bytes| >= 4
  {
    if !isAifc then []
    else
      c.compressionType.value
        + (if c.compressionName.Some? then EncodePstring(c.compressionName.value) else [])
  }

  /** The body of a Common chunk holding `c`. */
  function EncodeCommon(c: Common, isAifc: bool): (body: seq<Byte>)
    requires Encodable(c, isAifc)
    ensures |body| >= MinimumCommonSize(isAifc)
  {
    EncodeFixedFields(c) + EncodeCompression(c, isAifc)
  }

  /** A written pstring, read after any prefix, starts with its length byte
      and holds the name's bytes. */
  lemma PstringRoundTrip(name: string, before: seq<Byte>)
    requires IsLatin1(name) && |name| < 0x80
    ensures var buf, off := before + EncodePstring(name), |before|;
      && buf[off] == |name| && off + 1 + |name| <= |buf|
      && buf[off + 1..off + 1 + |name|] == Latin1Bytes(name)
  {
    var field := EncodePstring(name);
    var buf, off, n := before + field, |before|, |name|;
    assert field[1..1 + n] == Latin1Bytes(name);
    assert buf[off + 1..off + 1 + n] == field[1..1 + n];
  }

  /** The fixed fields are read from the first 18 bytes alone. */
  lemma FixedFieldsOfPrefix(fixed: seq<Byte>, buf: seq<Byte>)
    requires |fixed| == 18 && |buf| >= 18 && buf[..18] == fixed
    ensures GetFixedFields(buf, 0) == GetFixedFields(fixed, 0)
  {
    assert buf[0..2] == fixed[0..2] && buf[2..6] == fixed[2..6] && buf[6..8] == fixed[6..8];
    assert buf[8..10] == fixed[8..10] && buf[10..12] == fixed[10..12];
  }

  /** The compression fields of a written AIFF-C or plain AIFF body read back,
      whatever the 18 bytes before them hold. */
  lemma CompressionRoundTrip(c: Common, isAifc: bool, fixed: seq<Byte>)
    requires Encodable(c, isAifc) && |fixed| == 18
    ensures var body := fixed + EncodeCompression(c, isAifc);
      && ReadsInBounds(CommonToken(isAifc, |body|), body, 0)
      && GetCompression(CommonToken(isAifc, |body|), body, 0)
         == Success(Compression(c.compressionType, c.compressionName))
  {
    var body := fixed + EncodeCompression(c, isAifc);
    if isAifc {
      assert body[18..22] == c.compressionType.value;
      if c.compressionName.Some? {
        var name := c.compressionName.value;
        var before := fixed + c.compressionType.value;
        assert body == before + EncodePstring(name);
        PstringRoundTrip(name, before);
        assert Latin1(body[23..23 + body[22]]) == name;
      }
    }
  }

  /** A written Common chunk is accepted by the constructor for its own size and
      decodes to the record written. */
  lemma CommonRoundTrip(c: Common, isAifc: bool, id: seq<Byte>)
    requires Encodable(c, isAifc)
    ensures var body := EncodeCommon(c, isAifc);
      && NewCommon(ChunkHeader(id, |body|), isAifc) == Success(CommonToken(isAifc, |body|))
      && ReadsInBounds(CommonToken(isAifc, |body|), body, 0)
      && GetCommon(CommonToken(isAifc, |body|), body, 0) == Success(c)
  {
    var fixed := EncodeFixedFields(c);
    var body := fixed + EncodeCompression(c, isAifc);
    assert body[..18] == fixed;
    FixedFieldsOfPrefix(fixed, body);
    CompressionRoundTrip(c, isAifc, fixed);
  }
}
