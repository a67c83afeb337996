/** Properties of the chunk decoders that relate several calls: where in the
    buffer they read, what the pstring check implies, and worked examples. */
module ChunkProperties {
  import opened Wrappers
  import opened Bytes
  import opened Extended
  import opened Chunk

  /** A header decodes the same wherever its eight bytes sit: the result is a
      function of those bytes alone. */
  lemma HeaderDependsOnlyOnItsBytes(buf1: seq<Byte>, off1: nat, buf2: seq<Byte>, off2: nat)
    requires off1 + HeaderLen <= |buf1| && off2 + HeaderLen <= |buf2|
    requires buf1[off1..off1 + HeaderLen] == buf2[off2..off2 + HeaderLen]
    ensures GetHeader(buf1, off1) == GetHeader(buf2, off2)
  {
    var w1, w2 := buf1[off1..off1 + HeaderLen], buf2[off2..off2 + HeaderLen];
    assert buf1[off1..off1 + 4] == w1[..4] && buf2[off2..off2 + 4] == w2[..4];
    assert buf1[off1 + 4..off1 + 8] == w1[4..] && buf2[off2 + 4..off2 + 8] == w2[4..];
  }

  /** The fixed fields are a function of the 12 bytes they are read from. */
  lemma FixedFieldsWindow(buf: seq<Byte>, off: nat)
    requires off + 12 <= |buf|
    ensures GetFixedFields(buf, off) == GetFixedFields(buf[off..off + 12], 0)
  {
    SliceOfSlice(buf, off, off + 12, 0, 2);
    SliceOfSlice(buf, off, off + 12, 2, 6);
    SliceOfSlice(buf, off, off + 12, 6, 8);
    SliceOfSlice(buf, off, off + 12, 8, 10);
    SliceOfSlice(buf, off, off + 12, 10, 12);
  }

  lemma FixedFieldsTranslationInvariant(buf: seq<Byte>, off: nat)
    requires off + 12 <= |buf|
    ensures GetFixedFields(buf, off) == GetFixedFields(buf[off..], 0)
  {
    var tail := buf[off..];
    FixedFieldsWindow(buf, off);
    FixedFieldsWindow(tail, 0);
    assert tail[0..12] == buf[off..off + 12];
  }

  /** The compression fields read the same from the buffer at `off` as from
      the buffer cut at `off`. */
  lemma CompressionTranslationInvariant(t: CommonToken, buf: seq<Byte>, off: nat)
    requires ReadsInBounds(t, buf, off)
    ensures ReadsInBounds(t, buf[off..], 0)
    ensures GetCompression(t, buf, off) == GetCompression(t, buf[off..], 0)
  {
    var tail := buf[off..];
    if t.isAifc {
      assert buf[off + 18..off + 22] == tail[18..22];
      if t.len > 22 {
        assert tail[22] == buf[off + 22];
      }
      if t.len > 22 && PstringLengthMatches(t.len, buf[off + 22]) {
        var n := S8(buf[off + 22]);
        assert buf[off + 23..off + 23 + n] == tail[23..23 + n];
      }
    }
  }

  /** Decoding a Common body at `off` is decoding the buffer from `off` on. */
  lemma CommonTranslationInvariant(t: CommonToken, buf: seq<Byte>, off: nat)
    requires ReadsInBounds(t, buf, off)
    ensures ReadsInBounds(t, buf[off..], 0)
    ensures GetCommon(t, buf, off) == GetCommon(t, buf[off..], 0)
  {
    FixedFieldsTranslationInvariant(buf, off);
    CompressionTranslationInvariant(t, buf, off);
  }

  /** Plain AIFF: the outcome depends only on the first 12 bytes, never on the
      declared length or anything after them, and is always a success. */
  lemma PlainAiffIgnoresLengthAndTail(t1: CommonToken, buf1: seq<Byte>, t2: CommonToken, buf2: seq<Byte>, off: nat)
    requires !t1.isAifc && !t2.isAifc
    requires off + 12 <= |buf1| && off + 12 <= |buf2|
    requires buf1[off..off + 12] == buf2[off..off + 12]
    ensures GetCommon(t1, buf1, off).Success?
    ensures GetCommon(t1, buf1, off) == GetCommon(t2, buf2, off)
  {
    FixedFieldsWindow(buf1, off);
    FixedFieldsWindow(buf2, off);
  }

  /** What a successful AIFF-C decode with a name field says about the chunk:
      the length byte is non-negative as a signed byte, and the declared length
      is even and at least 24. */
  lemma AifcNameShape(t: CommonToken, buf: seq<Byte>, off: nat)
    requires ReadsInBounds(t, buf, off)
    requires t.isAifc && t.len > 22
    requires GetCompression(t, buf, off).Success?
    ensures S8(buf[off + 22]) >= 0
    ensures t.len >= 24 && t.len % 2 == 0
  {
    var b := buf[off + 22];
    assert b < 0x80 && t.len == 22 + PstringFieldSize(b);
    BodyWithNameIsEven(b);
  }

  /** And the converse view: an odd declared length above 22, or a length byte
      that is negative as a signed byte, is always rejected. */
  lemma AifcRejectsOddOrNegative(t: CommonToken, buf: seq<Byte>, off: nat)
    requires ReadsInBounds(t, buf, off)
    requires t.isAifc && t.len > 22
    requires t.len % 2 == 1 || S8(buf[off + 22]) < 0
    ensures GetCommon(t, buf, off) == Failure(IllegalPstringLength)
  {
    var b := buf[off + 22];
    BodyWithNameIsEven(b);
    assert !(b < 0x80 && t.len == 22 + PstringFieldSize(b));
  }

  /** Sample rates as normalised AIFF fields store them: 44100 Hz with
      exponent word 0x400E, 96000 Hz as 48000 shifted left once, 8000 Hz as
      64000 shifted right three times; and one unnormalised field, 44100 Hz
      as 22050 shifted left once. */
  lemma SampleRateExamples()
    ensures SampleRate(0x400E, 0xAC44) == 44100
    ensures SampleRate(0x400F, 0xBB80) == 96000
    ensures SampleRate(0x400B, 0xFA00) == 8000
    ensures SampleRate(16399, 22050) == 44100
  {
    SampleRateUnshifted(0x400E, 0xAC44);
    SampleRateLeftShift(0x400F, 0xBB80);
    SampleRateLeftShift(16399, 22050);
    SampleRateRightShift(0x400B, 0xFA00);
  }

  /** The big-endian words of the fixed part, written out byte by byte: the
      arithmetic of `U16BE` and `U32BE` restated on plain byte terms, so that
      the worked examples below stay cheap to check. */
  predicate FixedWordsAre(buf: seq<Byte>, off: nat, channels: nat, frames: nat, size: nat, word: nat, high: nat)
    requires off + 12 <= |buf|
  {
    && buf[off] as int * 0x100 + buf[off + 1] == channels
    && buf[off + 2] as int * 0x100_0000 + buf[off + 3] as int * 0x1_0000
      + buf[off + 4] as int * 0x100 + buf[off + 5] == frames
    && buf[off + 6] as int * 0x100 + buf[off + 7] == size
    && buf[off + 8] as int * 0x100 + buf[off + 9] == word
    && buf[off + 10] as int * 0x100 + buf[off + 11] == high
  }

  /** The fixed fields of a body whose big-endian words are known. */
  lemma FixedFieldsOfWords(buf: seq<Byte>, off: nat, channels: nat, frames: nat, size: nat, word: nat, high: nat)
    requires off + 12 <= |buf|
    requires FixedWordsAre(buf, off, channels, frames, size, word, high)
    ensures GetFixedFields(buf, off) == Common(channels, frames, size, SampleRate(word, high), None, None)
  {
    assert U16BE(buf, off) == channels;
    assert U32BE(buf, off + 2) == frames;
  }

  /** A complete plain-AIFF Common chunk, header included: two channels, 1000
      frames, 16-bit samples at 44100 Hz. */
  function PlainChunk(): (buf: seq<Byte>)
    ensures |buf| == 26
  {
    [0x43, 0x4F, 0x4D, 0x4D, 0, 0, 0, 18,
     0, 2, 0, 0, 0x03, 0xE8, 0, 16,
     0x40, 0x0E, 0xAC, 0x44, 0, 0, 0, 0, 0, 0]
  }

  lemma PlainChunkHeader()
    ensures GetHeader(PlainChunk(), 0) == ChunkHeader([0x43, 0x4F, 0x4D, 0x4D], 18)
    ensures NewCommon(GetHeader(PlainChunk(), 0), false) == Success(CommonToken(false, 18))
  {
    var buf := PlainChunk();
    assert buf[0..4] == [0x43, 0x4F, 0x4D, 0x4D];
    assert U32BE(buf, 4) == 18;
  }

  lemma PlainChunkFixedFields()
    ensures GetFixedFields(PlainChunk(), HeaderLen) == Common(2, 1000, 16, 44100, None, None)
  {
    assert FixedWordsAre(PlainChunk(), HeaderLen, 2, 1000, 16, 0x400E, 0xAC44);
    FixedFieldsOfWords(PlainChunk(), HeaderLen, 2, 1000, 16, 0x400E, 0xAC44);
    SampleRateUnshifted(0x400E, 0xAC44);
  }

  /** The whole chunk decodes, compression fields included. */
  lemma PlainAiffChunkExample()
    ensures GetHeader(PlainChunk(), 0) == ChunkHeader([0x43, 0x4F, 0x4D, 0x4D], 18)
    ensures NewCommon(GetHeader(PlainChunk(), 0), false) == Success(CommonToken(false, 18))
    ensures GetCommon(CommonToken(false, 18), PlainChunk(), HeaderLen)
      == Success(Common(2, 1000, 16, 44100, None, Some("PCM")))
  {
    PlainChunkHeader();
    PlainChunkFixedFields();
  }

  /** An AIFF-C Common body with compression type "sowt" and the 5-character
      name "Swaps": the pstring takes 6 bytes, so the body is 28 bytes. */
  function SowtBody(): (body: seq<Byte>)
    ensures |body| == 28
  {
    [0, 1, 0, 0, 0, 10, 0, 8,
     0x40, 0x0E, 0xAC, 0x44, 0, 0, 0, 0, 0, 0,
     0x73, 0x6F, 0x77, 0x74,
     5, 0x53, 0x77, 0x61, 0x70, 0x73]
  }

  lemma SowtFixedFields()
    ensures GetFixedFields(SowtBody(), 0) == Common(1, 10, 8, 44100, None, None)
  {
    assert FixedWordsAre(SowtBody(), 0, 1, 10, 8, 0x400E, 0xAC44);
    FixedFieldsOfWords(SowtBody(), 0, 1, 10, 8, 0x400E, 0xAC44);
    SampleRateUnshifted(0x400E, 0xAC44);
  }

  lemma SowtCompression()
    ensures ReadsInBounds(CommonToken(true, 28), SowtBody(), 0)
    ensures GetCompression(CommonToken(true, 28), SowtBody(), 0)
      == Success(Compression(Some([0x73, 0x6F, 0x77, 0x74]), Some("Swaps")))
  {
    var body := SowtBody();
    assert body[18..22] == [0x73, 0x6F, 0x77, 0x74];
    assert body[22] == 5 && PstringFieldSize(5) == 6;
    assert body[23..28] == [0x53, 0x77, 0x61, 0x70, 0x73];
    assert Latin1([0x53, 0x77, 0x61, 0x70, 0x73]) == "Swaps";
  }

  /** The body decodes to its record when declared as 28 bytes, and is
      rejected when declared as 29. */
  lemma AifcNameExample()
    ensures NewCommon(ChunkHeader([0x43, 0x4F, 0x4D, 0x4D], 28), true) == Success(CommonToken(true, 28))
    ensures ReadsInBounds(CommonToken(true, 28), SowtBody(), 0)
    ensures GetCommon(CommonToken(true, 28), SowtBody(), 0)
      == Success(Common(1, 10, 8, 44100, Some([0x73, 0x6F, 0x77, 0x74]), Some("Swaps")))
    ensures ReadsInBounds(CommonToken(true, 29), SowtBody(), 0)
    ensures GetCommon(CommonToken(true, 29), SowtBody(), 0) == Failure(IllegalPstringLength)
  {
    SowtFixedFields();
    SowtCompression();
    AifcRejectsOddOrNegative(CommonToken(true, 29), SowtBody(), 0);
  }

  /** The constructor rejects a Common chunk shorter than its fixed part, and
      accepts one of exactly that size. */
  lemma ConstructorExamples(id: seq<Byte>)
    ensures NewCommon(ChunkHeader(id, 17), false) == Failure(ChunkTooSmall(18))
    ensures NewCommon(ChunkHeader(id, 18), false) == Success(CommonToken(false, 18))
    ensures NewCommon(ChunkHeader(id, 21), true) == Failure(ChunkTooSmall(22))
    ensures NewCommon(ChunkHeader(id, 18), true) == Failure(ChunkTooSmall(22))
    ensures NewCommon(ChunkHeader(id, 22), true) == Success(CommonToken(true, 22))
  {
  }
}
