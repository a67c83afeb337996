/** Byte buffers and the fixed-width reads made on them: big-endian unsigned
    integers, a signed byte and a one-byte-per-character ("binary", Latin-1)
    string. A buffer is an immutable sequence of bytes; an offset is a
    natural number. */
module Bytes {
  import opened Power

  type Byte = b: int | 0 <= b < 0x100

  /** Reference meaning of a big-endian unsigned field: the first byte is the
      most significant digit in base 256. */
  function BeValue(s: seq<Byte>): (v: nat)
    ensures v < Pow2(8 * |s|)
  {
    if |s| == 0 then 0
    else
      Pow2Add(8 * (|s| - 1), 8);
      Pow2Values();
      BeValue(s[..|s| - 1]) * 0x100 + s[|s| - 1]
  }

  /** A field split in two: the leading part is scaled by the width of the trailing one. */
  lemma {:induction false} BeValueAppend(a: seq<Byte>, b: seq<Byte>)
    ensures BeValue(a + b) == BeValue(a) * Pow2(8 * |b|) + BeValue(b)
  {
    if |b| > 0 {
      var b' := b[..|b| - 1];
      var last: int := b[|b| - 1];
      assert (a + b)[..|a + b| - 1] == a + b';
      BeValueAppend(a, b');
      var x, y, p := BeValue(a), BeValue(b'), Pow2(8 * |b'|);
      assert Pow2(8 * |b|) == p * 0x100 by {
        Pow2Add(8 * |b'|, 8);
        Pow2Values();
      }
      assert BeValue(a + b) == BeValue(a + b') * 0x100 + last;
      assert BeValue(a + b') == x * p + y;
      assert BeValue(b) == y * 0x100 + last;
      MulDistributes(x, p, y, 0x100);
    } else {
      assert a + b == a;
    }
  }

  lemma MulDistributes(x: int, p: int, y: int, k: int)
    ensures (x * p + y) * k == x * (p * k) + y * k
  {
  }

  /** The big-endian encoding of `v` in `width` bytes: the inverse of `BeValue`. */
  function EncodeBE(v: nat, width: nat): (s: seq<Byte>)
    requires v < Pow2(8 * width)
    ensures |s| == width
    ensures BeValue(s) == v
  {
    if width == 0 then []
    else
      Pow2Add(8 * (width - 1), 8);
      Pow2Values();
      var s := EncodeBE(v / 0x100, width - 1) + [v % 0x100];
      assert s[..|s| - 1] == EncodeBE(v / 0x100, width - 1);
      s
  }

  /** Decoding then re-encoding at the same width gives the bytes back. */
  lemma {:induction false} EncodeBEOfBeValue(s: seq<Byte>)
    ensures EncodeBE(BeValue(s), |s|) == s
  {
    if |s| > 0 {
      var s', last := s[..|s| - 1], s[|s| - 1];
      var v, w := BeValue(s'), BeValue(s);
      assert w == v * 0x100 + last;
      DivModDigit(v, last);
      assert EncodeBE(w, |s|) == EncodeBE(v, |s'|) + [last];
      EncodeBEOfBeValue(s');
      assert s == s' + [last];
    }
  }

  /** Two-byte big-endian encoding. */
  function EncodeU16(v: nat): (s: seq<Byte>)
    requires v < 0x1_0000
    ensures |s| == 2 && BeValue(s) == v
  {
    Pow2Values();
    EncodeBE(v, 2)
  }

  /** Four-byte big-endian encoding. */
  function EncodeU32(v: nat): (s: seq<Byte>)
    requires v < 0x1_0000_0000
    ensures |s| == 4 && BeValue(s) == v
  {
    Pow2Values();
    EncodeBE(v, 4)
  }

  lemma EncodeU32OfBeValue(s: seq<Byte>)
    requires |s| == 4
    ensures BeValue(s) < 0x1_0000_0000
    ensures EncodeU32(BeValue(s)) == s
  {
    Pow2Values();
    EncodeBEOfBeValue(s);
  }

  /** A field whose trailing `n` bytes are zero is its leading part scaled by 2^(8n). */
  lemma BeValueZeroTail(s: seq<Byte>, n: nat)
    requires n <= |s|
    requires forall i :: |s| - n <= i < |s| ==> s[i] == 0
    ensures BeValue(s) == BeValue(s[..|s| - n]) * Pow2(8 * n)
  {
    var head, tail := s[..|s| - n], s[|s| - n..];
    assert s == head + tail;
    assert |tail| == n;
    forall i | 0 <= i < |tail|
      ensures tail[i] == 0
    {
      assert tail[i] == s[|s| - n + i];
    }
    ZerosValueZero(tail);
    BeValueAppend(head, tail);
  }

  lemma {:induction false} ZerosValueZero(s: seq<Byte>)
    requires forall i :: 0 <= i < |s| ==> s[i] == 0
    ensures BeValue(s) == 0
  {
    if |s| > 0 {
      ZerosValueZero(s[..|s| - 1]);
    }
  }

  lemma SliceOfSlice(s: seq<Byte>, a: nat, b: nat, i: nat, j: nat)
    requires a <= b <= |s| && i <= j <= b - a
    ensures s[a..b][i..j] == s[a + i..a + j]
  {
    assert forall k :: 0 <= k < j - i ==> s[a..b][i..j][k] == s[a + i + k];
  }

  /** Base-256 digit arithmetic: the last digit and the rest come back out. */
  lemma DivModDigit(v: nat, b: Byte)
    ensures (v * 0x100 + b) / 0x100 == v
    ensures (v * 0x100 + b) % 0x100 == b
  {
  }

  lemma BeValue2(s: seq<Byte>)
    requires |s| == 2
    ensures BeValue(s) == s[0] as int * 0x100 + s[1]
  {
    assert s[..1][..0] == [];
  }

  lemma BeValue4(s: seq<Byte>)
    requires |s| == 4
    ensures BeValue(s) == s[0] as int * 0x100_0000 + s[1] as int * 0x1_0000 + s[2] as int * 0x100 + s[3]
  {
    BeValueAppend(s[..2], s[2..]);
    assert s[..2] + s[2..] == s;
    BeValue2(s[..2]);
    BeValue2(s[2..]);
    Pow2Values();
  }

  /** Node's `readUInt16BE`. */
  function U16BE(buf: seq<Byte>, off: nat): (v: nat)
    requires off + 2 <= |buf|
    ensures v == BeValue(buf[off..off + 2])
    ensures v < 0x1_0000
  {
    BeValue2(buf[off..off + 2]);
    buf[off] as int * 0x100 + buf[off + 1]
  }

  /** Node's `readUInt32BE`. */
  function U32BE(buf: seq<Byte>, off: nat): (v: nat)
    requires off + 4 <= |buf|
    ensures v == BeValue(buf[off..off + 4])
    ensures v < 0x1_0000_0000
  {
    BeValue4(buf[off..off + 4]);
    buf[off] as int * 0x100_0000 + buf[off + 1] as int * 0x1_0000 + buf[off + 2] as int * 0x100 + buf[off + 3]
  }

  /** Node's `readInt8`: the byte read as a two's-complement number. The
      result is the unique value in [-128, 128) congruent to the byte modulo 256. */
  function S8(b: Byte): (v: int)
    ensures -0x80 <= v < 0x80
    ensures (v - b) % 0x100 == 0
    ensures v >= 0 <==> b < 0x80
  {
    if b < 0x80 then b else b - 0x100
  }

  /** A "binary" (Latin-1) string: one character per byte, code point equal to the byte. */
  function Latin1(bytes: seq<Byte>): (s: string)
    ensures |s| == |bytes|
    ensures forall i :: 0 <= i < |bytes| ==> s[i] as int == bytes[i]
  {
    seq(|bytes|, i requires 0 <= i < |bytes| => bytes[i] as char)
  }

  predicate IsLatin1(s: string) {
    forall i :: 0 <= i < |s| ==> s[i] as int < 0x100
  }

  /** The bytes of a Latin-1 string: the inverse of `Latin1`. */
  function Latin1Bytes(s: string): (bytes: seq<Byte>)
    requires IsLatin1(s)
    ensures |bytes| == |s|
    ensures Latin1(bytes) == s
  {
    seq(|s|, i requires 0 <= i < |s| => s[i] as int)
  }

  lemma Latin1BytesOfLatin1(bytes: seq<Byte>)
    ensures IsLatin1(Latin1(bytes))
    ensures Latin1Bytes(Latin1(bytes)) == bytes
  {
  }
}
