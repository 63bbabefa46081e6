/** Fixed-width integers as they travel over the sensor's serial link:
    octets, and 16-bit words stored low byte first. */
module Wire {

  /** One octet on the wire. */
  type uint8 = x: int | 0 <= x < 0x100

  /** An unsigned 16-bit word (the ambient-temperature field). */
  type uint16 = x: int | 0 <= x < 0x1_0000

  /** A two's-complement signed 16-bit word (one pixel sample). */
  type int16 = x: int | -0x8000 <= x < 0x8000

  /** The unsigned word whose little-endian bytes are `lo`, `hi`. */
  function U16Le(lo: uint8, hi: uint8): (w: uint16)
    ensures w % 0x100 == lo && w / 0x100 == hi
  {
    lo + 0x100 * hi
  }

  /** The little-endian bytes of an unsigned word. */
  function U16Bytes(w: uint16): (b: (uint8, uint8))
    ensures b.0 + 0x100 * b.1 == w
  {
    (w % 0x100, w / 0x100)
  }

  /** Reinterprets an unsigned word as two's complement. */
  function ToSigned(w: uint16): (v: int16)
    ensures (v - w) % 0x1_0000 == 0
    ensures v < 0 <==> w >= 0x8000
  {
    if w < 0x8000 then w else w - 0x1_0000
  }

  /** Reinterprets a two's-complement word as unsigned. */
  function ToUnsigned(v: int16): (w: uint16)
    ensures (w - v) % 0x1_0000 == 0
  {
    if v < 0 then v + 0x1_0000 else v
  }

  /** The signed word whose little-endian bytes are `lo`, `hi`: it is
      congruent to `lo + 256 * hi` modulo 2^16 and is negative exactly when
      the top bit of the high byte is set. */
  function I16Le(lo: uint8, hi: uint8): (v: int16)
    ensures (v - lo - 0x100 * hi) % 0x1_0000 == 0
    ensures v < 0 <==> hi >= 0x80
  {
    ToSigned(U16Le(lo, hi))
  }

  /** The little-endian bytes of a signed word. */
  function I16Bytes(v: int16): (b: (uint8, uint8))
    ensures (b.0 + 0x100 * b.1 - v) % 0x1_0000 == 0
  {
    U16Bytes(ToUnsigned(v))
  }

  /** Decoding the bytes of any unsigned word gives the word back. */
  lemma U16RoundTrip(w: uint16)
    ensures U16Le(U16Bytes(w).0, U16Bytes(w).1) == w
  {
  }

  /** Decoding the bytes of any signed word gives the word back. */
  lemma I16RoundTrip(v: int16)
    ensures I16Le(I16Bytes(v).0, I16Bytes(v).1) == v
  {
  }

  /** Encoding a decoded signed word gives the original two bytes back, so
      the signed decoding loses no information. */
  lemma I16BytesRoundTrip(lo: uint8, hi: uint8)
    ensures I16Bytes(I16Le(lo, hi)) == (lo, hi)
  {
  }

  /** Reinterprets a byte block as consecutive little-endian signed words,
      one word per two bytes. */
  function DecodeI16s(b: seq<uint8>): (s: seq<int16>)
    requires |b| % 2 == 0
    ensures |s| == |b| / 2
    decreases |b|
  {
    if b == [] then [] else [I16Le(b[0], b[1])] + DecodeI16s(b[2..])
  }

  /** Lays out signed words as consecutive little-endian byte pairs. */
  function EncodeI16s(s: seq<int16>): (b: seq<uint8>)
    ensures |b| == 2 * |s|
  {
    if s == [] then [] else [I16Bytes(s[0]).0, I16Bytes(s[0]).1] + EncodeI16s(s[1..])
  }

  /** Word `i` of a decoded block comes from bytes `2i` and `2i+1`. */
  lemma {:induction false} DecodeI16sAt(b: seq<uint8>, i: int)
    requires |b| % 2 == 0
    requires 0 <= i < |b| / 2
    ensures DecodeI16s(b)[i] == I16Le(b[2 * i], b[2 * i + 1])
    decreases i
  {
    if i > 0 {
      DecodeI16sAt(b[2..], i - 1);
    }
  }

  /** Decoding is a left inverse of encoding. */
  lemma {:induction false} DecodeEncode(s: seq<int16>)
    ensures DecodeI16s(EncodeI16s(s)) == s
  {
    if s != [] {
      var b := EncodeI16s(s);
      assert b[2..] == EncodeI16s(s[1..]);
      DecodeEncode(s[1..]);
      I16RoundTrip(s[0]);
    }
  }

  /** Encoding is a left inverse of decoding: a block of even length is
      exactly the encoding of the words it decodes to. */
  lemma {:induction false} EncodeDecode(b: seq<uint8>)
    requires |b| % 2 == 0
    ensures EncodeI16s(DecodeI16s(b)) == b
    decreases |b|
  {
    if b != [] {
      var s := DecodeI16s(b);
      assert s[1..] == DecodeI16s(b[2..]);
      EncodeDecode(b[2..]);
      I16BytesRoundTrip(b[0], b[1]);
      assert b == [b[0], b[1]] + b[2..];
    }
  }
}
