/**
 * Bytes and the byte images of the fixed-width words the platform random
 * sources return.
 *
 * `memcpy(buf, &v, n)` copies the first `n` bytes of the native in-memory
 * image of `v`; the native byte order is a parameter of the model
 * (`ByteOrder`), not a fixed choice.  The Windows fill routine does not use
 * `memcpy`: it extracts byte `i` of a 32-bit value as `(uint8_t)(r >> 8*i)`,
 * which is `ByteAt32`.
 */
module Bytes {

  type byte = bv8

  /** Native byte order of the host, as seen by `memcpy` of a word. */
  datatype ByteOrder = LittleEndian | BigEndian

  /** `v >> 8*n`: `v` shifted right by `n` whole bytes, for `n` up to the width. */
  function ShiftBytes32(v: bv32, n: nat): bv32
    requires n <= 4
  {
    if n == 0 then v
    else if n == 1 then v >> 8
    else if n == 2 then v >> 16
    else if n == 3 then v >> 24
    else 0
  }

  /** Byte `i` of `r`, counting from the least significant: `(uint8_t)(r >> 8*i)`. */
  function ByteAt32(r: bv32, i: nat): byte
    requires i < 4
  {
    (ShiftBytes32(r, i) & 0xff) as byte
  }

  /** Shifting right by one more byte: `(v >> 8*n) >> 8 == v >> 8*(n+1)`. */
  lemma ShiftBytes32Step(v: bv32, n: nat)
    requires n < 4
    ensures ShiftBytes32(v, n) >> 8 == ShiftBytes32(v, n + 1)
  {
    if n == 1 {
      assert (v >> 8) >> 8 == v >> 16;
    } else if n == 2 {
      assert (v >> 16) >> 8 == v >> 24;
    } else if n == 3 {
      assert (v >> 24) >> 8 == 0;
    }
  }

  /** Least-significant-first bytes of a 16-bit word. */
  function LeBytes16(w: bv16): (b: seq<byte>)
    ensures |b| == 2
  {
    [(w & 0xff) as byte, ((w >> 8) & 0xff) as byte]
  }

  /** Least-significant-first bytes of a 32-bit word. */
  function LeBytes32(w: bv32): (b: seq<byte>)
    ensures |b| == 4
  {
    [(w & 0xff) as byte, ((w >> 8) & 0xff) as byte, ((w >> 16) & 0xff) as byte, ((w >> 24) & 0xff) as byte]
  }

  function Pack16(b0: byte, b1: byte): bv16
  {
    (b0 as bv16) | ((b1 as bv16) << 8)
  }

  function Pack32(b0: byte, b1: byte, b2: byte, b3: byte): bv32
  {
    (b0 as bv32) | ((b1 as bv32) << 8) | ((b2 as bv32) << 16) | ((b3 as bv32) << 24)
  }

  /** The native image of a 16-bit word: what `memcpy(buf, &v, 2)` copies. */
  function WordBytes16(order: ByteOrder, w: bv16): (b: seq<byte>)
    ensures |b| == 2
  {
    var le := LeBytes16(w);
    if order.LittleEndian? then le else [le[1], le[0]]
  }

  /** The native image of a 32-bit word: what `memcpy(buf, &v, 4)` copies. */
  function WordBytes32(order: ByteOrder, w: bv32): (b: seq<byte>)
    ensures |b| == 4
  {
    var le := LeBytes32(w);
    if order.LittleEndian? then le else [le[3], le[2], le[1], le[0]]
  }

  /** The 16-bit word whose native image is `b`: the inverse of `WordBytes16`. */
  function WordValue16(order: ByteOrder, b: seq<byte>): bv16
    requires |b| == 2
  {
    if order.LittleEndian? then Pack16(b[0], b[1]) else Pack16(b[1], b[0])
  }

  /** The 32-bit word whose native image is `b`: the inverse of `WordBytes32`. */
  function WordValue32(order: ByteOrder, b: seq<byte>): bv32
    requires |b| == 4
  {
    if order.LittleEndian? then Pack32(b[0], b[1], b[2], b[3]) else Pack32(b[3], b[2], b[1], b[0])
  }

  lemma Pack16Byte0(b0: byte, b1: byte)
    ensures (Pack16(b0, b1) & 0xff) as byte == b0
  {
  }

  lemma Pack16Byte1(b0: byte, b1: byte)
    ensures ((Pack16(b0, b1) >> 8) & 0xff) as byte == b1
  {
  }

  lemma Pack32Byte0(b0: byte, b1: byte, b2: byte, b3: byte)
    ensures (Pack32(b0, b1, b2, b3) & 0xff) as byte == b0
  {
  }

  lemma Pack32Byte1(b0: byte, b1: byte, b2: byte, b3: byte)
    ensures ((Pack32(b0, b1, b2, b3) >> 8) & 0xff) as byte == b1
  {
  }

  lemma Pack32Byte2(b0: byte, b1: byte, b2: byte, b3: byte)
    ensures ((Pack32(b0, b1, b2, b3) >> 16) & 0xff) as byte == b2
  {
  }

  lemma Pack32Byte3(b0: byte, b1: byte, b2: byte, b3: byte)
    ensures ((Pack32(b0, b1, b2, b3) >> 24) & 0xff) as byte == b3
  {
  }

  lemma Unpack16Packs(w: bv16)
    ensures Pack16((w & 0xff) as byte, ((w >> 8) & 0xff) as byte) == w
  {
  }

  lemma Unpack32Packs(w: bv32)
    ensures Pack32((w & 0xff) as byte, ((w >> 8) & 0xff) as byte, ((w >> 16) & 0xff) as byte, ((w >> 24) & 0xff) as byte) == w
  {
  }

  /** Reading back the image of a word gives the word. */
  lemma WordBytes16RoundTrip(order: ByteOrder, w: bv16)
    ensures WordValue16(order, WordBytes16(order, w)) == w
  {
    Unpack16Packs(w);
  }

  /** Every two-byte buffer is the image of exactly the word read from it. */
  lemma WordValue16RoundTrip(order: ByteOrder, b: seq<byte>)
    requires |b| == 2
    ensures WordBytes16(order, WordValue16(order, b)) == b
  {
    if order.LittleEndian? {
      Pack16Byte0(b[0], b[1]);
      Pack16Byte1(b[0], b[1]);
    } else {
      Pack16Byte0(b[1], b[0]);
      Pack16Byte1(b[1], b[0]);
    }
  }

  /** Reading back the image of a word gives the word. */
  lemma WordBytes32RoundTrip(order: ByteOrder, w: bv32)
    ensures WordValue32(order, WordBytes32(order, w)) == w
  {
    Unpack32Packs(w);
  }

  lemma Pack32Unpacks(b0: byte, b1: byte, b2: byte, b3: byte)
    ensures LeBytes32(Pack32(b0, b1, b2, b3)) == [b0, b1, b2, b3]
  {
    Pack32Byte0(b0, b1, b2, b3);
    Pack32Byte1(b0, b1, b2, b3);
    Pack32Byte2(b0, b1, b2, b3);
    Pack32Byte3(b0, b1, b2, b3);
  }

  /** Every four-byte buffer is the image of exactly the word read from it. */
  lemma WordValue32RoundTrip(order: ByteOrder, b: seq<byte>)
    requires |b| == 4
    ensures WordBytes32(order, WordValue32(order, b)) == b
  {
    if order.LittleEndian? {
      Pack32Unpacks(b[0], b[1], b[2], b[3]);
    } else {
      Pack32Unpacks(b[3], b[2], b[1], b[0]);
    }
  }

  /**
   * On a little-endian host the native image of a 32-bit word is exactly
   * the byte sequence the Windows loop produces by shifting.
   */
  lemma ByteAt32IsLittleEndianImage(w: bv32, i: nat)
    requires i < 4
    ensures ByteAt32(w, i) == WordBytes32(LittleEndian, w)[i]
  {
  }
}
