/**
 * The word-to-byte chunking loop shared by the Contiki and lwIP fill
 * routines: draw one word before the loop, and while more than one word's
 * worth of bytes remains, copy the whole word, advance, and draw again;
 * finally copy only the bytes still missing from the last word.
 *
 * The random source is an oracle: `image(k)` is the byte image of the
 * word returned by the `k`-th call (counting from 0).
 */
module Chunked {
  import opened Bytes

  /** Every draw of the oracle has an image of exactly `width` bytes. */
  ghost predicate WellSized(image: nat -> seq<byte>, width: nat)
  {
    forall k: nat :: |image(k)| == width
  }

  /** The images of the first `n` draws, one after the other. */
  function Concat(image: nat -> seq<byte>, width: nat, n: nat): (r: seq<byte>)
    requires WellSized(image, width)
    ensures |r| == n * width
  {
    if n == 0 then [] else Concat(image, width, n - 1) + image(n - 1)
  }

  /**
   * The number of words the loop draws for `len` bytes: one before the
   * loop even when `len` is 0, and one more per iteration.
   */
  function DrawCount(len: nat, width: nat): (k: nat)
    requires 0 < width
    ensures 1 <= k
    ensures len <= k * width
    ensures k == 1 || (k - 1) * width < len
  {
    if len <= width then 1 else 1 + DrawCount(len - width, width)
  }

  /**
   * The bytes the loop leaves in the first `len` positions: the whole images
   * of all draws but the last, then a prefix of the last draw's image.
   */
  function FillSpec(image: nat -> seq<byte>, width: nat, len: nat): (r: seq<byte>)
    requires 0 < width
    requires WellSized(image, width)
    ensures |r| == len
  {
    var k := DrawCount(len, width);
    Concat(image, width, k - 1) + image(k - 1)[..len - (k - 1) * width]
  }

  /** `memcpy(dst + at, src, n)` on a buffer value. */
  function MemCpy(dst: seq<byte>, at: nat, src: seq<byte>, n: nat): (r: seq<byte>)
    requires n <= |src|
    requires at + n <= |dst|
    ensures |r| == |dst|
    ensures forall i :: 0 <= i < |dst| ==> r[i] == if at <= i < at + n then src[i - at] else dst[i]
  {
    dst[..at] + src[..n] + dst[at + n..]
  }

  /**
   * The loop itself.  `buf` is the caller's buffer before the call and
   * `out` the buffer after it; `drawn` counts the calls to the source.
   * The caller must supply at least `len` bytes of buffer.
   */
  method ChunkedFill(buf: seq<byte>, len: nat, width: nat, image: nat -> seq<byte>)
    returns (status: int, out: seq<byte>, drawn: nat)
    requires 0 < width
    requires WellSized(image, width)
    requires len <= |buf|
    ensures status == 1
    ensures |out| == |buf|
    ensures out[..len] == FillSpec(image, width, len)
    ensures out[len..] == buf[len..]
    ensures drawn == DrawCount(len, width)
  {
    var v := image(0);
    drawn := 1;
    var remaining: nat := len;
    var pos: nat := 0;
    out := buf;
    while remaining > width
      invariant pos + remaining == len
      invariant |out| == |buf|
      invariant 1 <= drawn
      invariant v == image(drawn - 1)
      invariant out[..pos] == Concat(image, width, drawn - 1)
      invariant out[pos..] == buf[pos..]
      invariant DrawCount(len, width) == drawn - 1 + DrawCount(remaining, width)
    {
      out := MemCpy(out, pos, v, width);
      remaining := remaining - width;
      pos := pos + width;
      v := image(drawn);
      drawn := drawn + 1;
    }
    out := MemCpy(out, pos, v, remaining);
    status := 1;
  }

  lemma MulMonotone(a: nat, b: nat, w: nat)
    requires a <= b
    ensures a * w <= b * w
  {
  }

  /** Euclidean division recovers quotient and remainder. */
  lemma DivModOfMulAdd(q: nat, w: nat, r: nat)
    requires r < w
    ensures (q * w + r) / w == q
    ensures (q * w + r) % w == r
  {
    var x := q * w + r;
    var d := x / w;
    assert x == d * w + x % w;
    if d < q {
      MulMonotone(d + 1, q, w);
      assert false;
    } else if d > q {
      MulMonotone(q + 1, d, w);
      assert false;
    }
  }

  /** Byte `i` of the concatenated images is byte `i % width` of draw `i / width`. */
  lemma {:induction false} ConcatIndex(image: nat -> seq<byte>, width: nat, n: nat, i: nat)
    requires 0 < width
    requires WellSized(image, width)
    requires i < n * width
    ensures Concat(image, width, n)[i] == image(i / width)[i % width]
  {
    if i < (n - 1) * width {
      ConcatIndex(image, width, n - 1, i);
    } else {
      DivModOfMulAdd(n - 1, width, i - (n - 1) * width);
    }
  }

  /**
   * Position-wise reading of the loop's output: byte `i` of the buffer is
   * byte `i % width` of the image of draw `i / width`, so no draw's bytes are
   * skipped, repeated or reordered, and the last draw is truncated.
   */
  lemma FillSpecIndex(image: nat -> seq<byte>, width: nat, len: nat, i: nat)
    requires 0 < width
    requires WellSized(image, width)
    requires i < len
    ensures FillSpec(image, width, len)[i] == image(i / width)[i % width]
  {
    var k := DrawCount(len, width);
    if i < (k - 1) * width {
      ConcatIndex(image, width, k - 1, i);
    } else {
      DivModOfMulAdd(k - 1, width, i - (k - 1) * width);
    }
  }

  /** The number of draws is `max(1, ceil(len / width))`. */
  lemma DrawCountClosedForm(len: nat, width: nat)
    requires 0 < width
    ensures DrawCount(len, width) == if len == 0 then 1 else (len + width - 1) / width
  {
    var k := DrawCount(len, width);
    if len > 0 {
      DivModOfMulAdd(k, width, len - (k - 1) * width - 1);
    }
  }

  /**
   * The last draw contributes `len - width * (k - 1)` bytes: between 1 and
   * `width` when `len > 0`, none when `len == 0`.
   */
  lemma LastDrawPrefix(len: nat, width: nat)
    requires 0 < width
    ensures var k := DrawCount(len, width);
      && (len == 0 ==> len - (k - 1) * width == 0)
      && (len > 0 ==> 1 <= len - (k - 1) * width <= width)
  {
  }
}
