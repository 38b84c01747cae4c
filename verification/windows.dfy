/**
 * The Windows `coap_prng_impl`: fills a buffer from `rand_s`, which can
 * fail, writing each 32-bit value least-significant byte first.
 */
module Windows {
  import opened Bytes
  import Chunked

  /**
   * The outcome of one `rand_s(&r)` call: the returned `errno_t` and the
   * value stored in `r`.  A non-zero status is a failure.
   */
  datatype RandS = RandS(status: int, value: bv32)
  {
    predicate Ok() { status == 0 }
  }

  /** The first `n` calls of `rand_s` all succeed. */
  ghost predicate AllOk(randS: nat -> RandS, n: nat)
  {
    forall k: nat :: k < n ==> randS(k).Ok()
  }

  /** The number of `rand_s` calls needed for `len` bytes: `ceil(len / 4)`. */
  function Needed(len: nat): (n: nat)
    ensures len <= 4 * n
    ensures n == 0 || 4 * (n - 1) < len
  {
    (len + 3) / 4
  }

  /** The little-endian images of the values `rand_s` stores, call by call. */
  function Images(randS: nat -> RandS): (image: nat -> seq<byte>)
    ensures Chunked.WellSized(image, 4)
  {
    var image := (k: nat) => WordBytes32(LittleEndian, randS(k).value);
    assert forall k: nat :: |image(k)| == |WordBytes32(LittleEndian, randS(k).value)|;
    image
  }

  /**
   * The inner loop for one successful draw: writes `min(remaining, 4)`
   * bytes of `value` at `pos`, least significant first, shifting `value`
   * right by 8 after each byte.
   */
  method EmitWord(buf: seq<byte>, pos: nat, remaining: nat, value: bv32)
    returns (out: seq<byte>, count: nat)
    requires pos + remaining <= |buf|
    ensures count == if remaining < 4 then remaining else 4
    ensures |out| == |buf|
    ensures out[..pos] == buf[..pos]
    ensures forall j :: 0 <= j < count ==> out[pos + j] == ByteAt32(value, j)
    ensures out[pos + count..] == buf[pos + count..]
  {
    out := buf;
    var r := value;
    count := 0;
    while count < remaining && count < 4
      invariant count <= remaining && count <= 4
      invariant |out| == |buf|
      invariant r == ShiftBytes32(value, count)
      invariant out[..pos] == buf[..pos]
      invariant forall j :: 0 <= j < count ==> out[pos + j] == ByteAt32(value, j)
      invariant out[pos + count..] == buf[pos + count..]
    {
      out := out[pos + count := (r & 0xff) as byte];
      ShiftBytes32Step(value, count);
      r := r >> 8;
      count := count + 1;
    }
  }

  /**
   * `randS(k)` is the outcome of the `k`-th call of `rand_s`; `calls` is how
   * many calls were made.  The caller must supply at least `len` bytes.
   */
  method CoapPrngImpl(buf: seq<byte>, len: nat, randS: nat -> RandS)
    returns (status: int, out: seq<byte>, calls: nat)
    requires len <= |buf|
    ensures |out| == |buf|
    ensures status == 0 || status == 1
    ensures status == 1 <==> AllOk(randS, Needed(len))
    ensures status == 1 ==> calls == Needed(len) && out[len..] == buf[len..]
    ensures status == 0 ==>
      && 1 <= calls && 4 * (calls - 1) < len
      && AllOk(randS, calls - 1) && !randS(calls - 1).Ok()
      && out[4 * (calls - 1)..] == buf[4 * (calls - 1)..]
    ensures var written := if status == 1 then len else 4 * (calls - 1);
      forall i :: 0 <= i < written ==> out[i] == ByteAt32(randS(i / 4).value, i % 4)
    ensures status == 1 ==> out[..len] == Chunked.FillSpec(Images(randS), 4, len)
  {
    out := buf;
    calls := 0;
    var remaining: nat := len;
    var pos: nat := 0;
    while remaining != 0
      invariant pos + remaining == len
      invariant |out| == |buf|
      invariant pos <= 4 * calls
      invariant calls == 0 || 4 * (calls - 1) < pos
      invariant remaining != 0 ==> pos == 4 * calls
      invariant AllOk(randS, calls)
      invariant forall i :: 0 <= i < pos ==> out[i] == ByteAt32(randS(i / 4).value, i % 4)
      invariant out[pos..] == buf[pos..]
      decreases remaining
    {
      var draw := randS(calls);
      calls := calls + 1;
      if !draw.Ok() {
        status := 0;
        return;
      }
      var count;
      ghost var before := out;
      out, count := EmitWord(out, pos, remaining, draw.value);
      forall i | 0 <= i < pos + count
        ensures out[i] == ByteAt32(randS(i / 4).value, i % 4)
      {
        if i < pos {
          assert out[i] == out[..pos][i] == before[..pos][i];
        } else {
          assert out[pos + (i - pos)] == ByteAt32(draw.value, i - pos);
          assert i / 4 == calls - 1 && i % 4 == i - pos;
        }
      }
      assert out[pos + count..] == before[pos..][count..] == buf[pos..][count..] == buf[pos + count..];
      remaining := remaining - count;
      pos := pos + count;
    }
    status := 1;
    ShiftedImagesAgree(out, len, randS);
  }

  /**
   * A buffer holding the bytes the Windows loop writes holds, in its first
   * `len` positions, what the shared chunking loop writes from the
   * little-endian images of the same values.
   */
  lemma ShiftedImagesAgree(out: seq<byte>, len: nat, randS: nat -> RandS)
    requires len <= |out|
    requires forall i :: 0 <= i < len ==> out[i] == ByteAt32(randS(i / 4).value, i % 4)
    ensures out[..len] == Chunked.FillSpec(Images(randS), 4, len)
  {
    var image := Images(randS);
    var spec := Chunked.FillSpec(image, 4, len);
    forall i | 0 <= i < len
      ensures out[..len][i] == spec[i]
    {
      Chunked.FillSpecIndex(image, 4, len, i);
      ByteAt32IsLittleEndianImage(randS(i / 4).value, i % 4);
    }
  }
}
