/** `lwip_prng_impl`: fills a buffer from lwIP's 32-bit `LWIP_RAND()`. */
module Lwip {
  import opened Bytes
  import Chunked

  /** The native images of the words `LWIP_RAND()` returns, call by call. */
  function Images(order: ByteOrder, lwipRand: nat -> bv32): (image: nat -> seq<byte>)
    ensures Chunked.WellSized(image, 4)
  {
    var image := (k: nat) => WordBytes32(order, lwipRand(k));
    assert forall k: nat :: |image(k)| == |WordBytes32(order, lwipRand(k))|;
    image
  }

  /**
   * `lwipRand(k)` is the value of the `k`-th call of `LWIP_RAND()`;
   * `draws` is how many calls were made.  Always succeeds.
   */
  method LwipPrngImpl(buf: seq<byte>, len: nat, order: ByteOrder, lwipRand: nat -> bv32)
    returns (status: int, out: seq<byte>, draws: nat)
    requires len <= |buf|
    ensures status == 1
    ensures |out| == |buf|
    ensures out[len..] == buf[len..]
    ensures draws == if len == 0 then 1 else (len + 3) / 4
    ensures forall i :: 0 <= i < len ==> out[i] == WordBytes32(order, lwipRand(i / 4))[i % 4]
    ensures out[..len] == Chunked.FillSpec(Images(order, lwipRand), 4, len)
  {
    var image := Images(order, lwipRand);
    status, out, draws := Chunked.ChunkedFill(buf, len, 4, image);
    Chunked.DrawCountClosedForm(len, 4);
    forall i | 0 <= i < len
      ensures out[i] == WordBytes32(order, lwipRand(i / 4))[i % 4]
    {
      Chunked.FillSpecIndex(image, 4, len, i);
      assert out[i] == out[..len][i];
    }
  }
}
