/**
 * `contiki_prng_impl`: fills a buffer from Contiki's 16-bit `random_rand()`,
 * and the seed conversion of Contiki's `prng_init`.
 */
module Contiki {
  import opened Bytes
  import Chunked

  /** The native images of the words `random_rand()` returns, call by call. */
  function Images(order: ByteOrder, randomRand: nat -> bv16): (image: nat -> seq<byte>)
    ensures Chunked.WellSized(image, 2)
  {
    var image := (k: nat) => WordBytes16(order, randomRand(k));
    assert forall k: nat :: |image(k)| == |WordBytes16(order, randomRand(k))|;
    image
  }

  /**
   * `randomRand(k)` is the value of the `k`-th call of `random_rand()`;
   * `draws` is how many calls were made.  Always succeeds.
   */
  method ContikiPrngImpl(buf: seq<byte>, len: nat, order: ByteOrder, randomRand: nat -> bv16)
    returns (status: int, out: seq<byte>, draws: nat)
    requires len <= |buf|
    ensures status == 1
    ensures |out| == |buf|
    ensures out[len..] == buf[len..]
    ensures draws == if len == 0 then 1 else (len + 1) / 2
    ensures forall i :: 0 <= i < len ==> out[i] == WordBytes16(order, randomRand(i / 2))[i % 2]
    ensures out[..len] == Chunked.FillSpec(Images(order, randomRand), 2, len)
  {
    var image := Images(order, randomRand);
    status, out, draws := Chunked.ChunkedFill(buf, len, 2, image);
    Chunked.DrawCountClosedForm(len, 2);
    forall i | 0 <= i < len
      ensures out[i] == WordBytes16(order, randomRand(i / 2))[i % 2]
    {
      Chunked.FillSpecIndex(image, 2, len, i);
      assert out[i] == out[..len][i];
    }
  }

  /**
   * `prng_init(Value)` passes `(uint16_t)(Value)` to `random_init`: the
   * unique 16-bit value congruent to `Value` modulo 2^16.
   */
  function InitSeed(value: int): (seed: nat)
    ensures seed < 0x1_0000
    ensures (value - seed) % 0x1_0000 == 0
  {
    value % 0x1_0000
  }

  /** Two seed values reach `random_init` as the same seed exactly when they agree modulo 2^16. */
  lemma InitSeedCollides(a: int, b: int)
    ensures InitSeed(a) == InitSeed(b) <==> (a - b) % 0x1_0000 == 0
  {
  }
}
