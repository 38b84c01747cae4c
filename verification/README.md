# Random-byte provider of libcoap, modelled in Dafny

libcoap fills buffers with random bytes for message IDs, tokens and nonces.
`include/coap2/coap_prng.h` does this in one of two ways, depending on the
build.

* **Builds with an inline fill routine** (Contiki, lwIP, Windows). The
  routine turns fixed-width words from the platform's random source into
  bytes:
  * `contiki_prng_impl` reads 16-bit `random_rand()` words;
  * `lwip_prng_impl` reads 32-bit `LWIP_RAND()` words;
  * the Windows `coap_prng_impl` reads 32-bit `rand_s` values. `rand_s` can
    fail.
* **All other builds** (the `#else` branch, marked POSIX in the header). The
  header declares a swappable generator API: `coap_set_prng`, `coap_prng`
  and `coap_prng_init`. This branch also covers an lwIP build that does not
  define `LWIP_RAND`.

The project models both parts.

* `bytes.dfy` (`Bytes`) defines bytes (`bv8`) and byte images of 16- and
  32-bit words.
  * `WordBytes16` and `WordBytes32` give the native in-memory image that
    `memcpy(buf, &v, n)` copies. Byte order is a parameter (`ByteOrder`).
  * `WordValue16` and `WordValue32` read a word back from its image.
  * `ByteAt32(r, i)` is the Windows loop's `(uint8_t)(r >> 8*i)`.
* `chunked.dfy` (`Chunked`) holds the loop that the Contiki and lwIP routines
  share, for any word width.
  * `ChunkedFill` follows the C control flow. It draws one word before the
    loop. While more than a word's worth of bytes remains, it copies a whole
    word, advances and draws again. At the end it copies only the missing
    bytes.
  * It is proved equal to two pure definitions:
    * `FillSpec`: whole images of every draw but the last, then a prefix of
      the last draw;
    * a position-wise reading: byte `i` is byte `i % width` of draw
      `i / width`.
* `contiki.dfy` (`Contiki`) and `lwip.dfy` (`Lwip`) instantiate the shared
  loop with 2- and 4-byte words. `Contiki.InitSeed` models the 16-bit
  truncation done by Contiki's `prng_init`.
* `windows.dfy` (`Windows`) models the `rand_s` loop. It covers both the
  success path and the failure path, and the inner loop that writes the
  bytes, least significant first.
* `dispatch.dfy` (`Dispatch`) models the generic (`#else`) API as a state machine.
  * A `Prng` holds the built-in default generator, the active slot, the last
    seed, and call counters.
  * A history of calls (`Op`) can be replayed with `Run`.

## How the model is set up

* **Random sources are oracles.** A routine gets a function from call index
  to word: `randomRand(k)`, `lwipRand(k)` or `randS(k)`. For `rand_s`, the
  function gives both the `errno_t` status and the value. Each routine also
  returns how many calls it made.
* **Buffers are values.** A routine takes the caller's buffer before the call
  and returns it after the call, so its contract can say which bytes changed
  and which did not. The caller must supply at least `len` bytes, which is
  the C routines' precondition on `buf`.
* **Generators of the generic API have hidden state.** A `coap_rand_func_t` is modelled as
  `RandFunc = (nat, seq<byte>, nat) -> Outcome`. The first argument stands
  for the generator's hidden state: how many calls have gone through
  `coap_prng` so far. A seeded default generator is given the seed and the
  number of calls it has served since it was seeded.

## Behaviour of the header worth knowing

* **A failed `rand_s` leaves a partial buffer.** The Windows routine returns
  0 as soon as a `rand_s` call fails (include/coap2/coap_prng.h:78-79). The
  bytes from earlier successful draws stay in the buffer.
  `Windows.CoapPrngImpl` states this exactly: after `j` successful draws,
  `4*j` bytes are written and nothing after them changes.
* **No retry.** No routine retries a failed `rand_s` call.
* **A zero-length request still draws a word on Contiki and lwIP.** These
  routines call the random source once before the loop
  (include/coap2/coap_prng.h:34, 51), even when `len == 0`. They write
  nothing and return 1. The Windows routine makes no call when `len == 0`.
* **The random source is chosen at compile time.** The preprocessor chain
  at include/coap2/coap_prng.h:24, 48, 65 and 89 tries Contiki first, then
  lwIP with `LWIP_RAND`, then Windows. Any other build, including lwIP
  without `LWIP_RAND`, falls through to the generic `coap_prng` API, which
  has no inline fill routine. In that branch, the default generator uses
  `getrandom()` if it is available and otherwise a seeded generator
  (include/coap2/coap_prng.h:108-109). The model represents this choice as
  `Dispatch.DefaultRng`. Nothing selects or falls back between sources at
  run time. The Contiki and lwIP routines always return 1. The Windows
  routine returns 0 when `rand_s` fails.

## Model

| member | source | states |
|---|---|---|
| Bytes.WordBytes16RoundTrip | include/coap2/coap_prng.h:34-42 | Reading a 16-bit word back from the 2-byte image that `memcpy` copies gives the same word, in either byte order. No information is lost in the copy. |
| Bytes.WordValue16RoundTrip | include/coap2/coap_prng.h:34-42 | Every 2-byte sequence is the image of the word read from it. Together with the previous row, the image is a bijection. |
| Bytes.WordBytes32RoundTrip | include/coap2/coap_prng.h:51-59 | Reading a 32-bit word back from its 4-byte native image gives the same word, in either byte order. |
| Bytes.WordValue32RoundTrip | include/coap2/coap_prng.h:51-59 | Every 4-byte sequence is the image of the word read from it. |
| Bytes.ShiftBytes32Step | include/coap2/coap_prng.h:82 | Each `r >>= 8` of the Windows loop leaves `r` equal to the original value shifted right by 8 times the number of bytes already emitted. |
| Bytes.ByteAt32IsLittleEndianImage | include/coap2/coap_prng.h:80-83 | The byte `(uint8_t)(r >> 8*i)` is byte `i` of the little-endian image of `r`. |
| Chunked.Concat | include/coap2/coap_prng.h:35-39 | The whole images of the first `n` draws together are `n * width` bytes long. |
| Chunked.DrawCount | include/coap2/coap_prng.h:34-40 | The number of draws `k` is at least 1 and covers `len` (`len <= k*width`). A draw beyond the first happens only when `(k-1)*width < len`. This pins `k` to `max(1, ceil(len/width))`. |
| Chunked.MemCpy | include/coap2/coap_prng.h:36 | `memcpy(dst + at, src, n)` changes positions `at .. at+n-1` to `src[0..n-1]` and leaves every other position alone. |
| Chunked.ChunkedFill | include/coap2/coap_prng.h:33-44 | The shared word loop always returns 1 and draws exactly `DrawCount(len, width)` words. Its first `len` bytes are the whole images of all draws but the last, then a prefix of the last image. Nothing at or past `len` changes, so the last word never overruns. |
| Chunked.ConcatIndex | include/coap2/coap_prng.h:35-39 | In the concatenated whole images, byte `i` is byte `i % width` of draw `i / width`. No byte is skipped, repeated or reordered. |
| Chunked.FillSpecIndex | include/coap2/coap_prng.h:35-42 | In the output, including the truncated last word, byte `i` is byte `i % width` of draw `i / width`. |
| Chunked.DrawCountClosedForm | include/coap2/coap_prng.h:34-40 | The draw count is 1 when `len == 0` and `ceil(len/width)` otherwise. |
| Chunked.LastDrawPrefix | include/coap2/coap_prng.h:42 | The final `memcpy` copies `len - width*(k-1)` bytes. That is between 1 and `width` when `len > 0`, and 0 when `len == 0`. |
| Contiki.ContikiPrngImpl | include/coap2/coap_prng.h:32-44 | `contiki_prng_impl` always returns 1 and writes exactly `len` bytes. Byte `i` is byte `i % 2` of the native image of the `(i/2)`-th `random_rand()` value. It makes `max(1, ceil(len/2))` calls, so 3 calls for `len = 5`. Nothing at or past `buf[len]` changes. |
| Contiki.InitSeed | include/coap2/coap_prng.h:47 | `(uint16_t)(Value)` is the unique value below 2^16 that is congruent to `Value` modulo 2^16. |
| Contiki.InitSeedCollides | include/coap2/coap_prng.h:47 | Two seeds reach `random_init` as the same seed exactly when they differ by a multiple of 2^16. |
| Lwip.LwipPrngImpl | include/coap2/coap_prng.h:49-61 | `lwip_prng_impl` always returns 1 and writes exactly `len` bytes from the native images of successive `LWIP_RAND()` values. It makes `max(1, ceil(len/4))` calls. Nothing at or past `buf[len]` changes. |
| Windows.Needed | include/coap2/coap_prng.h:75-84 | The number of `rand_s` calls needed for `len` bytes is the least `n` with `len <= 4n`, which is `ceil(len/4)`. |
| Windows.EmitWord | include/coap2/coap_prng.h:80-84 | One successful draw writes `min(remaining, 4)` bytes. Byte `j` is `(uint8_t)(r >> 8*j)`, least significant first. All other bytes are left alone. |
| Windows.CoapPrngImpl | include/coap2/coap_prng.h:73-87 | The result is 1 exactly when the first `ceil(len/4)` `rand_s` calls all succeed. Then exactly `len` bytes are written, using `ceil(len/4)` calls, and none when `len == 0`. On a failure it returns 0 right after the first failing call `j+1`. Only the `4*j` bytes of the `j` earlier draws are then written, and nothing from `4*j` on changes. On success the bytes equal what the shared loop produces from the little-endian images of the same values. |
| Windows.ShiftedImagesAgree | include/coap2/coap_prng.h:80-83 | A buffer whose byte `i` is `(uint8_t)(r_{i/4} >> 8*(i%4))` equals, in its first `len` bytes, the chunked fill from the little-endian images of the `r_k`. |
| Dispatch.Start | include/coap2/coap_prng.h:115-118 | At library start the default generator is in the slot and no calls have been made. |
| Dispatch.SetPrng | include/coap2/coap_prng.h:98-104 | After `coap_set_prng(rng)`, every call through the slot is answered by `rng`. The default generator, the seed and the counters are unchanged. |
| Dispatch.PrngInit | include/coap2/coap_prng.h:106-113 | `coap_prng_init(seed)` records the seed for the default generator and restarts its sequence. Which generator is active does not change. |
| Dispatch.CoapPrng | include/coap2/coap_prng.h:115-126 | `coap_prng` returns the active generator's outcome unchanged. If the generators keep the `coap_rand_func_t` contract and the buffer has room for `len` bytes, the result is 1 or 0 and nothing past `len` is written. The slot, default and seed stay the same. |
| Dispatch.RunActiveIsLastInstalled | include/coap2/coap_prng.h:98-104 | After any history of calls, the slot holds the generator from the most recent `coap_set_prng`, or the initial one if there was none. |
| Dispatch.DispatchToLastInstalled | include/coap2/coap_prng.h:98-126 | After any history, `coap_prng` returns the result of the most recently installed generator. Earlier generators are never called. |
| Dispatch.InstalledServesLaterCalls | include/coap2/coap_prng.h:98-126 | Once `rng` is installed, every later `coap_prng` uses it until the next `coap_set_prng`, whatever seeding and calls happen in between. |
| Dispatch.RunKeepsBuiltin | include/coap2/coap_prng.h:106-126 | No call changes the built-in default generator. The call counter grows by exactly the number of `coap_prng` calls. |
| Dispatch.RunAgreesApartFromSeed | include/coap2/coap_prng.h:106-126 | Two states that differ only in the default generator's seed keep the same default, slot and call count through any history of calls. |
| Dispatch.GetrandomIgnoresSeed | include/coap2/coap_prng.h:106-113 | When the default uses `getrandom()`, a `coap_prng_init` followed by any history of calls leaves every later `coap_prng` output as it would have been without the seeding. |
| Dispatch.InstalledIgnoresSeed | include/coap2/coap_prng.h:106-113 | `coap_prng_init` seeds only the default. Once a generator is installed, seeding followed by any history of calls leaves every later `coap_prng` output unchanged. |
| Dispatch.RunKeepsHonour | include/coap2/coap_prng.h:91-104 | Starting from generators that keep the `coap_rand_func_t` contract and installing only such generators, every reachable state still dispatches only to contract-keeping generators. |
| Dispatch.CoapPrngResultAfterHistory | include/coap2/coap_prng.h:115-126 | After any such history, `coap_prng` returns 1 or 0 and writes nothing past `len`. |
| Dispatch.ReseedReproduces | include/coap2/coap_prng.h:106-113 | With a seeded default in the slot, reseeding with the same value reproduces the next output. This holds whatever `coap_prng_init` and `coap_prng` calls happened in between, as long as no `coap_set_prng` did. |

## Left out

- Real entropy sources (`random_rand`, `random_init`, `LWIP_RAND`, `rand_s`, `getrandom`): these are host calls. They appear only as oracle functions from call index to value.
- Randomness quality and statistical distinctness cannot be stated in this model.
- Native byte order on Contiki and lwIP: it is a parameter (`ByteOrder`), not a fixed choice.
- Thread safety of the process-wide generator slot: the header has no implementation, so the model is sequential.
- Preprocessor platform selection and the deprecated `prng`/`prng_init` macro aliases (include/coap2/coap_prng.h:24-31, 46, 63, 128-147): these are build plumbing.
- The lwIP and Windows `prng_init` macros (include/coap2/coap_prng.h:64, 66) expand to nothing. There is no behaviour to model.
- Contiki's `random_init` is a host call. Only the 16-bit conversion of its argument is modelled (`Contiki.InitSeed`).
- The body of the default POSIX generator is not part of this header. It appears only as an abstract `getrandom()` fill or an abstract seeded fill (`Dispatch.DefaultRng`).
- Width of `size_t` and `unsigned long`: lengths and seeds are unbounded naturals. A length never exceeds the buffer, so no wrap-around can occur in the loops.
- Dispatch.CoapPrng: a `void *` buffer is modelled as a byte sequence. A generator's hidden state is reduced to the number of earlier `coap_prng` calls, so outputs are stated only relative to the generator function.
