/**
 * The POSIX-side generator API: one process-wide slot holding the active
 * `coap_rand_func_t`, replaced by `coap_set_prng`, called by `coap_prng`,
 * and a seeding hook `coap_prng_init` for the built-in default generator.
 *
 * The header only declares this API; the model states the contract the
 * declarations document, sequentially.  A generator's hidden state (the
 * entropy it has consumed) is represented by the position it is called at.
 */
module Dispatch {
  import opened Bytes

  /** What a call of a generator produces: its `int` result and the buffer afterwards. */
  datatype Outcome = Outcome(result: int, buf: seq<byte>)

  /**
   * `coap_rand_func_t`: `f(n, buf, len)` is the outcome of the call made
   * when `n` earlier calls have gone through `coap_prng`.
   */
  type RandFunc = (nat, seq<byte>, nat) -> Outcome

  /**
   * The documented contract of one `coap_rand_func_t` call given room for
   * `len` bytes: it returns 1 or 0 and writes nothing past `len`.
   */
  predicate Kept(o: Outcome, buf: seq<byte>, len: nat)
  {
    && (o.result == 0 || o.result == 1)
    && |o.buf| == |buf|
    && (len <= |buf| ==> o.buf[len..] == buf[len..])
  }

  /** `f` keeps the `coap_rand_func_t` contract on every call. */
  ghost predicate Honours(f: RandFunc)
  {
    forall n: nat, buf: seq<byte>, len: nat | len <= |buf| :: Kept(f(n, buf, len), buf, len)
  }

  /**
   * The built-in default generator: either `getrandom()`, which ignores any
   * seed, or a seeded pseudo-random generator whose output depends on the
   * last seed and on how many calls it has served since that seed.
   */
  datatype DefaultRng =
    | Getrandom(fill: RandFunc)
    | Seeded(fillSeeded: (nat, nat, seq<byte>, nat) -> Outcome)

  /** The generator slot: the built-in default, or a function installed by `coap_set_prng`. */
  datatype Active = Default | Installed(rng: RandFunc)

  /**
   * The library's generator state: the built-in default, the slot, the last
   * seed given to `coap_prng_init`, the number of `coap_prng` calls so far
   * and the number the seeded default has served since it was last seeded.
   */
  datatype Prng = Prng(builtin: DefaultRng, active: Active, seed: nat, calls: nat, sinceSeed: nat)

  /** The state at library start: the default generator is active. */
  function Start(builtin: DefaultRng, initialSeed: nat): (p: Prng)
    ensures p.active == Default && p.builtin == builtin
    ensures p.calls == 0 && p.sinceSeed == 0
  {
    Prng(builtin, Default, initialSeed, 0, 0)
  }

  /** The outcome the slot's generator gives for a call in state `p`. */
  function Serve(p: Prng, buf: seq<byte>, len: nat): Outcome
  {
    match p.active
    case Installed(rng) => rng(p.calls, buf, len)
    case Default =>
      match p.builtin
      case Getrandom(fill) => fill(p.calls, buf, len)
      case Seeded(fillSeeded) => fillSeeded(p.seed, p.sinceSeed, buf, len)
  }

  /** `coap_set_prng(rng)`: every later `coap_prng` call is served by `rng`. */
  function SetPrng(p: Prng, rng: RandFunc): (q: Prng)
    ensures forall buf, len :: Serve(q, buf, len) == rng(p.calls, buf, len)
    ensures q.builtin == p.builtin && q.seed == p.seed
    ensures q.calls == p.calls && q.sinceSeed == p.sinceSeed
  {
    p.(active := Installed(rng))
  }

  /**
   * `coap_prng_init(seed)`: seeds the default generator.  It changes
   * nothing about which generator is active.
   */
  function PrngInit(p: Prng, seed: nat): (q: Prng)
    ensures q.active == p.active && q.builtin == p.builtin && q.calls == p.calls
    ensures q.seed == seed && q.sinceSeed == 0
  {
    p.(seed := seed, sinceSeed := 0)
  }

  /** Every generator the state can dispatch to honours the `coap_rand_func_t` contract. */
  ghost predicate GeneratorsHonour(p: Prng)
  {
    && (p.active.Installed? ==> Honours(p.active.rng))
    && (p.builtin.Getrandom? ==> Honours(p.builtin.fill))
    && (p.builtin.Seeded? ==>
         forall seed: nat, since: nat, buf: seq<byte>, len: nat | len <= |buf| ::
           Kept(p.builtin.fillSeeded(seed, since, buf, len), buf, len))
  }

  /**
   * `coap_prng(buf, len)`: the active generator's outcome, returned as is,
   * and the state after the call.  When the generators keep their contract,
   * the result is 1 or 0 and nothing past `len` is written.
   */
  function CoapPrng(p: Prng, buf: seq<byte>, len: nat): (r: (Outcome, Prng))
    ensures r.0 == Serve(p, buf, len)
    ensures GeneratorsHonour(p) && len <= |buf| ==>
      && (r.0.result == 0 || r.0.result == 1)
      && |r.0.buf| == |buf|
      && r.0.buf[len..] == buf[len..]
    ensures r.1.active == p.active && r.1.builtin == p.builtin && r.1.seed == p.seed
    ensures r.1.calls == p.calls + 1
    ensures r.1.sinceSeed == if p.active.Default? && p.builtin.Seeded? then p.sinceSeed + 1 else p.sinceSeed
  {
    var next := if p.active.Default? && p.builtin.Seeded? then p.sinceSeed + 1 else p.sinceSeed;
    (Serve(p, buf, len), p.(calls := p.calls + 1, sinceSeed := next))
  }

  /** One call of the API, for describing a history of calls. */
  datatype Op =
    | SetPrngOp(rng: RandFunc)
    | PrngInitOp(seed: nat)
    | CoapPrngOp(buf: seq<byte>, len: nat)

  function Step(p: Prng, op: Op): Prng
  {
    match op
    case SetPrngOp(rng) => SetPrng(p, rng)
    case PrngInitOp(seed) => PrngInit(p, seed)
    case CoapPrngOp(buf, len) => CoapPrng(p, buf, len).1
  }

  /** The state after the calls `ops`, made in order from `p`. */
  function Run(p: Prng, ops: seq<Op>): Prng
    decreases |ops|
  {
    if |ops| == 0 then p else Run(Step(p, ops[0]), ops[1..])
  }

  /** The generator installed by the last `coap_set_prng` in `ops`, or `initial` if there is none. */
  function LastInstalled(initial: Active, ops: seq<Op>): Active
    decreases |ops|
  {
    if |ops| == 0 then initial
    else if ops[|ops| - 1].SetPrngOp? then Installed(ops[|ops| - 1].rng)
    else LastInstalled(initial, ops[..|ops| - 1])
  }

  /** `ops` contains no call of `coap_set_prng`. */
  predicate NoInstall(ops: seq<Op>)
  {
    forall i :: 0 <= i < |ops| ==> !ops[i].SetPrngOp?
  }

  /** The number of `coap_prng` calls in `ops`. */
  function PrngCalls(ops: seq<Op>): nat
    decreases |ops|
  {
    if |ops| == 0 then 0 else (if ops[0].CoapPrngOp? then 1 else 0) + PrngCalls(ops[1..])
  }

  /** Running a history one call longer is one more step. */
  lemma {:induction false} RunSnoc(p: Prng, ops: seq<Op>, op: Op)
    ensures Run(p, ops + [op]) == Step(Run(p, ops), op)
    decreases |ops|
  {
    if |ops| == 0 {
      assert ops + [op] == [op];
      assert [op][1..] == [];
    } else {
      assert (ops + [op])[1..] == ops[1..] + [op];
      RunSnoc(Step(p, ops[0]), ops[1..], op);
    }
  }

  /** Only the most recently installed generator is in the slot after a history of calls. */
  lemma {:induction false} RunActiveIsLastInstalled(p: Prng, ops: seq<Op>)
    ensures Run(p, ops).active == LastInstalled(p.active, ops)
    decreases |ops|
  {
    if |ops| > 0 {
      var init := ops[..|ops| - 1];
      var last := ops[|ops| - 1];
      assert ops == init + [last];
      RunSnoc(p, init, last);
      RunActiveIsLastInstalled(p, init);
    }
  }

  /**
   * After any history, `coap_prng` is served by the generator the last
   * `coap_set_prng` installed, and returns that generator's result.
   */
  lemma DispatchToLastInstalled(p: Prng, ops: seq<Op>, rng: RandFunc, buf: seq<byte>, len: nat)
    requires LastInstalled(p.active, ops) == Installed(rng)
    ensures CoapPrng(Run(p, ops), buf, len).0 == rng(Run(p, ops).calls, buf, len)
  {
    RunActiveIsLastInstalled(p, ops);
  }

  /**
   * Once `rng` is installed, it serves every later `coap_prng` call until
   * the next `coap_set_prng`, whatever seeding and calls happen between.
   */
  lemma InstalledServesLaterCalls(p: Prng, rng: RandFunc, ops: seq<Op>, buf: seq<byte>, len: nat)
    requires NoInstall(ops)
    ensures Run(SetPrng(p, rng), ops).active == Installed(rng)
    ensures CoapPrng(Run(SetPrng(p, rng), ops), buf, len).0 == rng(Run(SetPrng(p, rng), ops).calls, buf, len)
  {
    var q := SetPrng(p, rng);
    LastInstalledWithoutInstall(q.active, ops);
    RunActiveIsLastInstalled(q, ops);
  }

  lemma {:induction false} LastInstalledWithoutInstall(initial: Active, ops: seq<Op>)
    requires NoInstall(ops)
    ensures LastInstalled(initial, ops) == initial
    decreases |ops|
  {
    if |ops| > 0 {
      LastInstalledWithoutInstall(initial, ops[..|ops| - 1]);
    }
  }

  /** The built-in default is fixed, and every `coap_prng` call is counted. */
  lemma {:induction false} RunKeepsBuiltin(p: Prng, ops: seq<Op>)
    ensures Run(p, ops).builtin == p.builtin
    ensures Run(p, ops).calls == p.calls + PrngCalls(ops)
    decreases |ops|
  {
    if |ops| > 0 {
      RunKeepsBuiltin(Step(p, ops[0]), ops[1..]);
    }
  }

  /**
   * Two states that differ at most in the seed of the default generator
   * stay that way through any history of calls.
   */
  lemma {:induction false} RunAgreesApartFromSeed(p: Prng, q: Prng, ops: seq<Op>)
    requires p.builtin == q.builtin && p.active == q.active && p.calls == q.calls
    ensures Run(p, ops).builtin == Run(q, ops).builtin
    ensures Run(p, ops).active == Run(q, ops).active
    ensures Run(p, ops).calls == Run(q, ops).calls
    decreases |ops|
  {
    if |ops| > 0 {
      RunAgreesApartFromSeed(Step(p, ops[0]), Step(q, ops[0]), ops[1..]);
    }
  }

  /** Once a generator is installed, some installed generator stays in the slot. */
  lemma {:induction false} LastInstalledStaysInstalled(initial: Active, ops: seq<Op>)
    requires initial.Installed?
    ensures LastInstalled(initial, ops).Installed?
    decreases |ops|
  {
    if |ops| > 0 && !ops[|ops| - 1].SetPrngOp? {
      LastInstalledStaysInstalled(initial, ops[..|ops| - 1]);
    }
  }

  /**
   * With `getrandom()` as the default, `coap_prng_init` changes no later
   * output, whatever calls follow it.
   */
  lemma GetrandomIgnoresSeed(p: Prng, seed: nat, ops: seq<Op>, buf: seq<byte>, len: nat)
    requires p.builtin.Getrandom?
    ensures CoapPrng(Run(PrngInit(p, seed), ops), buf, len).0 == CoapPrng(Run(p, ops), buf, len).0
  {
    RunAgreesApartFromSeed(PrngInit(p, seed), p, ops);
    RunKeepsBuiltin(p, ops);
  }

  /**
   * Once a generator is installed, `coap_prng_init` changes no later output,
   * whatever calls follow it.
   */
  lemma InstalledIgnoresSeed(p: Prng, seed: nat, ops: seq<Op>, buf: seq<byte>, len: nat)
    requires p.active.Installed?
    ensures CoapPrng(Run(PrngInit(p, seed), ops), buf, len).0 == CoapPrng(Run(p, ops), buf, len).0
  {
    RunAgreesApartFromSeed(PrngInit(p, seed), p, ops);
    RunActiveIsLastInstalled(p, ops);
    LastInstalledStaysInstalled(p.active, ops);
  }

  /** Every generator `ops` installs keeps the `coap_rand_func_t` contract. */
  ghost predicate InstallsHonouring(ops: seq<Op>)
  {
    forall i | 0 <= i < |ops| && ops[i].SetPrngOp? :: Honours(ops[i].rng)
  }

  /**
   * Starting from generators that keep their contract and installing only
   * such generators, every reachable state dispatches only to them.
   */
  lemma {:induction false} RunKeepsHonour(p: Prng, ops: seq<Op>)
    requires GeneratorsHonour(p)
    requires InstallsHonouring(ops)
    ensures GeneratorsHonour(Run(p, ops))
    decreases |ops|
  {
    if |ops| > 0 {
      assert ops[0].SetPrngOp? ==> Honours(ops[0].rng);
      var q := Step(p, ops[0]);
      assert GeneratorsHonour(q);
      assert InstallsHonouring(ops[1..]) by {
        forall i | 0 <= i < |ops[1..]| && ops[1..][i].SetPrngOp?
          ensures Honours(ops[1..][i].rng)
        {
          assert ops[1..][i] == ops[i + 1];
        }
      }
      RunKeepsHonour(q, ops[1..]);
    }
  }

  /**
   * After any history that installs only contract-keeping generators,
   * `coap_prng` returns 1 or 0 and writes nothing past `len`.
   */
  lemma CoapPrngResultAfterHistory(p: Prng, ops: seq<Op>, buf: seq<byte>, len: nat)
    requires GeneratorsHonour(p)
    requires InstallsHonouring(ops)
    requires len <= |buf|
    ensures var o := CoapPrng(Run(p, ops), buf, len).0;
      && (o.result == 0 || o.result == 1)
      && |o.buf| == |buf|
      && o.buf[len..] == buf[len..]
  {
    RunKeepsHonour(p, ops);
  }

  /**
   * With a seeded default in the slot, reseeding with the same value
   * reproduces the next output, whatever `coap_prng_init` and `coap_prng`
   * calls happened in between, as long as no `coap_set_prng` did.
   */
  lemma ReseedReproduces(p: Prng, seed: nat, ops: seq<Op>, buf: seq<byte>, len: nat)
    requires p.active.Default? && p.builtin.Seeded?
    requires NoInstall(ops)
    ensures CoapPrng(PrngInit(Run(PrngInit(p, seed), ops), seed), buf, len).0
         == CoapPrng(PrngInit(p, seed), buf, len).0
  {
    var q := PrngInit(p, seed);
    RunKeepsBuiltin(q, ops);
    LastInstalledWithoutInstall(q.active, ops);
    RunActiveIsLastInstalled(q, ops);
  }
}
