/** The deterministic sampler behind `randombytes_init` and `NIST_rng`.
    The seeded generator itself is external: it is modelled only by its
    contract, as a stream that yields, at call number p with bound b, a value
    in [0, b). Each `NIST_rng` call consumes the next position of the stream. */
module Sampler {

  /** The draws of one seeded session: draw(p, b) is what the p-th call
      `NIST_rng(b)` returns. */
  type DrawSource = f: (nat, nat) -> nat | forall p: nat, b: nat :: 0 < b ==> f(p, b) < b
    witness (p: nat, b: nat) => 0

  class Rng {
    /** The stream fixed by the seed. */
    const draw: DrawSource
    /** Number of draws taken so far. */
    var pos: nat

    /** `randombytes_init(entropy, NULL, 256)`: the stream is a function of
        the entropy alone and the call sequence starts afresh. */
    constructor Init(entropy: seq<int>, generator: seq<int> -> DrawSource)
      ensures draw == generator(entropy) && pos == 0
    {
      draw := generator(entropy);
      pos := 0;
    }

    /** `NIST_rng(bound)`: the next draw, in [0, bound). */
    method Next(bound: nat) returns (r: nat)
      requires 0 < bound
      modifies this
      ensures r == draw(old(pos), bound) && r < bound
      ensures pos == old(pos) + 1
    {
      r := draw(pos, bound);
      pos := pos + 1;
    }
  }
}
