/** The graphics library's random number source. The library is not part of
    this model: its generator is an oracle `gen` whose k-th answer, for the
    bounds [lo, hi] of that call, is `gen(k, lo, hi)`; `drawn` counts the
    answers consumed so far. */
module Randomness {

  /** The library's documented promise: every value lies within the bounds
      it was asked for, both included. */
  ghost predicate Honest(gen: (nat, int, int) -> int) {
    forall k: nat, lo: int, hi: int :: lo <= hi ==> lo <= gen(k, lo, hi) <= hi
  }

  class RandomSource {
    const gen: (nat, int, int) -> int
    var drawn: nat

    constructor (gen: (nat, int, int) -> int)
      ensures this.gen == gen && drawn == 0
    {
      this.gen := gen;
      drawn := 0;
    }

    method GetRandomValue(min: int, max: int) returns (v: int)
      requires Honest(gen) && min <= max
      modifies this
      ensures drawn == old(drawn) + 1
      ensures v == gen(old(drawn), min, max) && min <= v <= max
    {
      v := gen(drawn, min, max);
      drawn := drawn + 1;
    }
  }
}
