/**
  The random-number source the generator draws from (`rand::Rng` with
  `Uniform::sample` and `SliceRandom::shuffle`). Only the two contracts matter to
  the rest of the model: a uniform draw lands in its half-open range, and a
  shuffle permutes an array in place. The bodies below are a small linear
  congruential generator and a Fisher-Yates shuffle that meet those contracts;
  they stand in for the PCG generator and its distributions.
 */
module Rand {
  import opened Common

  class Rng {
    /** The generator's internal state. */
    var state: U64

    /** A generator started from `seed`. */
    constructor FromSeed(seed: U64)
      ensures state == seed
    {
      state := seed;
    }

    /** Advance the state by one step. */
    method Step()
      modifies this
    {
      state := (state * 6364136223846793005 + 1442695040888963407) % U64_LIMIT;
    }

    /**
      `Uniform::from(lo..hi).sample(rng)`: a value of the half-open range.
      `Uniform::from` panics on an empty range; callers check `lo < hi` first and
      model that panic themselves.
     */
    method Uniform(lo: int, hi: int) returns (r: int)
      requires lo < hi
      modifies this
      ensures lo <= r < hi
    {
      r := lo + state % (hi - lo);
      Step();
    }

    /** `slice.shuffle(rng)`: the array keeps the same elements, in some order. */
    method Shuffle<T>(a: array<T>)
      modifies this, a
      ensures multiset(a[..]) == multiset(old(a[..]))
    {
      var i := a.Length;
      while i > 1
        invariant 0 <= i <= a.Length
        invariant multiset(a[..]) == multiset(old(a[..]))
      {
        var j := Uniform(0, i);
        a[i - 1], a[j] := a[j], a[i - 1];
        i := i - 1;
      }
    }
  }
}
