/**
 * `System.Random`, reduced to what the generators rely on. Its distribution
 * is not modelled: a source is a fixed stream of raw samples, and a draw
 * takes the next one. `Next(minValue, maxValue)` maps a sample into
 * [minValue, maxValue), and every value of that range is reached by some sample.
 */
module Randomness {

  /** `Random.Next(minValue, maxValue)` applied to one raw sample. */
  function NextInRange(minValue: int, maxValue: int, sample: nat): (r: int)
    requires minValue <= maxValue
    ensures minValue == maxValue ==> r == minValue
    ensures minValue < maxValue ==> minValue <= r < maxValue
  {
    if minValue == maxValue then minValue else minValue + sample % (maxValue - minValue)
  }

  /** Every value of the half-open range is drawn from some sample. */
  lemma NextInRangeReaches(minValue: int, maxValue: int, x: int)
    requires minValue <= x < maxValue
    ensures NextInRange(minValue, maxValue, (x - minValue) as nat) == x
  {
    assert (x - minValue) % (maxValue - minValue) == x - minValue;
  }

  /** A random source: the stream `samples` and how much of it has been used. */
  class RandomSource {
    const samples: nat -> nat
    var drawn: nat

    constructor (samples: nat -> nat)
      ensures this.samples == samples && drawn == 0
    {
      this.samples := samples;
      drawn := 0;
    }

    /** Takes the next raw sample. */
    method Sample() returns (x: nat)
      modifies this
      ensures x == samples(old(drawn)) && drawn == old(drawn) + 1
    {
      x := samples(drawn);
      drawn := drawn + 1;
    }

    /** `Random.Next(maxValue)`: a value in [0, maxValue), or 0 when maxValue is 0. */
    method Next(maxValue: int) returns (r: int)
      requires 0 <= maxValue
      modifies this
      ensures r == NextInRange(0, maxValue, samples(old(drawn))) && drawn == old(drawn) + 1
    {
      var x := Sample();
      r := NextInRange(0, maxValue, x);
    }
  }
}
