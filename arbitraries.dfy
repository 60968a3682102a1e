/**
 * `DotCheck.Arbitrary<T>` (DotCheck/Arbitrary.cs): the binding of a type to
 * its generator and optional shrinker, with the generation-size counter that
 * stateful generators bump. A C# `Func<Random, T>` generator is modelled as
 * a map from one random sample to a value; `null` is `None`.
 */
module Arbitraries {
  import opened Wrappers
  import opened Types

  class Arbitrary<T> {
    /** `GenerationSize`: a public `int` field, 0 unless a caller sets it. */
    var generationSize: int32
    var generator: Option<nat -> T>
    var shrinker: Option<T -> seq<T>>

    /** `Arbitrary(gen, shrinker)`: stores both. */
    constructor FromGeneratorAndShrinker(gen: nat -> T, shrinker: T -> seq<T>)
      ensures generator == Some(gen) && this.shrinker == Some(shrinker)
      ensures generationSize == 0
    {
      generationSize := 0;
      generator := Some(gen);
      this.shrinker := Some(shrinker);
    }

    /** `Arbitrary(gen)`: stores the generator, no shrinker. */
    constructor FromGenerator(gen: nat -> T)
      ensures generator == Some(gen) && shrinker == None
      ensures generationSize == 0
    {
      generationSize := 0;
      generator := Some(gen);
      shrinker := None;
    }

    /** `Arbitrary()`: neither generator nor shrinker. */
    constructor ()
      ensures generator == None && shrinker == None
      ensures generationSize == 0
    {
      generationSize := 0;
      generator := None;
      shrinker := None;
    }
  }
}
