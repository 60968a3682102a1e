/**
 * `DotCheck.GenericExtensions<T>` (DotCheck/GenericExtensions.cs): the
 * binding for sequences of `T`. Its generator is stateful: the list length is
 * the binding's own `GenerationSize`, which each successful call
 * post-increments, so successive calls give lengths 0, 1, 2, ... Its
 * shrinker yields nothing.
 *
 * Whether `T` has generators (`HasGenerators`) and how one element is
 * generated (`Check.Generate<T>`) are not part of this model; they are the
 * parameters `hasGenerators` and `generate`, one random sample per element.
 */
module GenericExtensions {
  import opened Wrappers
  import opened Types
  import Arbitraries
  import Randomness

  /** The shrinker: a list is shrunk to no candidates at all. */
  function ShrinkEnumerable<T>(list: seq<T>): seq<seq<T>>
  {
    []
  }

  /** `GenerationSize++` on a C# `int`: wraps from `Int32.MaxValue` to `Int32.MinValue`. */
  function Increment(n: int32): (r: int32)
    ensures n as int < Int32MaxValue ==> r as int == n as int + 1
    ensures n as int == Int32MaxValue ==> r as int == Int32MinValue
  {
    if n as int == Int32MaxValue then -0x8000_0000 else n + 1
  }

  /** The `ArbitraryEnumerable` field's initial state. */
  method ArbitraryEnumerable<T>() returns (a: Arbitraries.Arbitrary<seq<T>>)
    ensures fresh(a)
    ensures a.generationSize == 0
    ensures a.shrinker.Some? && forall list :: a.shrinker.value(list) == []
  {
    a := new Arbitraries.Arbitrary<seq<T>>();
    a.generationSize := 0;
    a.shrinker := Some(ShrinkEnumerable);
  }

  /**
   * The generator lambda of `ArbitraryEnumerable`, run on the binding `self`
   * it belongs to.
   */
  method Generate<T>(self: Arbitraries.Arbitrary<seq<T>>, hasGenerators: bool,
                     rand: Randomness.RandomSource, generate: nat -> T)
    returns (list: seq<T>)
    modifies self`generationSize, rand
    // no element generator: empty, counter and random source untouched
    ensures !hasGenerators ==>
              list == [] && self.generationSize == old(self.generationSize) && rand.drawn == old(rand.drawn)
    // otherwise the length is the counter before the call, and the counter moves on by one
    ensures hasGenerators ==>
              && |list| == (if old(self.generationSize) < 0 then 0 else old(self.generationSize) as int)
              && self.generationSize == Increment(old(self.generationSize))
              && rand.drawn == old(rand.drawn) + |list|
    // one element per draw, in draw order
    ensures forall i :: 0 <= i < |list| ==> list[i] == generate(rand.samples(old(rand.drawn) + i))
  {
    if hasGenerators {
      var listsize := self.generationSize;
      self.generationSize := Increment(self.generationSize);
      list := [];
      var i: int32 := 0;
      while i < listsize
        invariant 0 <= i as int && (listsize >= 0 ==> i <= listsize) && (listsize < 0 ==> i == 0)
        invariant self.generationSize == Increment(listsize)
        invariant |list| == i as int && rand.drawn == old(rand.drawn) + |list|
        invariant forall j :: 0 <= j < |list| ==> list[j] == generate(rand.samples(old(rand.drawn) + j))
      {
        var sample := rand.Sample();
        list := list + [generate(sample)];
        i := i + 1;
      }
      return;
    }
    list := [];
  }

  /** Starting from a fresh binding, successive calls give lists of lengths 0, 1, 2. */
  method SuccessiveLengths(rand: Randomness.RandomSource, generate: nat -> int)
    modifies rand
  {
    var a := ArbitraryEnumerable<int>();
    var first := Generate(a, true, rand, generate);
    var second := Generate(a, true, rand, generate);
    var third := Generate(a, true, rand, generate);
    assert |first| == 0 && |second| == 1 && |third| == 2;
    var none := Generate(a, false, rand, generate);
    assert none == [] && a.generationSize == 3;
  }
}
