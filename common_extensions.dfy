/**
 * `DotCheck.CommonExtensions` (DotCheck/CommonExtensions.cs): the `int`
 * binding, whose generator draws from [Int32.MinValue, Int32.MaxValue) and
 * whose shrinker is `ShrinkInteger`.
 *
 * `ShrinkInteger(v)` halves `v` toward zero (C# division truncates) and
 * yields the magnitude of each half while that magnitude is at least 1. It
 * yields absolute values: the sign of `v` is lost.
 */
module CommonExtensions {
  import opened Wrappers
  import opened Types
  import Randomness
  import Arbitraries

  /** The generator lambda: `rand.Next(Int32.MinValue, Int32.MaxValue)` on one sample. */
  function IntGenerator(sample: nat): (r: int32)
    // the upper bound is exclusive: Int32.MaxValue itself is never produced
    ensures Int32MinValue <= r as int < Int32MaxValue
  {
    Randomness.NextInRange(Int32MinValue, Int32MaxValue, sample) as int32
  }

  /** Every `int` except `Int32.MaxValue` is generated from some sample. */
  lemma IntGeneratorReaches(x: int32)
    requires x as int != Int32MaxValue
    ensures IntGenerator((x as int - Int32MinValue) as nat) == x
  {
    Randomness.NextInRangeReaches(Int32MinValue, Int32MaxValue, x as int);
  }

  /**
   * The magnitudes yielded from the current half `s` on: `|s|`, then those of
   * `s / 2`, until the magnitude drops below 1.
   */
  function Halvings(s: int): (r: seq<int>)
    decreases Abs(s)
    ensures forall i :: 0 <= i < |r| ==> 1 <= r[i] <= Abs(s)
    ensures r == [] <==> s == 0
  {
    if Abs(s) >= 1 then [Abs(s)] + Halvings(Quot2(s)) else []
  }

  /** The sequence `ShrinkInteger(v)` yields, as `int` values. */
  function Shrinks(v: int32): (r: seq<int32>)
  {
    var h := Halvings(Quot2(v as int));
    seq(|h|, i requires 0 <= i < |h| => h[i] as int32)
  }

  /** Each yielded value is the previous one halved, so the sequence strictly decreases. */
  lemma {:induction false} HalvingsStep(s: int, i: nat)
    requires i + 1 < |Halvings(s)|
    ensures Halvings(s)[i + 1] == Halvings(s)[i] / 2
    ensures Halvings(s)[i + 1] < Halvings(s)[i]
    decreases i
  {
    var q := Quot2(s);
    assert Halvings(s) == [Abs(s)] + Halvings(q);
    if i > 0 {
      HalvingsStep(q, i - 1);
    } else {
      assert Halvings(q)[0] == Abs(q);
    }
  }

  /** The number of halvings is bounded by the bit length of the magnitude. */
  lemma {:induction false} HalvingsLength(s: int, k: nat)
    requires Abs(s) < Pow2(k)
    ensures |Halvings(s)| <= k
    decreases k
  {
    if Abs(s) >= 1 {
      assert k > 0;
      HalvingsLength(Quot2(s), k - 1);
    }
  }

  function Pow2(k: nat): (p: nat)
    ensures p >= 1
  {
    if k == 0 then 1 else 2 * Pow2(k - 1)
  }

  lemma {:induction false} Pow2Add(a: nat, b: nat)
    ensures Pow2(a + b) == Pow2(a) * Pow2(b)
  {
    if a > 0 {
      Pow2Add(a - 1, b);
    }
  }

  lemma Pow2Value31()
    ensures Pow2(31) == 0x8000_0000
  {
    assert Pow2(4) == 16;
    Pow2Add(4, 4);
    Pow2Add(8, 8);
    Pow2Add(16, 8);
    Pow2Add(24, 4);
    assert Pow2(3) == 8;
    Pow2Add(28, 3);
  }

  /** Halving from `s` or from `-s` yields the same magnitudes. */
  lemma {:induction false} HalvingsSymmetric(s: int)
    ensures Halvings(-s) == Halvings(s)
    decreases Abs(s)
  {
    if Abs(s) >= 1 {
      assert Quot2(-s) == -Quot2(s);
      HalvingsSymmetric(Quot2(s));
    }
  }

  /** The properties of the yielded sequence, stated on `Shrinks`. */
  lemma ShrinksProperties(v: int32)
    // every value yielded is at least 1: negative halves are negated
    ensures forall i :: 0 <= i < |Shrinks(v)| ==> Shrinks(v)[i] >= 1
    // empty exactly when |v| < 2
    ensures Shrinks(v) == [] <==> Abs(v as int) < 2
    // the first value is |v / 2| under truncating division
    ensures Shrinks(v) != [] ==> Shrinks(v)[0] as int == Abs(Quot2(v as int))
    // each next value is the previous one halved, strictly smaller
    ensures forall i :: 0 <= i < |Shrinks(v)| - 1 ==>
              Shrinks(v)[i + 1] == Shrinks(v)[i] / 2 < Shrinks(v)[i]
    // at most 31 values for any 32-bit input
    ensures |Shrinks(v)| <= 31
  {
    var h := Halvings(Quot2(v as int));
    forall i | 0 <= i < |h| - 1
      ensures Shrinks(v)[i + 1] == Shrinks(v)[i] / 2 < Shrinks(v)[i]
    {
      HalvingsStep(Quot2(v as int), i);
    }
    Pow2Value31();
    HalvingsLength(Quot2(v as int), 31);
  }

  /** `ShrinkInteger(v)` and `ShrinkInteger(-v)` coincide whenever `-v` is an `int`. */
  lemma ShrinksSymmetric(v: int32)
    requires v as int != Int32MinValue
    ensures Shrinks(v) == Shrinks(-v)
  {
    assert Quot2(-(v as int)) == -Quot2(v as int);
    HalvingsSymmetric(Quot2(v as int));
  }

  /** C#'s `x / 2` on `int`: truncating, computed without leaving the 32-bit range. */
  function Div2(x: int32): (q: int32)
    ensures q as int == Quot2(x as int)
  {
    if x < 0 && x % 2 != 0 then x / 2 + 1 else x / 2
  }

  /** `Math.Abs` on `int`, which throws for `Int32.MinValue`. */
  function Abs32(x: int32): (r: int32)
    requires x as int != Int32MinValue
    ensures r as int == Abs(x as int)
  {
    if x < 0 then -x else x
  }

  /**
   * `ShrinkInteger`: the iterator run to completion, its yields collected in
   * order. Runs on 32-bit values, so no step can overflow, and `Math.Abs`
   * never meets `Int32.MinValue`.
   */
  method ShrinkInteger(startValue: int32) returns (yielded: seq<int32>)
    ensures yielded == Shrinks(startValue)
  {
    ghost var full := Halvings(Quot2(startValue as int));
    var shrunk := Div2(startValue);
    yielded := [];
    while Abs32(shrunk) >= 1
      invariant -0x4000_0000 <= shrunk as int <= 0x4000_0000
      invariant |yielded| <= |full| && Halvings(shrunk as int) == full[|yielded|..]
      invariant forall i :: 0 <= i < |yielded| ==> yielded[i] as int == full[i]
      decreases Abs(shrunk as int)
    {
      if shrunk < 0 {
        yielded := yielded + [-shrunk];
      } else {
        yielded := yielded + [shrunk];
      }
      shrunk := Div2(shrunk);
    }
  }

  /** The `ArbitraryInt` field: a binding with the generator above and `ShrinkInteger` as shrinker. */
  method ArbitraryInt() returns (a: Arbitraries.Arbitrary<int32>)
    ensures fresh(a)
    ensures a.generator == Some(IntGenerator) && a.shrinker == Some(Shrinks)
    ensures a.generationSize == 0
  {
    a := new Arbitraries.Arbitrary<int32>.FromGeneratorAndShrinker(IntGenerator, Shrinks);
  }
}
