/**
 * `ArbitraryCheck.CommonExtensions` (ArbitraryCheck/CommonExtensions.cs): the
 * older revision's `Arbitrary` extension methods, one for `Int32` and one for
 * `List<T>`. Each creates its own `Random`; here the draws come from the
 * random source passed in. An element of a list is produced by invoking the
 * method `CallArbitrary<T>` resolves: `invoke(c)(s)` is what method `c`
 * returns when its random source yields sample `s`.
 */
module ArbitraryCheckExtensions {
  import opened Wrappers
  import opened Types
  import Randomness
  import ArbitraryCheck
  import Lookup

  /** `Arbitrary(this Int32)`: `Next(Int32.MinValue, Int32.MaxValue)` on the fresh source's sample. */
  function ArbitraryInt32(sample: nat): (r: int32)
    ensures Int32MinValue <= r as int < Int32MaxValue
  {
    Randomness.NextInRange(Int32MinValue, Int32MaxValue, sample) as int32
  }

  /** The exclusive bound on a generated list's length. */
  const MaxListSize: nat := 50

  /**
   * `Arbitrary<T>(this List<T>)`: throws `InvalidOperationException` when `T`
   * has no `Arbitrary`, before drawing anything; otherwise draws a length
   * below 50, then that many elements in order.
   */
  method ArbitraryList<T>(table: seq<MethodDesc>, elementType: TypeDesc,
                          rand: Randomness.RandomSource, invoke: Candidate -> nat -> T)
    returns (r: Result<seq<T>, Exception>)
    modifies rand
    ensures !ArbitraryCheck.HasArbitrary(table, elementType) ==>
              r == Failure(InvalidOperationException("WTF!")) && rand.drawn == old(rand.drawn)
    ensures ArbitraryCheck.HasArbitrary(table, elementType) ==>
              var element := invoke(ArbitraryCheck.CallArbitrary(table, elementType).value);
              && r.Success?
              && |r.value| == Randomness.NextInRange(0, MaxListSize, rand.samples(old(rand.drawn)))
              && 0 <= |r.value| < MaxListSize
              && rand.drawn == old(rand.drawn) + 1 + |r.value|
              && forall i :: 0 <= i < |r.value| ==> r.value[i] == element(rand.samples(old(rand.drawn) + 1 + i))
  {
    if ArbitraryCheck.HasArbitrary(table, elementType) {
      var listSize := rand.Next(MaxListSize);
      var myList := [];
      var i := 0;
      while i < listSize
        invariant 0 <= i <= listSize
        invariant |myList| == i && rand.drawn == old(rand.drawn) + 1 + i
        invariant forall j :: 0 <= j < i ==>
                    myList[j] == invoke(ArbitraryCheck.CallArbitrary(table, elementType).value)
                                       (rand.samples(old(rand.drawn) + 1 + j))
      {
        var chosen := ArbitraryCheck.CallArbitrary(table, elementType);
        var sample := rand.Sample();
        myList := myList + [invoke(chosen.value)(sample)];
        i := i + 1;
      }
      r := Success(myList);
    } else {
      r := Failure(InvalidOperationException("WTF!"));
    }
  }

  // The static methods of the older assembly's sealed, non-nested types, in scan order.

  const Int32Type: TypeDesc := Prim("Int32", "System.Int32")
  const StringType: TypeDesc := Prim("String", "System.String")
  const BooleanType: TypeDesc := Prim("Boolean", "System.Boolean")
  const ListOfT: TypeDesc := Generic("List`1", "System.Collections.Generic.List`1[T]", [Prim("T", "T")])

  const Table: seq<MethodDesc> := [
    MethodDesc("GetArbitraryMethods", true, 1, Generic("IEnumerable`1", "System.Collections.Generic.IEnumerable`1[System.Reflection.MethodInfo]", [Prim("MethodInfo", "System.Reflection.MethodInfo")]), 0),
    MethodDesc("HasArbitrary", true, 1, BooleanType, 0),
    MethodDesc("Arbitrary", true, 1, Int32Type, 0),
    MethodDesc("Arbitrary", true, 1, ListOfT, 1)
  ]

  function ListOf(t: TypeDesc): TypeDesc
  {
    Generic("List`1", "System.Collections.Generic.List`1[" + t.fullName + "]", [t])
  }

  /** `Check<Int32>` resolves to `Arbitrary(this Int32)`. */
  lemma Int32Resolves()
    ensures ArbitraryCheck.CallArbitrary(Table, Int32Type) == Success(Candidate(Table[2], []))
  {
    assert Table[2] in Table && Lookup.Accepts(ArbitraryCheck.Rule, Table[2], Int32Type);
    assert forall j :: 0 <= j < 2 ==> !Lookup.Accepts(ArbitraryCheck.Rule, Table[j], Int32Type);
  }

  /** `Check<List<int>>` resolves to `Arbitrary<T>(this List<T>)` closed over `Int32`. */
  lemma ListOfInt32Resolves()
    ensures ArbitraryCheck.CallArbitrary(Table, ListOf(Int32Type)) == Success(Candidate(Table[3], [Int32Type]))
  {
    var t := ListOf(Int32Type);
    Int32Resolves();
    assert forall a :: a in TypeArgs(t) ==> ArbitraryCheck.HasArbitrary(Table, a);
    assert Table[3] in Table && Lookup.Accepts(ArbitraryCheck.Rule, Table[3], t);
    assert forall j :: 0 <= j < 3 ==> !Lookup.Accepts(ArbitraryCheck.Rule, Table[j], t);
  }

  /** No `Arbitrary` produces a `String`, so a `List<String>` cannot be generated or checked. */
  lemma ListOfStringFails()
    ensures !ArbitraryCheck.HasArbitrary(Table, ListOf(StringType))
  {
    assert !ArbitraryCheck.HasArbitrary(Table, StringType);
  }
}
