/**
 * `DotCheck.Check` (DotCheck/Check.cs): the `Arbitrary` lookup, `HasArbitrary`,
 * `CallArbitrary` and the `Quick` trial runner. The assembly scan is the
 * method table `table` (scan order); a generic return type is matched by the
 * interface join, kept as the opaque relation `assignable`.
 */
module Check {
  import opened Wrappers
  import opened Types
  import Lookup
  import Trials

  /** This revision's lookup rule. */
  function RuleOf(assignable: (TypeDesc, TypeDesc) -> bool): Lookup.Rule
  {
    Lookup.InterfaceJoin(assignable)
  }

  /** `GetArbitraryMethods`: the `Arbitrary` methods that can produce a `t`. */
  function GetArbitraryMethods(table: seq<MethodDesc>, assignable: (TypeDesc, TypeDesc) -> bool, t: TypeDesc)
    : (r: seq<Candidate>)
    decreases t, 0
    // only extension methods named exactly "Arbitrary" are ever returned
    ensures forall c :: c in r ==> c.def in table && c.def.isExtension && c.def.name == "Arbitrary"
    // non-generic type: one parameter and the very same return type
    ensures !t.Generic? ==>
              forall c :: c in r ==> c.def.paramCount == 1 && c.def.returnType == t && c.typeArgs == []
    // generic type: generic return type joined with t, same generic arity, closed over t's arguments
    ensures t.Generic? ==>
              forall c :: c in r ==>
                && c.def.returnType.Generic?
                && assignable(c.def.returnType, t)
                && c.def.typeParams == |t.args|
                && c.typeArgs == t.args
    // generic type: one type argument without an Arbitrary empties the result, whatever the table holds
    ensures t.Generic? && (exists a :: a in t.args && !HasArbitrary(table, assignable, a)) ==> r == []
    // and otherwise nothing that passes the filter is dropped
    ensures (forall a :: a in TypeArgs(t) ==> HasArbitrary(table, assignable, a)) ==>
              forall m :: m in table && Lookup.Accepts(RuleOf(assignable), m, t) ==> Candidate(m, TypeArgs(t)) in r
  {
    var rule := RuleOf(assignable);
    assert forall a :: a in TypeArgs(t) ==>
             (HasArbitrary(table, assignable, a) <==> Lookup.HasArbitrary(table, RuleOf(assignable), a));
    Lookup.LookupCases(table, rule, t);
    Lookup.GetArbitraryMethods(table, rule, t)
  }

  /** `HasArbitrary`: the lookup for `t` is non-empty. */
  function HasArbitrary(table: seq<MethodDesc>, assignable: (TypeDesc, TypeDesc) -> bool, t: TypeDesc): (b: bool)
    decreases t, 1
    ensures b <==>
              && (forall a :: a in TypeArgs(t) ==> HasArbitrary(table, assignable, a))
              && exists m :: m in table && Lookup.Accepts(RuleOf(assignable), m, t)
  {
    assert forall a :: a in TypeArgs(t) ==>
             (HasArbitrary(table, assignable, a) <==> Lookup.HasArbitrary(table, RuleOf(assignable), a));
    Lookup.HasArbitraryIff(table, RuleOf(assignable), t);
    GetArbitraryMethods(table, assignable, t) != []
  }

  /**
   * `CallArbitrary`: the method that is invoked to produce a `t`, the first of
   * the lookup, or the `ArgumentException` thrown when there is none. The
   * invocation itself is a random draw and is left abstract.
   */
  function CallArbitrary(table: seq<MethodDesc>, assignable: (TypeDesc, TypeDesc) -> bool, t: TypeDesc)
    : (r: Result<Candidate, Exception>)
    ensures r.Failure? <==> !HasArbitrary(table, assignable, t)
    ensures r.Failure? ==>
              r.error == ArgumentException("The supplied type parameter `" + t.name
                                           + "' does not have the `Arbitrary' method implemented!")
    ensures r.Success? ==> r.value in GetArbitraryMethods(table, assignable, t)
    // the chosen method is the earliest accepted one in scan order
    ensures r.Success? ==>
              forall k :: 0 <= k < |table| && Lookup.Accepts(RuleOf(assignable), table[k], t)
                          && (forall j :: 0 <= j < k ==> !Lookup.Accepts(RuleOf(assignable), table[j], t))
                          ==> r.value == Candidate(table[k], TypeArgs(t))
  {
    var methods := GetArbitraryMethods(table, assignable, t);
    if methods != [] then
      Lookup.FirstIsEarliest(table, RuleOf(assignable), t);
      Success(methods[0])
    else
      Failure(ArgumentException("The supplied type parameter `" + t.name
                                + "' does not have the `Arbitrary' method implemented!"))
  }

  /**
   * `Quick`: throws before any draw when `t` has no `Arbitrary`; otherwise runs
   * the trials on the values that the first method returns, `invoke(c)(i)`
   * being the value of the i-th invocation of method `c`, and returns the
   * printed line together with the values drawn.
   */
  method Quick<V>(table: seq<MethodDesc>, assignable: (TypeDesc, TypeDesc) -> bool, t: TypeDesc,
                  prop: V -> bool, invoke: Candidate -> nat -> V, show: V -> string)
    returns (r: Result<string, Exception>, drawn: seq<V>)
    ensures !HasArbitrary(table, assignable, t) ==>
              && r == Failure(ArgumentException("The provided type parameter `" + t.fullName
                                                + "' has no Arbitrary extension method implemented for it."))
              && drawn == []
    ensures HasArbitrary(table, assignable, t) ==>
              var draw := invoke(CallArbitrary(table, assignable, t).value);
              && r == Success(Trials.TrialReport(prop, draw, show))
              && |drawn| == Trials.DrawCount(prop, draw) <= Trials.NumChecks
              && (forall j :: 0 <= j < |drawn| ==> drawn[j] == draw(j))
    ensures r == Success("Passed 100 tests.") <==>
              && HasArbitrary(table, assignable, t)
              && (forall j :: 0 <= j < |drawn| ==> prop(drawn[j]))
              && |drawn| == Trials.NumChecks
  {
    Trials.PassedMessageText();
    var arbitraryMethods := GetArbitraryMethods(table, assignable, t);
    if arbitraryMethods != [] {
      var line;
      line, drawn := Trials.RunTrials(prop, invoke(arbitraryMethods[0]), show);
      r := Success(line);
    } else {
      r := Failure(ArgumentException("The provided type parameter `" + t.fullName
                                     + "' has no Arbitrary extension method implemented for it."));
      drawn := [];
    }
  }
}
