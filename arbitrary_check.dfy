/**
 * `ArbitraryCheck.ArbitraryCheck` (ArbitraryCheck/ArbitraryCheck.cs), the
 * older revision of the checker: the same lookup, except that a generic
 * return type is matched by `Type.Name`, and the `Check` trial runner.
 */
module ArbitraryCheck {
  import opened Wrappers
  import opened Types
  import Lookup
  import Trials

  /** This revision's lookup rule. */
  const Rule: Lookup.Rule := Lookup.ReturnTypeName

  /** `GetArbitraryMethods`: the `Arbitrary` methods that can produce a `t`. */
  function GetArbitraryMethods(table: seq<MethodDesc>, t: TypeDesc): (r: seq<Candidate>)
    decreases t, 0
    // only extension methods named exactly "Arbitrary" are ever returned
    ensures forall c :: c in r ==> c.def in table && c.def.isExtension && c.def.name == "Arbitrary"
    // non-generic type: one parameter and the very same return type
    ensures !t.Generic? ==>
              forall c :: c in r ==> c.def.paramCount == 1 && c.def.returnType == t && c.typeArgs == []
    // generic type: generic return type of the same name, same generic arity, closed over t's arguments
    ensures t.Generic? ==>
              forall c :: c in r ==>
                && c.def.returnType.Generic?
                && c.def.returnType.name == t.name
                && c.def.typeParams == |t.args|
                && c.typeArgs == t.args
    // generic type: one type argument without an Arbitrary empties the result, whatever the table holds
    ensures t.Generic? && (exists a :: a in t.args && !HasArbitrary(table, a)) ==> r == []
    // and otherwise nothing that passes the filter is dropped
    ensures (forall a :: a in TypeArgs(t) ==> HasArbitrary(table, a)) ==>
              forall m :: m in table && Lookup.Accepts(Rule, m, t) ==> Candidate(m, TypeArgs(t)) in r
  {
    assert forall a :: a in TypeArgs(t) ==> (HasArbitrary(table, a) <==> Lookup.HasArbitrary(table, Rule, a));
    Lookup.LookupCases(table, Rule, t);
    Lookup.GetArbitraryMethods(table, Rule, t)
  }

  /** `HasArbitrary`: the lookup for `t` is non-empty. */
  function HasArbitrary(table: seq<MethodDesc>, t: TypeDesc): (b: bool)
    decreases t, 1
    ensures b <==>
              && (forall a :: a in TypeArgs(t) ==> HasArbitrary(table, a))
              && exists m :: m in table && Lookup.Accepts(Rule, m, t)
  {
    assert forall a :: a in TypeArgs(t) ==> (HasArbitrary(table, a) <==> Lookup.HasArbitrary(table, Rule, a));
    Lookup.HasArbitraryIff(table, Rule, t);
    GetArbitraryMethods(table, t) != []
  }

  /**
   * `CallArbitrary`: the method that is invoked to produce a `t`, the first of
   * the lookup, or the `ArgumentException` thrown when there is none. The
   * invocation itself is a random draw and is left abstract.
   */
  function CallArbitrary(table: seq<MethodDesc>, t: TypeDesc): (r: Result<Candidate, Exception>)
    ensures r.Failure? <==> !HasArbitrary(table, t)
    ensures r.Failure? ==>
              r.error == ArgumentException("The supplied type parameter `" + t.name
                                           + "' does not have the `Arbitrary' method implemented!")
    ensures r.Success? ==> r.value in GetArbitraryMethods(table, t)
    // the chosen method is the earliest accepted one in scan order
    ensures r.Success? ==>
              forall k :: 0 <= k < |table| && Lookup.Accepts(Rule, table[k], t)
                          && (forall j :: 0 <= j < k ==> !Lookup.Accepts(Rule, table[j], t))
                          ==> r.value == Candidate(table[k], TypeArgs(t))
  {
    var methods := GetArbitraryMethods(table, t);
    if methods != [] then
      Lookup.FirstIsEarliest(table, Rule, t);
      Success(methods[0])
    else
      Failure(ArgumentException("The supplied type parameter `" + t.name
                                + "' does not have the `Arbitrary' method implemented!"))
  }

  /**
   * `Check`: throws before any draw when `t` has no `Arbitrary`; otherwise runs
   * the trials on the values that the first method returns, `invoke(c)(i)`
   * being the value of the i-th invocation of method `c`. A failure line
   * reports the passes before the failing draw and that draw's value.
   */
  method Check<V>(table: seq<MethodDesc>, t: TypeDesc, prop: V -> bool, invoke: Candidate -> nat -> V,
                  show: V -> string)
    returns (r: Result<string, Exception>, drawn: seq<V>)
    ensures !HasArbitrary(table, t) ==>
              && r == Failure(ArgumentException("The provided type parameter `" + t.fullName
                                                + "' has no Arbitrary extension method implemented for it."))
              && drawn == []
    ensures HasArbitrary(table, t) ==>
              var draw := invoke(CallArbitrary(table, t).value);
              && |drawn| == Trials.DrawCount(prop, draw) <= Trials.NumChecks
              && (forall j :: 0 <= j < |drawn| ==> drawn[j] == draw(j))
              && (forall j :: 0 <= j < |drawn| - 1 ==> prop(drawn[j]))
              && r == Success(if |drawn| == Trials.NumChecks && prop(drawn[|drawn| - 1])
                              then "Passed 100 tests."
                              else Trials.FailedMessage(|drawn| - 1, show(drawn[|drawn| - 1])))
    ensures r == Success("Passed 100 tests.") <==>
              && HasArbitrary(table, t)
              && (forall j :: 0 <= j < |drawn| ==> prop(drawn[j]))
              && |drawn| == Trials.NumChecks
  {
    Trials.PassedMessageText();
    var arbitraryMethods := GetArbitraryMethods(table, t);
    if arbitraryMethods != [] {
      var line;
      line, drawn := Trials.RunTrials(prop, invoke(arbitraryMethods[0]), show);
      r := Success(line);
    } else {
      r := Failure(ArgumentException("The provided type parameter `" + t.fullName
                                     + "' has no Arbitrary extension method implemented for it."));
      drawn := [];
    }
  }
}
