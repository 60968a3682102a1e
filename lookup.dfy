/**
 * The `Arbitrary` lookup shared by both revisions of the checker
 * (`DotCheck.Check.GetArbitraryMethods` and the older
 * `ArbitraryCheck.ArbitraryCheck.GetArbitraryMethods`). Both scan the same
 * table of static methods, keep the extension methods named `Arbitrary`, and
 * then branch on whether the requested type is generic; they differ only in
 * how a generic return type is matched, which is the `Rule` below.
 */
module Lookup {
  import opened Types

  /**
   * How a generic method's return type is matched against a generic type.
   * `InterfaceJoin` is DotCheck's test that every interface of the return type
   * agrees with the same-named interface of the requested type; it reads .NET
   * interface lists, so it is kept as an opaque relation. `ReturnTypeName` is
   * the older revision's test that the two `Type.Name`s are equal.
   */
  datatype Rule =
    | InterfaceJoin(assignable: (TypeDesc, TypeDesc) -> bool)
    | ReturnTypeName

  const ArbitraryName: string := "Arbitrary"

  /** An extension method named exactly `Arbitrary`. */
  predicate IsCandidate(m: MethodDesc)
  {
    m.isExtension && m.name == ArbitraryName
  }

  /** The generic branch's filter: a generic return type that the rule accepts, and equal generic arity. */
  predicate GenericMatch(rule: Rule, m: MethodDesc, t: TypeDesc)
  {
    && m.returnType.Generic?
    && (match rule
        case InterfaceJoin(assignable) => assignable(m.returnType, t)
        case ReturnTypeName => m.returnType.name == t.name)
    && m.typeParams == |TypeArgs(t)|
  }

  /** The non-generic branch's filter: one parameter and the very same return type. */
  predicate PlainMatch(m: MethodDesc, t: TypeDesc)
  {
    m.paramCount == 1 && m.returnType == t
  }

  /** Whether the lookup for `t` keeps method `m`, once the type arguments have passed. */
  predicate Accepts(rule: Rule, m: MethodDesc, t: TypeDesc)
  {
    IsCandidate(m) && if t.Generic? then GenericMatch(rule, m, t) else PlainMatch(m, t)
  }

  /**
   * The LINQ filter over the scanned methods, in scan order; kept methods are
   * closed over the type's arguments.
   */
  function Select(rule: Rule, ms: seq<MethodDesc>, t: TypeDesc): (r: seq<Candidate>)
    ensures |r| <= |ms|
    ensures forall c :: c in r ==> c.def in ms && Accepts(rule, c.def, t) && c.typeArgs == TypeArgs(t)
    ensures forall m :: m in ms && Accepts(rule, m, t) ==> Candidate(m, TypeArgs(t)) in r
  {
    if ms == [] then []
    else
      var rest := Select(rule, ms[1..], t);
      if Accepts(rule, ms[0], t) then [Candidate(ms[0], TypeArgs(t))] + rest else rest
  }

  /**
   * The lookup: for a generic type, empty as soon as one type argument has no
   * `Arbitrary` of its own (checked before any method is selected), otherwise
   * the filtered table.
   */
  function GetArbitraryMethods(table: seq<MethodDesc>, rule: Rule, t: TypeDesc): seq<Candidate>
    decreases t, 0
  {
    if t.Generic? && !(forall a :: a in t.args ==> HasArbitrary(table, rule, a)) then []
    else Select(rule, table, t)
  }

  /** `HasArbitrary`: the lookup is non-empty. */
  predicate HasArbitrary(table: seq<MethodDesc>, rule: Rule, t: TypeDesc)
    decreases t, 1
  {
    GetArbitraryMethods(table, rule, t) != []
  }

  /** The type arguments of `t` all have an `Arbitrary` (vacuous for a non-generic type). */
  predicate ArgsHaveArbitrary(table: seq<MethodDesc>, rule: Rule, t: TypeDesc)
  {
    forall a :: a in TypeArgs(t) ==> HasArbitrary(table, rule, a)
  }

  /** The lookup is exactly the filtered table when the arguments pass, and empty otherwise. */
  lemma LookupCases(table: seq<MethodDesc>, rule: Rule, t: TypeDesc)
    ensures ArgsHaveArbitrary(table, rule, t) ==> GetArbitraryMethods(table, rule, t) == Select(rule, table, t)
    ensures !ArgsHaveArbitrary(table, rule, t) ==> GetArbitraryMethods(table, rule, t) == []
  {
  }

  /** `HasArbitrary` holds exactly when the arguments pass and some scanned method is accepted. */
  lemma HasArbitraryIff(table: seq<MethodDesc>, rule: Rule, t: TypeDesc)
    ensures HasArbitrary(table, rule, t) <==>
              ArgsHaveArbitrary(table, rule, t) && exists m :: m in table && Accepts(rule, m, t)
  {
    LookupCases(table, rule, t);
    if ArgsHaveArbitrary(table, rule, t) && exists m :: m in table && Accepts(rule, m, t) {
      var m :| m in table && Accepts(rule, m, t);
      assert Candidate(m, TypeArgs(t)) in Select(rule, table, t);
    }
    if HasArbitrary(table, rule, t) {
      var r := Select(rule, table, t);
      assert r[0] in r;
    }
  }

  /**
   * The first method of the result is the first accepted method of the scan:
   * `First()` takes the earliest match in table order.
   */
  lemma {:induction false} SelectFirst(rule: Rule, ms: seq<MethodDesc>, t: TypeDesc, k: nat)
    requires k < |ms| && Accepts(rule, ms[k], t)
    requires forall j :: 0 <= j < k ==> !Accepts(rule, ms[j], t)
    ensures Select(rule, ms, t) != [] && Select(rule, ms, t)[0] == Candidate(ms[k], TypeArgs(t))
  {
    if k > 0 {
      assert !Accepts(rule, ms[0], t);
      SelectFirst(rule, ms[1..], t, k - 1);
    }
  }

  /** When some scanned method is accepted, there is an earliest one. */
  lemma {:induction false} EarliestAccepted(rule: Rule, ms: seq<MethodDesc>, t: TypeDesc) returns (k: nat)
    requires exists m :: m in ms && Accepts(rule, m, t)
    ensures k < |ms| && Accepts(rule, ms[k], t)
    ensures forall j :: 0 <= j < k ==> !Accepts(rule, ms[j], t)
  {
    if Accepts(rule, ms[0], t) {
      k := 0;
    } else {
      var m :| m in ms && Accepts(rule, m, t);
      assert m in ms[1..];
      var k' := EarliestAccepted(rule, ms[1..], t);
      k := k' + 1;
    }
  }

  /** The first method of the lookup is the earliest accepted method of the table. */
  lemma FirstIsEarliest(table: seq<MethodDesc>, rule: Rule, t: TypeDesc)
    requires GetArbitraryMethods(table, rule, t) != []
    ensures forall k :: 0 <= k < |table| && Accepts(rule, table[k], t)
                        && (forall j :: 0 <= j < k ==> !Accepts(rule, table[j], t))
                        ==> GetArbitraryMethods(table, rule, t)[0] == Candidate(table[k], TypeArgs(t))
  {
    LookupCases(table, rule, t);
    forall k | 0 <= k < |table| && Accepts(rule, table[k], t)
               && (forall j :: 0 <= j < k ==> !Accepts(rule, table[j], t))
      ensures GetArbitraryMethods(table, rule, t)[0] == Candidate(table[k], TypeArgs(t))
    {
      SelectFirst(rule, table, t, k);
    }
  }
}
