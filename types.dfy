/**
 * The reflection vocabulary the lookup works over, with the reflection itself
 * stripped out: a type is a descriptor, a method is a descriptor of the
 * properties the lookup reads, and the assembly scan is a sequence of method
 * descriptors in scan order.
 */
module Types {

  /**
   * A .NET type as the lookup sees it. `name` is `Type.Name` (for a generic
   * type it carries the arity suffix, "List`1"), `fullName` is what
   * `Type.ToString()` prints. `Generic` is a type with `IsGenericType` set,
   * `args` its `GetGenericArguments()`.
   */
  datatype TypeDesc =
    | Prim(name: string, fullName: string)
    | Generic(name: string, fullName: string, args: seq<TypeDesc>)

  /** `GetGenericArguments()` of a type: empty for a non-generic type. */
  function TypeArgs(t: TypeDesc): seq<TypeDesc>
  {
    if t.Generic? then t.args else []
  }

  /**
   * A static method found by the assembly scan: its name, whether it carries
   * `ExtensionAttribute`, its parameter count, its return type and the number
   * of its own generic type parameters.
   */
  datatype MethodDesc = MethodDesc(
    name: string,
    isExtension: bool,
    paramCount: nat,
    returnType: TypeDesc,
    typeParams: nat)

  /**
   * A method the lookup returns: for a generic type, the method closed over
   * the requested type's arguments (`MakeGenericMethod`), otherwise the method
   * itself with no type arguments.
   */
  datatype Candidate = Candidate(def: MethodDesc, typeArgs: seq<TypeDesc>)

  /** The exceptions the core throws, with their messages. */
  datatype Exception =
    | ArgumentException(message: string)
    | InvalidOperationException(message: string)

  /** C#'s `Int32`. */
  newtype int32 = x: int | -0x8000_0000 <= x < 0x8000_0000

  const Int32MinValue: int := -0x8000_0000
  const Int32MaxValue: int := 0x7FFF_FFFF

  /** `Math.Abs` on unbounded integers. */
  function Abs(x: int): nat
  {
    if x < 0 then -x else x
  }

  /** C#'s `x / 2`, which truncates toward zero (Dafny's `/` floors here). */
  function Quot2(x: int): (q: int)
    ensures Abs(q) == Abs(x) / 2
    ensures x >= 0 ==> q >= 0
    ensures x <= 0 ==> q <= 0
  {
    if x < 0 then -((-x) / 2) else x / 2
  }
}
