/**
 * `DotCheck.Util` (DotCheck/Util.cs): the textual rendering of a value.
 * `EnumerableRepr<T>` renders an enumerable of `T` as "[a, b, c]"; an item
 * that is itself an `IEnumerable<T>`, for the same `T`, is rendered the same
 * way, and every other item by its `ToString()`. `Repr` sends a generic
 * enumerable to `EnumerableRepr`, closed over its first type argument, and
 * renders anything else by `ToString()`.
 */
module Util {
  import opened Types

  /**
   * A runtime value. `text` is what its `ToString()` returns. An enumerable
   * also has its runtime type and the `T` of the `IEnumerable<T>` it
   * implements.
   */
  datatype Value =
    | Scalar(text: string)
    | Enumerable(runtimeType: TypeDesc, elementType: TypeDesc, items: seq<Value>, text: string)

  const Delim: string := ", "

  /** `item is IEnumerable<T>`: an enumerable whose element type is `t`. */
  predicate IsEnumerableOf(item: Value, t: TypeDesc)
  {
    item.Enumerable? && item.elementType == t
  }

  /** The dispatch test of `Repr`: a generic type that implements `IEnumerable` and has type arguments. */
  predicate IsGenericEnumerable(v: Value)
  {
    v.Enumerable? && v.runtimeType.Generic? && |v.runtimeType.args| > 0
  }

  /** The parts joined with `", "` between neighbours: `p0, p1, ..., pn`. */
  function Joined(parts: seq<string>): string
  {
    if |parts| == 0 then ""
    else if |parts| == 1 then parts[0]
    else parts[0] + Delim + Joined(parts[1..])
  }

  /** Appending one more part adds exactly one delimiter, before the new part. */
  lemma {:induction false} JoinedSnoc(parts: seq<string>, x: string)
    requires |parts| >= 1
    ensures Joined(parts + [x]) == Joined(parts) + Delim + x
  {
    if |parts| == 1 {
      assert (parts + [x])[1..] == [x];
    } else {
      assert (parts + [x])[1..] == parts[1..] + [x];
      JoinedSnoc(parts[1..], x);
    }
  }

  /** How an item is rendered inside `EnumerableRepr<T>`. */
  function ItemText(item: Value, t: TypeDesc): string
    decreases item, 2
  {
    if IsEnumerableOf(item, t) then Bracketed(item, t) else item.text
  }

  /** The rendering of each item of `list`, in enumeration order. */
  function ItemTexts(list: Value, t: TypeDesc): (texts: seq<string>)
    requires list.Enumerable?
    decreases list, 0
    ensures |texts| == |list.items|
  {
    seq(|list.items|, i requires 0 <= i < |list.items| => ItemText(list.items[i], t))
  }

  /** What `EnumerableRepr<T>` returns for `list`. */
  function Bracketed(list: Value, t: TypeDesc): string
    requires list.Enumerable?
    decreases list, 1
  {
    "[" + Joined(ItemTexts(list, t)) + "]"
  }

  /**
   * `EnumerableRepr<T>`: the `StringBuilder` loop, which appends each item and
   * then the delimiter unless the item is the last one.
   */
  method EnumerableRepr(list: Value, t: TypeDesc) returns (s: string)
    requires list.Enumerable?
    decreases list
    ensures s == Bracketed(list, t)
    ensures |s| >= 2 && s[0] == '[' && s[|s| - 1] == ']'
    ensures list.items == [] ==> s == "[]"
  {
    ghost var texts := ItemTexts(list, t);
    var sb := "[";
    var length := |list.items|;
    var i := 0;
    while i < length
      invariant 0 <= i <= length
      invariant PartlyRendered(texts, i, sb)
    {
      var item := list.items[i];
      var piece;
      if IsEnumerableOf(item, t) {
        piece := EnumerableRepr(item, t);
      } else {
        piece := item.text;
      }
      assert texts[i] == ItemText(item, t);
      RenderedStep(texts, i, sb, piece);
      sb := sb + piece;
      if i != length - 1 {
        sb := sb + Delim;
      }
      i := i + 1;
    }
    RenderedEnd(texts, sb);
    sb := sb + "]";
    s := sb;
  }

  /**
   * The loop's state after `i` of the parts: the opening bracket and the first
   * `i` parts joined, followed by a delimiter unless none or all are done.
   */
  ghost predicate PartlyRendered(texts: seq<string>, i: nat, sb: string)
    requires i <= |texts|
  {
    if i == 0 then sb == "["
    else if i < |texts| then sb == "[" + Joined(texts[..i]) + Delim
    else sb == "[" + Joined(texts)
  }

  lemma RenderedStep(texts: seq<string>, i: nat, sb: string, piece: string)
    requires i < |texts| && PartlyRendered(texts, i, sb) && piece == texts[i]
    ensures PartlyRendered(texts, i + 1, sb + piece + (if i != |texts| - 1 then Delim else ""))
  {
    assert texts[..i + 1] == texts[..i] + [piece];
    if i > 0 {
      JoinedSnoc(texts[..i], piece);
    }
    if i + 1 == |texts| {
      assert texts[..i + 1] == texts;
    }
  }

  lemma RenderedEnd(texts: seq<string>, sb: string)
    requires PartlyRendered(texts, |texts|, sb)
    ensures sb + "]" == "[" + Joined(texts) + "]"
  {
  }

  /** What `Repr` returns for `v`. */
  function Repr'(v: Value): string
  {
    if IsGenericEnumerable(v) then Bracketed(v, v.runtimeType.args[0]) else v.text
  }

  /** `Repr`: generic enumerables through `EnumerableRepr`, everything else by `ToString()`. */
  method Repr(v: Value) returns (s: string)
    ensures s == Repr'(v)
  {
    if IsGenericEnumerable(v) {
      s := EnumerableRepr(v, v.runtimeType.args[0]);
    } else {
      s := v.text;
    }
  }

  /** The number of occurrences of `c` in `s`. */
  function Occurrences(s: string, c: char): nat
  {
    if s == [] then 0 else (if s[0] == c then 1 else 0) + Occurrences(s[1..], c)
  }

  lemma {:induction false} OccurrencesAppend(a: string, b: string, c: char)
    ensures Occurrences(a + b, c) == Occurrences(a, c) + Occurrences(b, c)
  {
    if a == [] {
      assert a + b == b;
    } else {
      assert (a + b)[0] == a[0];
      assert (a + b)[1..] == a[1..] + b;
      OccurrencesAppend(a[1..], b, c);
    }
  }

  /** Parts free of commas, joined: one comma between each pair of neighbours, n - 1 in all. */
  lemma {:induction false} JoinedCommas(parts: seq<string>)
    requires |parts| >= 1
    requires forall i :: 0 <= i < |parts| ==> Occurrences(parts[i], ',') == 0
    ensures Occurrences(Joined(parts), ',') == |parts| - 1
  {
    if |parts| > 1 {
      JoinedCommas(parts[1..]);
      OccurrencesAppend(parts[0], Delim, ',');
      OccurrencesAppend(parts[0] + Delim, Joined(parts[1..]), ',');
      assert Occurrences(Delim, ',') == 1;
    }
  }

  /** A rendered list of n >= 1 comma-free items carries exactly n - 1 delimiters. */
  lemma DelimiterCount(list: Value, t: TypeDesc)
    requires list.Enumerable? && |list.items| >= 1
    requires forall i :: 0 <= i < |list.items| ==> Occurrences(ItemText(list.items[i], t), ',') == 0
    ensures Occurrences(Bracketed(list, t), ',') == |list.items| - 1
  {
    var texts := ItemTexts(list, t);
    JoinedCommas(texts);
    OccurrencesAppend("[", Joined(texts), ',');
    OccurrencesAppend("[" + Joined(texts), "]", ',');
  }

  /** Every part occurs in the joined string, in its place. */
  lemma {:induction false} JoinedContains(parts: seq<string>, i: nat)
    requires i < |parts|
    ensures exists before, after :: Joined(parts) == before + parts[i] + after
  {
    if |parts| == 1 {
      assert Joined(parts) == "" + parts[0] + "";
    } else if i == 0 {
      assert Joined(parts) == "" + parts[0] + (Delim + Joined(parts[1..]));
    } else {
      JoinedContains(parts[1..], i - 1);
      var before, after :| Joined(parts[1..]) == before + parts[1..][i - 1] + after;
      assert Joined(parts) == (parts[0] + Delim + before) + parts[i] + after;
    }
  }

  // A list of lists, as written: the inner list is not an IEnumerable of the
  // outer element type, so it is printed by ToString().

  const Int32Type: TypeDesc := Prim("Int32", "System.Int32")
  const ListOfInt32: TypeDesc := Generic("List`1", "System.Collections.Generic.List`1[System.Int32]", [Int32Type])
  const ListOfListOfInt32: TypeDesc :=
    Generic("List`1", "System.Collections.Generic.List`1[System.Collections.Generic.List`1[System.Int32]]",
            [ListOfInt32])

  /** `new List<int> { n }`, for the item text `n`. */
  function InnerList(n: string): Value
  {
    Enumerable(ListOfInt32, Int32Type, [Scalar(n)], ListOfInt32.fullName)
  }

  /** `new List<List<int>> { new List<int> { n } }`. */
  function OuterList(n: string): Value
  {
    Enumerable(ListOfListOfInt32, ListOfInt32, [InnerList(n)], ListOfListOfInt32.fullName)
  }

  /** As written, the outer list renders its inner list by the inner list's type name. */
  lemma {:induction false} OuterRendering(n: string)
    ensures Repr'(OuterList(n)) == "[" + ListOfInt32.fullName + "]"
  {
    assert !IsEnumerableOf(InnerList(n), ListOfInt32);
    assert ItemTexts(OuterList(n), ListOfInt32) == [ListOfInt32.fullName];
    assert Joined([ListOfInt32.fullName]) == ListOfInt32.fullName;
  }

  /** The inner list on its own renders as "[n]". */
  lemma {:induction false} InnerRendering(n: string)
    ensures Repr'(InnerList(n)) == "[" + n + "]"
  {
    assert ItemTexts(InnerList(n), Int32Type) == [n];
  }

  /**
   * As written, `[[5]]` and `[[7]]` render alike, although their items render
   * differently: the failing input a report shows loses its contents.
   */
  lemma NestedListLosesItems()
    ensures Repr'(InnerList("5")) != Repr'(InnerList("7"))
    ensures Repr'(OuterList("5")) == Repr'(OuterList("7"))
  {
    InnerRendering("5");
    InnerRendering("7");
    assert ("[" + "5" + "]")[1] != ("[" + "7" + "]")[1];
    OuterRendering("5");
    OuterRendering("7");
  }

  /**
   * The rendering the code evidently intends: every generic enumerable,
   * nested or not, is rendered as a bracketed list of its items' renderings.
   */
  function ReprNested(v: Value): string
    decreases v, 1
  {
    if IsGenericEnumerable(v) then "[" + Joined(NestedTexts(v)) + "]" else v.text
  }

  function NestedTexts(v: Value): (texts: seq<string>)
    requires v.Enumerable?
    decreases v, 0
    ensures |texts| == |v.items|
  {
    seq(|v.items|, i requires 0 <= i < |v.items| => ReprNested(v.items[i]))
  }

  /** Corrected, the rendering of a list contains the rendering of each of its items. */
  lemma ReprNestedContainsItems(v: Value, i: nat)
    requires IsGenericEnumerable(v) && i < |v.items|
    ensures exists before, after :: ReprNested(v) == before + ReprNested(v.items[i]) + after
  {
    var texts := NestedTexts(v);
    JoinedContains(texts, i);
    var before, after :| Joined(texts) == before + texts[i] + after;
    assert ReprNested(v) == ("[" + before) + ReprNested(v.items[i]) + (after + "]");
  }

  /** Corrected, `[[n]]` renders as "[[n]]", so `[[5]]` and `[[7]]` are told apart. */
  lemma {:induction false} NestedListRendersItems(n: string)
    ensures ReprNested(OuterList(n)) == "[[" + n + "]]"
  {
    assert NestedTexts(InnerList(n)) == [n];
    assert ReprNested(InnerList(n)) == "[" + n + "]";
    assert NestedTexts(OuterList(n)) == ["[" + n + "]"];
  }
}
