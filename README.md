# sharpcheck in Dafny

A model of the core of sharpcheck, a QuickCheck-style property checker for C#.
The repository has two revisions of the checker.

- **DotCheck**, the newer one. `Check` finds the `Arbitrary` extension methods that can
  produce a value of a type, `HasArbitrary` asks whether there is one, and `CallArbitrary`
  invokes the first one. `Quick` runs a property on up to 100 generated values and reports
  "Passed 100 tests." or the first failing input. `Arbitrary<T>` binds a type to a generator,
  an optional shrinker and a generation-size counter. `CommonExtensions` holds the `int`
  binding and its shrinker, `ShrinkInteger`. `GenericExtensions<T>` holds the sequence binding,
  whose generator grows the list by one element per call. `Util` renders values as text.
- **ArbitraryCheck**, the older one. Its lookup matches a generic return type by name, and
  `Check` runs the trials. Its `CommonExtensions` has `Arbitrary` methods for `Int32` and
  `List<T>`.

Reflection is replaced by data. A type is a `Types.TypeDesc`. The assembly scan is a
sequence of `Types.MethodDesc` in scan order. A method the lookup returns is a
`Types.Candidate`, closed over the requested type's arguments. `Lookup` holds the lookup
that both revisions share, parameterised by their one difference, the `Rule` that matches a
generic return type.

Randomness is a stream. `Randomness.RandomSource` is a class over a fixed stream of raw
samples and a counter of the samples used. `NextInRange` maps one sample into the half-open
range of `Random.Next`. What the chosen `Arbitrary` method returns on its i-th invocation is
`invoke(c)(i)`, and printing is replaced by returning the printed line.

C# `int` is the newtype `Types.int32`. Its truncating division is `Types.Quot2` and
`CommonExtensions.Div2`, and the wrap-around of `GenerationSize++` is written out in
`GenericExtensions.Increment`.

`ShrinkInteger` yields magnitudes. A negative half is negated before it is yielded, so
shrinking -100 gives 50, 25, 12, 6, 3, 1, the same as shrinking 100.

## Model

| member | source | states |
|---|---|---|
| Types.Quot2 | DotCheck/CommonExtensions.cs:50 | C# `x / 2` on `int` truncates toward zero: the magnitude is halved and rounded down, and the sign is kept |
| Lookup.Select | DotCheck/Check.cs:76-93 | the filter over the scanned methods never grows the list, keeps only accepted methods closed over the type's arguments, and drops no accepted method |
| Lookup.LookupCases | DotCheck/Check.cs:62-94 | the lookup is the filtered table when every type argument has an `Arbitrary`, and empty otherwise |
| Lookup.HasArbitraryIff | DotCheck/Check.cs:102-105 | `HasArbitrary` holds exactly when every type argument has an `Arbitrary` and some scanned method is accepted |
| Lookup.SelectFirst | DotCheck/Check.cs:119 | the first element of the filtered list is the earliest accepted method in scan order |
| Lookup.EarliestAccepted | DotCheck/Check.cs:119 | when some method is accepted there is an earliest accepted index, and no method before it is accepted |
| Lookup.FirstIsEarliest | DotCheck/Check.cs:119 | `First()` of a non-empty lookup is the earliest accepted method of the table |
| Check.GetArbitraryMethods | DotCheck/Check.cs:49-95 | only extension methods named "Arbitrary" are returned. For a non-generic type each has one parameter and exactly that return type. For a generic type each has a generic return type joined with the type, the same generic arity, and is closed over the type's arguments. One type argument without an `Arbitrary` empties the result, and otherwise no accepted method is dropped |
| Check.HasArbitrary | DotCheck/Check.cs:102-105 | true exactly when every type argument has an `Arbitrary` and some scanned method is accepted |
| Check.CallArbitrary | DotCheck/Check.cs:113-126 | fails exactly when there is no `Arbitrary`, with the `ArgumentException` message naming `Type.Name`; otherwise it returns the earliest accepted method, which is in the lookup |
| Check.Quick | DotCheck/Check.cs:134-171 | with no `Arbitrary`, it throws the `ArgumentException` naming the full type and draws nothing. Otherwise it returns the trial report on the first method's values, together with the values drawn. "Passed 100 tests." is returned exactly when 100 values were drawn and all satisfied the property |
| ArbitraryCheck.GetArbitraryMethods | ArbitraryCheck/ArbitraryCheck.cs:20-57 | as `Check.GetArbitraryMethods`, except that a generic return type must have the requested type's `Type.Name` |
| ArbitraryCheck.HasArbitrary | ArbitraryCheck/ArbitraryCheck.cs:59-62 | true exactly when every type argument has an `Arbitrary` and some scanned method is accepted by name |
| ArbitraryCheck.CallArbitrary | ArbitraryCheck/ArbitraryCheck.cs:64-77 | fails exactly when there is no `Arbitrary`, with the `ArgumentException` message; otherwise it returns the earliest accepted method |
| ArbitraryCheck.Check | ArbitraryCheck/ArbitraryCheck.cs:79-117 | with no `Arbitrary`, it throws before drawing. Otherwise every drawn value but the last passed. The line is "Passed 100 tests." when 100 were drawn and the last passed, and otherwise "Failed after n tests" with n the number of passes and the last value as input. "Passed" is returned exactly when all 100 pass |
| Trials.DecimalString | DotCheck/Check.cs:164 | the count in a message is a non-empty string of decimal digits |
| Trials.DecimalRoundTrip | DotCheck/Check.cs:164 | the rendered count reads back as the count itself |
| Trials.PassedMessageText | DotCheck/Check.cs:159 | the success line is exactly "Passed 100 tests." |
| Trials.FailedIsNotPassed | DotCheck/Check.cs:157-165 | a failure line never equals the success line, whatever the count and input |
| Trials.PassCount | DotCheck/Check.cs:145-155 | the number of leading passing draws: all draws before it pass, and if it is below the bound the draw at it fails |
| Trials.PassCountUnique | DotCheck/Check.cs:145-155 | those facts determine the pass count uniquely |
| Trials.DrawCount | DotCheck/Check.cs:145-155 | the loop invokes the generator between 1 and 100 times |
| Trials.PassedIffAllPass | DotCheck/Check.cs:157-165 | the report is the success line exactly when all 100 draws satisfy the property |
| Trials.FirstDrawFails | DotCheck/Check.cs:145-164 | a failure on the first draw reports "Failed after 0 tests" with that input, after one draw |
| Trials.AlwaysTruePasses | DotCheck/Check.cs:145-159 | a property true of every value passes all 100 trials and draws 100 values |
| Trials.RunTrials | DotCheck/Check.cs:143-165 | the `for` loop with its `break`. It draws `DrawCount` values in order, all but the last pass, and the line is the trial report. The line is the success line exactly when all 100 pass |
| Trials.StoppedAt | DotCheck/Check.cs:157-165 | a loop that stopped after n passes reports success and has drawn n when n is 100; otherwise it reports failure after n tests on draw n, and has drawn n + 1 |
| Randomness.NextInRange | ArbitraryCheck/CommonExtensions.cs:22 | `Random.Next(min, max)` returns a value in [min, max), or min when the bounds are equal |
| Randomness.NextInRangeReaches | ArbitraryCheck/CommonExtensions.cs:13 | every value of the range is produced by some sample |
| Randomness.RandomSource.constructor | ArbitraryCheck/CommonExtensions.cs:12 | a new source has used none of its stream |
| Randomness.RandomSource.Sample | DotCheck/CommonExtensions.cs:44 | a draw takes the next sample of the stream and advances the counter by one |
| Randomness.RandomSource.Next | ArbitraryCheck/CommonExtensions.cs:22 | `Next(max)` maps the next sample into [0, max) and uses one sample |
| Arbitraries.Arbitrary.FromGeneratorAndShrinker | DotCheck/Arbitrary.cs:14-18 | stores the generator and the shrinker, with generation size 0 |
| Arbitraries.Arbitrary.FromGenerator | DotCheck/Arbitrary.cs:20-24 | stores the generator, with no shrinker and generation size 0 |
| Arbitraries.Arbitrary.constructor | DotCheck/Arbitrary.cs:26-31 | neither generator nor shrinker, with generation size 0 |
| CommonExtensions.IntGenerator | DotCheck/CommonExtensions.cs:43-44 | the generated `int` lies in [Int32.MinValue, Int32.MaxValue): `Int32.MaxValue` is never produced |
| CommonExtensions.IntGeneratorReaches | DotCheck/CommonExtensions.cs:44 | every other `int` is generated from some sample |
| CommonExtensions.Halvings | DotCheck/CommonExtensions.cs:51-57 | every yielded magnitude lies between 1 and the current half's magnitude, and nothing is yielded exactly when the half is 0 |
| CommonExtensions.HalvingsStep | DotCheck/CommonExtensions.cs:56 | each yielded value is the previous one halved, and strictly smaller |
| CommonExtensions.HalvingsLength | DotCheck/CommonExtensions.cs:51 | a half below 2^k yields at most k values |
| CommonExtensions.HalvingsSymmetric | DotCheck/CommonExtensions.cs:53-55 | halving from a value or from its negation yields the same magnitudes |
| CommonExtensions.ShrinksProperties | DotCheck/CommonExtensions.cs:48-58 | every shrink is at least 1. Nothing is yielded exactly when the magnitude is below 2. The first shrink is the magnitude of the truncated half, each next one is the previous one halved, and an `int` yields at most 31 |
| CommonExtensions.ShrinksSymmetric | DotCheck/CommonExtensions.cs:48-58 | a value and its negation shrink to the same sequence |
| CommonExtensions.Div2 | DotCheck/CommonExtensions.cs:50 | the 32-bit `x / 2` equals truncating division |
| CommonExtensions.Abs32 | DotCheck/CommonExtensions.cs:51 | `Math.Abs` on an `int` other than `Int32.MinValue` is the magnitude |
| CommonExtensions.ShrinkInteger | DotCheck/CommonExtensions.cs:48-58 | the iterator run to completion yields exactly `Shrinks(startValue)`, on 32-bit values without overflow |
| CommonExtensions.ArbitraryInt | DotCheck/CommonExtensions.cs:40-46 | a fresh binding with the `int` generator, `ShrinkInteger` as shrinker and generation size 0 |
| GenericExtensions.Increment | DotCheck/GenericExtensions.cs:18 | `GenerationSize++` adds one, wrapping from `Int32.MaxValue` to `Int32.MinValue` |
| GenericExtensions.ArbitraryEnumerable | DotCheck/GenericExtensions.cs:10-33 | a fresh binding with generation size 0 whose shrinker yields no candidates for any list |
| GenericExtensions.Generate | DotCheck/GenericExtensions.cs:13-27 | with no element generator, it returns empty and changes nothing. Otherwise the list is as long as the counter was (none if negative), the counter moves on by one, one sample is used per element, and the elements come in draw order |
| ArbitraryCheckExtensions.ArbitraryInt32 | ArbitraryCheck/CommonExtensions.cs:10-14 | the generated `Int32` lies in [Int32.MinValue, Int32.MaxValue) |
| ArbitraryCheckExtensions.ArbitraryList | ArbitraryCheck/CommonExtensions.cs:16-36 | without an `Arbitrary` for `T`, it throws `InvalidOperationException("WTF!")` before drawing. Otherwise the length is `Next(50)` of the first sample, so below 50, and element i is the resolved method's value on the sample after it |
| ArbitraryCheckExtensions.Int32Resolves | ArbitraryCheck/CommonExtensions.cs:10-14 | in the older assembly, `Int32` resolves to `Arbitrary(this Int32)` |
| ArbitraryCheckExtensions.ListOfInt32Resolves | ArbitraryCheck/CommonExtensions.cs:16-36 | `List<Int32>` resolves to `Arbitrary<T>(this List<T>)` closed over `Int32` |
| ArbitraryCheckExtensions.ListOfStringFails | ArbitraryCheck/ArbitraryCheck.cs:36-41 | `List<String>` has no `Arbitrary`, because `String` has none |
| Util.JoinedSnoc | DotCheck/Util.cs:58-59 | appending a part to the joined text adds exactly one delimiter, before the new part |
| Util.EnumerableRepr | DotCheck/Util.cs:40-64 | the `StringBuilder` loop returns the bracketed, ", "-joined item renderings in order: it starts with '[', ends with ']', and is "[]" for an empty list |
| Util.RenderedStep | DotCheck/Util.cs:47-61 | one pass of the loop extends the rendering by the next item, followed by the delimiter unless that item is the last |
| Util.Repr | DotCheck/Util.cs:66-82 | a generic enumerable is rendered by `EnumerableRepr` over its first type argument, and anything else by `ToString()` |
| Util.JoinedCommas | DotCheck/Util.cs:58-59 | n comma-free parts are joined with exactly n - 1 commas |
| Util.DelimiterCount | DotCheck/Util.cs:40-64 | a rendered list of n >= 1 comma-free items contains exactly n - 1 delimiters |
| Util.JoinedContains | DotCheck/Util.cs:47-61 | every part occurs in the joined text |
| Util.OuterRendering | DotCheck/Util.cs:49-55 | a `List<List<int>>` renders its inner list by the inner list's type name |
| Util.InnerRendering | DotCheck/Util.cs:40-64 | a `List<int>` holding n renders as "[n]" |
| Util.NestedListLosesItems | DotCheck/Util.cs:49-55 | `[[5]]` and `[[7]]` render alike although their inner lists render differently |
| Util.ReprNestedContainsItems | DotCheck/Util.cs:49-51 | with the corrected nesting test, the rendering of a list contains the rendering of each item |
| Util.NestedListRendersItems | DotCheck/Util.cs:49-51 | with the corrected nesting test, `[[n]]` renders as "[[n]]" |

## Findings

| source | as written | input that shows it | evidently intended | confidence | as-written member | corrected member |
|---|---|---|---|---|---|---|
| DotCheck/Util.cs:49-51 | an item is rendered recursively only if it is an `IEnumerable<T>` for the outer list's own element type `T` | `Repr(new List<List<int>> { new List<int> { 5 } })` gives "[System.Collections.Generic.List`1[System.Int32]]", and `[[7]]` gives the same line | nested lists render recursively, as "[[5]]" | high; not executed | Util.NestedListLosesItems | Util.ReprNestedContainsItems |

`Util.Repr` and `Util.EnumerableRepr` keep the code as written. `Util.ReprNested` is the
corrected rendering, which tests each item with `Repr`'s own generic-enumerable test. It
renders every nested generic list as a bracketed list.

## Left out

- Reflection: the assembly scan (sealed, non-generic, non-nested types), `ExtensionAttribute`, `MakeGenericMethod` and `Invoke` are replaced by the method table and the `invoke` parameter.
- Check.GetArbitraryMethods: DotCheck's interface join (`GetInterfaces().Join(...)`) reads .NET interface lists, so it is the opaque relation `assignable`, and the contract holds for whatever relation the runtime computes.
- The distribution of `System.Random` is not modelled. A source is an arbitrary sample stream, each generator uses one sample per value, and `ArbitraryCheck`'s `new Random()` per call is a source passed in.
- Console output: `Quick` and `Check` return the printed line instead of writing it.
- The failure line's input is `ToString()` of the value, which is the `show` parameter.
- Both `Program.cs` files are demonstrations and are not modelled.
- The commented-out `Arbitrary` methods in DotCheck/CommonExtensions.cs are not modelled.
- `Check.Generate<T>`, `Type.HasGenerators` and `Check.Verbose` are not defined in the modelled files. `HasGenerators` is the `hasGenerators` parameter of `GenericExtensions.Generate`, and `Generate<T>` is its `generate` parameter.
- The DotCheck files shown define no `Arbitrary` extension methods, so DotCheck's lookup is only stated for arbitrary tables. The worked scenarios use the older assembly's table.
- GenericExtensions.ArbitraryEnumerable: the generator field stays `None`, because a Dafny function value cannot update its own binding's `GenerationSize`. The generator's behaviour is the method `GenericExtensions.Generate`.
- `Arbitrary<T>.Generator` is a map from one sample to a value, not a `Func<Random, T>` that may draw any number of times.
- Util.Repr: a `Dictionary<K, V>` (whose first type argument is not its element type) and covariant `IEnumerable<T>` tests are not modelled. `item is IEnumerable<T>` is element-type equality, and null items are not modelled.
- Util.EnumerableRepr: `list.Count()` is taken as the number of items that `foreach` visits, so enumerables that change while being enumerated are not modelled.
- No shrink search uses `ShrinkInteger` or the enumerable shrinker in the modelled files, so none is modelled.
