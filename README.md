# AssertComparer in Dafny

A model of `AssertComparer<T>` from Machine.Specifications, the generic comparer
that assertions use to decide whether an expected and an actual value of a
declared type `T` are equal. The comparer tries a fixed chain of strategies and
the first one that applies decides:

1. a lockstep walk when both values are enumerable (strings included);
2. a null check, only when `T` is a reference type or a `Nullable<>`;
3. a runtime-type gate;
4. `IComparable<T>`, then `IComparable` (their result is passed through);
5. `IEquatable<T>`;
6. `object.Equals`.

0 means equal; every strategy except the two comparable ones answers 0 or -1.

Files:

- `clr_runtime.dfy` (module `ClrRuntime`): runtime values (`Null`, an enumerable
  `Sequence` of boxed elements, a non-enumerable `Object` with the interfaces
  its type implements for `T`), `GetType()`, the static `object.Equals`, the
  user code the comparer calls (`Protocols`, a record of functions), and an
  `Enumerator` class with `MoveNext` and `Current`.
- `assert_comparer.dfy` (module `AssertComparer`): the comparer and the
  properties of its strategy chain. `CompareEnumerable` is a method that walks
  two `Enumerator` objects in a loop and is proved to compute `Lockstep`, the
  functional description of that walk. `Compare` is a function, so it uses
  `Lockstep` where the source calls `CompareEnumerable`.
- `comparer_scenarios.dfy` (module `ComparerScenarios`): concrete comparisons
  of lists, strings, nulls and boxed integers with value semantics.

Inputs that stand in for the runtime:

- The reflection test on `T` at line 21 is the boolean `admitsNull`: true when
  `T` is a reference type or a `Nullable<>`.
- `Compare` requires that each argument is a value `T` can hold. A
  non-nullable value type never holds null; the C# type system guarantees this
  to every caller.
- User code is the `Protocols` parameter: `IComparable<T>.CompareTo`,
  `IComparable.CompareTo`, `IEquatable<T>.Equals`, the `object.Equals`
  override and `GetHashCode`. Nothing is assumed about it. Reflexivity is
  proved to hold exactly when the deciding protocol is reflexive; symmetry is
  proved under the hypothesis that the protocols are symmetric.
- `GetHashCode` takes a boolean `nullableValueType`, true when `T` is a
  `Nullable<>`: an unset one hashes to 0, a null reference throws.

Lines 37 and 43 return `CompareTo`'s result unchanged, so `Compare` can
answer a positive value, while every other strategy answers 0 or -1. The model
keeps this (`Compare`'s first ensures, `ComparerScenarios.BoxedIntegers`).

## Model

| member | source | states |
|---|---|---|
| ClrRuntime.RuntimeType | Source/Machine.Specifications/AssertComparer.cs:30 | `GetType()` of a non-null value; an enumerable and a non-enumerable value never share a runtime type |
| ClrRuntime.Enumerator.constructor | Source/Machine.Specifications/AssertComparer.cs:85-86 | `GetEnumerator()` yields a cursor over the sequence, placed before its first element |
| ClrRuntime.Enumerator.MoveNext | Source/Machine.Specifications/AssertComparer.cs:90-91 | reports true exactly when another element exists, and then advances by one; otherwise the cursor rests past the end |
| ClrRuntime.Enumerator.Current | Source/Machine.Specifications/AssertComparer.cs:96 | the element at the cursor's position; only defined after a successful MoveNext |
| ClrRuntime.ObjectEquals | Source/Machine.Specifications/AssertComparer.cs:52 | the static `object.Equals`: two nulls are equal, a null and a non-null are not, otherwise the receiver's `Equals` override decides and is never called on a null (the same-reference shortcut is left out) |
| AssertComparer.CanCompareEnumerable | Source/Machine.Specifications/AssertComparer.cs:75-81 | both arguments are enumerable; null never is |
| AssertComparer.AreBothNotNull | Source/Machine.Specifications/AssertComparer.cs:70-73 | `object.Equals(v, default(T))` is exactly a null test here, so the guard holds exactly when neither argument is null |
| AssertComparer.Lockstep | Source/Machine.Specifications/AssertComparer.cs:88-98 | the lockstep walk answers only 0 or -1 |
| AssertComparer.LockstepIsPairwiseEquality | Source/Machine.Specifications/AssertComparer.cs:83-99 | the walk answers 0 exactly when both sequences have the same length and every pair at the same position is equal under `object.Equals`, and -1 otherwise |
| AssertComparer.LengthMismatchIsUnequal | Source/Machine.Specifications/AssertComparer.cs:93-94 | when one sequence runs out before the other (a strict prefix, say) the answer is -1 |
| AssertComparer.FirstMismatchDecides | Source/Machine.Specifications/AssertComparer.cs:96-97 | the first unequal pair gives -1 whatever the sequences hold after it |
| AssertComparer.CompareEnumerable | Source/Machine.Specifications/AssertComparer.cs:83-99 | the enumerator loop terminates and returns the lockstep result: 0 exactly when the sequences are pairwise equal with equal lengths, -1 exactly otherwise |
| AssertComparer.CompareNull | Source/Machine.Specifications/AssertComparer.cs:55-68 | with at least one null argument: 0 exactly when both are null, else -1; the `NotSupportedException` case is excluded by the precondition, which `Compare` is proved to meet |
| AssertComparer.Compare | Source/Machine.Specifications/AssertComparer.cs:12-53 | the answer is 0, -1, or a `CompareTo` result passed through unchanged on two values of one runtime type; two enumerables answer 0 exactly when pairwise equal |
| AssertComparer.Equals | Source/Machine.Specifications/AssertComparer.cs:101-104 | equal exactly when `Compare` answers 0; for enumerables exactly when pairwise equal; with a null argument exactly when both are null; never across runtime types |
| AssertComparer.GetHashCode | Source/Machine.Specifications/AssertComparer.cs:106-109 | a non-null value answers its own hash code; an unset `Nullable<>` answers 0; a null reference answers a null-reference failure, and only then |
| AssertComparer.EnumerableBranchDecidesAlone | Source/Machine.Specifications/AssertComparer.cs:15-16 | two enumerables get the lockstep result; the null flag and the comparable and equatable protocols cannot change it |
| AssertComparer.LockstepAgreesOnElementEquality | Source/Machine.Specifications/AssertComparer.cs:96 | the walk depends on user code only through `object.Equals` on elements |
| AssertComparer.NullArguments | Source/Machine.Specifications/AssertComparer.cs:21-26 | when `T` admits null and an argument is null: two nulls give 0, exactly one null gives -1 |
| AssertComparer.NullCheckOnlyForNullArguments | Source/Machine.Specifications/AssertComparer.cs:21-27 | on non-null arguments the answer does not depend on the flag saying whether `T` admits null |
| AssertComparer.DifferentRuntimeTypesAreUnequal | Source/Machine.Specifications/AssertComparer.cs:30-31 | non-null arguments that are not both enumerable and have different runtime types give -1 |
| AssertComparer.ProtocolPrecedence | Source/Machine.Specifications/AssertComparer.cs:33-52 | past the type gate, `IComparable<T>` wins over `IComparable`, which wins over `IEquatable<T>`, which wins over `object.Equals`; the comparable results are returned unchanged |
| AssertComparer.OtherStrategiesAnswerZeroOrMinusOne | Source/Machine.Specifications/AssertComparer.cs:12-53 | unless the first argument implements a comparable interface, the answer is 0 or -1 |
| AssertComparer.EqualsIsReflexive | Source/Machine.Specifications/AssertComparer.cs:101-104 | a value equals itself exactly when the protocol that decides for it (element `object.Equals` for a sequence; the first implemented of `IComparable<T>`, `IComparable`, `IEquatable<T>`, `object.Equals` for an object) answers equal on it; null always equals itself |
| AssertComparer.EqualsIsSymmetric | Source/Machine.Specifications/AssertComparer.cs:101-104 | with symmetric protocols `Equals(x, y)` and `Equals(y, x)` agree |
| ComparerScenarios.ListsOfEqualElements | Source/Machine.Specifications/AssertComparer.cs:15-16 | `[1,2,3]` equals `[1,2,3]`; `[1,2,3]` and `[1,2,4]` give -1 |
| ComparerScenarios.PrefixList | Source/Machine.Specifications/AssertComparer.cs:93-94 | `[1,2]` and `[1,2,3]` give -1 |
| ComparerScenarios.EmptyLists | Source/Machine.Specifications/AssertComparer.cs:93-94 | two empty lists give 0 |
| ComparerScenarios.Strings | Source/Machine.Specifications/AssertComparer.cs:15-26 | two null strings give 0, a null and a string give -1 either way round, `"a"` and `"b"` give -1, `"a"` and `"a"` give 0 |
| ComparerScenarios.BoxedIntegers | Source/Machine.Specifications/AssertComparer.cs:30-37 | with `T` = object, a boxed Int32 and Int64 give -1; with `T` = int, two Int32 values give `CompareTo`'s result, including 1 |

## Left out

- Reflection on `T` (`IsValueType`, `GetGenericTypeDefinition`, `IsAssignableFrom`) at line 21: replaced by the boolean `admitsNull`.
- The bodies of user code (`CompareTo`, `IEquatable<T>.Equals`, `object.Equals` overrides, `GetHashCode`): function parameters with no assumed properties.
- Reference identity in `object.Equals`: the static method answers true for the same reference before calling the override; values here are data without identity, so the override always decides between two non-null values.
- Lazy or infinite enumerators, and side effects or exceptions inside `MoveNext` and `Current`: enumerables are finite sequences.
- The state of an enumerator that has run past its end: `MoveNext` keeps answering false; `Current` is not modelled there because the loop never reads it.
- Which interfaces a runtime type implements: recorded per value, relative to `T`, rather than derived from a type hierarchy; an enumerable's other interfaces are not recorded because the comparer never consults them.
- GetHashCode: only the delegation is modelled; it is not proved consistent with `Equals`, and for two distinct lists with equal elements it is not, since the lists hash by their own (reference) hash codes.
- The `default(T)` of a non-nullable value type (0, false, ...) is not modelled: `default(T)` is always `Null`. In the C# comparer the guard at line 21 is what keeps such values out of `AreBothNotNull` and `CompareNull`; without it, an `int` argument equal to 0 would be treated as null there.
