/**
 Concrete comparisons with the framework's everyday types: boxed Int32 and
 Char values, List<int> and String instances (both enumerable), and value
 semantics for their Equals and CompareTo.
 */
module ComparerScenarios {
  import opened ClrRuntime
  import opened AssertComparer

  /** With T = int, an Int32 implements IComparable<T>, IComparable and
      IEquatable<T>. */
  const AsItself: set<Capability> := {TypedComparable, UntypedComparable, Equatable}

  /** With T = object (and for the elements a non-generic enumeration
      yields), Int32, Int64 and Char implement only the non-generic
      IComparable: not IComparable<object> nor IEquatable<object>. */
  const AsObject: set<Capability> := {UntypedComparable}

  /** An Int32 compared with T = int. */
  function Int(n: int): (v: Value)
    ensures v.Object? && v.state == n
  {
    Object("System.Int32", AsItself, n)
  }

  /** A boxed integer of runtime type `ty` compared with T = object. */
  function Boxed(ty: string, n: int): (v: Value)
    ensures v.Object? && v.ty == ty && v.state == n
  {
    Object(ty, AsObject, n)
  }

  /** A boxed Char, as a string's enumeration yields it. */
  function Char(c: char): (v: Value)
    ensures v.Object? && v.state == c as int
  {
    Object("System.Char", AsObject, c as int)
  }

  function IntList(ns: seq<int>): (v: Value)
    ensures v.Sequence? && |v.elems| == |ns|
    ensures forall i :: 0 <= i < |ns| ==> v.elems[i] == Boxed("System.Int32", ns[i])
  {
    Sequence("System.Collections.Generic.List`1[System.Int32]", seq(|ns|, i requires 0 <= i < |ns| => Boxed("System.Int32", ns[i])))
  }

  function Str(s: string): (v: Value)
    ensures v.Sequence? && |v.elems| == |s|
    ensures forall i :: 0 <= i < |s| ==> v.elems[i] == Char(s[i])
  {
    Sequence("System.String", seq(|s|, i requires 0 <= i < |s| => Char(s[i])))
  }

  /** Equals and CompareTo of the primitive types: by value. */
  function ByValue(): (p: Protocols)
  {
    Protocols(
      (a: Value, b: Value) => Order(a, b),
      (a: Value, b: Value) => Order(a, b),
      (a: Value, b: Value) => a == b,
      (a: Value, b: Value) => a == b,
      (a: Value) => if a.Object? then a.state else 0)
  }

  /** CompareTo by value: negative, zero or positive as the states order. */
  function Order(a: Value, b: Value): (r: int)
    ensures a.Object? && b.Object? ==> (r == 0 <==> a.state == b.state)
    ensures a.Object? && b.Object? ==> (r < 0 <==> a.state < b.state)
  {
    if !a.Object? || !b.Object? || a.state == b.state then 0
    else if a.state < b.state then -1
    else 1
  }

  /** compare([1,2,3], [1,2,3]) == 0 and compare([1,2,3], [1,2,4]) == -1 */
  lemma ListsOfEqualElements()
    ensures Compare(ByValue(), true, IntList([1, 2, 3]), IntList([1, 2, 3])) == 0
    ensures Compare(ByValue(), true, IntList([1, 2, 3]), IntList([1, 2, 4])) == -1
  {
  }

  /** compare([1,2], [1,2,3]) == -1: a strict prefix is unequal. */
  lemma PrefixList()
    ensures Compare(ByValue(), true, IntList([1, 2]), IntList([1, 2, 3])) == -1
  {
  }

  /** Two empty lists are equal. */
  lemma EmptyLists()
    ensures Compare(ByValue(), true, IntList([]), IntList([])) == 0
  {
  }

  /** Null strings are equal; "a" and "b" are not; "a" equals "a".
      Strings go through the character walk, not IComparable. */
  lemma Strings()
    ensures Compare(ByValue(), true, Null, Null) == 0
    ensures Compare(ByValue(), true, Null, Str("a")) == -1
    ensures Compare(ByValue(), true, Str("a"), Null) == -1
    ensures Compare(ByValue(), true, Str("a"), Str("b")) == -1
    ensures Compare(ByValue(), true, Str("a"), Str("a")) == 0
  {
  }

  /** With T = object, a boxed Int32 and a boxed Int64 of the same value are
      unequal: their runtime types differ. With T = int, two values go through
      IComparable<T> and its result comes back unchanged, positive included. */
  lemma BoxedIntegers()
    ensures Compare(ByValue(), true, Boxed("System.Int32", 1), Boxed("System.Int64", 1)) == -1
    ensures Compare(ByValue(), false, Int(7), Int(7)) == 0
    ensures Compare(ByValue(), false, Int(7), Int(3)) == 1
  {
  }
}
