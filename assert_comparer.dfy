/**
 The assertion comparer: decides whether two values of a declared type T are
 equal for an assertion, trying a fixed chain of strategies in order (lockstep
 walk of two enumerables, null check, runtime-type gate, IComparable<T>,
 IComparable, IEquatable<T>, object.Equals). 0 means equal; the two
 comparable strategies pass the callee's result through; every other
 strategy answers -1 for "not equal".

 The declared type T enters only through `admitsNull`: whether T is a
 reference type or a Nullable<> (the reflection test on T), and through the
 capabilities, which are recorded relative to T.
 */
module AssertComparer {
  import opened ClrRuntime

  /** A value that a variable of T can hold: a non-nullable value type never
      holds null. */
  predicate OfDeclaredType(admitsNull: bool, v: Value)
  {
    admitsNull || v != Null
  }

  /** Both arguments are IEnumerable (null is not). */
  predicate CanCompareEnumerable(x: Value, y: Value)
    ensures CanCompareEnumerable(x, y) ==> x != Null && y != Null
  {
    x.Sequence? && y.Sequence?
  }

  /** Neither argument equals default(T), which is null whenever this test is
      reached (T admits null). */
  predicate AreBothNotNull(p: Protocols, x: Value, y: Value)
    ensures AreBothNotNull(p, x, y) <==> x != Null && y != Null
  {
    !ObjectEquals(p, x, Null) && !ObjectEquals(p, y, Null)
  }

  /** Every pair at the same position is equal under object.Equals, and the
      two sequences have the same length. */
  predicate SameElements(p: Protocols, xs: seq<Value>, ys: seq<Value>)
  {
    |xs| == |ys| && forall i :: 0 <= i < |xs| ==> ObjectEquals(p, xs[i], ys[i])
  }

  /** The value the lockstep walk of two enumerators produces: both are
      advanced together; when either is exhausted the answer is 0 if both are,
      else -1; the first unequal pair answers -1. */
  function Lockstep(p: Protocols, xs: seq<Value>, ys: seq<Value>): (r: int)
    ensures r == 0 || r == -1
    decreases |xs|
  {
    var hasNextX, hasNextY := xs != [], ys != [];
    if !hasNextX || !hasNextY then (if hasNextX == hasNextY then 0 else -1)
    else if !ObjectEquals(p, xs[0], ys[0]) then -1
    else Lockstep(p, xs[1..], ys[1..])
  }

  /** The lockstep walk answers 0 exactly when the sequences have equal
      lengths and are pairwise equal under object.Equals. */
  lemma {:induction false} LockstepIsPairwiseEquality(p: Protocols, xs: seq<Value>, ys: seq<Value>)
    ensures Lockstep(p, xs, ys) == 0 <==> SameElements(p, xs, ys)
    ensures Lockstep(p, xs, ys) == -1 <==> !SameElements(p, xs, ys)
    decreases |xs|
  {
    if xs != [] && ys != [] {
      LockstepIsPairwiseEquality(p, xs[1..], ys[1..]);
      if SameElements(p, xs[1..], ys[1..]) && ObjectEquals(p, xs[0], ys[0]) {
        forall i | 0 <= i < |xs| ensures ObjectEquals(p, xs[i], ys[i]) {
          if i > 0 { assert xs[i] == xs[1..][i - 1] && ys[i] == ys[1..][i - 1]; }
        }
      }
      if SameElements(p, xs, ys) {
        forall i | 0 <= i < |xs| - 1 ensures ObjectEquals(p, xs[1..][i], ys[1..][i]) {
          assert xs[1..][i] == xs[i + 1] && ys[1..][i] == ys[i + 1];
        }
      }
    }
  }

  /** When one enumerator runs out before the other (for instance when one
      sequence is a strict prefix of the other) the answer is -1. */
  lemma {:induction false} LengthMismatchIsUnequal(p: Protocols, xs: seq<Value>, ys: seq<Value>)
    requires |xs| != |ys|
    ensures Lockstep(p, xs, ys) == -1
    decreases |xs|
  {
    if xs != [] && ys != [] {
      LengthMismatchIsUnequal(p, xs[1..], ys[1..]);
    }
  }

  /** The first unequal pair decides -1, whatever the sequences hold after it:
      no later element is looked at. */
  lemma {:induction false} FirstMismatchDecides(p: Protocols, xs: seq<Value>, ys: seq<Value>, k: nat)
    requires k < |xs| && k < |ys|
    requires forall i :: 0 <= i < k ==> ObjectEquals(p, xs[i], ys[i])
    requires !ObjectEquals(p, xs[k], ys[k])
    ensures Lockstep(p, xs, ys) == -1
    decreases k
  {
    if k > 0 {
      assert ObjectEquals(p, xs[0], ys[0]);
      forall i | 0 <= i < k - 1 ensures ObjectEquals(p, xs[1..][i], ys[1..][i]) {
        assert xs[1..][i] == xs[i + 1] && ys[1..][i] == ys[i + 1];
      }
      FirstMismatchDecides(p, xs[1..], ys[1..], k - 1);
    }
  }

  /** CompareEnumerable: walks two enumerators in lockstep, calling MoveNext
      on both at every step, until one is exhausted or a pair differs. */
  method CompareEnumerable(p: Protocols, xs: seq<Value>, ys: seq<Value>) returns (r: int)
    ensures r == Lockstep(p, xs, ys)
    ensures r == 0 <==> SameElements(p, xs, ys)
    ensures r == -1 <==> !SameElements(p, xs, ys)
  {
    LockstepIsPairwiseEquality(p, xs, ys);
    var enumeratorX := new Enumerator(xs);
    var enumeratorY := new Enumerator(ys);
    assert xs[0..] == xs && ys[0..] == ys;
    while true
      invariant enumeratorX.Valid() && enumeratorY.Valid()
      invariant enumeratorX.items == xs && enumeratorY.items == ys
      invariant enumeratorX.position == enumeratorY.position
      invariant -1 <= enumeratorX.position < |xs| && enumeratorX.position < |ys|
      invariant Lockstep(p, xs, ys)
             == Lockstep(p, xs[enumeratorX.position + 1..], ys[enumeratorX.position + 1..])
      decreases |xs| - enumeratorX.position
    {
      var hasNextX := enumeratorX.MoveNext();
      var hasNextY := enumeratorY.MoveNext();

      if !hasNextX || !hasNextY {
        return if hasNextX == hasNextY then 0 else -1;
      }

      ghost var k := enumeratorX.position;
      assert xs[k..][1..] == xs[k + 1..] && ys[k..][1..] == ys[k + 1..];
      if !ObjectEquals(p, enumeratorX.Current(), enumeratorY.Current()) {
        return -1;
      }
    }
  }

  /** CompareNull: called only when at least one argument is null; the
      NotSupportedException for two non-null arguments is therefore
      unreachable, which `Compare` proves by meeting this precondition. */
  function CompareNull(p: Protocols, x: Value, y: Value): (r: int)
    requires x == Null || y == Null
    ensures r == 0 <==> x == Null && y == Null
    ensures r == 0 || r == -1
  {
    if ObjectEquals(p, x, Null) then
      if ObjectEquals(p, y, Null) then 0 else -1
    else
      -1  // here y is null; two non-null arguments cannot arrive
  }

  /** The comparable strategies hand the callee's result back unchanged: the
      result `r` came from IComparable<T>.CompareTo, or (when the type lacks
      IComparable<T>) from IComparable.CompareTo, on two non-null values of
      the same runtime type. */
  predicate PassedThrough(p: Protocols, x: Value, y: Value, r: int)
  {
    && x.Object? && y.Object? && RuntimeType(x) == RuntimeType(y)
    && (|| (TypedComparable in x.caps && r == p.typedCompareTo(x, y))
        || (TypedComparable !in x.caps && UntypedComparable in x.caps
            && r == p.untypedCompareTo(x, y)))
  }

  /** Compare: the first applicable strategy decides. */
  function Compare(p: Protocols, admitsNull: bool, x: Value, y: Value): (r: int)
    requires OfDeclaredType(admitsNull, x) && OfDeclaredType(admitsNull, y)
    ensures r == 0 || r == -1 || PassedThrough(p, x, y, r)
    ensures CanCompareEnumerable(x, y) ==> (r == 0 <==> SameElements(p, x.elems, y.elems))
  {
    if CanCompareEnumerable(x, y) then
      LockstepIsPairwiseEquality(p, x.elems, y.elems);
      Lockstep(p, x.elems, y.elems)
    else if admitsNull && !AreBothNotNull(p, x, y) then
      CompareNull(p, x, y)
    else if RuntimeType(x) != RuntimeType(y) then
      -1
    else if TypedComparable in x.caps then
      p.typedCompareTo(x, y)
    else if UntypedComparable in x.caps then
      p.untypedCompareTo(x, y)
    else if Equatable in x.caps then
      (if p.typedEquals(x, y) then 0 else -1)
    else
      (if ObjectEquals(p, x, y) then 0 else -1)
  }

  /** Equals: the comparer's verdict is "equal" exactly when Compare answers 0. */
  function Equals(p: Protocols, admitsNull: bool, x: Value, y: Value): (b: bool)
    requires OfDeclaredType(admitsNull, x) && OfDeclaredType(admitsNull, y)
    ensures b <==> Compare(p, admitsNull, x, y) == 0
    ensures CanCompareEnumerable(x, y) ==> (b <==> SameElements(p, x.elems, y.elems))
    ensures admitsNull && (x == Null || y == Null) ==> (b <==> x == Null && y == Null)
    ensures (x != Null && y != Null && !CanCompareEnumerable(x, y)
             && RuntimeType(x) != RuntimeType(y)) ==> !b
  {
    Compare(p, admitsNull, x, y) == 0
  }

  /** What GetHashCode produces: a hash code, or the NullReferenceException
      of calling GetHashCode on a null reference. */
  datatype HashOutcome = Hash(code: int) | NullReference

  /** GetHashCode: the generic call is constrained to T, so a non-null value
      answers its own hash code; an unset Nullable<> answers 0 without
      boxing; a null reference throws. `nullableValueType` says whether T is
      a Nullable<>. */
  function GetHashCode(p: Protocols, nullableValueType: bool, obj: Value): (h: HashOutcome)
    ensures obj != Null ==> h == Hash(p.hashCode(obj))
    ensures obj == Null && nullableValueType ==> h == Hash(0)
    ensures h.NullReference? <==> obj == Null && !nullableValueType
  {
    if obj != Null then Hash(p.hashCode(obj))
    else if nullableValueType then Hash(0)
    else NullReference
  }

  // ---------------------------------------------------------------------
  // Properties of the strategy chain

  /** Two enumerables are judged by the lockstep walk alone: the null flag,
      the comparable and equatable protocols are never consulted, only
      object.Equals on the elements. */
  lemma EnumerableBranchDecidesAlone(p: Protocols, q: Protocols, nullable1: bool, nullable2: bool,
                                     x: Value, y: Value)
    requires CanCompareEnumerable(x, y)
    requires p.virtualEquals == q.virtualEquals
    ensures Compare(p, nullable1, x, y) == Lockstep(p, x.elems, y.elems)
    ensures Compare(p, nullable1, x, y) == Compare(q, nullable2, x, y)
  {
  }

  /** The walk depends on the protocols only through object.Equals. */
  lemma {:induction false} LockstepAgreesOnElementEquality(p: Protocols, q: Protocols,
                                                           xs: seq<Value>, ys: seq<Value>)
    requires p.virtualEquals == q.virtualEquals
    ensures Lockstep(p, xs, ys) == Lockstep(q, xs, ys)
    decreases |xs|
  {
    if xs != [] && ys != [] {
      LockstepAgreesOnElementEquality(p, q, xs[1..], ys[1..]);
    }
  }

  /** For a reference or Nullable<> type with a null argument: two nulls are
      equal, exactly one null is not. */
  lemma NullArguments(p: Protocols, x: Value, y: Value)
    requires x == Null || y == Null
    ensures Compare(p, true, x, y) == (if x == Null && y == Null then 0 else -1)
  {
  }

  /** For a non-nullable value type the null check is skipped: on non-null
      arguments the answer is the same whether or not T admits null. */
  lemma NullCheckOnlyForNullArguments(p: Protocols, x: Value, y: Value)
    requires x != Null && y != Null
    ensures Compare(p, false, x, y) == Compare(p, true, x, y)
  {
  }

  /** Non-null, not-both-enumerable arguments of different runtime types are
      unequal, whatever their protocols say. */
  lemma DifferentRuntimeTypesAreUnequal(p: Protocols, admitsNull: bool, x: Value, y: Value)
    requires x != Null && y != Null && !CanCompareEnumerable(x, y)
    requires RuntimeType(x) != RuntimeType(y)
    ensures Compare(p, admitsNull, x, y) == -1
  {
  }

  /** Past the type gate the protocols are tried in the C# comparer's order, and the
      first one the runtime type implements decides. */
  lemma ProtocolPrecedence(p: Protocols, admitsNull: bool, x: Value, y: Value)
    requires x.Object? && y.Object? && RuntimeType(x) == RuntimeType(y)
    ensures TypedComparable in x.caps ==> Compare(p, admitsNull, x, y) == p.typedCompareTo(x, y)
    ensures TypedComparable !in x.caps && UntypedComparable in x.caps
            ==> Compare(p, admitsNull, x, y) == p.untypedCompareTo(x, y)
    ensures x.caps == {Equatable}
            ==> Compare(p, admitsNull, x, y) == (if p.typedEquals(x, y) then 0 else -1)
    ensures x.caps == {}
            ==> Compare(p, admitsNull, x, y) == (if p.virtualEquals(x, y) then 0 else -1)
  {
  }

  /** Only the two comparable strategies can answer something other than 0
      or -1. */
  lemma OtherStrategiesAnswerZeroOrMinusOne(p: Protocols, admitsNull: bool, x: Value, y: Value)
    requires OfDeclaredType(admitsNull, x) && OfDeclaredType(admitsNull, y)
    requires !(x.Object? && (TypedComparable in x.caps || UntypedComparable in x.caps))
    ensures Compare(p, admitsNull, x, y) == 0 || Compare(p, admitsNull, x, y) == -1
  {
  }

  // ---------------------------------------------------------------------
  // Reflexivity and symmetry, inherited from the protocols

  /** The protocol that decides `Compare(v, v)` answers "equal": for a
      sequence, every element equals itself under object.Equals; for an
      object, the first protocol its type implements, in the C# comparer's
      order. */
  ghost predicate DecidingProtocolReflexive(p: Protocols, v: Value)
  {
    match v
    case Null => true
    case Sequence(_, elems) => forall e :: e in elems ==> ObjectEquals(p, e, e)
    case Object(_, caps, _) =>
      if TypedComparable in caps then p.typedCompareTo(v, v) == 0
      else if UntypedComparable in caps then p.untypedCompareTo(v, v) == 0
      else if Equatable in caps then p.typedEquals(v, v)
      else p.virtualEquals(v, v)
  }

  /** A value equals itself exactly when the protocol that decides says so:
      the comparer adds no irreflexivity of its own, and a NaN-like CompareTo
      or Equals is inherited unchanged. */
  lemma EqualsIsReflexive(p: Protocols, admitsNull: bool, x: Value)
    requires OfDeclaredType(admitsNull, x)
    ensures Equals(p, admitsNull, x, x) <==> DecidingProtocolReflexive(p, x)
  {
    if x.Sequence? {
      if Equals(p, admitsNull, x, x) {
        forall e | e in x.elems ensures ObjectEquals(p, e, e) {
          var i :| 0 <= i < |x.elems| && x.elems[i] == e;
        }
      }
    }
  }

  /** The user code's notions of equality are symmetric. */
  ghost predicate SymmetricProtocols(p: Protocols)
  {
    && (forall a, b :: p.typedCompareTo(a, b) == 0 <==> p.typedCompareTo(b, a) == 0)
    && (forall a, b :: p.untypedCompareTo(a, b) == 0 <==> p.untypedCompareTo(b, a) == 0)
    && (forall a, b :: p.typedEquals(a, b) <==> p.typedEquals(b, a))
    && (forall a, b :: p.virtualEquals(a, b) <==> p.virtualEquals(b, a))
  }

  /** With symmetric protocols the comparer's verdict is symmetric too: the
      dispatch on x's capabilities is harmless because the type gate has
      made y's runtime type the same. */
  lemma EqualsIsSymmetric(p: Protocols, admitsNull: bool, x: Value, y: Value)
    requires OfDeclaredType(admitsNull, x) && OfDeclaredType(admitsNull, y)
    requires SymmetricProtocols(p)
    ensures Equals(p, admitsNull, x, y) == Equals(p, admitsNull, y, x)
  {
  }
}
