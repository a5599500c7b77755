/**
 The slice of the .NET runtime that the assertion comparer observes: runtime
 values, their runtime types, the interfaces those types implement, the
 user-supplied code the comparer calls into, and the enumerator protocol
 (MoveNext / Current) it walks sequences with.
 */
module ClrRuntime {

  /** The interfaces the comparer probes for with `as`, beyond IEnumerable.
      They are recorded relative to the declared type T of the comparison:
      `TypedComparable` means the runtime type implements IComparable<T>,
      `Equatable` that it implements IEquatable<T>, `UntypedComparable` that
      it implements the non-generic IComparable. */
  datatype Capability = TypedComparable | UntypedComparable | Equatable

  /** What `GetType()` returns: a type's name, whether it implements
      IEnumerable, and (for non-enumerable types) its capabilities. */
  datatype ClrType = ClrType(name: string, enumerable: bool, caps: set<Capability>)

  /** A runtime value as the comparer sees it, after boxing to object.
      - `Null` is the null reference (also an unset Nullable<>).
      - `Sequence` is an instance of an enumerable type (a list, an array, a
        string), with the finite sequence of boxed elements its enumerator
        yields.
      - `Object` is an instance of any other type; `state` stands for its
        contents, which only user code (Protocols) interprets. */
  datatype Value =
    | Null
    | Sequence(ty: string, elems: seq<Value>)
    | Object(ty: string, caps: set<Capability>, state: int)

  /** `v.GetType()`; undefined on null, as in .NET. Enumerable-ness is part
      of the type, so a sequence and a non-enumerable object never share one. */
  function RuntimeType(v: Value): (t: ClrType)
    requires v != Null
    ensures t.enumerable <==> v.Sequence?
    ensures t.name == v.ty
  {
    match v
    case Sequence(ty, _) => ClrType(ty, true, {})
    case Object(ty, caps, _) => ClrType(ty, false, caps)
  }

  /** The code the comparer calls but cannot see, supplied by the types of the
      compared values. Nothing is assumed about it (no reflexivity, symmetry or
      sign convention). Each function is only ever applied with a non-null
      receiver as its first argument. */
  datatype Protocols = Protocols(
    typedCompareTo: (Value, Value) -> int,    // IComparable<T>.CompareTo(T)
    untypedCompareTo: (Value, Value) -> int,  // IComparable.CompareTo(object)
    typedEquals: (Value, Value) -> bool,      // IEquatable<T>.Equals(T)
    virtualEquals: (Value, Value) -> bool,    // an override of object.Equals(object)
    hashCode: Value -> int                    // an override of object.GetHashCode()
  )

  /** The static `object.Equals(a, b)`: two nulls are equal, a null and a
      non-null are not, otherwise the receiver's `Equals` override decides. */
  predicate ObjectEquals(p: Protocols, a: Value, b: Value)
    ensures a == Null && b == Null ==> ObjectEquals(p, a, b)
    ensures (a == Null) != (b == Null) ==> !ObjectEquals(p, a, b)
    ensures a != Null && b != Null ==> (ObjectEquals(p, a, b) <==> p.virtualEquals(a, b))
  {
    if a == Null || b == Null then a == Null && b == Null
    else p.virtualEquals(a, b)
  }

  /** An IEnumerator over a finite sequence. `position` is -1 before the
      first MoveNext and |items| once the enumerator has run off the end. */
  class Enumerator {
    const items: seq<Value>
    var position: int

    ghost predicate Valid()
      reads this
    {
      -1 <= position <= |items|
    }

    /** `GetEnumerator()`: a fresh cursor placed before the first element. */
    constructor (items: seq<Value>)
      ensures Valid()
      ensures this.items == items && position == -1
    {
      this.items := items;
      position := -1;
    }

    /** Advances to the next element; reports whether there was one. */
    method MoveNext() returns (more: bool)
      requires Valid()
      modifies this
      ensures Valid()
      ensures more <==> old(position) + 1 < |items|
      ensures position == if more then old(position) + 1 else |items|
    {
      if position + 1 < |items| {
        position := position + 1;
        more := true;
      } else {
        position := |items|;
        more := false;
      }
    }

    /** The element the last successful MoveNext stopped at. */
    function Current(): (v: Value)
      reads this
      requires 0 <= position < |items|
      ensures v == items[position]
    {
      items[position]
    }
  }
}
