/**
 * Typed access to a member's values, as the member visitor sees them: the
 * C++ type a value is handed over as, and the sequence of values a visit
 * of a single value, a fixed array or a sequence member produces.
 */
module TypedValues {
  import opened Wire
  import opened TypeSupport
  import opened Introspection
  import opened ValueHelpers

  /**
   * `apply_to_primitive_value`: the value at `data` read as the C++ type of
   * its primitive kind; any other kind raises `invalid_argument`.
   */
  function ApplyToPrimitiveValue(k: TypeKind, data: nat): (r: Result<ValueRef>)
    ensures r.Ok? <==> IsPrimitive(k)
    ensures r.Err? ==> r.error == InvalidArgument
    ensures r.Ok? ==> r.value == NativeRef(ScalarType(ConcreteTypeOf(k)), data)
  {
    match k
    case Float => Ok(NativeRef(ScalarType(CFloat), data))
    case Double => Ok(NativeRef(ScalarType(CDouble), data))
    case LongDouble => Ok(NativeRef(ScalarType(CLongDouble), data))
    case WChar => Ok(NativeRef(ScalarType(CChar16), data))
    case Char => Ok(NativeRef(ScalarType(CChar), data))
    case Boolean => Ok(NativeRef(ScalarType(CBool), data))
    case Octet => Ok(NativeRef(ScalarType(CUnsignedChar), data))
    case UInt8 => Ok(NativeRef(ScalarType(CUnsignedChar), data))
    case Int8 => Ok(NativeRef(ScalarType(CSignedChar), data))
    case UInt16 => Ok(NativeRef(ScalarType(CUnsignedShort), data))
    case Int16 => Ok(NativeRef(ScalarType(CShort), data))
    case UInt32 => Ok(NativeRef(ScalarType(CUnsignedInt), data))
    case Int32 => Ok(NativeRef(ScalarType(CInt), data))
    case UInt64 => Ok(NativeRef(ScalarType(CUnsignedLong), data))
    case Int64 => Ok(NativeRef(ScalarType(CLong), data))
    case _ => Err(InvalidArgument)
  }

  /** A member's values can be reached: it is not a message, or its type support is recognised. */
  predicate Resolves(m: MessageMember)
  {
    m.typeId != Message || WithTypesupport(m.members).Ok?
  }

  /**
   * `apply_to_typed_value` for the C (`gen == RosidlC`) and C++ member
   * descriptors: a nested message through `with_message`, a string as
   * `RTI_C::String` / `std::string`, a wide string as `RTI_C::WString` /
   * `std::u16string`, anything else as a primitive.
   */
  function ApplyToTypedValue(gen: TypeGenerator, m: MessageMember, data: nat): (r: Result<ValueRef>)
    ensures r.Ok? <==> Resolves(m)
    ensures r.Err? ==> r.error == RuntimeError
    ensures r.Ok? && m.typeId == Message ==>
              r.value.MessageValueRef? && r.value.ref == MessageRef(m.members.data, data)
    ensures r.Ok? && m.typeId != Message ==> r.value.NativeRef? && r.value.addr == data
    ensures r.Ok? && m.typeId == String ==> !r.value.t.ScalarType? && CharSize(r.value.t) == 1
    ensures r.Ok? && m.typeId == WString ==> !r.value.t.ScalarType? && CharSize(r.value.t) == 2
  {
    match m.typeId
    case Message => (
      match WithTypesupport(m.members)
      case Ok(tm) => Ok(MessageValueRef(tm, MessageRef(tm.meta, data)))
      case Err(e) => Err(e))
    case String => Ok(NativeRef(if gen == RosidlC then RtiCStringType else StdStringType, data))
    case WString => Ok(NativeRef(if gen == RosidlC then RtiCWStringType else StdU16StringType, data))
    case _ => ApplyToPrimitiveValue(m.typeId, data)
  }

  /**
   * The typed dispatch hands over each value exactly as the value helper
   * of the same member casts it, and fails exactly when the helper does.
   */
  lemma ApplyToTypedValueAgreesWithHelper(gen: TypeGenerator, m: MessageMember, data: nat)
    ensures ApplyToTypedValue(gen, m, data).Ok? <==> WithValueHelper(gen, m).Ok?
    ensures ApplyToTypedValue(gen, m, data).Ok? ==>
            ApplyToTypedValue(gen, m, data).value == CastValue(WithValueHelper(gen, m).value, data)
  {
    if m.typeId != Message && m.typeId != String && m.typeId != WString {
      WithTypeAgreesWithConcreteType(m.typeId);
    }
  }

  /**
   * The distance between consecutive elements of an array member, taken
   * for `get_array_stride`, which this revision does not define: the size
   * of one value, a nested message's `size_of_` for MESSAGE members.
   */
  function ValueStride(gen: TypeGenerator, m: MessageMember): nat
  {
    match m.typeId
    case Message => m.members.data.sizeOf
    case String => SizeofNative(if gen == RosidlC then RtiCStringType else StdStringType)
    case WString => SizeofNative(if gen == RosidlC then RtiCWStringType else StdU16StringType)
    case _ => SizeOf(ConcreteTypeOf(m.typeId))
  }

  /** The stride is the `sizeof_value()` of the member's value helper. */
  lemma ValueStrideIsSizeofValue(gen: TypeGenerator, m: MessageMember)
    requires WithValueHelper(gen, m).Ok?
    ensures ValueStride(gen, m) == SizeofValue(WithValueHelper(gen, m).value)
  {
  }

  /** A sequence member can report its size and reach its elements. */
  predicate SequenceReadable(m: MessageMember)
  {
    ContainerType(m) == Sequence ==>
      m.callbacks.sizeFunction.Some? && m.callbacks.getConstFunction.Some?
  }

  /**
   * The number of values a member holds, taken for the undefined
   * `get_array_size()` and `get_sequence_size()`: `array_size_` and what
   * `size_function` says.
   */
  function ValueCount(r: MemberRef): nat
    requires SequenceReadable(r.meta)
  {
    match ContainerType(r.meta)
    case SingleValue => 1
    case Array => r.meta.arraySize
    case Sequence => r.meta.callbacks.sizeFunction.value(r.data)
  }

  /** The address of value `i` of a member. */
  function ValueAddress(gen: TypeGenerator, r: MemberRef, i: nat): nat
    requires SequenceReadable(r.meta)
  {
    match ContainerType(r.meta)
    case SingleValue => r.data
    case Array => ElementAddress(r.data, ValueStride(gen, r.meta), i)
    case Sequence => r.meta.callbacks.getConstFunction.value(r.data, i)
  }

  /**
   * What a visit of every value of a member hands to the visitor: the
   * typed values in order, or the error of the first one that cannot be
   * reached (a member with no values raises nothing).
   */
  function Visits(gen: TypeGenerator, r: MemberRef): Result<seq<ValueRef>>
    requires SequenceReadable(r.meta)
  {
    var n := ValueCount(r);
    if n > 0 && !Resolves(r.meta) then Err(RuntimeError)
    else Ok(seq(n, i requires 0 <= i < n => ApplyToTypedValue(gen, r.meta, ValueAddress(gen, r, i)).value))
  }

  /**
   * `MemberRef::for_each_value`: the values handed to the visitor, one call
   * per value; an exception from `apply_to_typed_value` ends the visit.
   */
  method ForEachValue(gen: TypeGenerator, r: MemberRef) returns (visits: Result<seq<ValueRef>>)
    requires SequenceReadable(r.meta)
    ensures visits == Visits(gen, r)
  {
    var c := ContainerType(r.meta);
    if c == SingleValue {
      var v := ApplyToTypedValue(gen, r.meta, r.data);
      if v.Err? {
        return Err(v.error);
      }
      assert ValueAddress(gen, r, 0) == r.data;
      assert Visits(gen, r).value == [v.value];
      return Ok([v.value]);
    }
    var n;
    if c == MemberContainerType.Array {
      n := r.meta.arraySize;
    } else {
      n := r.meta.callbacks.sizeFunction.value(r.data);
    }
    var stride := ValueStride(gen, r.meta);
    var out := [];
    var i := 0;
    while i < n
      invariant 0 <= i <= n
      invariant i > 0 ==> Resolves(r.meta)
      invariant out == seq(i, j requires 0 <= j < i => ApplyToTypedValue(gen, r.meta, ValueAddress(gen, r, j)).value)
    {
      var p;
      if c == MemberContainerType.Array {
        p := ElementAddress(r.data, stride, i);
      } else {
        p := r.meta.callbacks.getConstFunction.value(r.data, i);
      }
      var v := ApplyToTypedValue(gen, r.meta, p);
      if v.Err? {
        return Err(v.error);
      }
      out := out + [v.value];
      i := i + 1;
    }
    return Ok(out);
  }

  /** The address a visited value refers to. */
  function RefAddress(v: ValueRef): nat
  {
    match v
    case NativeRef(_, addr) => addr
    case MessageValueRef(_, ref) => ref.data
  }

  /**
   * A visit produces one value for a single value, `array_size_` values for
   * an array and `size_function(data)` values for a sequence; it fails only
   * when there is a value whose type support is not recognised.
   */
  lemma VisitsCount(gen: TypeGenerator, r: MemberRef)
    requires SequenceReadable(r.meta)
    ensures Visits(gen, r).Err? <==> ValueCount(r) > 0 && !WithValueHelper(gen, r.meta).Ok?
    ensures Visits(gen, r).Ok? ==> |Visits(gen, r).value| == ValueCount(r)
    ensures ContainerType(r.meta) == SingleValue ==> ValueCount(r) == 1
    ensures ContainerType(r.meta) == MemberContainerType.Array ==> ValueCount(r) == r.meta.arraySize
  {
    ApplyToTypedValueAgreesWithHelper(gen, r.meta, r.data);
  }

  /**
   * The values of an array member are visited in ascending address order,
   * the first at the member's address and each `stride` bytes after the one
   * before.
   */
  lemma {:induction false} ArrayVisitsAscend(gen: TypeGenerator, r: MemberRef, i: nat)
    requires ContainerType(r.meta) == MemberContainerType.Array
    requires Visits(gen, r).Ok? && i < |Visits(gen, r).value|
    ensures RefAddress(Visits(gen, r).value[i]) == r.data + ValueStride(gen, r.meta) * i
    ensures i > 0 ==> RefAddress(Visits(gen, r).value[i]) ==
                      RefAddress(Visits(gen, r).value[i - 1]) + ValueStride(gen, r.meta)
  {
    var s := ValueStride(gen, r.meta);
    var vs := Visits(gen, r).value;
    assert RefAddress(vs[i]) == ElementAddress(r.data, s, i);
    if i > 0 {
      assert RefAddress(vs[i - 1]) == ElementAddress(r.data, s, i - 1);
      StrideStep(r.data, s, i);
    }
  }

  /**
   * A visit hands over exactly the values the value-helper references
   * reach: the single value's `get()`, the array's `operator[]` for each
   * index below `size()`, the sequence's const `operator[]` for each index
   * below `size()`.
   */
  lemma VisitsAgreeWithMemberRefs(gen: TypeGenerator, r: MemberRef)
    requires SequenceReadable(r.meta) && WithValueHelper(gen, r.meta).Ok?
    ensures Visits(gen, r).Ok?
    ensures ContainerType(r.meta) == SingleValue ==>
              Visits(gen, r).value == [WithSingleValue(Intended, gen, r).value.Get()]
    ensures ContainerType(r.meta) == MemberContainerType.Array ==>
              (forall i :: 0 <= i < |Visits(gen, r).value| ==>
                 Visits(gen, r).value[i] == WithArray(Intended, gen, r).value.Element(i))
    ensures ContainerType(r.meta) == Sequence && HasSequenceCallbacks(r.meta) ==>
              |Visits(gen, r).value| == WithSequence(Intended, gen, r).value.Size() &&
              (forall i :: 0 <= i < |Visits(gen, r).value| ==>
                 Visits(gen, r).value[i] == WithSequence(Intended, gen, r).value.Element(i))
  {
    hide ApplyToPrimitiveValue, ApplyToTypedValue, RefAddress, WithType, SizeofNative, WithSingleValue, WithArray, WithSequence, CastValue, WithValueHelper, ValueStride, SizeofValue;
    var h := WithValueHelper(gen, r.meta).value;
    var vs := Visits(gen, r);
    ValueStrideIsSizeofValue(gen, r.meta);
    assert vs.Ok? by {
      ApplyToTypedValueAgreesWithHelper(gen, r.meta, r.data);
    }
    forall i | 0 <= i < |vs.value|
      ensures vs.value[i] == CastValue(h, ValueAddress(gen, r, i))
    {
      ApplyToTypedValueAgreesWithHelper(gen, r.meta, ValueAddress(gen, r, i));
    }
  }
}
