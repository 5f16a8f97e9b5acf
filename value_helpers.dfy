/**
 * Value helpers: for a member descriptor, the C++ type its values are
 * stored as and how to reach each value of a single value, a fixed array or
 * a sequence member.
 */
module ValueHelpers {
  import opened Wire
  import opened TypeSupport
  import opened Introspection

  /**
   * `with_type`: the C++ type each primitive kind is handled as; STRING,
   * WSTRING and MESSAGE raise `invalid_argument`.
   */
  function WithType(k: TypeKind): (r: Result<ConcreteType>)
    ensures r.Ok? <==> IsPrimitive(k)
    ensures r.Err? ==> r.error == InvalidArgument
  {
    match k
    case Float => Ok(CFloat)
    case Double => Ok(CDouble)
    case LongDouble => Ok(CLongDouble)
    case WChar => Ok(CChar16)
    case Char => Ok(CChar)
    case Boolean => Ok(CBool)
    case Octet => Ok(CUnsignedChar)
    case UInt8 => Ok(CUnsignedChar)     // uint8_t
    case Int8 => Ok(CSignedChar)        // int8_t
    case UInt16 => Ok(CUnsignedShort)
    case Int16 => Ok(CShort)
    case UInt32 => Ok(CUnsignedInt)
    case Int32 => Ok(CInt)
    case UInt64 => Ok(CUnsignedLong)
    case Int64 => Ok(CLong)
    case _ => Err(InvalidArgument)
  }

  /**
   * `with_type` and the descriptor layer's `apply_to_concrete_type` pick the
   * same C++ type for every primitive kind and reject the same kinds (with
   * different exceptions).
   */
  lemma WithTypeAgreesWithConcreteType(k: TypeKind)
    ensures WithType(k).Ok? <==> ApplyToConcreteType(k).Ok?
    ensures WithType(k).Ok? ==> WithType(k).value == ApplyToConcreteType(k).value
    ensures IsPrimitive(k) ==> WithType(k) == Ok(ConcreteTypeOf(k))
  {
  }

  /** The C++ types a member's values can be reached as through a value helper. */
  datatype NativeType =
    | ScalarType(c: ConcreteType)
    | RtiCStringType       // RTI_C::String
    | RtiCWStringType      // RTI_C::WString
    | StdStringType        // std::string
    | StdWStringType       // std::wstring
    | StdU16StringType     // std::u16string

  /** `NativeValueHelper<T>` or `MessageValueHelper<MetaMessage>`. */
  datatype ValueHelper =
    | NativeValueHelper(t: NativeType)
    | MessageValueHelper(valueMembers: TypedMembers)

  /** `sizeof` of each native type on x86-64 Linux with libstdc++. */
  function SizeofNative(t: NativeType): nat
  {
    match t
    case ScalarType(c) => SizeOf(c)
    case RtiCStringType => 24     // {data, size, capacity}
    case RtiCWStringType => 24
    case StdStringType => 32
    case StdWStringType => 32
    case StdU16StringType => 32
  }

  /** The size of one character of a string type (`sizeof(traits_type::char_type)`). */
  function CharSize(t: NativeType): (n: nat)
    requires !t.ScalarType?
    ensures n in {1, 2, 4}
  {
    match t
    case RtiCStringType => 1
    case StdStringType => 1
    case RtiCWStringType => 2     // char16_t
    case StdU16StringType => 2    // char16_t
    case StdWStringType => 4      // wchar_t
  }

  /**
   * `sizeof_value()`: `sizeof(T)` for a native helper, the message's
   * `size_of_` for a message helper.
   */
  function SizeofValue(h: ValueHelper): (n: nat)
    ensures h.NativeValueHelper? ==> n == SizeofNative(h.t)
    ensures h.MessageValueHelper? ==> n == h.valueMembers.meta.sizeOf
  {
    match h
    case NativeValueHelper(t) => SizeofNative(t)
    case MessageValueHelper(tm) => tm.meta.sizeOf
  }

  /** What `cast_value(ptr)` yields: a reference to a native value, or a `MessageRef`. */
  datatype ValueRef =
    | NativeRef(t: NativeType, addr: nat)
    | MessageValueRef(members: TypedMembers, ref: MessageRef)

  /** `cast_value(ptr)`. */
  function CastValue(h: ValueHelper, ptr: nat): (r: ValueRef)
    ensures h.NativeValueHelper? ==> r == NativeRef(h.t, ptr)
    ensures h.MessageValueHelper? ==> r.MessageValueRef? && r.members == h.valueMembers &&
                                       r.ref == MessageRef(h.valueMembers.meta, ptr)
  {
    match h
    case NativeValueHelper(t) => NativeRef(t, ptr)
    case MessageValueHelper(tm) => MessageValueRef(tm, MessageRef(tm.meta, ptr))
  }

  /**
   * `MemberRef::with_value_helper` as written, for the C (`gen == RosidlC`)
   * and C++ generators: a MESSAGE member's type support is looked up (and
   * may raise `runtime_error`); a C++ WSTRING member is handled as
   * `std::wstring`.
   */
  function WithValueHelperAsWritten(gen: TypeGenerator, m: MessageMember): (r: Result<ValueHelper>)
    ensures m.typeId != Message ==> r.Ok? && r.value.NativeValueHelper?
    ensures gen == RosidlCpp && m.typeId == WString ==> r == Ok(NativeValueHelper(StdWStringType))
  {
    match m.typeId
    case Message => (
      match WithTypesupport(m.members)
      case Ok(tm) => Ok(MessageValueHelper(tm))
      case Err(e) => Err(e))
    case String => Ok(NativeValueHelper(if gen == RosidlC then RtiCStringType else StdStringType))
    case WString => Ok(NativeValueHelper(if gen == RosidlC then RtiCWStringType else StdWStringType))
    case _ =>
      match WithType(m.typeId)
      case Ok(c) => Ok(NativeValueHelper(ScalarType(c)))
      case Err(e) => Err(e)
  }

  /**
   * `with_value_helper` with the C++ WSTRING member handled as the
   * `std::u16string` the C++ generator stores it as.
   */
  function WithValueHelper(gen: TypeGenerator, m: MessageMember): (r: Result<ValueHelper>)
    ensures r.Err? <==> m.typeId == Message && WithTypesupport(m.members).Err?
    ensures r.Err? ==> r.error == RuntimeError
    ensures r.Ok? && m.typeId == Message ==> r.value == MessageValueHelper(WithTypesupport(m.members).value)
    ensures r.Ok? && IsPrimitive(m.typeId) ==> r.value == NativeValueHelper(ScalarType(ConcreteTypeOf(m.typeId)))
    ensures r.Ok? && m.typeId == String ==>
              r.value.NativeValueHelper? && !r.value.t.ScalarType? && CharSize(r.value.t) == 1
    ensures r.Ok? && m.typeId == WString ==>
              r.value.NativeValueHelper? && !r.value.t.ScalarType? && CharSize(r.value.t) == 2
  {
    if m.typeId == WString && gen == RosidlCpp then Ok(NativeValueHelper(StdU16StringType))
    else WithValueHelperAsWritten(gen, m)
  }

  /** The value helper of a member under a reading. */
  function HelperOf(rd: Reading, gen: TypeGenerator, m: MessageMember): (r: Result<ValueHelper>)
    ensures rd == AsWritten ==> r == WithValueHelperAsWritten(gen, m)
    ensures rd == Intended ==> r == WithValueHelper(gen, m)
  {
    match rd
    case AsWritten => WithValueHelperAsWritten(gen, m)
    case Intended => WithValueHelper(gen, m)
  }

  /** The two differ only on WSTRING members of C++ messages. */
  lemma WithValueHelperAsWrittenDiffers(gen: TypeGenerator, m: MessageMember)
    ensures WithValueHelperAsWritten(gen, m) != WithValueHelper(gen, m) <==>
            gen == RosidlCpp && m.typeId == WString
  {
  }

  /**
   * The concrete input: a C++ `wstring` member. The written helper reads
   * its value as `std::wstring`, whose characters are 4 bytes, while the
   * C++ generator stores a `std::u16string` of 2-byte units; the string
   * writer would then prefix a length of 4 bytes per character.
   */
  lemma WStringMemberReadWithWrongCharSize(m: MessageMember)
    requires m.typeId == WString
    ensures CharSize(WithValueHelperAsWritten(RosidlCpp, m).value.t) == 4
    ensures CharSize(WithValueHelper(RosidlCpp, m).value.t) == 2
  {
  }

  /**
   * A value helper's `sizeof_value` is the `sizeof_type` of the descriptor
   * the value-type layer builds for the same kind of member.
   */
  lemma SizeofValueMatchesDescriptor(gen: TypeGenerator, m: MessageMember)
    requires WithValueHelper(gen, m).Ok?
    ensures IsPrimitive(m.typeId) ==>
            SizeofValue(WithValueHelper(gen, m).value) == SizeofType(Primitive(m.typeId))
    ensures m.typeId == String ==> SizeofValue(WithValueHelper(gen, m).value) == SizeofType(U8String(gen))
    ensures m.typeId == WString ==> SizeofValue(WithValueHelper(gen, m).value) == SizeofType(U16String(gen))
    ensures m.typeId == Message ==>
            SizeofValue(WithValueHelper(gen, m).value) == m.members.data.sizeOf
  {
  }

  /** `SingleValueMemberRef`: `get()` reaches the value at the member's own address. */
  datatype SingleValueMemberRef = SingleValueMemberRef(helper: ValueHelper, member: MemberRef)
  {
    function Get(): (r: ValueRef)
      ensures r == CastValue(helper, member.data)
    {
      CastValue(helper, member.data)
    }
  }

  /** `ArrayMemberRef`: the `array_size_` values lie `sizeof_value()` bytes apart from the member's address. */
  datatype ArrayMemberRef = ArrayMemberRef(helper: ValueHelper, member: MemberRef)
  {
    function Size(): nat
    {
      member.meta.arraySize
    }

    /** The address of element `index` (`operator[]`, which checks no bound). */
    function ElementAddress(index: nat): (p: nat)
      ensures p - member.data == SizeofValue(helper) * index
    {
      member.data + SizeofValue(helper) * index
    }

    /** `operator[]`. */
    function Element(index: nat): (r: ValueRef)
      ensures r == CastValue(helper, ElementAddress(index))
    {
      CastValue(helper, ElementAddress(index))
    }
  }

  /**
   * The elements of an array member do not overlap: each begins where the
   * one before it ends, and all lie in the `size * sizeof_value` bytes at
   * the member's address.
   */
  lemma ArrayElementsAdjacent(a: ArrayMemberRef, i: nat)
    requires i + 1 < a.Size()
    ensures a.ElementAddress(i + 1) == a.ElementAddress(i) + SizeofValue(a.helper)
    ensures a.ElementAddress(i + 1) + SizeofValue(a.helper) <= a.member.data + SizeofValue(a.helper) * a.Size()
  {
    ElementWithin(SizeofValue(a.helper), i + 1, a.Size());
  }

  /** All four sequence callbacks are present. */
  predicate HasSequenceCallbacks(m: MessageMember)
  {
    m.callbacks.sizeFunction.Some? && m.callbacks.getConstFunction.Some? &&
    m.callbacks.getFunction.Some? && m.callbacks.resizeFunction.Some?
  }

  /** `SequenceMemberRef`, whose constructor asserts that the four callbacks are present. */
  datatype SequenceMemberRef = SequenceMemberRef(helper: ValueHelper, member: MemberRef)
  {
    /** `size()`: what `size_function` says for the member's data. */
    function Size(): (n: nat)
      requires HasSequenceCallbacks(member.meta)
      ensures n == member.meta.callbacks.sizeFunction.value(member.data)
    {
      member.meta.callbacks.sizeFunction.value(member.data)
    }

    /** The const `operator[]`: the value `get_const_function` returns for `index`. */
    function Element(index: nat): (r: ValueRef)
      requires HasSequenceCallbacks(member.meta)
      ensures r == CastValue(helper, member.meta.callbacks.getConstFunction.value(member.data, index))
    {
      CastValue(helper, member.meta.callbacks.getConstFunction.value(member.data, index))
    }

    /** The non-const `operator[]`: the value `get_function` returns for `index`. */
    function MutableElement(index: nat): (r: ValueRef)
      requires HasSequenceCallbacks(member.meta)
      ensures r == CastValue(helper, member.meta.callbacks.getFunction.value(member.data, index))
    {
      CastValue(helper, member.meta.callbacks.getFunction.value(member.data, index))
    }
  }

  /**
   * `with_single_value`, which asserts the member is a single value: the
   * value helper (or its `runtime_error`) wrapped around the member. Under
   * `AsWritten` the assertion and the helper are the source's own.
   */
  function WithSingleValue(rd: Reading, gen: TypeGenerator, r: MemberRef): (res: Result<SingleValueMemberRef>)
    requires Classify(rd, r.meta) == SingleValue
    ensures res.Ok? <==> HelperOf(rd, gen, r.meta).Ok?
    ensures res.Ok? ==> res.value.member == r && res.value.helper == HelperOf(rd, gen, r.meta).value
    ensures res.Ok? ==> res.value.Get() == CastValue(HelperOf(rd, gen, r.meta).value, r.data)
  {
    match HelperOf(rd, gen, r.meta)
    case Ok(h) => Ok(SingleValueMemberRef(h, r))
    case Err(e) => Err(e)
  }

  /**
   * `with_array`, which asserts the member is a fixed array. Only under
   * `Intended` is the array known to be non-empty: the written
   * classification also takes an unbounded sequence for an array of size 0.
   */
  function WithArray(rd: Reading, gen: TypeGenerator, r: MemberRef): (res: Result<ArrayMemberRef>)
    requires Classify(rd, r.meta) == MemberContainerType.Array
    ensures res.Ok? <==> HelperOf(rd, gen, r.meta).Ok?
    ensures res.Ok? ==> res.value.member == r && res.value.helper == HelperOf(rd, gen, r.meta).value
    ensures res.Ok? ==> res.value.Size() == r.meta.arraySize
    ensures res.Ok? && rd == Intended ==> res.value.Size() > 0
    ensures res.Ok? ==> forall i :: 0 <= i < res.value.Size() ==>
              res.value.Element(i) == CastValue(HelperOf(rd, gen, r.meta).value,
                                                r.data + SizeofValue(HelperOf(rd, gen, r.meta).value) * i)
  {
    match HelperOf(rd, gen, r.meta)
    case Ok(h) => Ok(ArrayMemberRef(h, r))
    case Err(e) => Err(e)
  }

  /** `with_sequence`, which asserts the member is a sequence; the reference asserts its callbacks. */
  function WithSequence(rd: Reading, gen: TypeGenerator, r: MemberRef): (res: Result<SequenceMemberRef>)
    requires Classify(rd, r.meta) == Sequence && HasSequenceCallbacks(r.meta)
    ensures res.Ok? <==> HelperOf(rd, gen, r.meta).Ok?
    ensures res.Ok? ==> res.value.member == r && res.value.helper == HelperOf(rd, gen, r.meta).value
    ensures res.Ok? ==> res.value.Size() == r.meta.callbacks.sizeFunction.value(r.data)
    ensures res.Ok? ==> forall i :: (res.value.Element(i) ==
              CastValue(HelperOf(rd, gen, r.meta).value, r.meta.callbacks.getConstFunction.value(r.data, i)))
  {
    match HelperOf(rd, gen, r.meta)
    case Ok(h) => Ok(SequenceMemberRef(h, r))
    case Err(e) => Err(e)
  }
}
