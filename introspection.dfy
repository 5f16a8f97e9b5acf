/**
 * The introspection view of a ROS message: the member descriptors that the
 * C and C++ introspection generators emit, how a member is classified as a
 * single value, a fixed array or a sequence, references to a message and
 * its members in memory, the rosidl C string and sequence wrappers, and the
 * lookup of a type support by generator.
 *
 * Memory is represented by addresses (`nat`); what lies at an address is
 * described by the value tree of module Messages.
 */
module Introspection {
  import opened Wire
  import opened TypeSupport

  /** `MemberContainerType`. */
  datatype MemberContainerType = Array | Sequence | SingleValue

  /**
   * The callbacks a sequence member provides (`size_function`,
   * `get_const_function`, `get_function`, `resize_function`); a null
   * function pointer is `None`. Addresses are passed and returned as `nat`.
   */
  datatype SequenceCallbacks = SequenceCallbacks(
    sizeFunction: Option<nat -> nat>,
    getConstFunction: Option<(nat, nat) -> nat>,
    getFunction: Option<(nat, nat) -> nat>,
    resizeFunction: Option<(nat, nat) -> bool>)

  /**
   * A `MessageMember` descriptor. `members` is the nested message's type
   * support (`members_`), which only MESSAGE members use.
   */
  datatype MessageMember = MessageMember(
    name: string,
    typeId: TypeKind,
    isArray: bool,
    arraySize: nat,
    isUpperBound: bool,
    offset: nat,
    members: MessageTypeSupport,
    callbacks: SequenceCallbacks)

  /** A `MessageMembers` descriptor: `member_count_` is `|members|`, `size_of_` is `sizeOf`. */
  datatype MessageMembers = MessageMembers(members: seq<MessageMember>, sizeOf: nat)

  /** A `ServiceMembers` descriptor. */
  datatype ServiceMembers = ServiceMembers(requestMembers: MessageMembers, responseMembers: MessageMembers)

  /**
   * A message type support handle: the identifier of the generator that
   * produced it and the descriptor it points to. The rosidl lookup
   * `get_message_typesupport_handle` finds a single handle exactly when the
   * identifiers are equal.
   */
  datatype MessageTypeSupport = MessageTypeSupport(identifier: string, data: MessageMembers)

  datatype ServiceTypeSupport = ServiceTypeSupport(identifier: string, data: ServiceMembers)

  /** A descriptor together with the generator whose layout it follows (`RTI_C` or `RTI_Cpp`). */
  datatype TypedMembers = TypedMembers(generator: TypeGenerator, meta: MessageMembers)

  datatype TypedServiceMembers = TypedServiceMembers(generator: TypeGenerator, meta: ServiceMembers)

  /**
   * `MemberRef::get_container_type` as written: a member that is an array
   * without an upper bound is a fixed array even when its size is zero.
   */
  function GetContainerTypeAsWritten(m: MessageMember): (r: Result<MemberContainerType>)
    ensures r.Ok?
    ensures r.value == SingleValue <==> !m.isArray
    ensures r.value == MemberContainerType.Array <==> m.isArray && !m.isUpperBound
    ensures r.value == Sequence <==> m.isArray && m.isUpperBound
  {
    if !m.isArray then Ok(SingleValue)
    else if m.isArray && !m.isUpperBound then Ok(MemberContainerType.Array)
    else if m.isArray && (m.arraySize == 0 || m.isUpperBound) then Ok(Sequence)
    else Err(RuntimeError)
  }

  /**
   * The member classification the introspection descriptors define: a fixed
   * array has a positive size and no upper bound; an unbounded sequence has
   * size zero, a bounded one an upper bound.
   */
  function ContainerType(m: MessageMember): (c: MemberContainerType)
    ensures c == SingleValue <==> !m.isArray
    ensures c == MemberContainerType.Array <==> m.isArray && m.arraySize > 0 && !m.isUpperBound
    ensures c == Sequence <==> m.isArray && (m.arraySize == 0 || m.isUpperBound)
  {
    if !m.isArray then SingleValue
    else if m.arraySize == 0 || m.isUpperBound then Sequence
    else MemberContainerType.Array
  }

  /**
   * The written classification agrees with the descriptors' exactly except
   * on unbounded sequences, which it calls fixed arrays.
   */
  lemma ContainerTypeAsWrittenDiffers(m: MessageMember)
    ensures GetContainerTypeAsWritten(m) == Ok(ContainerType(m)) <==>
            !(m.isArray && m.arraySize == 0 && !m.isUpperBound)
    ensures m.isArray && m.arraySize == 0 && !m.isUpperBound ==>
            GetContainerTypeAsWritten(m) == Ok(MemberContainerType.Array) && ContainerType(m) == Sequence
  {
  }

  /**
   * Which classification and value helper a routine follows: the source's
   * `get_container_type` and `with_value_helper` as written, or the
   * classification and stored types the introspection descriptors define.
   */
  datatype Reading = AsWritten | Intended

  /** The container type of a member under a reading. */
  function Classify(rd: Reading, m: MessageMember): (c: MemberContainerType)
    ensures rd == AsWritten ==> GetContainerTypeAsWritten(m) == Ok(c)
    ensures rd == Intended ==> c == ContainerType(m)
  {
    match rd
    case AsWritten => GetContainerTypeAsWritten(m).value
    case Intended => ContainerType(m)
  }

  /**
   * Both readings agree on single values and on bounded sequences; a member
   * the written classification takes for a fixed array is either a fixed
   * array the descriptors define or an unbounded sequence of size zero.
   */
  lemma ReadingsAgreeButOnUnboundedSequences(m: MessageMember)
    ensures Classify(AsWritten, m) == SingleValue <==> Classify(Intended, m) == SingleValue
    ensures Classify(AsWritten, m) == Sequence ==> Classify(Intended, m) == Sequence
    ensures Classify(AsWritten, m) == MemberContainerType.Array ==>
              Classify(Intended, m) == MemberContainerType.Array || m.arraySize == 0
    ensures Classify(AsWritten, m) != Classify(Intended, m) <==> m.isArray && m.arraySize == 0 && !m.isUpperBound
  {
  }

  /** An unbounded sequence member, as both generators describe `int32[] values`. */
  function UnboundedSequenceMember(): (m: MessageMember)
    ensures m.isArray && m.arraySize == 0 && !m.isUpperBound
  {
    MessageMember("values", Int32, true, 0, false, 0, MessageTypeSupport("", MessageMembers([], 0)),
                  SequenceCallbacks(None, None, None, None))
  }

  /** The concrete input: `int32[] values` is taken for a fixed array of size zero. */
  lemma UnboundedSequenceTakenForEmptyArray()
    ensures GetContainerTypeAsWritten(UnboundedSequenceMember()) == Ok(MemberContainerType.Array)
    ensures UnboundedSequenceMember().arraySize == 0
    ensures ContainerType(UnboundedSequenceMember()) == Sequence
  {
    ContainerTypeAsWrittenDiffers(UnboundedSequenceMember());
  }

  /** `MemberRef::is_submessage_type`. */
  predicate IsSubmessageType(m: MessageMember)
  {
    m.typeId == Message
  }

  /** A `MemberRef`: a member descriptor and the address of the member's data. */
  datatype MemberRef = MemberRef(meta: MessageMember, data: nat)

  /** `make_member_ref`: the `MemberRef` constructor asserts that the data pointer is not null. */
  function MakeMemberRef(meta: MessageMember, data: nat): (r: MemberRef)
    requires data != 0
    ensures r.meta == meta && r.data == data && r.data != 0
  {
    MemberRef(meta, data)
  }

  /** A `MessageRef`: a message descriptor and the address of a message. */
  datatype MessageRef = MessageRef(meta: MessageMembers, data: nat)
  {
    /** `size()`: the number of members. */
    function Size(): nat
    {
      |meta.members|
    }

    /**
     * `at(index)`: the member's descriptor and its data at `data + offset_`;
     * an index past the last member raises `out_of_range`.
     */
    function At(index: nat): (r: Result<MemberRef>)
      requires index < |meta.members| ==> data + meta.members[index].offset != 0
      ensures r.Err? <==> index >= Size()
      ensures r.Err? ==> r.error == OutOfRange
      ensures r.Ok? ==> r.value.meta == meta.members[index] &&
                        r.value.data == data + meta.members[index].offset
    {
      if index >= |meta.members| then Err(OutOfRange)
      else
        var member := meta.members[index];
        Ok(MakeMemberRef(member, data + member.offset))
    }
  }

  /** Looking members up by index visits every member descriptor, in order. */
  lemma AtEnumeratesMembers(r: MessageRef)
    requires r.data != 0
    ensures forall i :: 0 <= i < r.Size() ==> r.At(i).Ok? && r.At(i).value.meta == r.meta.members[i]
    ensures forall i :: 0 <= i < r.Size() ==> r.At(i).value.data >= r.data
    ensures r.At(r.Size()).Err?
  {
  }

  /** `get_message_typesupport_handle` on a single handle: found iff the identifiers agree. */
  predicate HandleFound(ts: MessageTypeSupport, identifier: string)
  {
    ts.identifier == identifier
  }

  predicate ServiceHandleFound(ts: ServiceTypeSupport, identifier: string)
  {
    ts.identifier == identifier
  }

  /**
   * `with_typesupport` for a message: the C introspection handle if there is
   * one, else the C++ one; otherwise `runtime_error`.
   */
  function WithTypesupport(ts: MessageTypeSupport): (r: Result<TypedMembers>)
    ensures r.Ok? <==> ts.identifier == CIdentifierText || ts.identifier == CppIdentifierText
    ensures r.Ok? ==> r.value.meta == ts.data
    ensures r.Ok? ==> (r.value.generator == RosidlC <==> ts.identifier == CIdentifierText)
    ensures r.Err? ==> r.error == RuntimeError
  {
    IdentifiersDistinct();
    if HandleFound(ts, CIdentifierText) then Ok(TypedMembers(RosidlC, ts.data))
    else if HandleFound(ts, CppIdentifierText) then Ok(TypedMembers(RosidlCpp, ts.data))
    else Err(RuntimeError)
  }

  /** `with_typesupport` for a service, in the same order. */
  function WithServiceTypesupport(ts: ServiceTypeSupport): (r: Result<TypedServiceMembers>)
    ensures r.Ok? <==> ts.identifier == CIdentifierText || ts.identifier == CppIdentifierText
    ensures r.Ok? ==> r.value.meta == ts.data
    ensures r.Ok? ==> (r.value.generator == RosidlC <==> ts.identifier == CIdentifierText)
    ensures r.Err? ==> r.error == RuntimeError
  {
    IdentifiersDistinct();
    if ServiceHandleFound(ts, CIdentifierText) then Ok(TypedServiceMembers(RosidlC, ts.data))
    else if ServiceHandleFound(ts, CppIdentifierText) then Ok(TypedServiceMembers(RosidlCpp, ts.data))
    else Err(RuntimeError)
  }

  /**
   * The C handle is preferred over the C++ one, and the lookup agrees with
   * `with_typesupport_info` on the generator an identifier names.
   */
  lemma WithTypesupportAgreesWithInfo(ts: MessageTypeSupport, addr: nat, known: KnownIdentifiers)
    requires Consistent(Identifier(addr, ts.identifier), known)
    ensures WithTypesupport(ts).Ok? <==> WithTypesupportInfo(Identifier(addr, ts.identifier), known).Ok?
    ensures WithTypesupport(ts).Ok? ==>
            WithTypesupportInfo(Identifier(addr, ts.identifier), known) == Ok(WithTypesupport(ts).value.generator)
  {
    WithTypesupportInfoByText(Identifier(addr, ts.identifier), known);
  }

  /** `with_message`: look up the type support, then refer to the message at `data`. */
  function WithMessage(ts: MessageTypeSupport, data: nat): (r: Result<MessageRef>)
    ensures r.Ok? <==> WithTypesupport(ts).Ok?
    ensures r.Ok? ==> r.value.meta == ts.data && r.value.data == data
    ensures r.Err? ==> r.error == RuntimeError
  {
    match WithTypesupport(ts)
    case Ok(tm) => Ok(MessageRef(tm.meta, data))
    case Err(e) => Err(e)
  }

  /** `make_service_request_ref`: the request part of a service. */
  function MakeServiceRequestRef(meta: ServiceMembers, data: nat): (r: MessageRef)
    ensures r.meta == meta.requestMembers && r.data == data
  {
    MessageRef(meta.requestMembers, data)
  }

  /** `make_service_response_ref`: the response part of a service. */
  function MakeServiceResponseRef(meta: ServiceMembers, data: nat): (r: MessageRef)
    ensures r.meta == meta.responseMembers && r.data == data
  {
    MessageRef(meta.responseMembers, data)
  }

  /**
   * The request and response views of a service call share the call's
   * address, and looking up member `i` in either reaches that part's own
   * member `i` at its offset from the call's address.
   */
  lemma ServiceViewsReachTheirParts(meta: ServiceMembers, data: nat)
    requires data != 0
    ensures forall i :: 0 <= i < |meta.requestMembers.members| ==>
              MakeServiceRequestRef(meta, data).At(i) ==
              Ok(MemberRef(meta.requestMembers.members[i], data + meta.requestMembers.members[i].offset))
    ensures forall i :: 0 <= i < |meta.responseMembers.members| ==>
              MakeServiceResponseRef(meta, data).At(i) ==
              Ok(MemberRef(meta.responseMembers.members[i], data + meta.responseMembers.members[i].offset))
    ensures MakeServiceRequestRef(meta, data).At(|meta.requestMembers.members|).Err?
    ensures MakeServiceResponseRef(meta, data).At(|meta.responseMembers.members|).Err?
  {
  }

  /**
   * `with_submessage_typesupport`: asserts that the member is a message,
   * then looks its type support up.
   */
  function WithSubmessageTypesupport(m: MessageMember): (r: Result<TypedMembers>)
    requires IsSubmessageType(m)
    ensures r.Ok? ==> r.value.meta == m.members.data
    ensures r.Err? <==> m.members.identifier != CIdentifierText &&
                        m.members.identifier != CppIdentifierText
  {
    WithTypesupport(m.members)
  }

  /** `RTI_C::String`: a rosidl C string of `size` characters at `data`. */
  datatype RtiCString = RtiCString(data: nat, size: nat, capacity: nat)
  {
    function Begin(): nat
    {
      data
    }

    /** `end()`: one past the last character, so `end() - begin() == size()`. */
    function End(): (p: nat)
      ensures p - Begin() == size
      ensures p >= Begin()
    {
      data + size
    }
  }

  /** `RTI_C::WString`: a rosidl C 16-bit string; `units` are `data[0..size)`. */
  class WString {
    const units: seq<char16>

    constructor(units: seq<char16>)
      ensures this.units == units
    {
      this.units := units;
    }

    /** `size()`. */
    function Size(): nat
    {
      |units|
    }

    /** `begin()`: an iterator at position 0. */
    method Begin() returns (it: WStringIterator)
      ensures fresh(it) && it.str == this && it.position == 0
    {
      it := new WStringIterator(this, 0);
    }

    /** `end()`: an iterator at position `size()`. */
    method End() returns (it: WStringIterator)
      ensures fresh(it) && it.str == this && it.position == Size()
    {
      it := new WStringIterator(this, Size());
    }
  }

  /** `RTI_C::WString::iterator`: a reference to the string and a position. */
  class WStringIterator {
    const str: WString
    var position: nat

    constructor(str: WString, position: nat)
      ensures this.str == str && this.position == position
    {
      this.str := str;
      this.position := position;
    }

    /** `operator++`. */
    method Increment()
      modifies this
      ensures position == old(position) + 1
    {
      position := position + 1;
    }

    /** `operator*`: the unit at the position, or `out_of_range` past the end. */
    function Deref(): (r: Result<char16>)
      reads this
      ensures r.Ok? <==> position < str.Size()
      ensures r.Ok? ==> r.value == str.units[position]
      ensures r.Err? ==> r.error == OutOfRange
    {
      if str.Size() <= position then Err(OutOfRange) else Ok(str.units[position])
    }

    /** `operator==`, which asserts that both iterators refer to the same string. */
    predicate Equals(other: WStringIterator)
      reads this, other
      requires str == other.str
    {
      position == other.position
    }
  }

  /**
   * The range-for over an `RTI_C::WString` (`for (char16_t s : value)`):
   * from `begin()` to `end()`, dereferencing and advancing; it yields
   * exactly the string's units, in order, and never raises.
   */
  method WStringUnits(w: WString) returns (us: seq<char16>)
    ensures us == w.units
  {
    var it := w.Begin();
    var end := w.End();
    us := [];
    while !it.Equals(end)
      invariant it.str == w && end.str == w && end.position == |w.units|
      invariant it.position <= |w.units|
      invariant us == w.units[..it.position]
      decreases |w.units| - it.position
    {
      var u := it.Deref();
      us := us + [u.value];
      it.Increment();
    }
  }

  /** `RTI_C::Sequence<T>`: `size` elements of `elemSize` bytes from `data`. */
  datatype RtiCSequence = RtiCSequence(data: nat, size: nat, capacity: nat, elemSize: nat)
  {
    /** `end()`: one element past the last. */
    function End(): nat
    {
      data + elemSize * size
    }

    /** `operator[]`, which asserts `index < size()`: the element's address, inside the sequence. */
    function Index(index: nat): (p: nat)
      requires index < size
      ensures data <= p && p + elemSize <= End()
      ensures p == data + elemSize * index
    {
      ElementWithin(elemSize, index, size);
      data + elemSize * index
    }
  }

  /** `ArrayRef<T>`: `n` elements of `elemSize` bytes from `data`. */
  datatype ArrayRef = ArrayRef(data: nat, n: nat, elemSize: nat)
  {
    function Size(): nat
    {
      n
    }

    /** `operator[]`, which asserts `index < size()`: the element's address, inside the array. */
    function Index(index: nat): (p: nat)
      requires index < Size()
      ensures data <= p && p + elemSize <= data + elemSize * n
      ensures p == data + elemSize * index
    {
      ElementWithin(elemSize, index, n);
      data + elemSize * index
    }
  }

  /** Element `index` of `n` elements of `size` bytes ends within the `size * n` bytes. */
  lemma ElementWithin(size: nat, index: nat, n: nat)
    requires index < n
    ensures size * index + size <= size * n
  {
    assert size * index + size == size * (index + 1);
    MulMonotone(size, index + 1, n);
  }

  lemma MulMonotone(size: nat, a: nat, b: nat)
    requires a <= b
    ensures size * a <= size * b
  {
    assert size * b == size * a + size * (b - a);
  }
}
