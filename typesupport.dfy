/**
 * The runtime type descriptors of the reflective codec: the ROS type kinds,
 * the C++ types they are stored as, the tree of value-type descriptors with
 * their sizes and alignments, object construction and destruction, and the
 * small span and iterator helpers.
 *
 * Sizes and alignments are those of x86-64 Linux with libstdc++.
 */
module TypeSupport {
  import opened Wire

  /** The two introspection type-support generators. */
  datatype TypeGenerator = RosidlC | RosidlCpp

  /** The type kind of a member, shared by the C and C++ introspection structs. */
  datatype TypeKind =
    | Float | Double | LongDouble | Char | WChar | Boolean | Octet
    | UInt8 | Int8 | UInt16 | Int16 | UInt32 | Int32 | UInt64 | Int64
    | String | WString | Message

  predicate IsPrimitive(k: TypeKind)
  {
    !(k.String? || k.WString? || k.Message?)
  }

  type PrimitiveKind = k: TypeKind | IsPrimitive(k) witness Float

  /** The C++ types a primitive member can be stored as. */
  datatype ConcreteType =
    | CFloat | CDouble | CLongDouble | CChar | CChar16 | CBool
    | CUnsignedChar | CSignedChar | CUnsignedShort | CShort
    | CUnsignedInt | CInt | CUnsignedLong | CLong

  /** `sizeof` of each concrete type. */
  function SizeOf(c: ConcreteType): nat
  {
    match c
    case CFloat => 4
    case CDouble => 8
    case CLongDouble => 16
    case CChar | CBool | CUnsignedChar | CSignedChar => 1
    case CChar16 | CUnsignedShort | CShort => 2
    case CUnsignedInt | CInt => 4
    case CUnsignedLong | CLong => 8
  }

  /** `alignof` of each concrete type: on this platform every scalar is aligned to its size. */
  function AlignOf(c: ConcreteType): nat
  {
    SizeOf(c)
  }

  /**
   * The concrete type each primitive kind is stored as. OCTET and UINT8 are
   * both `unsigned char` (`uint_least8_t` and `uint8_t` are that type), INT8
   * is `signed char`, and the 64-bit kinds are `long`.
   */
  function ConcreteTypeOf(k: PrimitiveKind): ConcreteType
  {
    match k
    case Float => CFloat
    case Double => CDouble
    case LongDouble => CLongDouble
    case Char => CChar
    case WChar => CChar16
    case Boolean => CBool
    case Octet => CUnsignedChar
    case UInt8 => CUnsignedChar
    case Int8 => CSignedChar
    case UInt16 => CUnsignedShort
    case Int16 => CShort
    case UInt32 => CUnsignedInt
    case Int32 => CInt
    case UInt64 => CUnsignedLong
    case Int64 => CLong
  }

  /** Two primitive kinds share a concrete type only when they are OCTET and UINT8. */
  lemma ConcreteTypeOfInjective(j: PrimitiveKind, k: PrimitiveKind)
    ensures ConcreteTypeOf(j) == ConcreteTypeOf(k) <==>
            j == k || ({j, k} == {Octet, UInt8})
  {
  }

  /** The width in bytes of a primitive kind, as stored. */
  function PrimitiveSize(k: PrimitiveKind): (n: nat)
    ensures n in {1, 2, 4, 8, 16}
  {
    SizeOf(ConcreteTypeOf(k))
  }

  /**
   * `PrimitiveValueType::apply_to_concrete_type`: the concrete type of a
   * primitive kind; STRING, WSTRING and MESSAGE raise a logic error.
   */
  function ApplyToConcreteType(k: TypeKind): (r: Result<ConcreteType>)
    ensures r.Ok? <==> IsPrimitive(k)
    ensures r.Err? ==> r.error == LogicError
    ensures r.Ok? ==> r.value == ConcreteTypeOf(k)
  {
    if IsPrimitive(k) then Ok(ConcreteTypeOf(k)) else Err(LogicError)
  }

  /** The logical value-type discriminant of a descriptor. */
  datatype EValueType =
    | PrimitiveValueType | U8StringValueType | U16StringValueType | StructValueType
    | ArrayValueType | SpanSequenceValueType | BoolVectorValueType

  /** How a span sequence's storage is reached. */
  datatype SequenceStorage =
    | CallbackC        // through the C introspection callbacks
    | CallbackCpp      // through the C++ introspection callbacks
    | RosidlCSequence  // a `{data, size, capacity}` C sequence struct, owned directly

  /**
   * A value-type descriptor. String descriptors record whether the string is
   * a rosidl C string struct or a C++ `std::string`/`std::u16string`.
   */
  datatype AnyValueType =
    | Primitive(kind: PrimitiveKind)
    | U8String(host: TypeGenerator)
    | U16String(host: TypeGenerator)
    | Struct(sizeofStruct: nat, members: seq<Member>)
    | Array(element: AnyValueType, size: nat)
    | SpanSequence(element: AnyValueType, storage: SequenceStorage)
    | BoolVector

  /** A struct member: its descriptor and where it lies in the struct. */
  datatype Member = Member(name: string, valueType: AnyValueType, memberOffset: nat, nextMemberOffset: nat)

  /** `Member::get_member_data`: the address of the member inside the struct at `ptrToStruct`. */
  function GetMemberData(m: Member, ptrToStruct: nat): (p: nat)
    ensures p - ptrToStruct == m.memberOffset
  {
    ptrToStruct + m.memberOffset
  }

  /**
   * `PrimitiveValueType`'s constructor asserts that the kind is none of
   * STRING, WSTRING and MESSAGE.
   */
  function MakePrimitiveValueType(k: TypeKind): (t: AnyValueType)
    requires IsPrimitive(k)
    ensures t.Primitive? && t.kind == k
    ensures ApplyToConcreteType(t.kind).Ok?
  {
    Primitive(k)
  }

  /**
   * `e_value_type()`: each descriptor kind reports its own discriminant, so
   * `AnyValueType::apply` dispatches to exactly the matching kind.
   */
  function EValueTypeOf(t: AnyValueType): (e: EValueType)
    ensures e == PrimitiveValueType <==> t.Primitive?
    ensures e == U8StringValueType <==> t.U8String?
    ensures e == U16StringValueType <==> t.U16String?
    ensures e == StructValueType <==> t.Struct?
    ensures e == ArrayValueType <==> t.Array?
    ensures e == SpanSequenceValueType <==> t.SpanSequence?
    ensures e == BoolVectorValueType <==> t.BoolVector?
  {
    match t
    case Primitive(_) => PrimitiveValueType
    case U8String(_) => U8StringValueType
    case U16String(_) => U16StringValueType
    case Struct(_, _) => StructValueType
    case Array(_, _) => ArrayValueType
    case SpanSequence(_, _) => SpanSequenceValueType
    case BoolVector => BoolVectorValueType
  }

  /**
   * Descriptors that derive from `InstantiableValueType` and so have a size,
   * an alignment, a constructor and a destructor. Sequences reached only
   * through callbacks are not instantiable, and array and sequence elements
   * must be instantiable.
   */
  predicate Instantiable(t: AnyValueType)
  {
    match t
    case Array(e, _) => Instantiable(e)
    case SpanSequence(e, s) => s == RosidlCSequence && Instantiable(e)
    case _ => true
  }

  /** Every C++ object occupies at least one byte, so a struct's size is positive. */
  predicate WellSized(t: AnyValueType)
  {
    match t
    case Struct(n, _) => n > 0
    case Array(e, _) => WellSized(e)
    case SpanSequence(e, _) => WellSized(e)
    case _ => true
  }

  /** `sizeof_type()`. */
  function SizeofType(t: AnyValueType): nat
    requires Instantiable(t)
  {
    match t
    case Primitive(k) => PrimitiveSize(k)
    case U8String(host) => if host == RosidlC then 24 else 32     // rosidl C String / std::string
    case U16String(host) => if host == RosidlC then 24 else 32    // rosidl C U16String / std::u16string
    case Struct(n, _) => n
    case Array(e, n) => n * SizeofType(e)
    case SpanSequence(_, _) => 24                                  // {data, size, capacity}
    case BoolVector => 40                                          // std::vector<bool>
  }

  /** `alignof_type()`; arrays do not define it. */
  function AlignofType(t: AnyValueType): (a: nat)
    requires Instantiable(t) && !t.Array?
    ensures a in {1, 2, 4, 8, 16}
    ensures t.Struct? ==> a == 16
  {
    match t
    case Primitive(k) => AlignOf(ConcreteTypeOf(k))
    case Struct(_, _) => 16                                         // alignof(max_align_t)
    case _ => 8
  }

  /** A non-array object has a positive size that is a multiple of its alignment. */
  lemma SizeIsMultipleOfAlignment(t: AnyValueType)
    requires Instantiable(t) && WellSized(t) && !t.Array? && !t.Struct?
    ensures SizeofType(t) > 0 && SizeofType(t) % AlignofType(t) == 0
  {
  }

  /** An object of type `t` placed at `addr`. */
  datatype Placed = Placed(t: AnyValueType, addr: nat)

  /**
   * The objects that `ctor` and `dtor` act on, in order: an array's elements
   * are visited for i in [0, size) at `addr + i * sizeof(element)`; every
   * other descriptor is one object. For a struct this is a reading: its
   * `ctor` and `dtor` are declared in `InstantiableValueType` and never
   * defined.
   */
  function Leaves(t: AnyValueType, addr: nat): (ps: seq<Placed>)
    requires Instantiable(t)
    decreases t, 1
  {
    match t
    case Array(e, n) => ElementLeaves(e, addr, SizeofType(e), n)
    case _ => [Placed(t, addr)]
  }

  /** The address of element `i` of an array at `addr` whose elements are `stride` bytes apart. */
  function ElementAddress(addr: nat, stride: nat, i: nat): (a: nat)
    ensures addr <= a
  {
    addr + stride * i
  }

  /** The objects of the first `n` elements, `stride` bytes apart, of an array of `e` at `addr`. */
  function ElementLeaves(e: AnyValueType, addr: nat, stride: nat, n: nat): (ps: seq<Placed>)
    requires Instantiable(e)
    decreases e, 2, n
  {
    if n == 0 then [] else ElementLeaves(e, addr, stride, n - 1) + Leaves(e, ElementAddress(addr, stride, n - 1))
  }

  /** The element after element `n - 1` starts `stride` bytes further on. */
  lemma StrideStep(addr: nat, stride: nat, n: nat)
    requires n > 0
    ensures ElementAddress(addr, stride, n - 1) + stride == ElementAddress(addr, stride, n)
  {
  }

  /** Every object constructed for `t` at `addr` lies inside `[addr, addr + sizeof(t))`. */
  lemma {:induction false} LeavesWithinFootprint(t: AnyValueType, addr: nat)
    requires Instantiable(t)
    ensures forall p <- Leaves(t, addr) ::
      Instantiable(p.t) && !p.t.Array? &&
      addr <= p.addr && p.addr + Footprint(p) <= addr + SizeofType(t)
    decreases t, 1
  {
    if t.Array? {
      ElementLeavesWithinFootprint(t.element, addr, SizeofType(t.element), t.size);
      assert addr + SizeofType(t) == ElementAddress(addr, SizeofType(t.element), t.size);
    }
  }

  lemma {:induction false} ElementLeavesWithinFootprint(e: AnyValueType, addr: nat, stride: nat, n: nat)
    requires Instantiable(e) && stride == SizeofType(e)
    ensures forall p <- ElementLeaves(e, addr, stride, n) ::
      Instantiable(p.t) && !p.t.Array? &&
      addr <= p.addr && p.addr + Footprint(p) <= ElementAddress(addr, stride, n)
    decreases e, 2, n
  {
    if n > 0 {
      var base, end := ElementAddress(addr, stride, n - 1), ElementAddress(addr, stride, n);
      var before, last := ElementLeaves(e, addr, stride, n - 1), Leaves(e, base);
      assert ElementLeaves(e, addr, stride, n) == before + last;
      StrideStep(addr, stride, n);
      ElementLeavesWithinFootprint(e, addr, stride, n - 1);
      LeavesWithinFootprint(e, base);
      assert forall p <- before :: p.addr + Footprint(p) <= end;
      assert forall p <- last :: addr <= p.addr && p.addr + Footprint(p) <= end;
    }
  }

  /**
   * The objects `ctor` visits do not overlap and come in ascending address
   * order, so every byte of an array is initialised at most once.
   */
  lemma {:induction false} LeavesAscending(t: AnyValueType, addr: nat)
    requires Instantiable(t) && WellSized(t)
    ensures Ascending(Leaves(t, addr))
    decreases t, 1
  {
    if t.Array? {
      ElementLeavesAscending(t.element, addr, SizeofType(t.element), t.size);
    }
  }

  /** The number of bytes a placed object occupies. */
  function Footprint(p: Placed): nat
  {
    if Instantiable(p.t) then SizeofType(p.t) else 0
  }

  /** Each object ends before the next one begins. */
  predicate Ascending(ps: seq<Placed>)
  {
    forall i, j :: 0 <= i < j < |ps| ==> ps[i].addr + Footprint(ps[i]) <= ps[j].addr
  }

  lemma {:induction false} ElementLeavesAscending(e: AnyValueType, addr: nat, stride: nat, n: nat)
    requires Instantiable(e) && WellSized(e) && stride == SizeofType(e)
    ensures Ascending(ElementLeaves(e, addr, stride, n))
    decreases e, 2, n
  {
    if n > 0 {
      var base := ElementAddress(addr, stride, n - 1);
      var before, last := ElementLeaves(e, addr, stride, n - 1), Leaves(e, base);
      assert ElementLeaves(e, addr, stride, n) == before + last;
      ElementLeavesAscending(e, addr, stride, n - 1);
      LeavesAscending(e, base);
      ElementLeavesWithinFootprint(e, addr, stride, n - 1);
      LeavesWithinFootprint(e, base);
      AscendingConcat(before, last, base);
    }
  }

  /** Two ascending runs separated by `mid` form one ascending run. */
  lemma AscendingConcat(a: seq<Placed>, b: seq<Placed>, mid: nat)
    requires Ascending(a) && Ascending(b)
    requires forall p <- a :: p.addr + Footprint(p) <= mid
    requires forall p <- b :: mid <= p.addr
    ensures Ascending(a + b)
  {
    var all := a + b;
    forall i, j | 0 <= i < j < |all|
      ensures all[i].addr + Footprint(all[i]) <= all[j].addr
    {
      if i >= |a| {
        assert all[i] == b[i - |a|] && all[j] == b[j - |a|];
      } else if j < |a| {
        assert all[i] == a[i] && all[j] == a[j];
      } else {
        assert all[i] in a;
        assert all[j] in b;
      }
    }
  }

  /** An event in the life of the objects the descriptors manage. */
  datatype LifecycleEvent =
    | Constructed(obj: Placed)
    | Destroyed(obj: Placed)
    | Allocated(block: nat, bytes: nat)
    | Freed(block: nat)

  /** One construction event per object, in order. */
  function Constructions(ps: seq<Placed>): (es: seq<LifecycleEvent>)
    ensures |es| == |ps|
    ensures forall i :: 0 <= i < |ps| ==> es[i] == Constructed(ps[i])
  {
    seq(|ps|, i requires 0 <= i < |ps| => Constructed(ps[i]))
  }

  /** One destruction event per object, in order. */
  function Destructions(ps: seq<Placed>): (es: seq<LifecycleEvent>)
    ensures |es| == |ps|
    ensures forall i :: 0 <= i < |ps| ==> es[i] == Destroyed(ps[i])
  {
    seq(|ps|, i requires 0 <= i < |ps| => Destroyed(ps[i]))
  }

  lemma ConstructionsAppend(a: seq<Placed>, b: seq<Placed>)
    ensures Constructions(a + b) == Constructions(a) + Constructions(b)
  {
    assert forall i :: 0 <= i < |a + b| ==> Constructions(a + b)[i] == (Constructions(a) + Constructions(b))[i];
  }

  lemma DestructionsAppend(a: seq<Placed>, b: seq<Placed>)
    ensures Destructions(a + b) == Destructions(a) + Destructions(b)
  {
    assert forall i :: 0 <= i < |a + b| ==> Destructions(a + b)[i] == (Destructions(a) + Destructions(b))[i];
  }

  /**
   * The memory the descriptors construct objects in: a log of lifecycle
   * events and a bump allocator standing in for `malloc`.
   */
  class Heap {
    var log: seq<LifecycleEvent>
    var top: nat

    constructor()
      ensures log == [] && top == 0
    {
      log := [];
      top := 0;
    }

    /** `std::malloc(bytes)`: a fresh, non-null block. */
    method Malloc(bytes: nat) returns (block: nat)
      modifies this
      ensures block == old(top) + 1
      ensures top == block + bytes
      ensures log == old(log) + [Allocated(block, bytes)]
    {
      block := top + 1;
      top := block + bytes;
      log := log + [Allocated(block, bytes)];
    }

    /** `std::free(block)`. */
    method Free(block: nat)
      modifies this
      ensures top == old(top)
      ensures log == old(log) + [Freed(block)]
    {
      log := log + [Freed(block)];
    }

    /** `ctor(ptr)`: an array constructs its elements in index order; any other type is one object. */
    method Construct(t: AnyValueType, addr: nat)
      requires Instantiable(t)
      modifies this
      ensures top == old(top)
      ensures log == old(log) + Constructions(Leaves(t, addr))
      decreases t, 1
    {
      if t.Array? {
        ConstructElements(t.element, addr, t.size);
      } else {
        log := log + [Constructed(Placed(t, addr))];
      }
    }

    /** The loop `for i in [0, n): element->ctor(addr + element->sizeof_type() * i)`. */
    method ConstructElements(e: AnyValueType, addr: nat, n: nat)
      requires Instantiable(e)
      modifies this
      ensures top == old(top)
      ensures log == old(log) + Constructions(ElementLeaves(e, addr, SizeofType(e), n))
      decreases e, 2
    {
      hide Constructions, Destructions, Leaves, ElementAddress, SizeofType;
      var stride := SizeofType(e);
      var i := 0;
      while i < n
        invariant 0 <= i <= n
        invariant top == old(top)
        invariant log == old(log) + Constructions(ElementLeaves(e, addr, stride, i))
      {
        var at := ElementAddress(addr, stride, i);
        Construct(e, at);
        ConstructionsAppend(ElementLeaves(e, addr, stride, i), Leaves(e, at));
        i := i + 1;
      }
    }

    /** `dtor(ptr)`: an array destroys its elements in index order; any other type is one object. */
    method Destroy(t: AnyValueType, addr: nat)
      requires Instantiable(t)
      modifies this
      ensures top == old(top)
      ensures log == old(log) + Destructions(Leaves(t, addr))
      decreases t, 1
    {
      if t.Array? {
        DestroyElements(t.element, addr, t.size);
      } else {
        log := log + [Destroyed(Placed(t, addr))];
      }
    }

    method DestroyElements(e: AnyValueType, addr: nat, n: nat)
      requires Instantiable(e)
      modifies this
      ensures top == old(top)
      ensures log == old(log) + Destructions(ElementLeaves(e, addr, SizeofType(e), n))
      decreases e, 2
    {
      hide Constructions, Destructions, Leaves, ElementAddress, SizeofType;
      var stride := SizeofType(e);
      var i := 0;
      while i < n
        invariant 0 <= i <= n
        invariant top == old(top)
        invariant log == old(log) + Destructions(ElementLeaves(e, addr, stride, i))
      {
        var at := ElementAddress(addr, stride, i);
        Destroy(e, at);
        DestructionsAppend(ElementLeaves(e, addr, stride, i), Leaves(e, at));
        i := i + 1;
      }
    }
  }

  /** A rosidl C sequence struct `{data, size, capacity}`. */
  class SequenceObject {
    var data: nat
    var size: nat
    var capacity: nat

    constructor(data: nat, size: nat, capacity: nat)
      ensures this.data == data && this.size == size && this.capacity == capacity
    {
      this.data := data;
      this.size := size;
      this.capacity := capacity;
    }
  }

  /**
   * `ROSIDLC_SpanSequenceValueType::resize`: allocate room for `count`
   * elements, construct them all, destroy all the old ones, free the old
   * buffer, then make size and capacity both `count`.
   */
  method ResizeSequence(element: AnyValueType, s: SequenceObject, count: nat, heap: Heap)
    requires Instantiable(element)
    modifies s, heap
    ensures s.size == count && s.capacity == count
    ensures s.data == old(heap.top) + 1
    ensures heap.log == old(heap.log)
      + [Allocated(s.data, SizeofType(element) * count)]
      + Constructions(ElementLeaves(element, s.data, SizeofType(element), count))
      + Destructions(ElementLeaves(element, old(s.data), SizeofType(element), old(s.size)))
      + [Freed(old(s.data))]
  {
    var newData := heap.Malloc(SizeofType(element) * count);
    heap.ConstructElements(element, newData, count);
    var oldData, oldSize := s.data, s.size;
    heap.DestroyElements(element, oldData, oldSize);
    heap.Free(oldData);
    s.size, s.capacity := count, count;
    s.data := newData;
  }

  /** A `std::vector<bool>` as `BoolVectorValueType` sees it. */
  class BoolVectorObject {
    var bits: seq<bool>

    constructor(bits: seq<bool>)
      ensures this.bits == bits
    {
      this.bits := bits;
    }

    /** `BoolVectorValueType::size`. */
    function Size(): nat
      reads this
    {
      |bits|
    }

    /** `BoolVectorValueType::resize`: keep the first `count` bits, padding with `false`. */
    method Resize(count: nat)
      modifies this
      ensures Size() == count
      ensures count <= old(Size()) ==> bits == old(bits)[..count]
      ensures count > old(Size()) ==> bits[..old(Size())] == old(bits) &&
                                       forall i :: old(Size()) <= i < count ==> !bits[i]
    {
      if count <= |bits| {
        bits := bits[..count];
      } else {
        bits := bits + seq(count - |bits|, _ => false);
      }
    }
  }

  /** The element descriptor of every `std::vector<bool>`. */
  const BoolVectorElement: AnyValueType := Primitive(Boolean)

  /** `TypedSpan<T>`: `size` elements of `elemSize` bytes from `data`. */
  datatype TypedSpan = TypedSpan(data: nat, size: nat, elemSize: nat)
  {
    function SizeBytes(): nat
    {
      size * elemSize
    }
  }

  /** `UntypedSpan`: `sizeBytes` bytes from `data`. */
  datatype UntypedSpan = UntypedSpan(data: nat, sizeBytes: nat)
  {
    /** `cast<T>()`, which asserts that the bytes hold a whole number of `T`. */
    function Cast(elemSize: nat): (r: TypedSpan)
      requires elemSize > 0 && sizeBytes % elemSize == 0
      ensures r.data == data && r.elemSize == elemSize
      ensures r.SizeBytes() == sizeBytes
    {
      TypedSpan(data, sizeBytes / elemSize, elemSize)
    }
  }

  /** Viewing a typed span's bytes untyped and casting back gives the same span. */
  lemma CastRoundTrip(t: TypedSpan)
    requires t.elemSize > 0
    ensures t.SizeBytes() % t.elemSize == 0
    ensures UntypedSpan(t.data, t.SizeBytes()).Cast(t.elemSize) == t
  {
    DivOfExactMultiple(t.size, t.elemSize);
  }

  lemma DivOfExactMultiple(q: nat, d: nat)
    requires d > 0
    ensures (q * d) % d == 0 && (q * d) / d == q
  {
    ModUnique(q * d, d, q, 0);
  }

  /** `ChunkedIterator`: walks memory in chunks of `sizeBytes`. */
  class ChunkedIterator {
    var data: nat
    const sizeBytes: nat

    constructor(data: nat, sizeBytes: nat)
      ensures this.data == data && this.sizeBytes == sizeBytes
    {
      this.data := data;
      this.sizeBytes := sizeBytes;
    }

    /** `operator++`: advance by exactly one chunk. */
    method Next()
      modifies this
      ensures data == old(data) + sizeBytes
    {
      data := data + sizeBytes;
    }

    /** `n` successive `operator++` calls. */
    method Advance(n: nat)
      modifies this
      ensures data == old(data) + n * sizeBytes
    {
      var k := 0;
      while k < n
        invariant 0 <= k <= n
        invariant data == old(data) + k * sizeBytes
      {
        Next();
        assert (k + 1) * sizeBytes == k * sizeBytes + sizeBytes;
        k := k + 1;
      }
    }

    /** `operator*`: the current chunk. */
    function Current(): (r: UntypedSpan)
      reads this
      ensures r.data == data && r.sizeBytes == sizeBytes
    {
      UntypedSpan(data, sizeBytes)
    }

    /** `operator==`, which asserts both iterators use the same chunk size. */
    predicate Equals(other: ChunkedIterator)
      reads this, other
      requires sizeBytes == other.sizeBytes
    {
      data == other.data
    }
  }

  /**
   * Two iterators with the same chunk size that start together stay equal
   * after the same number of steps, and differ after different numbers of
   * steps when chunks are non-empty.
   */
  lemma ChunkedStepsAgree(start: nat, sizeBytes: nat, i: nat, j: nat)
    requires sizeBytes > 0
    ensures (start + i * sizeBytes == start + j * sizeBytes) <==> i == j
  {
    if i < j {
      MulAtLeast(sizeBytes, j - i);
      assert j * sizeBytes - i * sizeBytes == (j - i) * sizeBytes;
    } else if j < i {
      MulAtLeast(sizeBytes, i - j);
      assert i * sizeBytes - j * sizeBytes == (i - j) * sizeBytes;
    }
  }

  /**
   * Two iterators over non-empty chunks that start at the same address
   * compare equal after `i` and `j` increments exactly when `i == j`.
   */
  method StepsThenCompare(start: nat, sizeBytes: nat, i: nat, j: nat) returns (eq: bool)
    requires sizeBytes > 0
    ensures eq <==> i == j
  {
    var a := new ChunkedIterator(start, sizeBytes);
    var b := new ChunkedIterator(start, sizeBytes);
    a.Advance(i);
    b.Advance(j);
    eq := a.Equals(b);
    ChunkedStepsAgree(start, sizeBytes, i, j);
  }

  /** A type-support identifier: a C string at some address. */
  datatype Identifier = Identifier(addr: nat, text: string)

  const CIdentifierText: string := "rosidl_typesupport_introspection_c"
  const CppIdentifierText: string := "rosidl_typesupport_introspection_cpp"

  /** The two generators' identifiers differ. */
  lemma IdentifiersDistinct()
    ensures CIdentifierText != CppIdentifierText
  {
    assert |CIdentifierText| != |CppIdentifierText|;
  }

  /** The addresses of the two identifier constants in this process. */
  datatype KnownIdentifiers = KnownIdentifiers(cAddr: nat, cppAddr: nat)

  /**
   * `with_typesupport_info`: the generator an identifier names, tried by
   * pointer equality with the C then the C++ constant, then by string
   * comparison in the same order; anything else raises a runtime error.
   */
  function WithTypesupportInfo(id: Identifier, known: KnownIdentifiers): Result<TypeGenerator>
  {
    if id.addr == known.cAddr then Ok(RosidlC)
    else if id.addr == known.cppAddr then Ok(RosidlCpp)
    else if id.text == CIdentifierText then Ok(RosidlC)
    else if id.text == CppIdentifierText then Ok(RosidlCpp)
    else Err(RuntimeError)
  }

  /** An identifier stored at a constant's address has that constant's text. */
  predicate Consistent(id: Identifier, known: KnownIdentifiers)
  {
    (id.addr == known.cAddr ==> id.text == CIdentifierText) &&
    (id.addr == known.cppAddr ==> id.text == CppIdentifierText)
  }

  /**
   * The pointer comparisons are only a shortcut: the generator is decided by
   * the identifier's text alone.
   */
  lemma WithTypesupportInfoByText(id: Identifier, known: KnownIdentifiers)
    requires Consistent(id, known)
    ensures WithTypesupportInfo(id, known) == Ok(RosidlC) <==> id.text == CIdentifierText
    ensures WithTypesupportInfo(id, known) == Ok(RosidlCpp) <==> id.text == CppIdentifierText
    ensures WithTypesupportInfo(id, known).Err? <==>
            id.text != CIdentifierText && id.text != CppIdentifierText
    ensures WithTypesupportInfo(id, known).Err? ==> WithTypesupportInfo(id, known).error == RuntimeError
  {
    IdentifiersDistinct();
  }
}
