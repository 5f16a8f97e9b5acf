# Reflective CDR codec of rmw_cyclonedds_cpp, in Dafny

This project models the part of `rmw_cyclonedds_cpp` (the ROS 2 middleware layer over Eclipse
Cyclone DDS) that turns ROS messages into CDR bytes and back. It proves properties of that model.

The model has four parts:

- **The type-descriptor layer** (`typesupport.dfy`, module `TypeSupport`). It covers:
  - the value-type descriptors: primitive, string, struct, array, span sequence and bool vector;
  - their sizes, alignments, constructors and destructors, the last two recorded as an event log;
  - sequence resizing;
  - typed and untyped spans and the chunked iterator;
  - the choice of code generator from a type support identifier.
- **The introspection views** (`introspection.dfy`, `value_helpers.dfy`, `typed_values.dfy`). They cover:
  - how a member is classified as a single value, a fixed array or a sequence;
  - bounds-checked member lookup;
  - C and C++ type support dispatch;
  - value helpers and strided array addressing;
  - the visit of every value a member holds.
- **The CDR writer** (`cdr_encoding.dfy`, `serialization.dfy`). A message is an abstract value tree
  (`messages.dfy`). `CdrEncoding` says, as pure functions, which bytes the writer emits:
  - the 4-byte encapsulation header (section 10 of the OMG DDSI-RTPS 2.3 specification);
  - alignment padding, as in section 9.3.1 of CORBA 3.3 Part 2 but capped at 4 bytes;
  - primitives, narrow and wide strings, arrays, sequences, nested messages and service requests.

  `Serialization` holds the two byte sinks as classes. `SizeAccumulator` only counts bytes;
  `DataAccumulator` copies them into a caller's array. `CDRWriter` runs one traversal over either
  sink. The entry points' contracts prove that the counting pass and the copying pass agree.
  The writer and its byte functions take a `Reading`. `AsWritten` classifies members with
  `get_container_type` and picks value helpers with `with_value_helper`, both as the source writes
  them; this is the source's writer. `Intended` uses the classification and stored types the
  introspection descriptors define. Lemmas compare the two (see "## Findings"). The
  earlier revision of the writer (`legacy_encoding.dfy`, `serialization_legacy.dfy`) is proved to
  produce the same bytes wherever the current writer completes.
- **The older stream codec** (`serdes_layout.dfy`, `serdes.dfy`):
  - `cycser` is a writer with a 4-byte reserved prefix that aligns each value to its full size;
  - `cycdeserbase`/`cycdeser` is a bounds-checked reader;
  - `cycprint` is a diagnostic printer, modelled as its `buf`/`bufsize` accounting.

  `SerdesLayout` states each operation as a pure function on a writer state (`Out`) or a reader
  state (`In`). The classes in `Serdes` are proved against those functions. A round trip shows
  that integral scalars, `std::string`, `std::vector<bool>` and `std::vector<T>` of an integral
  `T`, written by `cycser` in any order, read back through `cycdeser`. `std::wstring` has a round
  trip of its own, and `std::array` has none (see "## Left out").

`Wire` holds the shared byte-level definitions: bytes, byte order, fixed-width unsigned
encodings, exceptions and `Result`.

Sizes are those of x86-64 Linux with libstdc++:

| C++ type | size in bytes |
|---|---|
| `wchar_t` | 4 |
| `long double` | 16 |
| `std::string` and `std::u16string` | 32 |
| `std::wstring` | 32 |

`max_align_t` has an alignment of 16. The platform byte order (`DDSRT_ENDIAN`) is a parameter.

## Model

| member | source | states |
|---|---|---|
| Wire.Zeros | rmw_cyclonedds_cpp/src/Serialization.cpp:85-88 | The fill `align` writes: `n` bytes, every one of them zero. |
| Wire.Pow256 | rmw_cyclonedds_cpp/src/Serialization.cpp:169-172 | The number of values a `width`-byte unsigned integer can hold; always positive. |
| Wire.UIntBytes | rmw_cyclonedds_cpp/src/Serialization.cpp:122-127 | The `width` bytes a `memcpy` of an unsigned integer stores, in either byte order. A value that is too wide is truncated modulo 256^width, as a C cast truncates it. |
| Wire.UIntRoundTrip | rmw_cyclonedds_cpp/src/Serialization.cpp:122-127 | A value below 256^width reads back unchanged from the bytes stored for it, in either byte order. |
| Wire.Reversed | rmw_cyclonedds_cpp/include/rmw_cyclonedds_cpp/serdes.hpp:117-124 | The byte reversal `maybe_bswap` attempts: same length, byte `i` taken from position `n-1-i`. |
| Wire.ReversedInvolution | rmw_cyclonedds_cpp/include/rmw_cyclonedds_cpp/serdes.hpp:117-124 | Reversing the bytes twice gives back the original bytes. |
| TypeSupport.ConcreteTypeOfInjective | rmw_cyclonedds_cpp/src/TypeSupport2.hpp:517-555 | Two primitive kinds map to the same concrete C++ type exactly when they are the same kind or are OCTET and UINT8. |
| TypeSupport.PrimitiveSize | rmw_cyclonedds_cpp/src/TypeSupport2.hpp:573-576 | Every primitive kind is 1, 2, 4, 8 or 16 bytes wide. |
| TypeSupport.ApplyToConcreteType | rmw_cyclonedds_cpp/src/TypeSupport2.hpp:516-555 | Succeeds exactly for the 15 primitive kinds, each giving its concrete type. STRING, WSTRING and MESSAGE raise `logic_error`. |
| TypeSupport.MakePrimitiveValueType | rmw_cyclonedds_cpp/src/TypeSupport2.hpp:506-512 | A primitive descriptor can only be built for a primitive kind, and it keeps that kind, so `apply_to_concrete_type` on it always succeeds. |
| TypeSupport.EValueTypeOf | rmw_cyclonedds_cpp/src/TypeSupport2.hpp:741-759 | Each of the seven descriptor kinds reports its own discriminant and no other kind reports it (one iff per kind), so `apply` reaches exactly the matching subtype. |
| TypeSupport.AlignofType | rmw_cyclonedds_cpp/src/TypeSupport2.hpp:338 | Every non-array descriptor is aligned to 1, 2, 4, 8 or 16 bytes; a struct is aligned to `alignof(max_align_t)`, which is 16. |
| TypeSupport.SizeIsMultipleOfAlignment | rmw_cyclonedds_cpp/src/TypeSupport2.hpp:199-200 | A non-array, non-struct descriptor has a positive size that is a multiple of its alignment. |
| TypeSupport.LeavesWithinFootprint | rmw_cyclonedds_cpp/src/TypeSupport2.hpp:353-368 | Every object that `ctor`/`dtor` reaches for a descriptor at `addr` lies within `[addr, addr + sizeof_type())`, where an array's size is `array_size * element size`. |
| TypeSupport.ElementLeavesWithinFootprint | rmw_cyclonedds_cpp/src/TypeSupport2.hpp:357-368 | The objects of an array's first `n` elements lie between the array's address and the address of element `n`. |
| TypeSupport.LeavesAscending | rmw_cyclonedds_cpp/src/TypeSupport2.hpp:357-368 | The objects `ctor` visits come in ascending address order without overlap, so no byte is constructed twice. |
| TypeSupport.ElementLeavesAscending | rmw_cyclonedds_cpp/src/TypeSupport2.hpp:357-362 | The same holds for the elements of an array taken one after another. |
| TypeSupport.Constructions | rmw_cyclonedds_cpp/src/TypeSupport2.hpp:201-205 | One construction event per object, in the objects' order. |
| TypeSupport.Destructions | rmw_cyclonedds_cpp/src/TypeSupport2.hpp:206-211 | One destruction event per object, in the objects' order. |
| TypeSupport.Heap.constructor | rmw_cyclonedds_cpp/src/TypeSupport2.hpp:483 | The allocation log starts empty. |
| TypeSupport.Heap.Malloc | rmw_cyclonedds_cpp/src/TypeSupport2.hpp:483 | `malloc` returns a fresh non-null block past every earlier one and logs the allocation with its byte count. |
| TypeSupport.Heap.Free | rmw_cyclonedds_cpp/src/TypeSupport2.hpp:495 | `free` logs exactly one release of the block and allocates nothing. |
| TypeSupport.Heap.Construct | rmw_cyclonedds_cpp/src/TypeSupport2.hpp:357-362 | `ctor` appends one construction per object of the descriptor, an array's elements in index order, and nothing else. |
| TypeSupport.Heap.ConstructElements | rmw_cyclonedds_cpp/src/TypeSupport2.hpp:359-361 | The element loop constructs elements `0..n-1`, in order, at `addr + i * sizeof(element)`. |
| TypeSupport.Heap.Destroy | rmw_cyclonedds_cpp/src/TypeSupport2.hpp:363-368 | `dtor` appends one destruction per object of the descriptor, in index order, and nothing else. |
| TypeSupport.Heap.DestroyElements | rmw_cyclonedds_cpp/src/TypeSupport2.hpp:365-367 | The element loop destroys elements `0..n-1`, in order, at `addr + i * sizeof(element)`. |
| TypeSupport.SequenceObject.constructor | rmw_cyclonedds_cpp/src/TypeSupport2.hpp:411-416 | A sequence object holds the given data pointer, size and capacity. |
| TypeSupport.ResizeSequence | rmw_cyclonedds_cpp/src/TypeSupport2.hpp:479-499 | After `resize(count)`, size and capacity are both `count` and the data is the new block. The log shows, in this order: the allocation of `count` element sizes, the construction of all `count` new elements, the destruction of all old elements, and the release of the old block. |
| TypeSupport.BoolVectorObject.constructor | rmw_cyclonedds_cpp/src/TypeSupport2.hpp:586 | A bool vector holds the given bits. |
| TypeSupport.BoolVectorObject.Resize | rmw_cyclonedds_cpp/src/TypeSupport2.hpp:608-610 | `resize(count)` gives length `count`. Shrinking keeps the first `count` bits; growing keeps the old bits and adds `false` bits. |
| TypeSupport.UntypedSpan.Cast | rmw_cyclonedds_cpp/src/TypeSupport2.hpp:94-99 | `cast<T>` needs a whole number of elements. It keeps the data pointer, and the typed span's `size_bytes` equals the untyped one's. |
| TypeSupport.CastRoundTrip | rmw_cyclonedds_cpp/src/TypeSupport2.hpp:77 | A typed span's `size_bytes` is a multiple of its element size, and casting its untyped view back gives the same span. |
| TypeSupport.ChunkedIterator.constructor | rmw_cyclonedds_cpp/src/TypeSupport2.hpp:104-109 | The iterator starts at the given address with the given chunk size. |
| TypeSupport.ChunkedIterator.Next | rmw_cyclonedds_cpp/src/TypeSupport2.hpp:111-115 | `operator++` advances the position by exactly one chunk. |
| TypeSupport.ChunkedIterator.Advance | rmw_cyclonedds_cpp/src/TypeSupport2.hpp:111-115 | `n` increments move the position by exactly `n` chunks. |
| TypeSupport.StepsThenCompare | rmw_cyclonedds_cpp/src/TypeSupport2.hpp:117-121 | Two iterators over non-empty chunks that start together compare equal after `i` and `j` increments exactly when `i == j`. |
| TypeSupport.IdentifiersDistinct | rmw_cyclonedds_cpp/src/TypeSupport2.hpp:220-238 | The C and C++ introspection identifiers have different texts. |
| TypeSupport.WithTypesupportInfoByText | rmw_cyclonedds_cpp/src/TypeSupport2.hpp:250-278 | When the identifier at each known address has that constant's text, the result depends only on the text. The C text selects ROSIDL_C, the C++ text selects ROSIDL_Cpp, and any other text raises `runtime_error`. |
| Introspection.GetContainerTypeAsWritten | rmw_cyclonedds_cpp/include/rmw_cyclonedds_cpp/TypeSupport2.hpp:271-278 | As written, the classification is total. A non-array is SingleValue; an array without an upper bound is Array, whatever its size; a bounded array is Sequence. The throw is unreachable. |
| Introspection.ContainerType | rmw_cyclonedds_cpp/include/rmw_cyclonedds_cpp/TypeSupport2.hpp:271-278 | The intended classification. A non-array is SingleValue; an array with positive size and no upper bound is Array; an array with size 0 or an upper bound is Sequence. |
| Introspection.ContainerTypeAsWrittenDiffers | rmw_cyclonedds_cpp/include/rmw_cyclonedds_cpp/TypeSupport2.hpp:274-275 | The two classifications agree exactly when the member is not an array of size 0 without an upper bound. For that member the written code says Array and the intended one says Sequence. |
| Introspection.UnboundedSequenceMember | rmw_cyclonedds_cpp/include/rmw_cyclonedds_cpp/TypeSupport2.hpp:274-275 | An unbounded sequence member is an array with size 0 and no upper bound. |
| Introspection.UnboundedSequenceTakenForEmptyArray | rmw_cyclonedds_cpp/include/rmw_cyclonedds_cpp/TypeSupport2.hpp:274-275 | The concrete input `int32[] values` is classified as a fixed array of size 0, not as a sequence. |
| Introspection.ReadingsAgreeButOnUnboundedSequences | rmw_cyclonedds_cpp/include/rmw_cyclonedds_cpp/TypeSupport2.hpp:271-278 | The written and the intended classification agree on single values and on sequences with an upper bound; a member the written one calls a fixed array is a fixed array or has size 0, and they differ exactly on arrays of size 0 without an upper bound. |
| Introspection.MessageRef.At | rmw_cyclonedds_cpp/include/rmw_cyclonedds_cpp/TypeSupport2.hpp:336-344 | `at(i)` raises `out_of_range` iff `i >= size()`. Otherwise it refers to member `i`'s descriptor at `data + offset_`. |
| Introspection.AtEnumeratesMembers | rmw_cyclonedds_cpp/include/rmw_cyclonedds_cpp/TypeSupport2.hpp:223 | Every index below `size()` reaches its member descriptor, in order, never below the message's address; index `size()` fails. |
| Introspection.WithTypesupport | rmw_cyclonedds_cpp/include/rmw_cyclonedds_cpp/TypeSupport2.hpp:151-162 | Succeeds iff the handle carries the C or the C++ identifier, giving its members and the generator it names. The C identifier is preferred. Otherwise it raises `runtime_error`. |
| Introspection.WithServiceTypesupport | rmw_cyclonedds_cpp/include/rmw_cyclonedds_cpp/TypeSupport2.hpp:164-175 | The same lookup for service type supports, in the same order. |
| Introspection.WithTypesupportAgreesWithInfo | rmw_cyclonedds_cpp/include/rmw_cyclonedds_cpp/TypeSupport2.hpp:151-162 | The message lookup succeeds iff `with_typesupport_info` recognises the identifier, and both choose the same generator. |
| Introspection.WithMessage | rmw_cyclonedds_cpp/include/rmw_cyclonedds_cpp/TypeSupport2.hpp:317-322 | `with_message` fails exactly when the type support lookup fails, with `runtime_error`. Otherwise it refers to the message at `data`. |
| Introspection.ServiceViewsReachTheirParts | rmw_cyclonedds_cpp/include/rmw_cyclonedds_cpp/TypeSupport2.hpp:324-334 | The request and response views of a call share its address; member `i` of either view is that part's own member `i` at its offset, and the index one past the end is out of range. |
| Introspection.WithSubmessageTypesupport | rmw_cyclonedds_cpp/include/rmw_cyclonedds_cpp/TypeSupport2.hpp:291-297 | Only a MESSAGE member may be asked. Its nested type support fails iff its identifier is neither the C nor the C++ one. |
| Introspection.WString.constructor | rmw_cyclonedds_cpp/include/rmw_cyclonedds_cpp/TypeSupport2.hpp:80-84 | A wide string holds its code units. |
| Introspection.WString.Begin | rmw_cyclonedds_cpp/include/rmw_cyclonedds_cpp/TypeSupport2.hpp:112 | `begin()` is a fresh iterator over this string at position 0. |
| Introspection.WString.End | rmw_cyclonedds_cpp/include/rmw_cyclonedds_cpp/TypeSupport2.hpp:113 | `end()` is a fresh iterator over this string at position `size()`. |
| Introspection.WStringIterator.constructor | rmw_cyclonedds_cpp/include/rmw_cyclonedds_cpp/TypeSupport2.hpp:86-89 | An iterator refers to its string at the given position. |
| Introspection.WStringIterator.Increment | rmw_cyclonedds_cpp/include/rmw_cyclonedds_cpp/TypeSupport2.hpp:90-94 | `operator++` adds exactly 1 to the position. |
| Introspection.WStringIterator.Deref | rmw_cyclonedds_cpp/include/rmw_cyclonedds_cpp/TypeSupport2.hpp:96-102 | `operator*` gives the unit at the position iff the position is below `size()`; otherwise it raises `out_of_range`. |
| Introspection.WStringUnits | rmw_cyclonedds_cpp/include/rmw_cyclonedds_cpp/TypeSupport2.hpp:86-113 | A range-for from `begin()` to `end()` yields exactly the string's units, in order, and never raises. |
| Introspection.RtiCSequence.Index | rmw_cyclonedds_cpp/include/rmw_cyclonedds_cpp/TypeSupport2.hpp:127-130 | For an index below `size()`, `operator[]` is element `index`, and the whole element lies inside the sequence. |
| Introspection.ArrayRef.Index | rmw_cyclonedds_cpp/include/rmw_cyclonedds_cpp/TypeSupport2.hpp:236-239 | For an index below `size()`, `operator[]` is element `index`, and the whole element lies inside the array. |
| ValueHelpers.WithType | rmw_cyclonedds_cpp/src/TypeSupport2_impl.hpp:8-44 | Succeeds exactly for the 15 primitive kinds. STRING, WSTRING and MESSAGE raise `invalid_argument`. |
| ValueHelpers.WithTypeAgreesWithConcreteType | rmw_cyclonedds_cpp/src/TypeSupport2_impl.hpp:8-44 | `with_type` and `apply_to_concrete_type` accept the same kinds and pick the same C++ type for each. |
| ValueHelpers.CharSize | rmw_cyclonedds_cpp/src/TypeSupport2_impl.hpp:77-80 | A string type's character is 1, 2 or 4 bytes. |
| ValueHelpers.WithValueHelperAsWritten | rmw_cyclonedds_cpp/src/TypeSupport2_impl.hpp:67-107 | As written, every non-message member gets a native helper, and a C++ WSTRING member gets `std::wstring`. |
| ValueHelpers.WithValueHelper | rmw_cyclonedds_cpp/src/TypeSupport2_impl.hpp:67-107 | Fails iff the member is a message whose type support is not recognised, with `runtime_error`. A message gets a message helper; a primitive gets its concrete type; STRING gets 1-byte characters; WSTRING gets 2-byte characters. |
| ValueHelpers.WithValueHelperAsWrittenDiffers | rmw_cyclonedds_cpp/src/TypeSupport2_impl.hpp:77-80 | The written and the corrected helper differ exactly on WSTRING members of C++ messages. |
| Messages.ConformsUnderWrittenHelper | rmw_cyclonedds_cpp/src/TypeSupport2_impl.hpp:77-80 | A value stored as the descriptors define is also of the type the written helper reads it as, so the writer as written can be given every conforming message. |
| ValueHelpers.WStringMemberReadWithWrongCharSize | rmw_cyclonedds_cpp/src/TypeSupport2_impl.hpp:79-80 | For a C++ WSTRING member, the written helper reads 4-byte characters; the C++ generator stores 2-byte ones. |
| ValueHelpers.SizeofValueMatchesDescriptor | rmw_cyclonedds_cpp/src/TypeSupport2_impl.hpp:46-58 | A helper's `sizeof_value` is the `sizeof_type` of the descriptor built for the same member kind. |
| ValueHelpers.ArrayElementsAdjacent | rmw_cyclonedds_cpp/src/TypeSupport2_impl.hpp:131-139 | Each element starts where the one before it ends, and every element lies within `size() * sizeof_value()` bytes of the member. |
| ValueHelpers.WithSingleValue | rmw_cyclonedds_cpp/src/TypeSupport2_impl.hpp:117-124 | Only members the reading classifies as single values may be asked; under `AsWritten` the assertion and the helper are the source's own. It fails iff the reading's value helper does, keeps that helper, and `get()` reads at the member's address. |
| ValueHelpers.WithArray | rmw_cyclonedds_cpp/src/TypeSupport2_impl.hpp:142-149 | Only members the reading classifies as fixed arrays may be asked. It fails iff the reading's helper does. `size()` is `array_size_`, positive under `Intended` and possibly 0 as written; element `i` lies `i * sizeof_value()` bytes past the data. |
| ValueHelpers.WithSequence | rmw_cyclonedds_cpp/src/TypeSupport2_impl.hpp:151-180 | Only members the reading classifies as sequences, with all four callbacks, may be asked. It fails iff the reading's helper does. Its size comes from `size_function`, and element `i` from `get_const_function(data, i)`. |
| TypedValues.ApplyToPrimitiveValue | rmw_cyclonedds_cpp/include/rmw_cyclonedds_cpp/TypeSupport2_impl.hpp:9-46 | Succeeds iff the kind is primitive, reading its concrete type at `data`. Any other kind raises `invalid_argument`. |
| TypedValues.ApplyToTypedValue | rmw_cyclonedds_cpp/include/rmw_cyclonedds_cpp/TypeSupport2_impl.hpp:48-80 | Fails only for a nested message whose type support is not recognised, with `runtime_error`. A message is read as a message reference; anything else as a value at `data`. STRING uses 1-byte characters and WSTRING 2-byte characters, for both generators. |
| TypedValues.ApplyToTypedValueAgreesWithHelper | rmw_cyclonedds_cpp/include/rmw_cyclonedds_cpp/TypeSupport2_impl.hpp:48-80 | The typed dispatch succeeds iff the corrected value helper does, and then hands over exactly what the helper's `cast_value` gives. |
| TypedValues.ValueStrideIsSizeofValue | rmw_cyclonedds_cpp/include/rmw_cyclonedds_cpp/TypeSupport2_impl.hpp:89 | The stride the model takes for the undefined `get_array_stride()` is the member's `sizeof_value()`. |
| TypedValues.ForEachValue | rmw_cyclonedds_cpp/include/rmw_cyclonedds_cpp/TypeSupport2_impl.hpp:82-100 | The loop hands the visitor exactly the values `Visits` lists, one per value, in order. It stops at the first exception. |
| TypedValues.VisitsCount | rmw_cyclonedds_cpp/include/rmw_cyclonedds_cpp/TypeSupport2_impl.hpp:86-99 | A single value is visited once, an array `array_size_` times and a sequence `size_function(data)` times. A visit fails iff there is a value and its type support is not recognised. |
| TypedValues.ArrayVisitsAscend | rmw_cyclonedds_cpp/include/rmw_cyclonedds_cpp/TypeSupport2_impl.hpp:88-92 | An array's `i`-th visit is at `data + i * stride`, each one stride after the one before. |
| TypedValues.VisitsAgreeWithMemberRefs | rmw_cyclonedds_cpp/include/rmw_cyclonedds_cpp/TypeSupport2_impl.hpp:86-99 | A visit hands over exactly what the member references reach. A single value gives `get()`. An array gives `operator[]` for each index. A sequence gives the const `operator[]` for each index below `size()`. |
| CdrEncoding.AlignTo | rmw_cyclonedds_cpp/src/Serialization.cpp:81-90 | The alignment boundary is `min(max_align, n)`: at least 1, at most 4 and at most `n`, and exactly 4 for values of 4 bytes or more. `max_align` is 4 (line 73). |
| CdrEncoding.PadLen | rmw_cyclonedds_cpp/src/Serialization.cpp:81-90 | Padding is always shorter than the boundary. |
| CdrEncoding.PadLenIsRemainder | rmw_cyclonedds_cpp/src/Serialization.cpp:83-89 | The padding is 0 when `size() % align_to == 0`, else `align_to - size() % align_to`. |
| CdrEncoding.PadLenAligns | rmw_cyclonedds_cpp/src/Serialization.cpp:81-90 | After padding the offset is on the boundary, no offset the padding covers is, and there is no padding iff the offset was already aligned. |
| CdrEncoding.PadLenShift | rmw_cyclonedds_cpp/src/Serialization.cpp:81-90 | Padding depends only on the offset modulo 4. Because the header is 4 bytes, aligning on the absolute offset equals aligning on the body offset. The header is written at lines 112-120. |
| CdrEncoding.ScalarWidthsAlignable | rmw_cyclonedds_cpp/src/Serialization.cpp:122-127 | Every primitive and character width has a boundary that divides 4. |
| CdrEncoding.Header | rmw_cyclonedds_cpp/src/Serialization.cpp:112-120 | The header is exactly 4 bytes `[0, flag, 0, 0]`, with flag 1 iff little-endian and 0 iff big-endian. |
| CdrEncoding.Then | rmw_cyclonedds_cpp/src/Serialization.cpp:38-44 | A failed piece stops the stream there. Otherwise the bytes are the first piece's then the second's, and the second decides failure. The copying sink behaves alike (lines 61-67). |
| CdrEncoding.ValuesSingle | rmw_cyclonedds_cpp/src/Serialization.cpp:149-151 | A single value's field emits exactly what writing that value emits. |
| CdrEncoding.TwosComplement64 | rmw_cyclonedds_cpp/src/Serialization.cpp:106-107 | The bit pattern of the 64-bit `seq` is below 2^64: the value itself when non-negative, the value plus 2^64 when negative. |
| CdrEncoding.MembersExtend | rmw_cyclonedds_cpp/src/Serialization.cpp:145-168 | The output after `k` members is a prefix of the output after `n >= k` members; if it failed, nothing follows it. |
| CdrEncoding.ValuesExtend | rmw_cyclonedds_cpp/src/Serialization.cpp:154-164 | The same for the first `k` of `n` array or sequence elements. |
| CdrEncoding.UnitsExtend | rmw_cyclonedds_cpp/src/Serialization.cpp:136-138 | The same for the first `k` of `n` code units of a wide string. |
| CdrEncoding.UnboundedSequenceDroppedByWriter | rmw_cyclonedds_cpp/src/Serialization.cpp:144-168 | For a C message whose only member is `int32[] values` holding one element, the writer as written emits the 4-byte header alone; under the intended classification it emits the header, the count 1 and the element. |
| CdrEncoding.UnboundedFieldByReading | rmw_cyclonedds_cpp/src/Serialization.cpp:152-165 | That member, written after the header, emits nothing as written (a fixed array of size 0) and the count then the element as a sequence. |
| CdrEncoding.WStringCountByReading | rmw_cyclonedds_cpp/src/Serialization.cpp:129-141 | A C++ `wstring` single value of `n` units is written as written with the count `4 * n` and 4 bytes per unit, and under the stored `std::u16string` with the count `2 * n` and 2 bytes per unit. |
| Serialization.SizeAccumulator.constructor | rmw_cyclonedds_cpp/src/Serialization.cpp:33-35 | The counting sink starts at the given size, 0 by default, with the given capacity, `SIZE_MAX` by default. |
| Serialization.SizeAccumulator.PutBytes | rmw_cyclonedds_cpp/src/Serialization.cpp:38-44 | `put_bytes(n)` raises `length_error` and leaves the size unchanged iff `size + n > capacity`; otherwise the size grows by exactly `n`. |
| Serialization.DataAccumulator.constructor | rmw_cyclonedds_cpp/src/Serialization.cpp:53-57 | The copying sink requires `size <= capacity` and starts with the given buffer, capacity and size. |
| Serialization.DataAccumulator.PutBytes | rmw_cyclonedds_cpp/src/Serialization.cpp:61-67 | Past the capacity it raises `length_error`, changing neither the size nor any byte. Otherwise `s` lands at `data[size..size+n)`, no other byte changes, and the size grows by `n`. |
| Serialization.Overwrite | rmw_cyclonedds_cpp/src/Serialization.cpp:65 | The `memcpy` keeps the buffer's length, holds `s` starting at index `at`, and leaves the bytes before and after unchanged. |
| Serialization.OverwriteTwice | rmw_cyclonedds_cpp/src/Serialization.cpp:65-66 | Copying `x` and then `y` right after it equals copying `x + y`. |
| Serialization.Accumulator.Put | rmw_cyclonedds_cpp/src/Serialization.cpp:75-79 | `put_bytes` on either sink: it raises iff the bytes do not fit. Otherwise the size grows by their number, and a copying sink holds them at the old size. |
| Serialization.EmittedThen | rmw_cyclonedds_cpp/src/Serialization.cpp:96-109 | A piece that completes, then another, have the effect of the two pieces' bytes in sequence. |
| Serialization.EmittedStops | rmw_cyclonedds_cpp/src/Serialization.cpp:38-44 | A piece that raises ends everything that was to follow it. |
| Serialization.EmittedExtends | rmw_cyclonedds_cpp/src/Serialization.cpp:144-168 | A prefix of a traversal that raised stops the whole traversal with the same exception. |
| Serialization.UnitStep | rmw_cyclonedds_cpp/src/Serialization.cpp:136-138 | One turn of the code-unit loop extends the units written so far by unit `i`, or ends the string with its exception. |
| Serialization.MemberStep | rmw_cyclonedds_cpp/src/Serialization.cpp:146-167 | One turn of the member loop extends the members written so far by member `k`, or ends the message with its exception. |
| Serialization.ValueStep | rmw_cyclonedds_cpp/src/Serialization.cpp:154-164 | One turn of the element loop extends the elements written so far by element `i`, or ends the field with its exception. |
| Serialization.CDRWriter.constructor | rmw_cyclonedds_cpp/src/Serialization.cpp:94 | The writer holds its sink, the producer's byte order and the reading it classifies members under; `AsWritten` is the source's writer. |
| Serialization.CDRWriter.SerializeTopLevel | rmw_cyclonedds_cpp/src/Serialization.cpp:96-100 | The sink receives the header, then the members as the writer's reading classifies and reads them, or stops at the first exception. |
| Serialization.CDRWriter.SerializeRequestTopLevel | rmw_cyclonedds_cpp/src/Serialization.cpp:102-109 | The sink receives the header, the 64-bit GUID, the 64-bit sequence number, then the message, or stops at the first exception. Members are classified and read under the writer's reading; `AsWritten` is the source. |
| Serialization.CDRWriter.SerializeRequestHeader | rmw_cyclonedds_cpp/src/Serialization.cpp:105-107 | The sink receives the header, then the GUID and the sequence number, each aligned to 4. |
| Serialization.CDRWriter.PutEncapsulationHeader | rmw_cyclonedds_cpp/src/Serialization.cpp:112-120 | The sink receives exactly the 4 header bytes. |
| Serialization.CDRWriter.Align | rmw_cyclonedds_cpp/src/Serialization.cpp:81-90 | The sink receives exactly the zero padding that reaches the next boundary of `min(4, n)`, one byte at a time. |
| Serialization.CDRWriter.SerializePrimitive | rmw_cyclonedds_cpp/src/Serialization.cpp:122-127 | The sink receives padding to the value's boundary, then its `n` bytes. |
| Serialization.CDRWriter.SerializeU32 | rmw_cyclonedds_cpp/src/Serialization.cpp:169-172 | For `s < UINT32_MAX`, the sink receives `s` as a padded 4-byte count. |
| Serialization.CDRWriter.SerializeText | rmw_cyclonedds_cpp/src/Serialization.cpp:129-142 | A narrow string writes the count `size+1`, each character and one NUL. |
| Serialization.CDRWriter.SerializeChars | rmw_cyclonedds_cpp/src/Serialization.cpp:136-138 | A narrow string's characters go out unpadded, exactly as they are. |
| Serialization.CDRWriter.SerializeWide | rmw_cyclonedds_cpp/src/Serialization.cpp:129-142 | A wide string writes the count `size * sizeof(char)`, then each unit aligned to its size; there is no terminator. |
| Serialization.CDRWriter.SerializeUnits | rmw_cyclonedds_cpp/src/Serialization.cpp:136-138 | The loop writes every code unit in order. |
| Serialization.CDRWriter.SerializeUnit | rmw_cyclonedds_cpp/src/Serialization.cpp:137 | One turn writes unit `i` after the first `i` units. |
| Serialization.CDRWriter.SerializeValue | rmw_cyclonedds_cpp/src/Serialization.cpp:122-168 | One value writes its bytes: a primitive, a string or a nested message's members. Members are classified and read under the writer's reading; `AsWritten` is the source. |
| Serialization.CDRWriter.SerializeMessage | rmw_cyclonedds_cpp/src/Serialization.cpp:144-168 | A message writes every member in index order. Members are classified and read under the writer's reading; `AsWritten` is the source. |
| Serialization.CDRWriter.SerializeField | rmw_cyclonedds_cpp/src/Serialization.cpp:147-166 | One member, classified by `get_container_type` and read through `with_value_helper` as the reading has them, writes: a single value once; an array's `array_size_` values with no prefix; or a sequence's count and values. A helper that fails writes nothing. Under `AsWritten` an unbounded sequence writes nothing and a C++ wstring is read with 4-byte units. |
| Serialization.CDRWriter.SerializeSequence | rmw_cyclonedds_cpp/src/Serialization.cpp:159-165 | A sequence writes its element count, then every element. |
| Serialization.CDRWriter.SerializeValues | rmw_cyclonedds_cpp/src/Serialization.cpp:154-164 | The element loop writes elements `0..n-1` in order. |
| Serialization.GetSerializedSize | rmw_cyclonedds_cpp/src/Serialization.cpp:212-218 | Succeeds iff the counting pass under the reading raises nothing, and then returns exactly the number of bytes the message serializes to under that reading. Otherwise it passes the exception on. `AsWritten` is the source. |
| Serialization.SerializeInto | rmw_cyclonedds_cpp/src/Serialization.cpp:203-210 | Raises exactly what the copying pass raises into `dest_size` bytes. Otherwise the message's bytes are at the start of `dest` and the rest is unchanged. Members are classified and read under the writer's reading; `AsWritten` is the source. |
| Serialization.SerializeToVector | rmw_cyclonedds_cpp/src/Serialization.cpp:195-201 | Sizing and writing agree. When sizing succeeds, the vector resized to that size receives the whole message without an exception and holds exactly its bytes. When sizing fails, the vector is untouched. Members are classified and read under the writer's reading; `AsWritten` is the source. |
| Serialization.Resize | rmw_cyclonedds_cpp/src/Serialization.cpp:195-201 | `std::vector::resize(n)` has length `n`, keeps the old bytes below `n` and zero-fills the rest. The request path resizes the same way (line 187). |
| Serialization.SerializeRequest | rmw_cyclonedds_cpp/src/Serialization.cpp:175-193 | The request's sizing pass and writing pass agree. Whatever the vector held before, it ends with exactly the header, GUID, sequence number and message. On failure it is untouched. Members are classified and read under the writer's reading; `AsWritten` is the source. |
| SerializationLegacy.NewDataAccumulator | rmw_cyclonedds_cpp/include/rmw_cyclonedds_cpp/Serialization.hpp:39-40 | The earlier copying sink always starts at size 0, whatever size argument is passed. |
| SerializationLegacy.LegacyMemberStep | rmw_cyclonedds_cpp/include/rmw_cyclonedds_cpp/Serialization.hpp:132-140 | One turn of the earlier member loop extends the members written so far by member `k`, or ends the message. |
| SerializationLegacy.LegacyValueStep | rmw_cyclonedds_cpp/include/rmw_cyclonedds_cpp/Serialization.hpp:139 | One turn of the value loop extends the values written so far by value `i`, or ends the member. |
| SerializationLegacy.LegacyCDRWriter.constructor | rmw_cyclonedds_cpp/include/rmw_cyclonedds_cpp/Serialization.hpp:89 | The earlier writer shares its sink and byte order with the leaf writer. |
| SerializationLegacy.LegacyCDRWriter.SerializeTopLevel | rmw_cyclonedds_cpp/include/rmw_cyclonedds_cpp/Serialization.hpp:90-94 | The sink receives the header, then the message inside `with_typesupport`. An unrecognised type support raises after the header. |
| SerializationLegacy.LegacyCDRWriter.AlignAndPut | rmw_cyclonedds_cpp/include/rmw_cyclonedds_cpp/Serialization.hpp:80-84 | The sink receives padding to `min(4, n)`, then the `n` bytes, so they start at a multiple of `min(4, n)`. |
| SerializationLegacy.LegacyCDRWriter.SerializeMessage | rmw_cyclonedds_cpp/include/rmw_cyclonedds_cpp/Serialization.hpp:129-141 | The earlier writer writes every member in index order. |
| SerializationLegacy.LegacyCDRWriter.SerializeMember | rmw_cyclonedds_cpp/include/rmw_cyclonedds_cpp/Serialization.hpp:133-139 | A member writes a sequence's count, then every value it holds; single values and arrays get no count. |
| SerializationLegacy.LegacyCDRWriter.SerializeSequence | rmw_cyclonedds_cpp/include/rmw_cyclonedds_cpp/Serialization.hpp:135-139 | The sequence branch writes the element count, then each value. |
| SerializationLegacy.LegacyCDRWriter.ForEachValue | rmw_cyclonedds_cpp/include/rmw_cyclonedds_cpp/Serialization.hpp:139 | `for_each_value(serialize)` writes every value the member holds. A value whose type support is not recognised raises `runtime_error` at that value. |
| SerializationLegacy.LegacyCDRWriter.SerializeValues | rmw_cyclonedds_cpp/include/rmw_cyclonedds_cpp/Serialization.hpp:139 | The value loop writes values `0..n-1` in order. |
| SerializationLegacy.LegacyCDRWriter.SerializeValue | rmw_cyclonedds_cpp/include/rmw_cyclonedds_cpp/Serialization.hpp:106-127 | One value writes a primitive as the current writer does, and a nested message writes its members. A string takes the current writer's layout; this is the model's reading, since the earlier string overload compiles for no string member. |
| SerializationLegacy.GetSerializedSize | rmw_cyclonedds_cpp/include/rmw_cyclonedds_cpp/Serialization.hpp:150-156 | Succeeds iff the earlier counting pass raises nothing, returning the number of bytes it emits. |
| SerializationLegacy.SerializeEntireRosMessage | rmw_cyclonedds_cpp/include/rmw_cyclonedds_cpp/Serialization.hpp:158-166 | The earlier copying pass raises what it raises into `dest_size` bytes. Otherwise the message's bytes are at the start of `dest`. |
| SerializationLegacy.SizeMatchesWrite | rmw_cyclonedds_cpp/include/rmw_cyclonedds_cpp/Serialization.hpp:150-166 | If the counting pass reports `n` bytes, a copying pass into `n` or more bytes raises nothing. Where the current writer completes, both writers emit the same bytes. |
| LegacyEncoding.VisitCount | rmw_cyclonedds_cpp/include/rmw_cyclonedds_cpp/TypeSupport2_impl.hpp:86-99 | A visit covers one value for a single value, `array_size_` for an array and the element count for a sequence, never more than the field holds. |
| LegacyEncoding.VisitCountConforming | rmw_cyclonedds_cpp/include/rmw_cyclonedds_cpp/TypeSupport2_impl.hpp:86-99 | A member that matches its descriptor has every one of its values visited. |
| LegacyEncoding.ValueRefines | rmw_cyclonedds_cpp/include/rmw_cyclonedds_cpp/Serialization.hpp:106-141 | Wherever the current writer completes a value, the earlier one emits the same bytes, and it fails only where the current one fails. |
| LegacyEncoding.MessageRefines | rmw_cyclonedds_cpp/include/rmw_cyclonedds_cpp/Serialization.hpp:129-141 | The same for a whole message. |
| LegacyEncoding.MembersRefines | rmw_cyclonedds_cpp/include/rmw_cyclonedds_cpp/Serialization.hpp:132-140 | The same for the first `k` members. |
| LegacyEncoding.FieldRefines | rmw_cyclonedds_cpp/include/rmw_cyclonedds_cpp/Serialization.hpp:133-139 | The same for one member, the sequence count included. |
| LegacyEncoding.SequenceRefines | rmw_cyclonedds_cpp/include/rmw_cyclonedds_cpp/Serialization.hpp:135-139 | Both writers write a reachable sequence as its count, then its values. |
| LegacyEncoding.ValuesRefines | rmw_cyclonedds_cpp/include/rmw_cyclonedds_cpp/Serialization.hpp:139 | The same for the first `n` values of a member. |
| LegacyEncoding.TopLevelRefines | rmw_cyclonedds_cpp/include/rmw_cyclonedds_cpp/Serialization.hpp:90-94 | The earlier top-level writer refines the current one. For an unrecognised type support it has already emitted the 4-byte header when it raises, while the current writer emits nothing. |
| LegacyEncoding.CountBeforeResolution | rmw_cyclonedds_cpp/include/rmw_cyclonedds_cpp/Serialization.hpp:135-139 | A sequence of nested messages with an unrecognised type support: the current writer fails at once. The earlier one writes the count first and goes on when the sequence is empty, or fails after the count. |
| SerdesLayout.Rem | rmw_cyclonedds_cpp/include/rmw_cyclonedds_cpp/serdes.hpp:48-51 | The remainder `off % w` is below `w`. |
| SerdesLayout.Pad | rmw_cyclonedds_cpp/include/rmw_cyclonedds_cpp/serdes.hpp:48-51 | The padding `cycser` inserts is shorter than the value. |
| SerdesLayout.AlignUp | rmw_cyclonedds_cpp/include/rmw_cyclonedds_cpp/serdes.hpp:48-51 | The offset rounded up lies in `[off, off + w)`. |
| SerdesLayout.PadAligns | rmw_cyclonedds_cpp/include/rmw_cyclonedds_cpp/serdes.hpp:48-51 | The rounded offset is a multiple of `w`, and there is no padding iff the offset already is one. The reader rounds the same way (lines 127-128). |
| SerdesLayout.Place | rmw_cyclonedds_cpp/include/rmw_cyclonedds_cpp/serdes.hpp:47-55 | Storing a value keeps the writer framed: the vector holds the 4 reserved bytes plus exactly `off` body bytes. The store goes through `resize`/`data` (lines 102-103). |
| SerdesLayout.PlaceMany | rmw_cyclonedds_cpp/include/rmw_cyclonedds_cpp/serdes.hpp:69-79 | `serialize_many` with `cnt == 0` changes nothing, padding included; otherwise it stores the `cnt` elements as one aligned block. |
| SerdesLayout.WideChars | rmw_cyclonedds_cpp/include/rmw_cyclonedds_cpp/serdes.hpp:61-66 | A wide string's units take exactly 4 bytes each. |
| SerdesLayout.FlagBytes | rmw_cyclonedds_cpp/include/rmw_cyclonedds_cpp/serdes.hpp:86-92 | One byte per flag, each being the byte `serialize(bool)` stores for it. Each byte is what `serialize(bool)` at line 57 stores. |
| SerdesLayout.PutFlagsStep | rmw_cyclonedds_cpp/include/rmw_cyclonedds_cpp/serdes.hpp:89-91 | One more turn of the `vector<bool>` loop is one more `serialize(bool)`. |
| SerdesLayout.PlaceAppends | rmw_cyclonedds_cpp/include/rmw_cyclonedds_cpp/serdes.hpp:47-55 | On a framed writer, storing a value appends zero padding and the value's bytes, and `off` advances past both. The store goes through `resize`/`data` (lines 102-103). |
| SerdesLayout.Fits | rmw_cyclonedds_cpp/include/rmw_cyclonedds_cpp/serdes.hpp:134-140 | `count` elements of `sz` bytes fit iff `count * sz <= room`. |
| SerdesLayout.AlignRead | rmw_cyclonedds_cpp/include/rmw_cyclonedds_cpp/serdes.hpp:125-133 | `align(a)` fails with a deserialization error iff the rounded-up position passes `lim`; otherwise it moves `pos` there. |
| SerdesLayout.ReadScalar | rmw_cyclonedds_cpp/include/rmw_cyclonedds_cpp/serdes.hpp:168-177 | `deserialize<T>` succeeds iff the aligned value fits before `lim`. It then returns the `w` bytes at the aligned position and moves past them. |
| SerdesLayout.ReadBool | rmw_cyclonedds_cpp/include/rmw_cyclonedds_cpp/serdes.hpp:179-183 | Reading a bool leaves a valid reader. |
| SerdesLayout.ReadLen | rmw_cyclonedds_cpp/include/rmw_cyclonedds_cpp/serdes.hpp:185-190 | An accepted count leaves room for that many `el_sz`-byte elements before `lim`. |
| SerdesLayout.ReadMany | rmw_cyclonedds_cpp/include/rmw_cyclonedds_cpp/serdes.hpp:220-226 | Success yields exactly `n` elements of `w` bytes each, over the same data and limit. |
| SerdesLayout.ReadList | rmw_cyclonedds_cpp/include/rmw_cyclonedds_cpp/serdes.hpp:228-233 | Reading a list leaves a valid reader. |
| SerdesLayout.Flags | rmw_cyclonedds_cpp/include/rmw_cyclonedds_cpp/serdes.hpp:179-183 | Each element is read as `true` iff its byte is not 0. |
| SerdesLayout.ReadBools | rmw_cyclonedds_cpp/include/rmw_cyclonedds_cpp/serdes.hpp:228-233 | Reading a list of bools leaves a valid reader. |
| SerdesLayout.FirstNul | rmw_cyclonedds_cpp/include/rmw_cyclonedds_cpp/serdes.hpp:201-209 | The first NUL byte in `[from, lim)`, if any: no byte before it is NUL, and none at all when there is none. |
| SerdesLayout.ReadTextAsWritten | rmw_cyclonedds_cpp/include/rmw_cyclonedds_cpp/serdes.hpp:192-210 | Reading a string as written leaves a valid reader. |
| SerdesLayout.ReadText | rmw_cyclonedds_cpp/include/rmw_cyclonedds_cpp/serdes.hpp:192-210 | The corrected string reader leaves a valid reader over the same bytes and limit. The NUL is checked as `validate_str` does (lines 141-146). |
| SerdesLayout.KindsOf | rmw_cyclonedds_cpp/include/rmw_cyclonedds_cpp/serdes.hpp:161-166 | One kind per item. |
| SerdesLayout.ReadItem | rmw_cyclonedds_cpp/include/rmw_cyclonedds_cpp/serdes.hpp:161-166 | `cycdeser >> x` leaves a valid reader. `>> x` is taken as the typed reader for `x` (see "## Left out"). |
| SerdesLayout.WriteAppends | rmw_cyclonedds_cpp/include/rmw_cyclonedds_cpp/serdes.hpp:39-44 | `cycser << x` on a framed writer appends exactly the item's encoding and stays framed. |
| SerdesLayout.TextEnc | rmw_cyclonedds_cpp/include/rmw_cyclonedds_cpp/serdes.hpp:59 | A string's item bytes are padding to 4, the 32-bit count (length + 1), the chars and one NUL; their length adds up accordingly. |
| SerdesLayout.TextAppends | rmw_cyclonedds_cpp/include/rmw_cyclonedds_cpp/serdes.hpp:59 | On a framed writer, `serialize(std::string)` appends exactly the string's item bytes and moves `off` past them. |
| SerdesLayout.BoolsEnc | rmw_cyclonedds_cpp/include/rmw_cyclonedds_cpp/serdes.hpp:86-92 | A `vector<bool>`'s item bytes are padding to 4, the 32-bit count, then one byte per flag. |
| SerdesLayout.BoolsAppends | rmw_cyclonedds_cpp/include/rmw_cyclonedds_cpp/serdes.hpp:86-92 | On a framed writer, `serialize(std::vector<bool>)` appends exactly those bytes and moves `off` past them. |
| SerdesLayout.ListAppends | rmw_cyclonedds_cpp/include/rmw_cyclonedds_cpp/serdes.hpp:81-85 | On a framed writer, `serialize(std::vector<T>)` appends padding to 4 and the 32-bit count, then (only when there are elements) padding to `sizeof(T)` and the elements' bytes, and moves `off` past them. |
| SerdesLayout.PutFlagsAppends | rmw_cyclonedds_cpp/include/rmw_cyclonedds_cpp/serdes.hpp:89-91 | On a framed writer, the flag loop appends one byte per flag and nothing else. |
| SerdesLayout.LenReadBack | rmw_cyclonedds_cpp/include/rmw_cyclonedds_cpp/serdes.hpp:185-190 | A 32-bit count stored after its padding reads back as the same count, provided that many elements fit before the limit. The count is the one `serialize_list` writes (lines 94-99). |
| SerdesLayout.ReadItemOk | rmw_cyclonedds_cpp/include/rmw_cyclonedds_cpp/serdes.hpp:161-166 | `cycdeser >> x` reads an item of the requested kind exactly as the matching typed reader does. `>> x` is taken as the typed reader for `x` (see "## Left out"). |
| SerdesLayout.ScalarReadBack | rmw_cyclonedds_cpp/include/rmw_cyclonedds_cpp/serdes.hpp:168-177 | A scalar stored after its padding reads back as the same bytes, and the reader stops right after it. The value is the one `serialize<T>` stores (lines 47-55). |
| SerdesLayout.TextReadBack | rmw_cyclonedds_cpp/include/rmw_cyclonedds_cpp/serdes.hpp:192-210 | A stored string (padding, count length + 1, chars, NUL) reads back through the corrected reader as the same chars, ending at its end. The string is the one `serialize(std::string)` stores (line 59). |
| SerdesLayout.BoolsReadBack | rmw_cyclonedds_cpp/include/rmw_cyclonedds_cpp/serdes.hpp:228-233 | A stored `vector<bool>` reads back as the same flags, ending at its end. The flags are the ones `serialize(std::vector<bool>)` stores (lines 86-92). |
| SerdesLayout.ListReadBack | rmw_cyclonedds_cpp/include/rmw_cyclonedds_cpp/serdes.hpp:228-233 | A stored `std::vector<T>` of an integral `T` reads back through `deserialize_list<T>()` as the same elements, ending at its end. The elements are the ones `serialize(std::vector<T>)` stores (lines 81-85). |
| SerdesLayout.ItemReadBack | rmw_cyclonedds_cpp/include/rmw_cyclonedds_cpp/serdes.hpp:161-166 | Any writable item's encoding reads back, by its own kind, as itself, ending at its end. The encoding is the one `operator<<` appends (lines 39-44). `>> x` is taken as the typed reader for `x` (see "## Left out"). |
| SerdesLayout.ReadAllBack | rmw_cyclonedds_cpp/include/rmw_cyclonedds_cpp/serdes.hpp:161-166 | Items encoded one after another read back, in order, as the same items. The items are the ones `operator<<` appends (lines 39-44). `>> x` is taken as the typed reader for `x` (see "## Left out"). |
| SerdesLayout.RoundTrip | rmw_cyclonedds_cpp/include/rmw_cyclonedds_cpp/serdes.hpp:161-166 | What `cycser <<` appends to a framed buffer reads back through `cycdeser >>` over the body as the same items. The reader stops exactly at the writer's final offset. The writer side is `operator<<` with the serializers of integral scalars (lines 46-55), `std::string` (line 59), `std::vector<T>` of an integral `T` (lines 81-85 and 94-99) and `std::vector<bool>` (lines 86-92). The readers are `deserialize<T>()`, `deserialize<std::string>()` as corrected, and `deserialize_list<T>()` (lines 168-233). `>> x` is taken as the typed reader for `x` (see "## Left out"). |
| SerdesLayout.TextAsWritten | rmw_cyclonedds_cpp/include/rmw_cyclonedds_cpp/serdes.hpp:192-210 | The reader as written, on a stored string whose first NUL is at index `k`, returns the chars before `k` and stops just past it. With an embedded NUL, it stops before the string's end. |
| SerdesLayout.WrittenTextRead | rmw_cyclonedds_cpp/include/rmw_cyclonedds_cpp/serdes.hpp:192-210 | For any written string: the reader as written returns the chars before the first NUL and stops as many bytes short as follow the first NUL. The corrected reader returns the whole string and stops at the end. The string is the one `serialize(std::string)` stores (line 59). |
| SerdesLayout.EmbeddedNulExample | rmw_cyclonedds_cpp/include/rmw_cyclonedds_cpp/serdes.hpp:192-210 | The concrete input `"a\0b"`: as written it reads back as `"a"` and stops two bytes early; corrected, it reads back whole. |
| SerdesLayout.PrintTextAgrees | rmw_cyclonedds_cpp/include/rmw_cyclonedds_cpp/serdes.hpp:399-416 | The corrected string reader accepts exactly what `print(std::string)` accepts and ends at the same position. The string's length is the printer's `len`. |
| SerdesLayout.Prtf | rmw_cyclonedds_cpp/include/rmw_cyclonedds_cpp/serdes.hpp:452-473 | `prtf` keeps `buf + bufsize` unchanged and never grows `bufsize`. A full buffer or an encoding error changes nothing and returns false. A text that fits moves `buf` by its length; truncation sets `bufsize` to 0. It returns true iff room is left. |
| SerdesLayout.PrtfAllStaysInBuffer | rmw_cyclonedds_cpp/include/rmw_cyclonedds_cpp/serdes.hpp:452-473 | Any run of `prtf` calls keeps `buf + bufsize`, and a full buffer stays full. |
| SerdesLayout.PrintLen | rmw_cyclonedds_cpp/include/rmw_cyclonedds_cpp/serdes.hpp:399-416 | The printed width is 0 for `sz == 0`, else `sz - 1`, capped at `INT32_MAX`. |
| SerdesLayout.PrintTextRead | rmw_cyclonedds_cpp/include/rmw_cyclonedds_cpp/serdes.hpp:399-416 | On success the reader has moved past the `sz` bytes, and a nonempty string's last byte is NUL. |
| Serdes.ResizeThenCopy | rmw_cyclonedds_cpp/include/rmw_cyclonedds_cpp/serdes.hpp:102-103 | Resizing to `n` plus the length of `x`, then copying `x` to offset `n` leaves the old bytes below `n` followed by exactly `x`. |
| Serdes.AlignStep | rmw_cyclonedds_cpp/include/rmw_cyclonedds_cpp/serdes.hpp:48-51 | `cycser`'s `%` step lands on the offset rounded up to a multiple of `w`. |
| Serdes.StoreStep | rmw_cyclonedds_cpp/include/rmw_cyclonedds_cpp/serdes.hpp:47-55 | The resize-and-copy step from the aligned offset yields the state `Place` describes. The copy goes through `resize`/`data` (lines 102-103). |
| Serdes.CycSer.constructor | rmw_cyclonedds_cpp/include/rmw_cyclonedds_cpp/serdes.hpp:36 | The writer starts from the given vector and offset. |
| Serdes.CycSer.Store | rmw_cyclonedds_cpp/include/rmw_cyclonedds_cpp/serdes.hpp:47-55 | The new state is `Place` of the old one, so the writer stays framed and the bytes are appended after their padding. The copy goes through `resize`/`data` (lines 102-103). |
| Serdes.CycSer.Serialize | rmw_cyclonedds_cpp/include/rmw_cyclonedds_cpp/serdes.hpp:46-55 | `serialize<T>` stores the value aligned to its own size, leaving `dst.size() == off + 4`. |
| Serdes.CycSer.SerializeBool | rmw_cyclonedds_cpp/include/rmw_cyclonedds_cpp/serdes.hpp:57 | A bool is stored as one byte, 1 or 0. |
| Serdes.CycSer.SerializeMany | rmw_cyclonedds_cpp/include/rmw_cyclonedds_cpp/serdes.hpp:68-79 | `serialize_many` leaves the state `PlaceMany` describes: unchanged for `cnt == 0`, else one aligned block. |
| Serdes.CycSer.SerializeList | rmw_cyclonedds_cpp/include/rmw_cyclonedds_cpp/serdes.hpp:94-99 | A list is stored as its 32-bit count, then its elements. `std::vector<T>` goes through it (lines 81-85). |
| Serdes.CycSer.SerializeVector | rmw_cyclonedds_cpp/include/rmw_cyclonedds_cpp/serdes.hpp:81-85 | `serialize(std::vector<T>)` leaves the state `cycser << x` gives for a vector item: the count, then the elements. |
| Serdes.CycSer.SerializeString | rmw_cyclonedds_cpp/include/rmw_cyclonedds_cpp/serdes.hpp:59 | A string is stored as the count `size()+1`, then its chars and the NUL. |
| Serdes.CycSer.SerializeWString | rmw_cyclonedds_cpp/include/rmw_cyclonedds_cpp/serdes.hpp:61-66 | A wide string is stored as its count, then 4-byte units, with no terminator. |
| Serdes.CycSer.SerializeBools | rmw_cyclonedds_cpp/include/rmw_cyclonedds_cpp/serdes.hpp:86-92 | A `vector<bool>` is stored as its count, then one byte per flag. |
| Serdes.FitsByDivision | rmw_cyclonedds_cpp/include/rmw_cyclonedds_cpp/serdes.hpp:137 | The division test `count > (lim - pos) / sz` fails exactly when `count * sz <= lim - pos`. |
| Serdes.CycDeserBase.constructor | rmw_cyclonedds_cpp/include/rmw_cyclonedds_cpp/serdes.hpp:112 | The reader starts from the given data, position and limit. |
| Serdes.CycDeserBase.Align | rmw_cyclonedds_cpp/include/rmw_cyclonedds_cpp/serdes.hpp:125-133 | `align(a)` succeeds iff `AlignRead` does, with the same position. On failure `pos` has already moved past `lim`. |
| Serdes.CycDeserBase.ValidateSize | rmw_cyclonedds_cpp/include/rmw_cyclonedds_cpp/serdes.hpp:134-140 | `validate_size` passes iff `pos + count*sz <= lim`; otherwise it raises a deserialization error. |
| Serdes.CycDeserBase.ValidateStr | rmw_cyclonedds_cpp/include/rmw_cyclonedds_cpp/serdes.hpp:141-146 | `validate_str(sz)` passes iff `sz == 0` or the byte at `pos+sz-1` is NUL. |
| Serdes.ManyStep | rmw_cyclonedds_cpp/include/rmw_cyclonedds_cpp/serdes.hpp:220-226 | Reading one more element leaves unchanged what `deserialize_many` yields overall. |
| Serdes.ManyFails | rmw_cyclonedds_cpp/include/rmw_cyclonedds_cpp/serdes.hpp:220-226 | An element that cannot be read stops the loop with its exception. |
| Serdes.ManyDone | rmw_cyclonedds_cpp/include/rmw_cyclonedds_cpp/serdes.hpp:220-226 | With no element left, the loop yields what it read, where the reader stands. |
| SerdesLayout.Chunks | rmw_cyclonedds_cpp/include/rmw_cyclonedds_cpp/serdes.hpp:220-226 | `n` consecutive `w`-byte elements: `n` pieces of length `w`. |
| SerdesLayout.ChunksJoin | rmw_cyclonedds_cpp/include/rmw_cyclonedds_cpp/serdes.hpp:201-209 | The elements read one by one join back into the bytes they came from. |
| SerdesLayout.ManyReadBack | rmw_cyclonedds_cpp/include/rmw_cyclonedds_cpp/serdes.hpp:220-226 | From an aligned position, `n` elements that fit are read as consecutive chunks with no padding, and the reader stops right after them. |
| SerdesLayout.ReadManyAligns | rmw_cyclonedds_cpp/include/rmw_cyclonedds_cpp/serdes.hpp:220-226 | Reading at least one element first aligns, so `deserialize_many` from a position reads the same as from that position rounded up to `sizeof(T)`. |
| SerdesLayout.ChunksOfJoined | rmw_cyclonedds_cpp/include/rmw_cyclonedds_cpp/serdes.hpp:220-226 | Bytes that hold `w`-byte elements one after another are read as exactly those elements. |
| Serdes.AsWrittenRead | rmw_cyclonedds_cpp/include/rmw_cyclonedds_cpp/serdes.hpp:192-210 | After a nonzero count, the reader as written reads exactly the bytes before the first NUL, then the NUL, and stops just past it. |
| Serdes.NulRead | rmw_cyclonedds_cpp/include/rmw_cyclonedds_cpp/serdes.hpp:168-177 | A NUL byte before the limit reads back as one `char` of value 0. |
| Serdes.Units | rmw_cyclonedds_cpp/include/rmw_cyclonedds_cpp/serdes.hpp:212-218 | One `wchar_t` unit per 4-byte element. |
| Serdes.LenLeavesAligned | rmw_cyclonedds_cpp/include/rmw_cyclonedds_cpp/serdes.hpp:185-190 | After `deserialize_len` the position is a multiple of 4. |
| Serdes.UnitsReadBack | rmw_cyclonedds_cpp/include/rmw_cyclonedds_cpp/serdes.hpp:212-218 | 4-byte elements that hold the bytes of units below 2^32 read back as those units. |
| Serdes.PrintWideAgrees | rmw_cyclonedds_cpp/include/rmw_cyclonedds_cpp/serdes.hpp:417-424 | `print(std::wstring)` accepts exactly what `deserialize<std::wstring>` accepts and ends at the same position. Its bytes are the list's elements, one after another. The reader is `deserialize<std::wstring>` at lines 212-218. |
| Serdes.WideReadBack | rmw_cyclonedds_cpp/include/rmw_cyclonedds_cpp/serdes.hpp:212-218 | Wide-string round trip: the units `serialize(std::wstring)` appends read back as the same units, and the reader stops at the writer's end. The units are the ones `serialize(std::wstring)` stores (lines 61-66). |
| Serdes.WideAligned | rmw_cyclonedds_cpp/include/rmw_cyclonedds_cpp/serdes.hpp:61-66 | A wide string's count ends at a multiple of 4, so its units need no padding. |
| Serdes.WideAppends | rmw_cyclonedds_cpp/include/rmw_cyclonedds_cpp/serdes.hpp:61-66 | On a framed writer, a wide string appends padding and count, then its units with no further padding. |
| Serdes.CycDeser.constructor | rmw_cyclonedds_cpp/include/rmw_cyclonedds_cpp/serdes.hpp:158 | The reader starts from the given state, with a fresh base. |
| Serdes.CycDeser.Deserialize | rmw_cyclonedds_cpp/include/rmw_cyclonedds_cpp/serdes.hpp:168-177 | Result and new position are what `ReadScalar` gives, its exception included. |
| Serdes.CycDeser.DeserializeBool | rmw_cyclonedds_cpp/include/rmw_cyclonedds_cpp/serdes.hpp:179-183 | Result and new position are what `ReadBool` gives: true iff the byte is not 0. |
| Serdes.CycDeser.DeserializeLen | rmw_cyclonedds_cpp/include/rmw_cyclonedds_cpp/serdes.hpp:185-190 | Result and new position are what `ReadLen` gives. |
| Serdes.CycDeser.DeserializeMany | rmw_cyclonedds_cpp/include/rmw_cyclonedds_cpp/serdes.hpp:220-226 | The element loop yields what `ReadMany` gives. |
| Serdes.CycDeser.DeserializeList | rmw_cyclonedds_cpp/include/rmw_cyclonedds_cpp/serdes.hpp:228-233 | Result and new position are what `ReadList` gives. |
| Serdes.CycDeser.DeserializeBools | rmw_cyclonedds_cpp/include/rmw_cyclonedds_cpp/serdes.hpp:228-233 | Result and new position are what `ReadBools` gives. Each flag is read as `deserialize(bool)` does (lines 179-183). |
| Serdes.CycDeser.DeserializeStringAsWritten | rmw_cyclonedds_cpp/include/rmw_cyclonedds_cpp/serdes.hpp:192-210 | The string reader as written yields what `ReadTextAsWritten` gives. |
| Serdes.CycDeser.DeserializeString | rmw_cyclonedds_cpp/include/rmw_cyclonedds_cpp/serdes.hpp:192-210 | The corrected string reader yields what `ReadText` gives. The NUL is checked as `validate_str` does (lines 141-146). |
| Serdes.CycDeser.DeserializeWString | rmw_cyclonedds_cpp/include/rmw_cyclonedds_cpp/serdes.hpp:212-218 | Result and new position are what `WideRead` gives: the reader taken as `deserialize_list<wchar_t>`, since the call as written does not compile (see "## Left out"). |
| Serdes.ShowsThen | rmw_cyclonedds_cpp/include/rmw_cyclonedds_cpp/serdes.hpp:452-473 | Two runs of `prtf`, one after the other, are one run. |
| Serdes.ShowsStaysInBuffer | rmw_cyclonedds_cpp/include/rmw_cyclonedds_cpp/serdes.hpp:452-473 | A printer run keeps `buf + bufsize`, and a full buffer is left unchanged. |
| Serdes.QuotedLen | rmw_cyclonedds_cpp/include/rmw_cyclonedds_cpp/serdes.hpp:399-416 | `"\"%*.*s\""` formats to `len + 2` chars; a length past `INT_MAX` is an error. The format is used at lines 405 and 414. |
| Serdes.ElementTexts | rmw_cyclonedds_cpp/include/rmw_cyclonedds_cpp/serdes.hpp:426-437 | Between `printA`'s braces come the element texts, with a 1-char separator before each but the first. That is `2n - 1` texts for `n > 0` and none for `n == 0`. |
| Serdes.CountedAcceptsLists | rmw_cyclonedds_cpp/include/rmw_cyclonedds_cpp/serdes.hpp:439-444 | Every list `deserialize_list` takes, the printer also takes, with the same elements and end. For 1-byte elements the two readers are the same. The list reader is `deserialize_list` at lines 228-233. |
| Serdes.PrintWideRead | rmw_cyclonedds_cpp/include/rmw_cyclonedds_cpp/serdes.hpp:417-424 | The reading side of `print(std::wstring)` takes the `4 sz` bytes after the count. |
| Serdes.PrintAStep | rmw_cyclonedds_cpp/include/rmw_cyclonedds_cpp/serdes.hpp:430-435 | One turn of `printA`, separator then element, extends the run printed so far. |
| Serdes.CycPrint.constructor | rmw_cyclonedds_cpp/include/rmw_cyclonedds_cpp/serdes.hpp:248 | The printer starts from the given text buffer and reader state. |
| Serdes.CycPrint.Prtf | rmw_cyclonedds_cpp/include/rmw_cyclonedds_cpp/serdes.hpp:452-473 | The method's new `buf`, `bufsize` and result are `SerdesLayout.Prtf` of the old ones. |
| Serdes.CycPrint.PrintConstant | rmw_cyclonedds_cpp/include/rmw_cyclonedds_cpp/serdes.hpp:251 | Prints exactly the constant's chars, one per character. |
| Serdes.CycPrint.PrintScalar | rmw_cyclonedds_cpp/include/rmw_cyclonedds_cpp/serdes.hpp:341-386 | Reads as `ReadScalar` does, raising what it raises. On success it prints one text for the value's bytes. |
| Serdes.CycPrint.GetLen | rmw_cyclonedds_cpp/include/rmw_cyclonedds_cpp/serdes.hpp:387-398 | Result and new position are what `ReadLen` gives. |
| Serdes.CycPrint.PrintString | rmw_cyclonedds_cpp/include/rmw_cyclonedds_cpp/serdes.hpp:399-416 | Reads as `PrintTextRead` does. On success it prints one quoted text of width `PrintLen(sz)`, and `pos` moves past all `sz` bytes. |
| Serdes.CycPrint.PrintWString | rmw_cyclonedds_cpp/include/rmw_cyclonedds_cpp/serdes.hpp:417-424 | Reads as `PrintWideRead` does. On success it prints one text for the units. |
| Serdes.CycPrint.PrintA | rmw_cyclonedds_cpp/include/rmw_cyclonedds_cpp/serdes.hpp:426-437 | Reads as `ReadMany` does. On success it prints `"{"`, the element texts separated by `","`, then `"}"`. `std::array` goes through it (lines 445-449). |
| Serdes.CycPrint.PrintVector | rmw_cyclonedds_cpp/include/rmw_cyclonedds_cpp/serdes.hpp:439-444 | Reads as `ReadCounted` does, a count then that many elements, and prints them as `printA` does. |

## Left out

- Raw memory is not modelled: `memcpy`, `reinterpret_cast`, placement new and pointer casts. A message is an abstract value tree, and a pointer is a natural-number address.
- Floating-point values are opaque fixed-size byte blobs. `long double` is 16 bytes.
- `cycprint` output text is not modelled: no `%f` or `%g` formatting and no `vsnprintf` text. Each print takes the formatted length as a parameter, and a function parameter `text` gives the length for each value's bytes. Only the `buf`/`bufsize` accounting of `prtf` is proved.
- `**buf = 0` on truncation is not modelled. The text buffer is not modelled, only its position and room.
- Serdes.QuotedLen: this is how the model reads `vsnprintf` for `"\"%*.*s\""`. It is not derived from a C library.
- Serdes.CycDeser.Deserialize: `maybe_bswap` (`serdes.hpp:117-124`) is not applied. It never reads `swap_bytes`, and it casts the value itself to a pointer. Values come back in the order their bytes were stored. `Wire.Reversed` states only the byte reversal it attempts.
- SerdesLayout.ReadItem: `cycdeser::operator>>(T && x)` (`serdes.hpp:161-166`) calls `deserialize(x)`, but every `deserialize` in the class takes no argument, so `cycdeser >> x` compiles for no `x`. The model reads `>> x` as `x = deserialize<T>()` for scalars and strings, as `deserialize_list<T>()` for vectors, and as `deserialize_array<T, S>()` for arrays. `SerdesLayout.ReadAll`, `SerdesLayout.ItemReadBack`, `SerdesLayout.ReadAllBack` and `SerdesLayout.RoundTrip` rest on this reading.
- Serdes.CycPrint.PrintScalar: `print(T &)` passes the character `'%'` as `prtf`'s `const char *` format (`serdes.hpp:350`), so printing an integer or a bool does not compile. The model keeps only the reader's movement and the `prtf` buffer accounting, with the printed length as a parameter.
- Serdes.CycPrint.PrintA: `printA` (`serdes.hpp:426-437`) never advances `x`. Each `print(*x)` reads the next element from the stream into the same slot `x[0]` of the caller's vector. `print(std::vector)` passes `x.data()`, which is a null pointer when the vector is empty, even when the stream's count is not 0. The model reads and prints the elements in stream order, as `ReadMany` does. It does not model the destination vector, so the overwritten slot and the null pointer are left out.
- The constructors of `cycser`, `cycdeserbase`, `cycdeser` and `cycprint` start from the state they are given. Their bodies are in `serdes.cpp`, which is not part of this model.
- `cycdeser` and `cycprint` derive from `cycdeserbase`. This is modelled as a `base` field that they share.
- SerdesLayout.RoundTrip: covers integral scalars, `std::string`, `std::vector<bool>` and `std::vector<T>` of an integral `T`. `cycser` has no overload for `std::array`, so `<< x` on one goes to the generic `serialize(T)` (`serdes.hpp:46-55`). That aligns to `sizeof(std::array<T, S>)` and copies the array whole, while `deserialize_array<T, S>()` aligns each element to `sizeof(T)`. The two need not agree on the padding, so arrays are not items and no array round trip is claimed. Non-integral `T` (a `double`, a struct) written by the generic `serialize(T)` have no reader, because `deserialize<T>()` accepts only integral types (line 171). `std::wstring` is not an item either; `Serdes.WideReadBack` gives its round trip alone.
- `deserialize_array<T, S>()` (`serdes.hpp:235-242`) is `deserialize_many` with `n == S`, so `Serdes.CycDeser.DeserializeMany` covers it.
- `cycser::serialize(std::wstring)` and the wide-string readers assume that `wchar_t` is 4 bytes, as on Linux. Nothing in the source checks this. The model fixes `wchar_t` at 4 bytes.
- Serdes.CycDeser.DeserializeWString: `deserialize<std::wstring>` (`serdes.hpp:216`) calls `deserialize<std::vector<wchar_t>>()`. The `static_assert(std::is_integral<T>)` at `serdes.hpp:171` rejects that call, so the code does not compile as written. The model reads it as `deserialize_list<wchar_t>()` (`serdes.hpp:228-233`): a unit count, then that many 4-byte units. `Serdes.WideRead`, `Serdes.WideReadBack` and `Serdes.PrintWideAgrees` rest on this reading.
- Serialization.CDRWriter.SerializeWide: under `AsWritten`, a C++ `wstring` member is a `std::u16string` read as `std::wstring`. The model matches the source's count (4 bytes per unit) and the number of 4-byte units written. Each 4-byte unit is modelled as the 2-byte unit widened. The source instead reinterprets the 2-byte buffer as `wchar_t`, pairing units and reading past the buffer's end.
- LegacyEncoding and TypedValues use the `Intended` reading. The earlier writer calls `is_sequence` and `is_single_value`, which are undefined, and `apply_to_typed_value` already reads a C++ WSTRING member as `std::u16string`.
- Serdes.Yields: after an exception, the reader's position is not stated. The caller cannot observe it.
- Serialization.Emitted: after an exception, neither the sink's size nor the bytes written so far are stated. Every method whose `ensures` uses it is weaker on that path. The source leaves the partial output to be discarded.
- Serialization.SizeAccumulator.PutBytes: `size_t` wrap-around is not modelled, because sizes are unbounded. `_size + n` overflowing `SIZE_MAX` cannot happen for a message that fits in memory.
- Serialization.CDRWriter.SerializeU32: the `assert(s < UINT32_MAX)` is a precondition. Release builds would skip it.
- SerializationLegacy.LegacyCDRWriter.SerializeValue: the earlier string overload (`Serialization.hpp:113-127`) compiles for no string member. In `for_each_value([&](auto s) { serialize(s); })` (line 139) `s` is an lvalue, so `T` is deduced as a reference type, and `T::traits_type` then fails. Its loop `for (char & s : value)` (line 121) would also reject 16-bit units. The model gives every string, narrow or wide, the current writer's layout.
- Undefined code is left out. `MemberRef::for_each_value` (`include/rmw_cyclonedds_cpp/TypeSupport2_impl.hpp:82-100`) calls six functions that this revision does not define: `is_single_value`, `is_array`, `get_array_stride`, `get_array_size`, `is_sequence` and `get_sequence_size`. The model reads them as follows:
  - `is_single_value`, `is_array` and `is_sequence` are the intended classifications SingleValue, Array and Sequence;
  - `get_array_size` is `array_size_`;
  - `get_array_stride` is the value helper's `sizeof_value`;
  - `get_sequence_size` is `size_function(data)`, which is the field's value count for a conforming field.
- `InstantiableValueType::ctor` and `dtor` (`src/TypeSupport2.hpp:189-190`) are declared and never defined, and `StructValueType` (lines 329-338) overrides neither. The model reads a struct as one object: `TypeSupport.Heap.Construct` and `TypeSupport.Heap.Destroy` log one construction and one destruction for it, as for a primitive. Its members are not constructed one by one.
- The variadic `serialize(std::vector<uint8_t>&, Args...)` (`Serialization.hpp:168-179`) is left out. It builds a writer that it never uses.
- `get_svc_request_response_typesupports`, `TypeSupport2.cpp`, `sertopic`, `serdata`, `allocation.hpp` and `Deserialization.cpp` are left out. They only repackage host structures or are middleware glue. `Deserialization.cpp`'s leaf readers have empty bodies.
- Introspection.WithTypesupport: the external `get_message_typesupport_handle` (`TypeSupport2.hpp:155-157`) is modelled as "the handle's own identifier equals the text", and the handle found is the input handle. The real call goes through the handle's `func`. So a dispatching type support, such as one with identifier `rosidl_typesupport_c`, would resolve in the source to a different introspection handle, where the model raises `runtime_error`. The C-then-C++-else-`runtime_error` order is modelled as written. Introspection.WithServiceTypesupport and `get_service_typesupport_handle` (lines 168-170) are modelled the same way.
- Nested type supports are resolved values: a member's `members_` is the nested type support itself, not a pointer.
- `with_typesupport` for services is modelled as the lookup alone; the callback is the caller's.
- `CallbackSpanSequenceValueType` and the string value types' `rosidl_generator_c__String__init`/`fini` calls are foreign calls. They appear only as descriptors with sizes; `ROSIDLC_SpanSequenceValueType::resize` is modelled.
- TypeSupport.Heap.Malloc: an allocation never fails. A failing `malloc` is not modelled.
- The platform byte order `DDSRT_ENDIAN` is a parameter. Sizes and alignments are those of x86-64 Linux with libstdc++.
- Threads are not modelled; the codec is single-threaded.

## Findings

| source | as written | input that shows it | evidently intended | confidence | as-written member | corrected member |
|---|---|---|---|---|---|---|
| rmw_cyclonedds_cpp/include/rmw_cyclonedds_cpp/TypeSupport2.hpp:271-278 | Line 274 returns Array for any array without an upper bound, before line 275 can test `array_size_ == 0`. | An unbounded sequence member `int32[] values` (`is_array_`, `array_size_ == 0`, no upper bound) is classified as a fixed array of size 0, so the writer emits nothing for it: no count and no elements. With one element, the message serializes to the 4-byte header alone. | An array of size 0 without an upper bound is a Sequence. | not executed | Introspection.GetContainerTypeAsWritten, Introspection.UnboundedSequenceTakenForEmptyArray, Introspection.ContainerTypeAsWrittenDiffers, CdrEncoding.UnboundedFieldByReading, CdrEncoding.UnboundedSequenceDroppedByWriter | Introspection.ContainerType, Introspection.ReadingsAgreeButOnUnboundedSequences, Serialization.CDRWriter.SerializeField |
| rmw_cyclonedds_cpp/include/rmw_cyclonedds_cpp/serdes.hpp:192-210 | `deserialize<std::string>` uses the count `sz` only to test for zero. It takes the string up to the first NUL and advances by that string's length plus 1. When `[pos, lim)` holds no NUL, `std::string(data + pos)` reads past the received buffer before `deserialize_many` throws; the model gives only the exception. | The string `"a\0b"` is written as the count 4, then `61 00 62 00`. It reads back as `"a"`, and the reader stops two bytes short, at `62`. | The count covers the chars and the NUL. `validate_str(sz)` checks the NUL, the string is the `sz - 1` chars, and `pos` advances by `sz`, as `print(std::string)` already does. | not executed | SerdesLayout.ReadTextAsWritten, SerdesLayout.WrittenTextRead, SerdesLayout.EmbeddedNulExample, Serdes.CycDeser.DeserializeStringAsWritten | SerdesLayout.ReadText, SerdesLayout.TextReadBack, SerdesLayout.RoundTrip, Serdes.CycDeser.DeserializeString |
| rmw_cyclonedds_cpp/src/TypeSupport2_impl.hpp:79-80 | The C++ `with_value_helper` gives a WSTRING member a `NativeValueHelper<std::wstring>`. | A `wstring` member of a C++ message is stored as `std::u16string`, with 2-byte units, but is read as `std::wstring`, with 4-byte `wchar_t` units. `apply_to_typed_value` (`include/.../TypeSupport2_impl.hpp:75-76`) reads the same member as `std::u16string`. | `NativeValueHelper<std::u16string>`. | not executed | ValueHelpers.WithValueHelperAsWritten, ValueHelpers.WStringMemberReadWithWrongCharSize, ValueHelpers.WithValueHelperAsWrittenDiffers, CdrEncoding.WStringCountByReading | ValueHelpers.WithValueHelper, Messages.ConformsUnderWrittenHelper |
