/**
 * The bytes the CDR writer produces for a message, as functions of the
 * value tree and of the absolute offset at which each piece starts.
 *
 * The stream begins with a 4-byte encapsulation header (identifier CDR_BE
 * 0x0000 or CDR_LE 0x0001, options 0, as in section 10 of the OMG DDSI-RTPS
 * 2.3 specification). Each primitive is aligned to its size as in section
 * 9.3.1 of CORBA 3.3 Part 2, except that no alignment exceeds 4 bytes, and
 * the alignment is measured from the start of the stream, header included.
 */
module CdrEncoding {
  import opened Wire
  import opened TypeSupport
  import opened Introspection
  import opened ValueHelpers
  import opened Messages

  /** `max_align`. */
  const MaxAlign: nat := 4

  /** `std::min(max_align, n_bytes)`: the boundary a value of `n` bytes is aligned to. */
  function AlignTo(n: nat): (a: nat)
    requires n > 0
    ensures 1 <= a <= MaxAlign && a <= n
    ensures n >= MaxAlign ==> a == MaxAlign
  {
    if n < MaxAlign then n else MaxAlign
  }

  /** A value width whose alignment boundary divides `max_align`. */
  predicate AlignableWidth(n: nat)
  {
    n > 0 && MaxAlign % AlignTo(n) == 0
  }

  /** An offset on the boundary a value of `n` bytes is aligned to. */
  predicate AlignedAt(x: nat, n: nat)
    requires n > 0
  {
    x % AlignTo(n) == 0
  }

  /**
   * The number of zero bytes `align(n)` appends after `off` bytes, written
   * per boundary so that each case divides by a constant.
   */
  function PadLen(off: nat, n: nat): (p: nat)
    requires n > 0
    ensures p < AlignTo(n)
  {
    if n == 1 then 0
    else if n == 2 then off % 2
    else if n == 3 then (3 - off % 3) % 3
    else (4 - off % 4) % 4
  }

  /**
   * `align(n)` with `current = size() % align_to`: no padding when
   * `current` is zero, else `align_to - current` bytes.
   */
  lemma PadLenIsRemainder(off: nat, n: nat)
    requires n > 0
    ensures var a := AlignTo(n);
            PadLen(off, n) == if off % a == 0 then 0 else a - off % a
  {
    if n >= MaxAlign {
      assert AlignTo(n) == 4;
    }
  }

  /**
   * The padding is the fewest zero bytes that reach the boundary: the
   * offset after it is aligned, none of the offsets it covers is, and
   * there is none exactly when the offset is aligned already.
   */
  lemma PadLenAligns(off: nat, n: nat)
    requires n > 0
    ensures AlignedAt(off + PadLen(off, n), n)
    ensures forall x :: off <= x < off + PadLen(off, n) ==> !AlignedAt(x, n)
    ensures PadLen(off, n) == 0 <==> AlignedAt(off, n)
  {
    var a := AlignTo(n);
    var p := PadLen(off, n);
    PadLenIsRemainder(off, n);
    if p != 0 {
      ModUnique(off + p, a, off / a + 1, 0);
      forall x | off <= x < off + p
        ensures !AlignedAt(x, n)
      {
        ModUnique(x, a, off / a, off % a + (x - off));
      }
    }
  }

  /** Padding depends only on the offset modulo 4. */
  lemma PadLenShift(off: nat, d: nat, n: nat)
    requires AlignableWidth(n) && d % MaxAlign == 0
    ensures PadLen(off + d, n) == PadLen(off, n)
  {
    if n == 2 {
      ModUnique(d, 2, 2 * (d / 4), 0);
      ModShift(off, d, 2);
    } else if n >= 4 {
      ModShift(off, d, 4);
    }
  }

  lemma ModShift(off: nat, d: nat, a: nat)
    requires a > 0 && d % a == 0
    ensures (off + d) % a == off % a
  {
    ModUnique(off + d, a, off / a + d / a, off % a);
  }

  /** Every stored scalar and character width has an alignment dividing 4. */
  lemma ScalarWidthsAlignable(c: ConcreteType)
    ensures AlignableWidth(SizeOf(c))
  {
  }

  /** The 4-byte encapsulation header: plain CDR in the producer's byte order. */
  function Header(e: Endian): (h: seq<byte>)
    ensures |h| == 4
    ensures h[0] == 0 && h[2] == 0 && h[3] == 0
    ensures h[1] == 1 <==> e == LittleEndian
    ensures h[1] == 0 <==> e == BigEndian
  {
    [0, if e == LittleEndian then 1 else 0, 0, 0]
  }

  /** A primitive of `n` bytes written after `off` bytes: padding, then its bytes. */
  function PrimitiveBytes(off: nat, n: nat, bs: seq<byte>): seq<byte>
    requires n > 0
  {
    Zeros(PadLen(off, n)) + bs
  }

  /** `serialize_u32(x)`: a 4-byte count in the producer's byte order. */
  function U32Bytes(e: Endian, x: nat, off: nat): seq<byte>
  {
    PrimitiveBytes(off, 4, UIntBytes(x, 4, e))
  }

  /**
   * A narrow string: its length plus one as a 32-bit count, its characters
   * (single bytes, never padded), then a NUL.
   */
  function TextBytes(e: Endian, chars: seq<byte>, off: nat): seq<byte>
  {
    U32Bytes(e, |chars| + 1, off) + chars + [0]
  }

  /** The first `n` code units of a wide string, each of `w` bytes and aligned to its size. */
  function UnitsBytes(e: Endian, units: seq<char16>, w: nat, n: nat, off: nat): seq<byte>
    requires w > 0 && n <= |units|
  {
    if n == 0 then []
    else
      var before := UnitsBytes(e, units, w, n - 1, off);
      before + PrimitiveBytes(off + |before|, w, UIntBytes(units[n - 1], w, e))
  }

  /** A wide string: its length in bytes as a 32-bit count, then its units; no terminator. */
  function WideBytes(e: Endian, units: seq<char16>, w: nat, off: nat): seq<byte>
    requires w > 0
  {
    var count := U32Bytes(e, |units| * w, off);
    count + UnitsBytes(e, units, w, |units|, off + |count|)
  }

  /**
   * What a piece of the writer emits: the bytes it puts before it stops, and
   * whether it stops with a `runtime_error` (a nested type support that is
   * not recognised) after them.
   */
  datatype Emission = Emission(bytes: seq<byte>, failed: bool)

  const Nothing := Emission([], false)

  /** One piece followed by the next; a failed piece ends the stream. */
  function Then(a: Emission, b: Emission): (r: Emission)
    ensures a.failed ==> r == a
    ensures !a.failed ==> r.bytes == a.bytes + b.bytes && r.failed == b.failed
  {
    if a.failed then a else Emission(a.bytes + b.bytes, b.failed)
  }

  function Min(a: nat, b: nat): nat
  {
    if a < b then a else b
  }

  /**
   * `serialize` of one value read through its helper: a primitive aligned
   * to its size, a narrow or wide string, or a nested message's members in
   * order (a nested message itself adds no alignment). A value of another
   * kind than its helper reads emits nothing.
   */
  function ValueE(e: Endian, rd: Reading, h: ValueHelper, v: Value, off: nat): Emission
    decreases v, 0
  {
    match h
    case NativeValueHelper(t) => (
      match t
      case ScalarType(c) =>
        if v.PrimitiveValue? then Emission(PrimitiveBytes(off, SizeOf(c), v.bytes), false) else Nothing
      case _ => StringE(e, t, v, off))
    case MessageValueHelper(tm) =>
      if v.MessageValue? then MessageE(e, rd, tm, v.fields, off) else Nothing
  }

  /** A string value read as the string type `t`: narrow for 1-byte characters, wide otherwise. */
  function StringE(e: Endian, t: NativeType, v: Value, off: nat): Emission
    requires !t.ScalarType?
  {
    if CharSize(t) == 1 then
      if v.StringValue? then Emission(TextBytes(e, v.chars, off), false) else Nothing
    else
      if v.WStringValue? then Emission(WideBytes(e, v.units, CharSize(t), off), false) else Nothing
  }

  /** `serialize(MessageRef)`: every member, in index order. */
  function MessageE(e: Endian, rd: Reading, tm: TypedMembers, fields: seq<Field>, off: nat): Emission
    decreases fields, 2
  {
    MembersE(e, rd, tm, fields, Min(|fields|, |tm.meta.members|), off)
  }

  /** The first `k` members of a message. */
  function MembersE(e: Endian, rd: Reading, tm: TypedMembers, fields: seq<Field>, k: nat, off: nat): Emission
    requires k <= |fields| && k <= |tm.meta.members|
    decreases fields, 1, k
  {
    if k == 0 then Nothing
    else
      var before := MembersE(e, rd, tm, fields, k - 1, off);
      Then(before, FieldE(e, rd, tm.generator, tm.meta.members[k - 1], fields[k - 1], off + |before.bytes|))
  }

  /** One member, classified and read through its value helper under reading `rd`. */
  function FieldE(e: Endian, rd: Reading, gen: TypeGenerator, m: MessageMember, f: Field, off: nat): Emission
    decreases f, 3
  {
    ClassifiedFieldE(e, rd, Classify(rd, m), gen, m, f, off)
  }

  /**
   * One member classified as `c`: the value helper is resolved first (a
   * `runtime_error` emits nothing for the member); then a single value is
   * written once, an array's first `array_size_` values without a prefix,
   * and a sequence's values after a 32-bit count.
   */
  function ClassifiedFieldE(e: Endian, rd: Reading, c: MemberContainerType, gen: TypeGenerator, m: MessageMember,
                            f: Field, off: nat): Emission
    decreases f, 2
  {
    match HelperOf(rd, gen, m)
    case Err(_) => Emission([], true)
    case Ok(h) => (
      match c
      case SingleValue => ValuesE(e, rd, h, f, Min(1, |f.values|), off)
      case Array => ValuesE(e, rd, h, f, Min(m.arraySize, |f.values|), off)
      case Sequence => SequenceE(e, rd, h, f, off))
  }

  /** A sequence member: its element count, then every element. */
  function SequenceE(e: Endian, rd: Reading, h: ValueHelper, f: Field, off: nat): Emission
    decreases f, 1
  {
    var count := U32Bytes(e, |f.values|, off);
    Then(Emission(count, false), ValuesE(e, rd, h, f, |f.values|, off + |count|))
  }

  /** The first `n` values of a field, each after the ones before it. */
  function ValuesE(e: Endian, rd: Reading, h: ValueHelper, f: Field, n: nat, off: nat): Emission
    requires n <= |f.values|
    decreases f, 0, n
  {
    if n == 0 then Nothing
    else
      var before := ValuesE(e, rd, h, f, n - 1, off);
      Then(before, ValueE(e, rd, h, f.values[n - 1], off + |before.bytes|))
  }

  /** The first value of a field, on its own, is what writing that value emits. */
  lemma ValuesSingle(e: Endian, rd: Reading, h: ValueHelper, f: Field, off: nat)
    requires 1 <= |f.values|
    ensures ValuesE(e, rd, h, f, 1, off) == ValueE(e, rd, h, f.values[0], off)
  {
    var v := ValueE(e, rd, h, f.values[0], off);
    assert [] + v.bytes == v.bytes;
  }

  /** The header, then the members, for a stream that already holds `off` bytes. */
  function HeaderedE(e: Endian, rd: Reading, tm: TypedMembers, fields: seq<Field>, off: nat): Emission
  {
    Then(Emission(Header(e), false), MessageE(e, rd, tm, fields, off + 4))
  }

  /**
   * `serialize_top_level(msg)` inside `with_message`: an unrecognised type
   * support fails before anything is written; otherwise the header, then
   * the members starting at offset 4.
   */
  function TopLevelE(e: Endian, rd: Reading, ts: MessageTypeSupport, fields: seq<Field>): Emission
  {
    match WithTypesupport(ts)
    case Err(_) => Emission([], true)
    case Ok(tm) => HeaderedE(e, rd, tm, fields, 0)
  }

  /** A C message whose only member is `int32[] values`. */
  function UnboundedSequenceMessage(): (ts: MessageTypeSupport)
    ensures WithTypesupport(ts) == Ok(TypedMembers(RosidlC, ts.data))
    ensures ts.data.members == [UnboundedSequenceMember()]
  {
    MessageTypeSupport(CIdentifierText, MessageMembers([UnboundedSequenceMember()], 24))
  }

  /**
   * The writer as written drops an unbounded sequence: for a message whose
   * only member is `int32[] values` holding one element, it emits the
   * header alone, while the writer under the descriptors' classification
   * emits the header, the count 1 and the element.
   */
  lemma UnboundedSequenceDroppedByWriter(e: Endian, x: seq<byte>)
    requires |x| == 4
    ensures var fields := [Field([PrimitiveValue(x)])];
            TopLevelE(e, AsWritten, UnboundedSequenceMessage(), fields) == Emission(Header(e), false) &&
            TopLevelE(e, Intended, UnboundedSequenceMessage(), fields) ==
              Emission(Header(e) + UIntBytes(1, 4, e) + x, false)
  {
    var ts := UnboundedSequenceMessage();
    var tm := TypedMembers(RosidlC, ts.data);
    var f := Field([PrimitiveValue(x)]);
    UnboundedFieldByReading(e, x);
    hide FieldE, UIntBytes, Header, WithTypesupport, UnboundedSequenceMember, UnboundedSequenceMessage;
    assert MessageE(e, AsWritten, tm, [f], 4) == Nothing by {
      assert MembersE(e, AsWritten, tm, [f], 1, 4) == Then(Nothing, FieldE(e, AsWritten, RosidlC, UnboundedSequenceMember(), f, 4));
    }
    assert MessageE(e, Intended, tm, [f], 4) == Emission(UIntBytes(1, 4, e) + x, false) by {
      assert MembersE(e, Intended, tm, [f], 1, 4) == Then(Nothing, FieldE(e, Intended, RosidlC, UnboundedSequenceMember(), f, 4));
    }
    assert Header(e) + [] == Header(e);
    assert Header(e) + (UIntBytes(1, 4, e) + x) == Header(e) + UIntBytes(1, 4, e) + x;
  }

  /** The member `int32[] values` holding one element, written at offset 4 under each reading. */
  lemma UnboundedFieldByReading(e: Endian, x: seq<byte>)
    requires |x| == 4
    ensures FieldE(e, AsWritten, RosidlC, UnboundedSequenceMember(), Field([PrimitiveValue(x)]), 4) == Nothing
    ensures FieldE(e, Intended, RosidlC, UnboundedSequenceMember(), Field([PrimitiveValue(x)]), 4) ==
            Emission(UIntBytes(1, 4, e) + x, false)
  {
    var m := UnboundedSequenceMember();
    var f := Field([PrimitiveValue(x)]);
    var h := NativeValueHelper(ScalarType(CInt));
    hide UIntBytes, WithTypesupport;
    UnboundedSequenceTakenForEmptyArray();
    assert HelperOf(AsWritten, RosidlC, m) == Ok(h);
    assert HelperOf(Intended, RosidlC, m) == Ok(h);
    assert FieldE(e, AsWritten, RosidlC, m, f, 4) == ValuesE(e, AsWritten, h, f, 0, 4);
    assert ValuesE(e, Intended, h, f, 1, 8) == Emission(x, false) by {
      ValuesSingle(e, Intended, h, f, 8);
      assert Zeros(0) + x == x;
    }
    assert PadLen(4, 4) == 0;
    assert U32Bytes(e, 1, 4) == UIntBytes(1, 4, e) by {
      assert Zeros(0) + UIntBytes(1, 4, e) == UIntBytes(1, 4, e);
    }
    assert FieldE(e, Intended, RosidlC, m, f, 4) == SequenceE(e, Intended, h, f, 4);
  }

  /**
   * The writer as written prefixes a C++ `wstring` of `n` units with the
   * count `4 * n` and writes 4 bytes per unit; under the stored type
   * `std::u16string` the count is `2 * n` and each unit takes 2 bytes.
   */
  lemma WStringCountByReading(e: Endian, m: MessageMember, units: seq<char16>, off: nat)
    requires m.typeId == WString && !m.isArray
    ensures FieldE(e, AsWritten, RosidlCpp, m, Field([WStringValue(units)]), off) ==
            Emission(WideBytes(e, units, 4, off), false)
    ensures FieldE(e, Intended, RosidlCpp, m, Field([WStringValue(units)]), off) ==
            Emission(WideBytes(e, units, 2, off), false)
    ensures WideBytes(e, units, 4, off)[..4 + PadLen(off, 4)] == U32Bytes(e, |units| * 4, off)
    ensures WideBytes(e, units, 2, off)[..4 + PadLen(off, 4)] == U32Bytes(e, |units| * 2, off)
  {
    var f := Field([WStringValue(units)]);
    WStringMemberReadWithWrongCharSize(m);
    ValuesSingle(e, AsWritten, HelperOf(AsWritten, RosidlCpp, m).value, f, off);
    ValuesSingle(e, Intended, HelperOf(Intended, RosidlCpp, m).value, f, off);
  }

  const INT64_MIN: int := -0x8000_0000_0000_0000
  const INT64_MAX: int := 0x7FFF_FFFF_FFFF_FFFF

  /** `cdds_request_header_t`: the writer's GUID and the request's sequence number. */
  datatype RequestHeader = RequestHeader(guid: nat, seqNum: int)
  {
    predicate Valid()
    {
      guid < Pow256(8) && INT64_MIN <= seqNum <= INT64_MAX
    }
  }

  lemma Pow256Of8()
    ensures Pow256(8) == 0x1_0000_0000_0000_0000
  {
    assert Pow256(4) == 0x1_0000_0000 by {
      assert Pow256(2) == 0x1_0000;
    }
    assert Pow256(6) == 0x1_0000_0000_0000;
  }

  /** The two's-complement bit pattern of a 64-bit signed value. */
  function TwosComplement64(x: int): (u: nat)
    requires INT64_MIN <= x <= INT64_MAX
    ensures u < Pow256(8)
    ensures x >= 0 ==> u == x
    ensures x < 0 ==> u == x + Pow256(8)
  {
    Pow256Of8();
    if x < 0 then x + 0x1_0000_0000_0000_0000 else x
  }

  /** The header, the 64-bit GUID and the 64-bit sequence number, from offset `off`. */
  function RequestPrefix(e: Endian, rh: RequestHeader, off: nat): seq<byte>
    requires rh.Valid()
  {
    var guid := PrimitiveBytes(off + 4, 8, UIntBytes(rh.guid, 8, e));
    var sn := PrimitiveBytes(off + 4 + |guid|, 8, UIntBytes(TwosComplement64(rh.seqNum), 8, e));
    Header(e) + guid + sn
  }

  /** The request prefix, then the members. */
  function RequestedE(e: Endian, rd: Reading, tm: TypedMembers, rh: RequestHeader, fields: seq<Field>, off: nat): Emission
    requires rh.Valid()
  {
    var prefix := RequestPrefix(e, rh, off);
    Then(Emission(prefix, false), MessageE(e, rd, tm, fields, off + |prefix|))
  }

  /** `serialize_top_level(request_header, msg)` inside `with_message`. */
  function RequestE(e: Endian, rd: Reading, ts: MessageTypeSupport, rh: RequestHeader, fields: seq<Field>): Emission
    requires rh.Valid()
  {
    match WithTypesupport(ts)
    case Err(_) => Emission([], true)
    case Ok(tm) => RequestedE(e, rd, tm, rh, fields, 0)
  }

  /**
   * `b` continues `a`: a failed piece is all there is, and a piece that did
   * not fail emits a prefix of what `b` emits.
   */
  predicate Extends(a: Emission, b: Emission)
  {
    (a.failed ==> b == a) &&
    (!a.failed ==> |a.bytes| <= |b.bytes| && b.bytes[..|a.bytes|] == a.bytes)
  }

  lemma ThenExtends(a: Emission, b: Emission)
    ensures Extends(a, Then(a, b))
  {
    if !a.failed {
      assert Then(a, b).bytes[..|a.bytes|] == a.bytes;
    }
  }

  lemma ExtendsTransitive(a: Emission, b: Emission, c: Emission)
    requires Extends(a, b) && Extends(b, c)
    ensures Extends(a, c)
  {
    if !a.failed && !b.failed {
      assert c.bytes[..|a.bytes|] == c.bytes[..|b.bytes|][..|a.bytes|];
    }
  }

  /** The first `k` members are where the first `n >= k` begin. */
  lemma {:induction false} MembersExtend(e: Endian, rd: Reading, tm: TypedMembers, fields: seq<Field>, k: nat, n: nat, off: nat)
    requires k <= n <= |fields| && n <= |tm.meta.members|
    ensures Extends(MembersE(e, rd, tm, fields, k, off), MembersE(e, rd, tm, fields, n, off))
    decreases n - k
  {
    if k < n {
      var before := MembersE(e, rd, tm, fields, k, off);
      var next := MembersE(e, rd, tm, fields, k + 1, off);
      ThenExtends(before, FieldE(e, rd, tm.generator, tm.meta.members[k], fields[k], off + |before.bytes|));
      MembersExtend(e, rd, tm, fields, k + 1, n, off);
      ExtendsTransitive(before, next, MembersE(e, rd, tm, fields, n, off));
    } else {
      ExtendsReflexive(MembersE(e, rd, tm, fields, k, off));
    }
  }

  /** The first `k` values are where the first `n >= k` begin. */
  lemma {:induction false} ValuesExtend(e: Endian, rd: Reading, h: ValueHelper, f: Field, k: nat, n: nat, off: nat)
    requires k <= n <= |f.values|
    ensures Extends(ValuesE(e, rd, h, f, k, off), ValuesE(e, rd, h, f, n, off))
    decreases n - k
  {
    if k < n {
      var before := ValuesE(e, rd, h, f, k, off);
      var next := ValuesE(e, rd, h, f, k + 1, off);
      ThenExtends(before, ValueE(e, rd, h, f.values[k], off + |before.bytes|));
      ValuesExtend(e, rd, h, f, k + 1, n, off);
      ExtendsTransitive(before, next, ValuesE(e, rd, h, f, n, off));
    } else {
      ExtendsReflexive(ValuesE(e, rd, h, f, k, off));
    }
  }

  /** The first `k` code units are where the first `n >= k` begin. */
  lemma {:induction false} UnitsExtend(e: Endian, units: seq<char16>, w: nat, k: nat, n: nat, off: nat)
    requires w > 0 && k <= n <= |units|
    ensures Extends(Emission(UnitsBytes(e, units, w, k, off), false), Emission(UnitsBytes(e, units, w, n, off), false))
    decreases n - k
  {
    var before := Emission(UnitsBytes(e, units, w, k, off), false);
    if k < n {
      var next := Emission(UnitsBytes(e, units, w, k + 1, off), false);
      ThenExtends(before, Emission(PrimitiveBytes(off + |before.bytes|, w, UIntBytes(units[k], w, e)), false));
      UnitsExtend(e, units, w, k + 1, n, off);
      ExtendsTransitive(before, next, Emission(UnitsBytes(e, units, w, n, off), false));
    } else {
      ExtendsReflexive(before);
    }
  }

  lemma ExtendsReflexive(a: Emission)
    ensures Extends(a, a)
  {
  }
}
