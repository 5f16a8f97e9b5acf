/**
 * The earlier, header-only revision of the CDR writer and its two entry
 * points. Its size-counting sink and its leaf operations (`align`,
 * `serialize` of a primitive and of a string, `serialize_u32`) are those
 * of the current writer and are shared with module Serialization; what
 * differs is the copying sink's constructor, the order of the top-level
 * steps and the member loop.
 */
module SerializationLegacy {
  import opened Wire
  import opened TypeSupport
  import opened Introspection
  import opened ValueHelpers
  import opened Messages
  import opened CdrEncoding
  import opened LegacyEncoding
  import opened Serialization

  /**
   * `DataAccumulator(data, capacity, size)` of the earlier revision: the
   * size argument is ignored and the sink always starts empty.
   */
  method NewDataAccumulator(data: array<byte>, capacity: nat, size: nat := 0) returns (d: DataAccumulator)
    requires capacity <= data.Length
    ensures fresh(d)
    ensures d.data == data && d.capacity == capacity && d.size == 0
  {
    d := new DataAccumulator(data, capacity, 0);
  }

  /** One pass of the member loop of `serialize(MessageRef)`. */
  lemma LegacyMemberStep(cap: nat, s0: nat, b0: seq<byte>, s1: nat, b1: seq<byte>, s2: nat, b2: seq<byte>, writing: bool,
                   e: Endian, tm: TypedMembers, fields: seq<Field>, k: nat, err: Option<Exception>)
    requires k < |fields| == |tm.meta.members|
    requires Emitted(cap, s0, b0, s1, b1, writing, LegacyMembersE(e, tm, fields, k, s0), None)
    requires Emitted(cap, s1, b1, s2, b2, writing, LegacyFieldE(e, tm.generator, tm.meta.members[k], fields[k], s1), err)
    ensures err.None? ==> Emitted(cap, s0, b0, s2, b2, writing, LegacyMembersE(e, tm, fields, k + 1, s0), None)
    ensures err.Some? ==> Emitted(cap, s0, b0, s2, b2, writing, LegacyMessageE(e, tm, fields, s0), err)
  {
    var before := LegacyMembersE(e, tm, fields, k, s0);
    var step := LegacyFieldE(e, tm.generator, tm.meta.members[k], fields[k], s1);
    assert Then(before, step) == LegacyMembersE(e, tm, fields, k + 1, s0);
    EmittedThen(cap, s0, b0, s1, b1, s2, b2, writing, before, step, err);
    if err.Some? {
      LegacyMembersExtend(e, tm, fields, k + 1, |fields|, s0);
      EmittedExtends(cap, s0, b0, s2, b2, writing, LegacyMembersE(e, tm, fields, k + 1, s0),
                     LegacyMessageE(e, tm, fields, s0), err);
    }
  }

  /** One pass of the value loop of `for_each_value`. */
  lemma LegacyValueStep(cap: nat, s0: nat, b0: seq<byte>, s1: nat, b1: seq<byte>, s2: nat, b2: seq<byte>, writing: bool,
                  e: Endian, h: ValueHelper, f: Field, i: nat, n: nat, err: Option<Exception>)
    requires i < n <= |f.values|
    requires Emitted(cap, s0, b0, s1, b1, writing, LegacyValuesE(e, h, f, i, s0), None)
    requires Emitted(cap, s1, b1, s2, b2, writing, LegacyValueE(e, h, f.values[i], s1), err)
    ensures err.None? ==> Emitted(cap, s0, b0, s2, b2, writing, LegacyValuesE(e, h, f, i + 1, s0), None)
    ensures err.Some? ==> Emitted(cap, s0, b0, s2, b2, writing, LegacyValuesE(e, h, f, n, s0), err)
  {
    var before := LegacyValuesE(e, h, f, i, s0);
    var step := LegacyValueE(e, h, f.values[i], s1);
    assert Then(before, step) == LegacyValuesE(e, h, f, i + 1, s0);
    EmittedThen(cap, s0, b0, s1, b1, s2, b2, writing, before, step, err);
    if err.Some? {
      LegacyValuesExtend(e, h, f, i + 1, n, s0);
      EmittedExtends(cap, s0, b0, s2, b2, writing, LegacyValuesE(e, h, f, i + 1, s0), LegacyValuesE(e, h, f, n, s0), err);
    }
  }

  /**
   * The earlier `CDRWriter`. `leaf` is a current writer over the same sink
   * and in the same byte order, which performs the leaf operations the two
   * revisions share.
   */
  class LegacyCDRWriter {
    const dst: Accumulator
    const e: Endian
    const leaf: CDRWriter

    constructor (dst: Accumulator, e: Endian)
      ensures this.dst == dst && this.e == e && Wired()
    {
      this.dst := dst;
      this.e := e;
      this.leaf := new CDRWriter(dst, e, Intended);
    }

    /** The leaf writer shares this writer's sink and byte order. */
    predicate Wired()
    {
      leaf.dst == dst && leaf.e == e
    }

    /**
     * `serialize_top_level(message_data, type_support)`: the encapsulation
     * header, then the message inside `with_typesupport`.
     */
    method SerializeTopLevel(ts: MessageTypeSupport, fields: seq<Field>) returns (err: Option<Exception>)
      requires TopLevelSerializable(Intended, ts, fields) && dst.Valid() && Wired()
      modifies dst.Repr()
      ensures dst.Valid()
      ensures Emitted(dst.Capacity(), old(dst.Size()), old(dst.Buffer()), dst.Size(), dst.Buffer(),
                      dst.Writing?, LegacyTopLevelE(e, ts, fields, old(dst.Size())), err)
    {
      hide LegacyFieldE, LegacyVisitE, LegacySequenceE, LegacyValuesE, LegacyValueE, LegacyMessageE, LegacyMembersE, U32Bytes, PrimitiveBytes, UIntBytes, Zeros, PadLen, ValueE, ValuesE, MessageE, MembersE, FieldE;
      ghost var s0, b0 := dst.Size(), dst.Buffer();
      ghost var header := Emission(Header(e), false);
      var tm := WithTypesupport(ts);
      ghost var body := if tm.Err? then Emission([], true) else LegacyMessageE(e, tm.value, fields, s0 + 4);
      err := leaf.PutEncapsulationHeader();
      if err.Some? {
        EmittedStops(dst.Capacity(), s0, b0, dst.Size(), dst.Buffer(), dst.Writing?, header, body, err);
        return;
      }
      ghost var s1, b1 := dst.Size(), dst.Buffer();
      if tm.Err? {
        err := Some(tm.error);
      } else {
        err := SerializeMessage(tm.value, fields);
      }
      EmittedThen(dst.Capacity(), s0, b0, s1, b1, dst.Size(), dst.Buffer(), dst.Writing?, header, body, err);
    }

    /** `align_and_put(data, n)`: align to the value's size, then put its bytes. */
    method AlignAndPut(bs: seq<byte>) returns (err: Option<Exception>)
      requires |bs| > 0 && dst.Valid() && Wired()
      modifies dst.Repr()
      ensures dst.Valid()
      ensures Emitted(dst.Capacity(), old(dst.Size()), old(dst.Buffer()), dst.Size(), dst.Buffer(),
                      dst.Writing?, Emission(PrimitiveBytes(old(dst.Size()), |bs|, bs), false), err)
    {
      ghost var s0, b0 := dst.Size(), dst.Buffer();
      ghost var pad := Emission(Zeros(PadLen(s0, |bs|)), false);
      assert Then(pad, Emission(bs, false)) == Emission(PrimitiveBytes(s0, |bs|, bs), false);
      err := leaf.Align(|bs|);
      if err.Some? {
        EmittedStops(dst.Capacity(), s0, b0, dst.Size(), dst.Buffer(), dst.Writing?, pad, Emission(bs, false), err);
        return;
      }
      ghost var s1, b1 := dst.Size(), dst.Buffer();
      err := dst.Put(bs);
      EmittedThen(dst.Capacity(), s0, b0, s1, b1, dst.Size(), dst.Buffer(), dst.Writing?, pad, Emission(bs, false), err);
    }

    /** `serialize(MessageRef)`: each member in index order. */
    method SerializeMessage(tm: TypedMembers, fields: seq<Field>) returns (err: Option<Exception>)
      requires MessageConforms(tm, fields) && MessageCountsFit(Intended, tm, fields) && dst.Valid() && Wired()
      modifies dst.Repr()
      ensures dst.Valid()
      ensures Emitted(dst.Capacity(), old(dst.Size()), old(dst.Buffer()), dst.Size(), dst.Buffer(),
                      dst.Writing?, LegacyMessageE(e, tm, fields, old(dst.Size())), err)
      decreases fields, 2
    {
      ghost var s0, b0 := dst.Size(), dst.Buffer();
      EmittedNothing(dst.Capacity(), s0, b0, dst.Writing?);
      var msg := MessageRef(tm.meta, 0);
      var k := 0;
      while k < msg.Size()
        invariant k <= |fields| == |tm.meta.members|
        invariant dst.Valid()
        invariant Emitted(dst.Capacity(), s0, b0, dst.Size(), dst.Buffer(), dst.Writing?,
                          LegacyMembersE(e, tm, fields, k, s0), None)
      {
        ghost var s1, b1 := dst.Size(), dst.Buffer();
        err := SerializeMember(tm.generator, tm.meta.members[k], fields[k]);
        LegacyMemberStep(dst.Capacity(), s0, b0, s1, b1, dst.Size(), dst.Buffer(), dst.Writing?, e, tm, fields, k, err);
        if err.Some? {
          return;
        }
        k := k + 1;
      }
      return None;
    }

    /**
     * One member: `serialize_u32(get_sequence_size())` for a sequence, then
     * `for_each_value(serialize)`.
     */
    method SerializeMember(gen: TypeGenerator, m: MessageMember, f: Field) returns (err: Option<Exception>)
      requires FieldConforms(gen, m, f) && FieldCountsFit(Intended, gen, m, f) && dst.Valid() && Wired()
      modifies dst.Repr()
      ensures dst.Valid()
      ensures Emitted(dst.Capacity(), old(dst.Size()), old(dst.Buffer()), dst.Size(), dst.Buffer(),
                      dst.Writing?, LegacyFieldE(e, gen, m, f, old(dst.Size())), err)
      decreases f, 4
    {
      if ContainerType(m) == Sequence {
        err := SerializeSequence(gen, m, f);
      } else {
        err := ForEachValue(gen, m, f);
      }
    }

    /** The sequence branch: `serialize_u32(get_sequence_size())`, then each value. */
    method SerializeSequence(gen: TypeGenerator, m: MessageMember, f: Field) returns (err: Option<Exception>)
      requires ContainerType(m) == Sequence
      requires FieldConforms(gen, m, f) && FieldCountsFit(Intended, gen, m, f) && dst.Valid() && Wired()
      modifies dst.Repr()
      ensures dst.Valid()
      ensures Emitted(dst.Capacity(), old(dst.Size()), old(dst.Buffer()), dst.Size(), dst.Buffer(),
                      dst.Writing?, LegacySequenceE(e, gen, m, f, old(dst.Size())), err)
      decreases f, 3
    {
      hide LegacyVisitE, LegacyFieldE, WithValueHelper, LegacyValuesE, LegacyValueE, LegacyMessageE, LegacyMembersE, U32Bytes, PrimitiveBytes, UIntBytes, Zeros, PadLen, ValueE, ValuesE, MessageE, MembersE, FieldE;
      ghost var s0, b0 := dst.Size(), dst.Buffer();
      ghost var count := Emission(U32Bytes(e, |f.values|, s0), false);
      ghost var visit := LegacyVisitE(e, gen, m, f, s0 + |count.bytes|);
      assert Then(count, visit) == LegacySequenceE(e, gen, m, f, s0);
      err := leaf.SerializeU32(|f.values|);
      if err.Some? {
        EmittedStops(dst.Capacity(), s0, b0, dst.Size(), dst.Buffer(), dst.Writing?, count, visit, err);
        return;
      }
      ghost var s1, b1 := dst.Size(), dst.Buffer();
      err := ForEachValue(gen, m, f);
      EmittedThen(dst.Capacity(), s0, b0, s1, b1, dst.Size(), dst.Buffer(), dst.Writing?, count, visit, err);
    }

    /**
     * `for_each_value(serialize)`: every value the member holds, each one
     * reached through the typed dispatch when it is visited; a nested
     * message whose type support is not recognised raises `runtime_error`
     * at its first value.
     */
    method ForEachValue(gen: TypeGenerator, m: MessageMember, f: Field) returns (err: Option<Exception>)
      requires FieldConforms(gen, m, f) && FieldCountsFit(Intended, gen, m, f) && dst.Valid() && Wired()
      modifies dst.Repr()
      ensures dst.Valid()
      ensures Emitted(dst.Capacity(), old(dst.Size()), old(dst.Buffer()), dst.Size(), dst.Buffer(),
                      dst.Writing?, LegacyVisitE(e, gen, m, f, old(dst.Size())), err)
      decreases f, 2
    {
      hide LegacySequenceE, LegacyFieldE, LegacyValuesE, LegacyValueE, LegacyMessageE, LegacyMembersE, U32Bytes, PrimitiveBytes, UIntBytes, Zeros, PadLen, ValueE, ValuesE, MessageE, MembersE, FieldE;
      ghost var s0, b0 := dst.Size(), dst.Buffer();
      var n := VisitCount(m, f);
      var helper := WithValueHelper(gen, m);
      if helper.Err? {
        EmittedNothing(dst.Capacity(), s0, b0, dst.Writing?);
        if n == 0 {
          return None;
        }
        return Some(helper.error);
      }
      err := SerializeValues(helper.value, f, n);
    }

    /** The value loop: `serialize` of each of the first `n` values. */
    method SerializeValues(h: ValueHelper, f: Field, n: nat) returns (err: Option<Exception>)
      requires n <= |f.values| && dst.Valid() && Wired()
      requires forall i :: 0 <= i < |f.values| ==> ValueConforms(h, f.values[i]) && ValueCountsFit(Intended, h, f.values[i])
      modifies dst.Repr()
      ensures dst.Valid()
      ensures Emitted(dst.Capacity(), old(dst.Size()), old(dst.Buffer()), dst.Size(), dst.Buffer(),
                      dst.Writing?, LegacyValuesE(e, h, f, n, old(dst.Size())), err)
      decreases f, 1
    {
      hide Emitted, Outcome, LegacyValueE, LegacyMessageE, LegacyMembersE, LegacyFieldE, ValueE, ValuesE, MessageE;
      ghost var s0, b0 := dst.Size(), dst.Buffer();
      EmittedNothing(dst.Capacity(), s0, b0, dst.Writing?);
      var i := 0;
      while i < n
        invariant i <= n
        invariant dst.Valid()
        invariant Emitted(dst.Capacity(), s0, b0, dst.Size(), dst.Buffer(), dst.Writing?,
                          LegacyValuesE(e, h, f, i, s0), None)
      {
        ghost var s1, b1 := dst.Size(), dst.Buffer();
        err := SerializeValue(h, f.values[i]);
        LegacyValueStep(dst.Capacity(), s0, b0, s1, b1, dst.Size(), dst.Buffer(), dst.Writing?, e, h, f, i, n, err);
        if err.Some? {
          return;
        }
        i := i + 1;
      }
      return None;
    }

    /**
     * `serialize` of one value: a primitive as the current writer does it, a
     * string in the current writer's layout (the earlier string overload
     * compiles for none), a nested message here.
     */
    method SerializeValue(h: ValueHelper, v: Value) returns (err: Option<Exception>)
      requires ValueConforms(h, v) && ValueCountsFit(Intended, h, v) && dst.Valid() && Wired()
      modifies dst.Repr()
      ensures dst.Valid()
      ensures Emitted(dst.Capacity(), old(dst.Size()), old(dst.Buffer()), dst.Size(), dst.Buffer(),
                      dst.Writing?, LegacyValueE(e, h, v, old(dst.Size())), err)
      decreases v, 0
    {
      match h
      case NativeValueHelper(_) =>
        err := leaf.SerializeValue(h, v);
      case MessageValueHelper(tm) =>
        err := SerializeMessage(tm, v.fields);
    }
  }

  /**
   * `get_serialized_size(message_data, type_support)`: a counting pass of
   * the earlier top-level writer into a sink that can hold `SIZE_MAX`
   * bytes, every exception passed on.
   */
  method GetSerializedSize(e: Endian, ts: MessageTypeSupport, fields: seq<Field>) returns (r: Result<nat>)
    requires TopLevelSerializable(Intended, ts, fields)
    ensures r.Ok? <==> Outcome(SIZE_MAX, 0, LegacyTopLevelE(e, ts, fields, 0)).None?
    ensures r.Ok? ==> r.value == |LegacyTopLevelE(e, ts, fields, 0).bytes|
    ensures r.Err? ==> Outcome(SIZE_MAX, 0, LegacyTopLevelE(e, ts, fields, 0)) == Some(r.error)
  {
    var accum := new SizeAccumulator();
    var writer := new LegacyCDRWriter(Sizing(accum), e);
    var err := writer.SerializeTopLevel(ts, fields);
    if err.Some? {
      return Err(err.value);
    }
    return Ok(accum.size);
  }

  /**
   * `serialize_entire_ros_message(dest, dest_size, message_data,
   * type_support)`: a copying pass into the caller's buffer of `dest_size`
   * bytes, from its start.
   */
  method SerializeEntireRosMessage(dest: array<byte>, destSize: nat, e: Endian, ts: MessageTypeSupport,
                                   fields: seq<Field>) returns (err: Option<Exception>)
    requires destSize <= dest.Length && TopLevelSerializable(Intended, ts, fields)
    modifies dest
    ensures err == Outcome(destSize, 0, LegacyTopLevelE(e, ts, fields, 0))
    ensures err.None? ==> dest[..] == Overwrite(old(dest[..]), 0, LegacyTopLevelE(e, ts, fields, 0).bytes)
  {
    var accum := NewDataAccumulator(dest, destSize);
    var writer := new LegacyCDRWriter(Writing(accum), e);
    err := writer.SerializeTopLevel(ts, fields);
  }

  /**
   * Sizing and writing agree: when the counting pass reports `n` bytes, a
   * copying pass into a buffer of `n` bytes raises nothing and fills it
   * exactly; and both passes give the current writer's result wherever the
   * current writer completes.
   */
  lemma SizeMatchesWrite(e: Endian, ts: MessageTypeSupport, fields: seq<Field>, cap: nat)
    requires Outcome(SIZE_MAX, 0, LegacyTopLevelE(e, ts, fields, 0)).None?
    requires cap >= |LegacyTopLevelE(e, ts, fields, 0).bytes|
    ensures Outcome(cap, 0, LegacyTopLevelE(e, ts, fields, 0)).None?
    ensures !TopLevelE(e, Intended, ts, fields).failed ==> LegacyTopLevelE(e, ts, fields, 0) == TopLevelE(e, Intended, ts, fields)
  {
    TopLevelRefines(e, ts, fields);
  }
}
