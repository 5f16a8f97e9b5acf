/**
 * The bytes the earlier revision of the CDR writer (the header-only
 * `CDRWriter` of `rmw_cyclonedds_cpp/Serialization.hpp`) produces, and how
 * they relate to those of the current writer.
 *
 * Values are laid out exactly as the current writer lays them out; for
 * strings this is a reading, since the earlier string overload compiles
 * for no string member. Two
 * things happen in a different order: the encapsulation header is written
 * before the message's type support is looked up, and a sequence's element
 * count is written before its values are reached, each value being reached
 * (and a nested message's type support looked up) only when it is visited.
 */
module LegacyEncoding {
  import opened Wire
  import opened TypeSupport
  import opened Introspection
  import opened ValueHelpers
  import opened Messages
  import opened CdrEncoding

  /**
   * The number of values `for_each_value` visits: one for a single value,
   * `array_size_` for an array, the element count for a sequence (never
   * more than the field holds).
   */
  function VisitCount(m: MessageMember, f: Field): (n: nat)
    ensures n <= |f.values|
  {
    match ContainerType(m)
    case SingleValue => Min(1, |f.values|)
    case Array => Min(m.arraySize, |f.values|)
    case Sequence => |f.values|
  }

  /** A member that matches its descriptor has all of its values visited. */
  lemma VisitCountConforming(gen: TypeGenerator, m: MessageMember, f: Field)
    requires FieldConforms(gen, m, f)
    ensures VisitCount(m, f) == |f.values|
  {
  }

  /** One value, serialized through the member's typed dispatch. */
  function LegacyValueE(e: Endian, h: ValueHelper, v: Value, off: nat): Emission
    decreases v, 0
  {
    match h
    case NativeValueHelper(_) => ValueE(e, Intended, h, v, off)
    case MessageValueHelper(tm) =>
      if v.MessageValue? then LegacyMessageE(e, tm, v.fields, off) else Nothing
  }

  /** `serialize(MessageRef)`: every member, in index order. */
  function LegacyMessageE(e: Endian, tm: TypedMembers, fields: seq<Field>, off: nat): Emission
    decreases fields, 2
  {
    LegacyMembersE(e, tm, fields, Min(|fields|, |tm.meta.members|), off)
  }

  /** The first `k` members of a message. */
  function LegacyMembersE(e: Endian, tm: TypedMembers, fields: seq<Field>, k: nat, off: nat): Emission
    requires k <= |fields| && k <= |tm.meta.members|
    decreases fields, 1, k
  {
    if k == 0 then Nothing
    else
      var before := LegacyMembersE(e, tm, fields, k - 1, off);
      Then(before, LegacyFieldE(e, tm.generator, tm.meta.members[k - 1], fields[k - 1], off + |before.bytes|))
  }

  /**
   * One member: a sequence's 32-bit element count, then every value the
   * member holds. A value that cannot be reached (a nested message whose
   * type support is not recognised) raises `runtime_error` when the first
   * value is visited, so a member without values raises nothing.
   */
  function LegacyFieldE(e: Endian, gen: TypeGenerator, m: MessageMember, f: Field, off: nat): Emission
    decreases f, 4
  {
    if ContainerType(m) == Sequence then LegacySequenceE(e, gen, m, f, off) else LegacyVisitE(e, gen, m, f, off)
  }

  /** A sequence member: its element count, then its values. */
  function LegacySequenceE(e: Endian, gen: TypeGenerator, m: MessageMember, f: Field, off: nat): Emission
    decreases f, 3
  {
    var count := U32Bytes(e, |f.values|, off);
    Then(Emission(count, false), LegacyVisitE(e, gen, m, f, off + |count|))
  }

  /** `for_each_value(serialize)` over a member's values. */
  function LegacyVisitE(e: Endian, gen: TypeGenerator, m: MessageMember, f: Field, off: nat): Emission
    decreases f, 2
  {
    match WithValueHelper(gen, m)
    case Err(_) => if VisitCount(m, f) == 0 then Nothing else Emission([], true)
    case Ok(h) => LegacyValuesE(e, h, f, VisitCount(m, f), off)
  }

  /** The first `n` values of a field, each after the ones before it. */
  function LegacyValuesE(e: Endian, h: ValueHelper, f: Field, n: nat, off: nat): Emission
    requires n <= |f.values|
    decreases f, 0, n
  {
    if n == 0 then Nothing
    else
      var before := LegacyValuesE(e, h, f, n - 1, off);
      Then(before, LegacyValueE(e, h, f.values[n - 1], off + |before.bytes|))
  }

  /**
   * `serialize_top_level(message_data, type_support)` for a stream that
   * holds `off` bytes: the header, then the message inside
   * `with_typesupport`, whose `runtime_error` comes after the header.
   */
  function LegacyTopLevelE(e: Endian, ts: MessageTypeSupport, fields: seq<Field>, off: nat): Emission
  {
    Then(Emission(Header(e), false),
         match WithTypesupport(ts)
         case Err(_) => Emission([], true)
         case Ok(tm) => LegacyMessageE(e, tm, fields, off + 4))
  }

  /**
   * The earlier writer's output `a` stands for the current writer's `b`:
   * it fails only where the current writer fails, and wherever the current
   * writer completes, the two are the same bytes.
   */
  predicate Refines(a: Emission, b: Emission)
  {
    (a.failed ==> b.failed) && (!b.failed ==> a == b)
  }

  lemma ThenRefines(a: Emission, b: Emission, c: Emission, d: Emission)
    requires Refines(a, b) && (!b.failed ==> Refines(c, d))
    ensures Refines(Then(a, c), Then(b, d))
  {
  }

  /** `ThenRefines`, for the pieces `x` and `y` that two writers emit as `a` then `c` and `b` then `d`. */
  lemma StepRefines(a: Emission, b: Emission, c: Emission, d: Emission, x: Emission, y: Emission)
    requires Refines(a, b) && (!b.failed ==> Refines(c, d))
    requires x == Then(a, c) && y == Then(b, d)
    ensures Refines(x, y)
  {
    ThenRefines(a, b, c, d);
  }

  /** A piece with nothing before it is the piece itself. */
  lemma ThenNothing(a: Emission)
    ensures Then(Emission([], false), a) == a
  {
    assert [] + a.bytes == a.bytes;
  }

  /** A value is written by both writers alike, wherever the current one completes. */
  lemma {:induction false} ValueRefines(e: Endian, h: ValueHelper, v: Value, off: nat)
    ensures Refines(LegacyValueE(e, h, v, off), ValueE(e, Intended, h, v, off))
    decreases v, 0
  {
    if h.MessageValueHelper? && v.MessageValue? {
      MessageRefines(e, h.valueMembers, v.fields, off);
    }
  }

  lemma {:induction false} MessageRefines(e: Endian, tm: TypedMembers, fields: seq<Field>, off: nat)
    ensures Refines(LegacyMessageE(e, tm, fields, off), MessageE(e, Intended, tm, fields, off))
    decreases fields, 2
  {
    MembersRefines(e, tm, fields, Min(|fields|, |tm.meta.members|), off);
  }

  lemma {:induction false} MembersRefines(e: Endian, tm: TypedMembers, fields: seq<Field>, k: nat, off: nat)
    requires k <= |fields| && k <= |tm.meta.members|
    ensures Refines(LegacyMembersE(e, tm, fields, k, off), MembersE(e, Intended, tm, fields, k, off))
    decreases fields, 1, k
  {
    hide PadLen, PrimitiveBytes, U32Bytes, ValueE, MessageE, FieldE, ClassifiedFieldE, SequenceE, ValuesE, MembersE,
         WithValueHelper, LegacyValueE, LegacyMessageE, LegacyFieldE, LegacySequenceE, LegacyVisitE, LegacyValuesE,
         LegacyMembersE;
    MembersUnfold(e, tm, fields, k, off);
    if k > 0 {
      var a := LegacyMembersE(e, tm, fields, k - 1, off);
      var b := MembersE(e, Intended, tm, fields, k - 1, off);
      var m, f := tm.meta.members[k - 1], fields[k - 1];
      MembersRefines(e, tm, fields, k - 1, off);
      if !b.failed {
        assert a == b;
        FieldRefines(e, tm.generator, m, f, off + |a.bytes|);
      }
      StepRefines(a, b, LegacyFieldE(e, tm.generator, m, f, off + |a.bytes|),
                  FieldE(e, Intended, tm.generator, m, f, off + |b.bytes|),
                  LegacyMembersE(e, tm, fields, k, off), MembersE(e, Intended, tm, fields, k, off));
    }
  }

  /** Both writers write no members alike, and the first `k > 0` members as the first `k - 1`, then member `k - 1`. */
  lemma MembersUnfold(e: Endian, tm: TypedMembers, fields: seq<Field>, k: nat, off: nat)
    requires k <= |fields| && k <= |tm.meta.members|
    ensures k == 0 ==> Refines(LegacyMembersE(e, tm, fields, k, off), MembersE(e, Intended, tm, fields, k, off))
    ensures k > 0 ==>
              var a := LegacyMembersE(e, tm, fields, k - 1, off);
              LegacyMembersE(e, tm, fields, k, off) ==
                Then(a, LegacyFieldE(e, tm.generator, tm.meta.members[k - 1], fields[k - 1], off + |a.bytes|))
    ensures k > 0 ==>
              var b := MembersE(e, Intended, tm, fields, k - 1, off);
              MembersE(e, Intended, tm, fields, k, off) ==
                Then(b, FieldE(e, Intended, tm.generator, tm.meta.members[k - 1], fields[k - 1], off + |b.bytes|))
  {
    hide PadLen, PrimitiveBytes, U32Bytes, ValueE, MessageE, FieldE, ClassifiedFieldE, SequenceE, ValuesE,
         WithValueHelper, LegacyValueE, LegacyMessageE, LegacyFieldE, LegacySequenceE, LegacyVisitE, LegacyValuesE;
  }

  lemma {:induction false} FieldRefines(e: Endian, gen: TypeGenerator, m: MessageMember, f: Field, off: nat)
    ensures Refines(LegacyFieldE(e, gen, m, f, off), FieldE(e, Intended, gen, m, f, off))
    decreases f, 3
  {
    match WithValueHelper(gen, m)
    case Err(_) =>
      assert FieldE(e, Intended, gen, m, f, off).failed;
    case Ok(h) =>
      hide LegacyValuesE, ValuesE, LegacyValueE, ValueE, LegacyVisitE, LegacySequenceE, SequenceE,
           U32Bytes, WithValueHelper, ClassifiedFieldE, FieldE;
      if ContainerType(m) == Sequence {
        SequenceShape(e, gen, m, h, f, off);
        SequenceRefines(e, gen, m, h, f, off);
      } else {
        ValuesShape(e, gen, m, h, f, off);
        VisitShape(e, gen, m, h, f, off);
        ValuesRefines(e, h, f, VisitCount(m, f), off);
      }
  }

  /** Both writers write a sequence member whose values can be reached as its count, then its values. */
  lemma {:induction false} SequenceRefines(e: Endian, gen: TypeGenerator, m: MessageMember, h: ValueHelper, f: Field, off: nat)
    requires WithValueHelper(gen, m) == Ok(h) && ContainerType(m) == Sequence
    ensures Refines(LegacySequenceE(e, gen, m, f, off), SequenceE(e, Intended, h, f, off))
    decreases f, 2
  {
    hide LegacyValuesE, ValuesE, LegacyValueE, ValueE, LegacyVisitE, U32Bytes, WithValueHelper;
    var count := Emission(U32Bytes(e, |f.values|, off), false);
    var at := off + |count.bytes|;
    VisitShape(e, gen, m, h, f, at);
    assert VisitCount(m, f) == |f.values|;
    ValuesRefines(e, h, f, |f.values|, at);
    ThenRefines(count, count, LegacyVisitE(e, gen, m, f, at), ValuesE(e, Intended, h, f, |f.values|, at));
  }

  /** The current writer writes a sequence member whose values can be reached as its count, then its values. */
  lemma SequenceShape(e: Endian, gen: TypeGenerator, m: MessageMember, h: ValueHelper, f: Field, off: nat)
    requires WithValueHelper(gen, m) == Ok(h) && ContainerType(m) == Sequence
    ensures FieldE(e, Intended, gen, m, f, off) == SequenceE(e, Intended, h, f, off)
  {
    assert FieldE(e, Intended, gen, m, f, off) == ClassifiedFieldE(e, Intended, Sequence, gen, m, f, off);
  }

  /** The current writer writes the values of a single-value or array member whose values can be reached, and nothing else. */
  lemma ValuesShape(e: Endian, gen: TypeGenerator, m: MessageMember, h: ValueHelper, f: Field, off: nat)
    requires WithValueHelper(gen, m) == Ok(h) && ContainerType(m) != Sequence
    ensures FieldE(e, Intended, gen, m, f, off) == ValuesE(e, Intended, h, f, VisitCount(m, f), off)
  {
    assert FieldE(e, Intended, gen, m, f, off) == ClassifiedFieldE(e, Intended, ContainerType(m), gen, m, f, off);
  }

  /** The earlier writer's visit of a member whose values can be reached writes each of its values. */
  lemma VisitShape(e: Endian, gen: TypeGenerator, m: MessageMember, h: ValueHelper, f: Field, off: nat)
    requires WithValueHelper(gen, m) == Ok(h)
    ensures LegacyVisitE(e, gen, m, f, off) == LegacyValuesE(e, h, f, VisitCount(m, f), off)
  {
  }

  lemma {:induction false} ValuesRefines(e: Endian, h: ValueHelper, f: Field, n: nat, off: nat)
    requires n <= |f.values|
    ensures Refines(LegacyValuesE(e, h, f, n, off), ValuesE(e, Intended, h, f, n, off))
    decreases f, 0, n
  {
    hide PadLen, PrimitiveBytes, U32Bytes, ValueE, MessageE, FieldE, ClassifiedFieldE, SequenceE, ValuesE, MembersE,
         WithValueHelper, LegacyValueE, LegacyMessageE, LegacyFieldE, LegacySequenceE, LegacyVisitE, LegacyValuesE,
         LegacyMembersE;
    ValuesUnfold(e, h, f, n, off);
    if n > 0 {
      var a := LegacyValuesE(e, h, f, n - 1, off);
      var b := ValuesE(e, Intended, h, f, n - 1, off);
      ValuesRefines(e, h, f, n - 1, off);
      if !b.failed {
        assert a == b;
        ValueRefines(e, h, f.values[n - 1], off + |a.bytes|);
      }
      StepRefines(a, b, LegacyValueE(e, h, f.values[n - 1], off + |a.bytes|),
                  ValueE(e, Intended, h, f.values[n - 1], off + |b.bytes|),
                  LegacyValuesE(e, h, f, n, off), ValuesE(e, Intended, h, f, n, off));
    }
  }

  /** Both writers write no values alike, and the first `n > 0` values as the first `n - 1`, then value `n - 1`. */
  lemma ValuesUnfold(e: Endian, h: ValueHelper, f: Field, n: nat, off: nat)
    requires n <= |f.values|
    ensures n == 0 ==> Refines(LegacyValuesE(e, h, f, n, off), ValuesE(e, Intended, h, f, n, off))
    ensures n > 0 ==>
              var a := LegacyValuesE(e, h, f, n - 1, off);
              LegacyValuesE(e, h, f, n, off) == Then(a, LegacyValueE(e, h, f.values[n - 1], off + |a.bytes|))
    ensures n > 0 ==>
              var b := ValuesE(e, Intended, h, f, n - 1, off);
              ValuesE(e, Intended, h, f, n, off) == Then(b, ValueE(e, Intended, h, f.values[n - 1], off + |b.bytes|))
  {
    hide PadLen, PrimitiveBytes, U32Bytes, ValueE, MessageE, FieldE, ClassifiedFieldE, SequenceE, MembersE,
         WithValueHelper, LegacyValueE, LegacyMessageE, LegacyFieldE, LegacySequenceE, LegacyVisitE, LegacyMembersE;
  }

  /**
   * The earlier top-level writer agrees with the current one wherever the
   * current one completes; for a type support that is not recognised it has
   * already written the 4-byte header when it raises `runtime_error`, where
   * the current writer has written nothing.
   */
  lemma TopLevelRefines(e: Endian, ts: MessageTypeSupport, fields: seq<Field>)
    ensures Refines(LegacyTopLevelE(e, ts, fields, 0), TopLevelE(e, Intended, ts, fields))
    ensures WithTypesupport(ts).Err? ==>
              LegacyTopLevelE(e, ts, fields, 0) == Emission(Header(e), true) &&
              TopLevelE(e, Intended, ts, fields) == Emission([], true)
  {
    match WithTypesupport(ts)
    case Err(_) =>
      assert Header(e) + [] == Header(e);
    case Ok(tm) =>
      MessageRefines(e, tm, fields, 4);
  }

  /**
   * A sequence member of nested messages whose type support is not
   * recognised: with no elements, the earlier writer writes the zero count
   * and goes on where the current writer raises `runtime_error`; with
   * elements, it writes the count and then raises it.
   */
  lemma CountBeforeResolution(e: Endian, gen: TypeGenerator, m: MessageMember, f: Field, off: nat)
    requires m.typeId == Message && WithTypesupport(m.members).Err? && ContainerType(m) == Sequence
    ensures FieldE(e, Intended, gen, m, f, off) == Emission([], true)
    ensures |f.values| == 0 ==> LegacyFieldE(e, gen, m, f, off) == Emission(U32Bytes(e, 0, off), false)
    ensures |f.values| > 0 ==> LegacyFieldE(e, gen, m, f, off) == Emission(U32Bytes(e, |f.values|, off), true)
  {
    var count := U32Bytes(e, |f.values|, off);
    assert LegacyFieldE(e, gen, m, f, off) == LegacySequenceE(e, gen, m, f, off);
    assert LegacyVisitE(e, gen, m, f, off + |count|) == if |f.values| == 0 then Nothing else Emission([], true);
    assert count + [] == count;
  }

  /** The first `k` members are where the first `n >= k` begin. */
  lemma {:induction false} LegacyMembersExtend(e: Endian, tm: TypedMembers, fields: seq<Field>, k: nat, n: nat, off: nat)
    requires k <= n <= |fields| && n <= |tm.meta.members|
    ensures Extends(LegacyMembersE(e, tm, fields, k, off), LegacyMembersE(e, tm, fields, n, off))
    decreases n - k
  {
    if k < n {
      var before := LegacyMembersE(e, tm, fields, k, off);
      var next := LegacyMembersE(e, tm, fields, k + 1, off);
      ThenExtends(before, LegacyFieldE(e, tm.generator, tm.meta.members[k], fields[k], off + |before.bytes|));
      LegacyMembersExtend(e, tm, fields, k + 1, n, off);
      ExtendsTransitive(before, next, LegacyMembersE(e, tm, fields, n, off));
    } else {
      ExtendsReflexive(LegacyMembersE(e, tm, fields, k, off));
    }
  }

  /** The first `k` values are where the first `n >= k` begin. */
  lemma {:induction false} LegacyValuesExtend(e: Endian, h: ValueHelper, f: Field, k: nat, n: nat, off: nat)
    requires k <= n <= |f.values|
    ensures Extends(LegacyValuesE(e, h, f, k, off), LegacyValuesE(e, h, f, n, off))
    decreases n - k
  {
    if k < n {
      var before := LegacyValuesE(e, h, f, k, off);
      var next := LegacyValuesE(e, h, f, k + 1, off);
      ThenExtends(before, LegacyValueE(e, h, f.values[k], off + |before.bytes|));
      LegacyValuesExtend(e, h, f, k + 1, n, off);
      ExtendsTransitive(before, next, LegacyValuesE(e, h, f, n, off));
    } else {
      ExtendsReflexive(LegacyValuesE(e, h, f, k, off));
    }
  }
}
