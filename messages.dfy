/**
 * The contents of a ROS message as a value tree, and what it means for a
 * tree to match the member descriptors it is serialized with.
 */
module Messages {
  import opened Wire
  import opened TypeSupport
  import opened Introspection
  import opened ValueHelpers

  /**
   * One value a member holds: a primitive as its native bytes, a narrow
   * string as its characters (without the terminating NUL), a 16-bit
   * string as its code units, or a nested message as one field per member.
   */
  datatype Value =
    | PrimitiveValue(bytes: seq<byte>)
    | StringValue(chars: seq<byte>)
    | WStringValue(units: seq<char16>)
    | MessageValue(fields: seq<Field>)

  /** The values of one member: one, the array's elements, or the sequence's elements. */
  datatype Field = Field(values: seq<Value>)

  /** A value is of the C++ type its value helper reads it as. */
  predicate ValueConforms(h: ValueHelper, v: Value)
    decreases v, 0
  {
    match h
    case NativeValueHelper(t) => (
      match t
      case ScalarType(c) => v.PrimitiveValue? && |v.bytes| == SizeOf(c)
      case _ => if CharSize(t) == 1 then v.StringValue? else v.WStringValue?)
    case MessageValueHelper(tm) => v.MessageValue? && MessageConforms(tm, v.fields)
  }

  /** A message holds one field per member descriptor, each matching its descriptor. */
  predicate MessageConforms(tm: TypedMembers, fields: seq<Field>)
    decreases fields, 1
  {
    |fields| == |tm.meta.members| &&
    forall k :: 0 <= k < |fields| ==> FieldConforms(tm.generator, tm.meta.members[k], fields[k])
  }

  /**
   * A field holds one value for a single-value member and `array_size_`
   * values for a fixed array; when the member's values can be reached,
   * each value matches the member's value helper.
   */
  predicate FieldConforms(gen: TypeGenerator, m: MessageMember, f: Field)
    decreases f, 2
  {
    (match ContainerType(m)
     case SingleValue => |f.values| == 1
     case Array => |f.values| == m.arraySize
     case Sequence => true) &&
    (WithValueHelper(gen, m).Ok? ==>
       forall i :: 0 <= i < |f.values| ==> ValueConforms(WithValueHelper(gen, m).value, f.values[i]))
  }

  /**
   * Every 32-bit count the writer emits for a value under reading `rd` is
   * below `UINT32_MAX`: a narrow string's length plus its NUL, a wide
   * string's length in bytes.
   */
  predicate ValueCountsFit(rd: Reading, h: ValueHelper, v: Value)
    decreases v, 0
  {
    match h
    case NativeValueHelper(t) => (
      match t
      case ScalarType(_) => true
      case _ =>
        (v.StringValue? ==> |v.chars| + 1 < UINT32_MAX) &&
        (v.WStringValue? ==> |v.units| * CharSize(t) < UINT32_MAX))
    case MessageValueHelper(tm) => v.MessageValue? ==> MessageCountsFit(rd, tm, v.fields)
  }

  predicate MessageCountsFit(rd: Reading, tm: TypedMembers, fields: seq<Field>)
    decreases fields, 1
  {
    forall k :: 0 <= k < |fields| && k < |tm.meta.members| ==>
      FieldCountsFit(rd, tm.generator, tm.meta.members[k], fields[k])
  }

  /** A sequence's element count, and every count inside its values, is below `UINT32_MAX`. */
  predicate FieldCountsFit(rd: Reading, gen: TypeGenerator, m: MessageMember, f: Field)
    decreases f, 2
  {
    (Classify(rd, m) == Sequence ==> |f.values| < UINT32_MAX) &&
    (HelperOf(rd, gen, m).Ok? ==>
       forall i :: 0 <= i < |f.values| ==> ValueCountsFit(rd, HelperOf(rd, gen, m).value, f.values[i]))
  }

  /**
   * A message the writer can be given under reading `rd`: it matches its
   * descriptors and the counts written under `rd` fit.
   */
  predicate Serializable(rd: Reading, tm: TypedMembers, fields: seq<Field>)
  {
    MessageConforms(tm, fields) && MessageCountsFit(rd, tm, fields)
  }

  /**
   * A value stored as its member's descriptors define is also of the type
   * the written value helper reads it as: the two helpers differ only on a
   * C++ WSTRING member, and both read a 16-bit string there.
   */
  lemma ConformsUnderWrittenHelper(gen: TypeGenerator, m: MessageMember, v: Value)
    requires WithValueHelper(gen, m).Ok? && ValueConforms(WithValueHelper(gen, m).value, v)
    ensures WithValueHelperAsWritten(gen, m).Ok?
    ensures ValueConforms(WithValueHelperAsWritten(gen, m).value, v)
  {
    WithValueHelperAsWrittenDiffers(gen, m);
  }
}
