/**
 * The CDR writer: two byte sinks that check their capacity, one counting
 * and one copying into a caller's buffer, the writer that walks a message
 * into either sink, and the two-pass entry points that size a message,
 * allocate exactly that many bytes, and write it.
 */
module Serialization {
  import opened Wire
  import opened TypeSupport
  import opened Introspection
  import opened ValueHelpers
  import opened Messages
  import opened CdrEncoding

  /** `SizeAccumulator`: counts the bytes put into it. */
  class SizeAccumulator {
    var size: nat
    const capacity: nat

    constructor (capacity: nat := SIZE_MAX, size: nat := 0)
      ensures this.size == size && this.capacity == capacity
    {
      this.size := size;
      this.capacity := capacity;
    }

    /** `put_bytes(s, n)`: the bytes themselves are ignored; only their number counts. */
    method PutBytes(n: nat) returns (err: Option<Exception>)
      modifies this
      ensures old(size) + n > capacity ==> err == Some(LengthError) && size == old(size)
      ensures old(size) + n <= capacity ==> err == None && size == old(size) + n
    {
      if size + n > capacity {
        return Some(LengthError);
      }
      size := size + n;
      return None;
    }
  }

  /** `DataAccumulator`: copies the bytes put into it into `data`, from index `size` on. */
  class DataAccumulator {
    const data: array<byte>
    var size: nat
    const capacity: nat

    /** The constructor asserts `size <= capacity`; the buffer holds `capacity` bytes. */
    constructor (data: array<byte>, capacity: nat, size: nat := 0)
      requires size <= capacity <= data.Length
      ensures this.data == data && this.size == size && this.capacity == capacity
    {
      this.data := data;
      this.size := size;
      this.capacity := capacity;
    }

    /**
     * `put_bytes(s, n)`: `s` lands at `data[size..size + n]`, no other byte
     * changes, and `size` advances by `n`; a put past the capacity raises
     * `length_error` and changes nothing.
     */
    method PutBytes(s: seq<byte>) returns (err: Option<Exception>)
      requires size <= capacity <= data.Length
      modifies this, data
      ensures size <= capacity
      ensures old(size) + |s| > capacity ==>
                err == Some(LengthError) && size == old(size) && data[..] == old(data[..])
      ensures old(size) + |s| <= capacity ==>
                err == None && size == old(size) + |s| &&
                data[..] == Overwrite(old(data[..]), old(size), s)
    {
      if size + |s| > capacity {
        return Some(LengthError);
      }
      forall i | 0 <= i < |s| {
        data[size + i] := s[i];
      }
      size := size + |s|;
      return None;
    }
  }

  /** `b` with `s` copied over it from index `at`. */
  function Overwrite(b: seq<byte>, at: nat, s: seq<byte>): (r: seq<byte>)
    requires at + |s| <= |b|
    ensures |r| == |b|
    ensures r[at..at + |s|] == s
    ensures r[..at] == b[..at] && r[at + |s|..] == b[at + |s|..]
  {
    b[..at] + s + b[at + |s|..]
  }

  /** Copying `x` and then `y` right after it is copying `x + y`. */
  lemma OverwriteTwice(b: seq<byte>, at: nat, x: seq<byte>, y: seq<byte>)
    requires at + |x| + |y| <= |b|
    ensures Overwrite(Overwrite(b, at, x), at + |x|, y) == Overwrite(b, at, x + y)
  {
    var l := Overwrite(Overwrite(b, at, x), at + |x|, y);
    var r := Overwrite(b, at, x + y);
    assert l[..at] == r[..at];
    assert l[at..at + |x| + |y|] == x + y == r[at..at + |x| + |x + y| - |x|] by {
      var m := Overwrite(b, at, x);
      assert l[at..at + |x|] == m[at..at + |x|] == x;
      assert l[at + |x|..at + |x| + |y|] == y;
      assert l[at..at + |x| + |y|] == l[at..at + |x|] + l[at + |x|..at + |x| + |y|];
    }
    assert l[at + |x| + |y|..] == r[at + |x| + |y|..];
    assert l == l[..at] + l[at..at + |x| + |y|] + l[at + |x| + |y|..];
    assert r == r[..at] + r[at..at + |x| + |y|] + r[at + |x| + |y|..];
  }

  /** The sink a writer is given: the counting one or the copying one. */
  datatype Accumulator = Sizing(s: SizeAccumulator) | Writing(d: DataAccumulator)
  {
    function Repr(): set<object>
    {
      match this
      case Sizing(s) => {s}
      case Writing(d) => {d, d.data}
    }

    predicate Valid()
      reads Repr()
    {
      match this
      case Sizing(s) => s.size <= s.capacity
      case Writing(d) => d.size <= d.capacity <= d.data.Length
    }

    /** `size()`. */
    function Size(): nat
      reads Repr()
    {
      match this
      case Sizing(s) => s.size
      case Writing(d) => d.size
    }

    function Capacity(): nat
    {
      match this
      case Sizing(s) => s.capacity
      case Writing(d) => d.capacity
    }

    /** The buffer a copying sink writes into; a counting sink has none. */
    function Buffer(): seq<byte>
      reads Repr()
    {
      match this
      case Sizing(_) => []
      case Writing(d) => d.data[..]
    }

    /** `put_bytes(bs.data(), bs.size())` on either sink. */
    method Put(bs: seq<byte>) returns (err: Option<Exception>)
      requires Valid()
      modifies Repr()
      ensures Valid()
      ensures Emitted(Capacity(), old(Size()), old(Buffer()), Size(), Buffer(), Writing?, Emission(bs, false), err)
    {
      match this
      case Sizing(s) =>
        err := s.PutBytes(|bs|);
      case Writing(d) =>
        err := d.PutBytes(bs);
    }
  }

  /**
   * The exception a piece ends with when a sink that can hold `cap` bytes
   * already holds `s0`: `length_error` if its bytes do not fit, else the
   * piece's own `runtime_error`, else none.
   */
  function Outcome(cap: nat, s0: nat, em: Emission): Option<Exception>
  {
    if s0 + |em.bytes| > cap then Some(LengthError)
    else if em.failed then Some(RuntimeError)
    else None
  }

  /**
   * A sink went from size `s0` and buffer `b0` to size `s1` and buffer `b1`
   * while a piece emitting `em` ran and ended with `err`: the exception is
   * the one `Outcome` names, and when there is none the sink took all of the
   * piece's bytes, a copying sink holding exactly them at `[s0, s1)` with
   * every other byte unchanged.
   */
  predicate Emitted(cap: nat, s0: nat, b0: seq<byte>, s1: nat, b1: seq<byte>, writing: bool,
                    em: Emission, err: Option<Exception>)
  {
    err == Outcome(cap, s0, em) &&
    (err.None? ==>
       s1 == s0 + |em.bytes| &&
       (writing ==> s1 <= |b0| && b1 == Overwrite(b0, s0, em.bytes)))
  }

  lemma EmittedNothing(cap: nat, s0: nat, b0: seq<byte>, writing: bool)
    requires s0 <= cap && (writing ==> s0 <= |b0|)
    ensures Emitted(cap, s0, b0, s0, b0, writing, Nothing, None)
  {
    if writing {
      assert Overwrite(b0, s0, []) == b0;
    }
  }

  /** A piece that completes, followed by another, is their concatenation. */
  lemma EmittedThen(cap: nat, s0: nat, b0: seq<byte>, s1: nat, b1: seq<byte>, s2: nat, b2: seq<byte>,
                    writing: bool, a: Emission, b: Emission, err: Option<Exception>)
    requires Emitted(cap, s0, b0, s1, b1, writing, a, None)
    requires Emitted(cap, s1, b1, s2, b2, writing, b, err)
    ensures Emitted(cap, s0, b0, s2, b2, writing, Then(a, b), err)
  {
    if writing && err.None? {
      OverwriteTwice(b0, s0, a.bytes, b.bytes);
    }
  }

  /** A piece that stops with an exception ends everything that was to follow it. */
  lemma EmittedStops(cap: nat, s0: nat, b0: seq<byte>, s1: nat, b1: seq<byte>,
                     writing: bool, a: Emission, b: Emission, err: Option<Exception>)
    requires Emitted(cap, s0, b0, s1, b1, writing, a, err) && err.Some?
    ensures Emitted(cap, s0, b0, s1, b1, writing, Then(a, b), err)
  {
  }

  /** A piece that stopped with an exception stops every piece that continues it. */
  lemma EmittedExtends(cap: nat, s0: nat, b0: seq<byte>, s1: nat, b1: seq<byte>,
                       writing: bool, a: Emission, full: Emission, err: Option<Exception>)
    requires Emitted(cap, s0, b0, s1, b1, writing, a, err) && err.Some? && Extends(a, full)
    ensures Emitted(cap, s0, b0, s1, b1, writing, full, err)
  {
  }

  /** One pass of the code-unit loop, as `SerializeUnit` performs it. */
  lemma UnitStep(cap: nat, s0: nat, b0: seq<byte>, s1: nat, b1: seq<byte>, s2: nat, b2: seq<byte>, writing: bool,
                 e: Endian, units: seq<char16>, w: nat, i: nat, err: Option<Exception>)
    requires w > 0 && i < |units|
    requires Emitted(cap, s0, b0, s1, b1, writing, Emission(UnitsBytes(e, units, w, i, s0), false), None)
    requires Emitted(cap, s1, b1, s2, b2, writing, Emission(PrimitiveBytes(s1, w, UIntBytes(units[i], w, e)), false), err)
    ensures err.None? ==> Emitted(cap, s0, b0, s2, b2, writing, Emission(UnitsBytes(e, units, w, i + 1, s0), false), None)
    ensures err.Some? ==> Emitted(cap, s0, b0, s2, b2, writing, Emission(UnitsBytes(e, units, w, |units|, s0), false), err)
  {
    hide ValueE, ValuesE, MessageE, MembersE, FieldE, StringE, U32Bytes, UIntBytes, Zeros, PadLen, PrimitiveBytes;
    var before := Emission(UnitsBytes(e, units, w, i, s0), false);
    var step := Emission(PrimitiveBytes(s1, w, UIntBytes(units[i], w, e)), false);
    var after := Emission(UnitsBytes(e, units, w, i + 1, s0), false);
    assert Then(before, step) == after;
    EmittedThen(cap, s0, b0, s1, b1, s2, b2, writing, before, step, err);
    if err.Some? {
      UnitsExtend(e, units, w, i + 1, |units|, s0);
      EmittedExtends(cap, s0, b0, s2, b2, writing, after, Emission(UnitsBytes(e, units, w, |units|, s0), false), err);
    }
  }

  /** One pass of the member loop of `serialize(MessageRef)`. */
  lemma MemberStep(cap: nat, s0: nat, b0: seq<byte>, s1: nat, b1: seq<byte>, s2: nat, b2: seq<byte>, writing: bool,
                   e: Endian, rd: Reading, tm: TypedMembers, fields: seq<Field>, k: nat, err: Option<Exception>)
    requires k < |fields| == |tm.meta.members|
    requires Emitted(cap, s0, b0, s1, b1, writing, MembersE(e, rd, tm, fields, k, s0), None)
    requires Emitted(cap, s1, b1, s2, b2, writing, FieldE(e, rd, tm.generator, tm.meta.members[k], fields[k], s1), err)
    ensures err.None? ==> Emitted(cap, s0, b0, s2, b2, writing, MembersE(e, rd, tm, fields, k + 1, s0), None)
    ensures err.Some? ==> Emitted(cap, s0, b0, s2, b2, writing, MessageE(e, rd, tm, fields, s0), err)
  {
    var before := MembersE(e, rd, tm, fields, k, s0);
    var step := FieldE(e, rd, tm.generator, tm.meta.members[k], fields[k], s1);
    assert Then(before, step) == MembersE(e, rd, tm, fields, k + 1, s0);
    EmittedThen(cap, s0, b0, s1, b1, s2, b2, writing, before, step, err);
    if err.Some? {
      MembersExtend(e, rd, tm, fields, k + 1, |fields|, s0);
      EmittedExtends(cap, s0, b0, s2, b2, writing, MembersE(e, rd, tm, fields, k + 1, s0), MessageE(e, rd, tm, fields, s0), err);
    }
  }

  /** One pass of the element loop of arrays and sequences. */
  lemma ValueStep(cap: nat, s0: nat, b0: seq<byte>, s1: nat, b1: seq<byte>, s2: nat, b2: seq<byte>, writing: bool,
                  e: Endian, rd: Reading, h: ValueHelper, f: Field, i: nat, n: nat, err: Option<Exception>)
    requires i < n <= |f.values|
    requires Emitted(cap, s0, b0, s1, b1, writing, ValuesE(e, rd, h, f, i, s0), None)
    requires Emitted(cap, s1, b1, s2, b2, writing, ValueE(e, rd, h, f.values[i], s1), err)
    ensures err.None? ==> Emitted(cap, s0, b0, s2, b2, writing, ValuesE(e, rd, h, f, i + 1, s0), None)
    ensures err.Some? ==> Emitted(cap, s0, b0, s2, b2, writing, ValuesE(e, rd, h, f, n, s0), err)
  {
    hide ValueE, MessageE, MembersE, FieldE, StringE, U32Bytes, UIntBytes, Zeros, PadLen, PrimitiveBytes;
    var before := ValuesE(e, rd, h, f, i, s0);
    var step := ValueE(e, rd, h, f.values[i], s1);
    assert Then(before, step) == ValuesE(e, rd, h, f, i + 1, s0);
    EmittedThen(cap, s0, b0, s1, b1, s2, b2, writing, before, step, err);
    if err.Some? {
      ValuesExtend(e, rd, h, f, i + 1, n, s0);
      EmittedExtends(cap, s0, b0, s2, b2, writing, ValuesE(e, rd, h, f, i + 1, s0), ValuesE(e, rd, h, f, n, s0), err);
    }
  }

  /**
   * `CDRWriter`: walks a message into its sink, in the producer's byte
   * order `e`, classifying members and choosing value helpers under
   * reading `rd`; `AsWritten` is the source's writer.
   */
  class CDRWriter {
    const dst: Accumulator
    const e: Endian
    const rd: Reading

    constructor (dst: Accumulator, e: Endian, rd: Reading)
      ensures this.dst == dst && this.e == e && this.rd == rd
    {
      this.dst := dst;
      this.e := e;
      this.rd := rd;
    }

    /** `serialize_top_level(msg)`: the encapsulation header, then the message. */
    method SerializeTopLevel(tm: TypedMembers, fields: seq<Field>) returns (err: Option<Exception>)
      requires Serializable(rd, tm, fields) && dst.Valid()
      modifies dst.Repr()
      ensures dst.Valid()
      ensures Emitted(dst.Capacity(), old(dst.Size()), old(dst.Buffer()), dst.Size(), dst.Buffer(),
                      dst.Writing?, HeaderedE(e, rd, tm, fields, old(dst.Size())), err)
    {
      ghost var s0, b0 := dst.Size(), dst.Buffer();
      ghost var header := Emission(Header(e), false);
      ghost var body := MessageE(e, rd, tm, fields, s0 + 4);
      err := PutEncapsulationHeader();
      if err.Some? {
        EmittedStops(dst.Capacity(), s0, b0, dst.Size(), dst.Buffer(), dst.Writing?, header, body, err);
        return;
      }
      ghost var s1, b1 := dst.Size(), dst.Buffer();
      err := SerializeMessage(tm, fields);
      EmittedThen(dst.Capacity(), s0, b0, s1, b1, dst.Size(), dst.Buffer(), dst.Writing?, header, body, err);
    }

    /**
     * `serialize_top_level(request_header, msg)`: the header, the 64-bit
     * GUID, the 64-bit sequence number, then the message.
     */
    method SerializeRequestTopLevel(tm: TypedMembers, rh: RequestHeader, fields: seq<Field>)
      returns (err: Option<Exception>)
      requires rh.Valid() && Serializable(rd, tm, fields) && dst.Valid()
      modifies dst.Repr()
      ensures dst.Valid()
      ensures Emitted(dst.Capacity(), old(dst.Size()), old(dst.Buffer()), dst.Size(), dst.Buffer(),
                      dst.Writing?, RequestedE(e, rd, tm, rh, fields, old(dst.Size())), err)
    {
      hide ValueE, ValuesE, MessageE, MembersE, FieldE, StringE, U32Bytes, UIntBytes, Zeros, PadLen, TwosComplement64, PrimitiveBytes;
      ghost var s0, b0 := dst.Size(), dst.Buffer();
      ghost var prefix := Emission(RequestPrefix(e, rh, s0), false);
      ghost var body := MessageE(e, rd, tm, fields, s0 + |prefix.bytes|);
      assert Then(prefix, body) == RequestedE(e, rd, tm, rh, fields, s0);
      err := SerializeRequestHeader(rh);
      if err.Some? {
        EmittedStops(dst.Capacity(), s0, b0, dst.Size(), dst.Buffer(), dst.Writing?, prefix, body, err);
        return;
      }
      ghost var s1, b1 := dst.Size(), dst.Buffer();
      err := SerializeMessage(tm, fields);
      EmittedThen(dst.Capacity(), s0, b0, s1, b1, dst.Size(), dst.Buffer(), dst.Writing?, prefix, body, err);
    }

    /** The part of `serialize_top_level(request_header, msg)` before the message. */
    method SerializeRequestHeader(rh: RequestHeader) returns (err: Option<Exception>)
      requires rh.Valid() && dst.Valid()
      modifies dst.Repr()
      ensures dst.Valid()
      ensures Emitted(dst.Capacity(), old(dst.Size()), old(dst.Buffer()), dst.Size(), dst.Buffer(),
                      dst.Writing?, Emission(RequestPrefix(e, rh, old(dst.Size())), false), err)
    {
      hide ValueE, ValuesE, MessageE, MembersE, FieldE, StringE, U32Bytes, UIntBytes, Zeros, PadLen, TwosComplement64;
      ghost var s0, b0 := dst.Size(), dst.Buffer();
      ghost var header := Emission(Header(e), false);
      ghost var guid := Emission(PrimitiveBytes(s0 + 4, 8, UIntBytes(rh.guid, 8, e)), false);
      ghost var sn := Emission(PrimitiveBytes(s0 + 4 + |guid.bytes|, 8,
                                              UIntBytes(TwosComplement64(rh.seqNum), 8, e)), false);
      assert Then(Then(header, guid), sn) == Emission(RequestPrefix(e, rh, s0), false);
      err := PutEncapsulationHeader();
      if err.Some? {
        EmittedStops(dst.Capacity(), s0, b0, dst.Size(), dst.Buffer(), dst.Writing?, header, guid, err);
        EmittedStops(dst.Capacity(), s0, b0, dst.Size(), dst.Buffer(), dst.Writing?, Then(header, guid), sn, err);
        return;
      }
      ghost var s1, b1 := dst.Size(), dst.Buffer();
      err := SerializePrimitive(8, UIntBytes(rh.guid, 8, e));
      EmittedThen(dst.Capacity(), s0, b0, s1, b1, dst.Size(), dst.Buffer(), dst.Writing?, header, guid, err);
      if err.Some? {
        EmittedStops(dst.Capacity(), s0, b0, dst.Size(), dst.Buffer(), dst.Writing?, Then(header, guid), sn, err);
        return;
      }
      ghost var s2, b2 := dst.Size(), dst.Buffer();
      err := SerializePrimitive(8, UIntBytes(TwosComplement64(rh.seqNum), 8, e));
      EmittedThen(dst.Capacity(), s0, b0, s2, b2, dst.Size(), dst.Buffer(), dst.Writing?, Then(header, guid), sn, err);
    }

    /** `put_encapsulation_header()`: plain CDR in the producer's byte order, no options. */
    method PutEncapsulationHeader() returns (err: Option<Exception>)
      requires dst.Valid()
      modifies dst.Repr()
      ensures dst.Valid()
      ensures Emitted(dst.Capacity(), old(dst.Size()), old(dst.Buffer()), dst.Size(), dst.Buffer(),
                      dst.Writing?, Emission(Header(e), false), err)
    {
      err := dst.Put(Header(e));
    }

    /**
     * `align(n)`: zero bytes, one at a time, until the sink's size is a
     * multiple of `min(max_align, n)`.
     */
    method Align(n: nat) returns (err: Option<Exception>)
      requires n > 0 && dst.Valid()
      modifies dst.Repr()
      ensures dst.Valid()
      ensures Emitted(dst.Capacity(), old(dst.Size()), old(dst.Buffer()), dst.Size(), dst.Buffer(),
                      dst.Writing?, Emission(Zeros(PadLen(old(dst.Size()), n)), false), err)
    {
      hide Emitted, Outcome, Overwrite, Zeros, ValueE, ValuesE, MessageE, MembersE, FieldE, StringE, U32Bytes, UIntBytes, PrimitiveBytes;
      ghost var s0, b0 := dst.Size(), dst.Buffer();
      EmittedNothing(dst.Capacity(), s0, b0, dst.Writing?);
      var alignTo := AlignTo(n);
      var current := dst.Size() % alignTo;
      PadLenIsRemainder(s0, n);
      if current != 0 {
        var i := 0;
        while i < alignTo - current
          invariant 0 <= i <= alignTo - current == PadLen(s0, n)
          invariant dst.Valid()
          invariant Emitted(dst.Capacity(), s0, b0, dst.Size(), dst.Buffer(), dst.Writing?,
                            Emission(Zeros(i), false), None)
        {
          ghost var s1, b1 := dst.Size(), dst.Buffer();
          err := dst.Put([0]);
          EmittedThen(dst.Capacity(), s0, b0, s1, b1, dst.Size(), dst.Buffer(), dst.Writing?,
                      Emission(Zeros(i), false), Emission([0], false), err);
          assert Zeros(i) + [0] == Zeros(i + 1);
          if err.Some? {
            ZerosAdd(i + 1, PadLen(s0, n) - i - 1);
            EmittedStops(dst.Capacity(), s0, b0, dst.Size(), dst.Buffer(), dst.Writing?,
                         Emission(Zeros(i + 1), false), Emission(Zeros(PadLen(s0, n) - i - 1), false), err);
            return;
          }
          i := i + 1;
        }
      }
      return None;
    }

    /** `serialize(const T &)` for an arithmetic `T` of `n` bytes: align to it, then its bytes. */
    method SerializePrimitive(n: nat, bs: seq<byte>) returns (err: Option<Exception>)
      requires n > 0 && dst.Valid()
      modifies dst.Repr()
      ensures dst.Valid()
      ensures Emitted(dst.Capacity(), old(dst.Size()), old(dst.Buffer()), dst.Size(), dst.Buffer(),
                      dst.Writing?, Emission(PrimitiveBytes(old(dst.Size()), n, bs), false), err)
    {
      ghost var s0, b0 := dst.Size(), dst.Buffer();
      ghost var pad := Emission(Zeros(PadLen(s0, n)), false);
      ghost var whole := Emission(PrimitiveBytes(s0, n, bs), false);
      assert Then(pad, Emission(bs, false)) == whole;
      err := Align(n);
      if err.Some? {
        EmittedStops(dst.Capacity(), s0, b0, dst.Size(), dst.Buffer(), dst.Writing?, pad, Emission(bs, false), err);
        return;
      }
      ghost var s1, b1 := dst.Size(), dst.Buffer();
      err := dst.Put(bs);
      EmittedThen(dst.Capacity(), s0, b0, s1, b1, dst.Size(), dst.Buffer(), dst.Writing?, pad, Emission(bs, false), err);
    }

    /** `serialize_u32(s)`, which asserts `s < UINT32_MAX`. */
    method SerializeU32(x: nat) returns (err: Option<Exception>)
      requires x < UINT32_MAX && dst.Valid()
      modifies dst.Repr()
      ensures dst.Valid()
      ensures Emitted(dst.Capacity(), old(dst.Size()), old(dst.Buffer()), dst.Size(), dst.Buffer(),
                      dst.Writing?, Emission(U32Bytes(e, x, old(dst.Size())), false), err)
    {
      err := SerializePrimitive(4, UIntBytes(x, 4, e));
    }

    /**
     * `serialize` of a string of 1-byte characters: the length plus one,
     * each character, then a NUL.
     */
    method SerializeText(chars: seq<byte>) returns (err: Option<Exception>)
      requires |chars| + 1 < UINT32_MAX && dst.Valid()
      modifies dst.Repr()
      ensures dst.Valid()
      ensures Emitted(dst.Capacity(), old(dst.Size()), old(dst.Buffer()), dst.Size(), dst.Buffer(),
                      dst.Writing?, Emission(TextBytes(e, chars, old(dst.Size())), false), err)
    {
      ghost var s0, b0 := dst.Size(), dst.Buffer();
      ghost var count := Emission(U32Bytes(e, |chars| + 1, s0), false);
      ghost var body := Emission(chars + [0], false);
      assert Then(count, body) == Emission(TextBytes(e, chars, s0), false);
      err := SerializeU32(|chars| + 1);
      if err.Some? {
        EmittedStops(dst.Capacity(), s0, b0, dst.Size(), dst.Buffer(), dst.Writing?, count, body, err);
        return;
      }
      ghost var s1, b1 := dst.Size(), dst.Buffer();
      err := SerializeChars(chars + [0]);
      EmittedThen(dst.Capacity(), s0, b0, s1, b1, dst.Size(), dst.Buffer(), dst.Writing?, count, body, err);
    }

    /** The character loop of a narrow string: each character aligned to 1, which never pads. */
    method SerializeChars(chars: seq<byte>) returns (err: Option<Exception>)
      requires dst.Valid()
      modifies dst.Repr()
      ensures dst.Valid()
      ensures Emitted(dst.Capacity(), old(dst.Size()), old(dst.Buffer()), dst.Size(), dst.Buffer(),
                      dst.Writing?, Emission(chars, false), err)
    {
      ghost var s0, b0 := dst.Size(), dst.Buffer();
      EmittedNothing(dst.Capacity(), s0, b0, dst.Writing?);
      var i := 0;
      while i < |chars|
        invariant i <= |chars|
        invariant dst.Valid()
        invariant Emitted(dst.Capacity(), s0, b0, dst.Size(), dst.Buffer(), dst.Writing?,
                          Emission(chars[..i], false), None)
      {
        ghost var s1, b1 := dst.Size(), dst.Buffer();
        ghost var step := Emission(PrimitiveBytes(s1, 1, [chars[i]]), false);
        assert Then(Emission(chars[..i], false), step) == Emission(chars[..i + 1], false) by {
          assert chars[..i] + [chars[i]] == chars[..i + 1];
        }
        err := SerializePrimitive(1, [chars[i]]);
        EmittedThen(dst.Capacity(), s0, b0, s1, b1, dst.Size(), dst.Buffer(), dst.Writing?,
                    Emission(chars[..i], false), step, err);
        if err.Some? {
          assert chars[..|chars|][..i + 1] == chars[..i + 1];
          EmittedExtends(dst.Capacity(), s0, b0, dst.Size(), dst.Buffer(), dst.Writing?,
                         Emission(chars[..i + 1], false), Emission(chars, false), err);
          return;
        }
        i := i + 1;
      }
      assert chars[..i] == chars;
      return None;
    }

    /**
     * `serialize` of a string of `w`-byte characters: the length in bytes,
     * then each code unit aligned to its size; no terminator.
     */
    method SerializeWide(units: seq<char16>, w: nat) returns (err: Option<Exception>)
      requires w > 0 && |units| * w < UINT32_MAX && dst.Valid()
      modifies dst.Repr()
      ensures dst.Valid()
      ensures Emitted(dst.Capacity(), old(dst.Size()), old(dst.Buffer()), dst.Size(), dst.Buffer(),
                      dst.Writing?, Emission(WideBytes(e, units, w, old(dst.Size())), false), err)
    {
      hide ValueE, ValuesE, MessageE, MembersE, FieldE, StringE, UnitsBytes, UIntBytes, Zeros, PadLen, U32Bytes, PrimitiveBytes;
      ghost var s0, b0 := dst.Size(), dst.Buffer();
      ghost var count := Emission(U32Bytes(e, |units| * w, s0), false);
      ghost var body := Emission(UnitsBytes(e, units, w, |units|, s0 + |count.bytes|), false);
      assert Then(count, body) == Emission(WideBytes(e, units, w, s0), false);
      err := SerializeU32(|units| * w);
      if err.Some? {
        EmittedStops(dst.Capacity(), s0, b0, dst.Size(), dst.Buffer(), dst.Writing?, count, body, err);
        return;
      }
      ghost var s1, b1 := dst.Size(), dst.Buffer();
      err := SerializeUnits(units, w);
      EmittedThen(dst.Capacity(), s0, b0, s1, b1, dst.Size(), dst.Buffer(), dst.Writing?, count, body, err);
    }

    /** The code-unit loop of a wide string. */
    method SerializeUnits(units: seq<char16>, w: nat) returns (err: Option<Exception>)
      requires w > 0 && dst.Valid()
      modifies dst.Repr()
      ensures dst.Valid()
      ensures Emitted(dst.Capacity(), old(dst.Size()), old(dst.Buffer()), dst.Size(), dst.Buffer(),
                      dst.Writing?, Emission(UnitsBytes(e, units, w, |units|, old(dst.Size())), false), err)
    {
      ghost var s0, b0 := dst.Size(), dst.Buffer();
      EmittedNothing(dst.Capacity(), s0, b0, dst.Writing?);
      var i := 0;
      while i < |units|
        invariant i <= |units|
        invariant dst.Valid()
        invariant Emitted(dst.Capacity(), s0, b0, dst.Size(), dst.Buffer(), dst.Writing?,
                          Emission(UnitsBytes(e, units, w, i, s0), false), None)
      {
        err := SerializeUnit(s0, b0, units, w, i);
        if err.Some? {
          return;
        }
        i := i + 1;
      }
      return None;
    }

    /** One pass of the code-unit loop: unit `i`, aligned to its size, after the first `i`. */
    method SerializeUnit(ghost s0: nat, ghost b0: seq<byte>, units: seq<char16>, w: nat, i: nat)
      returns (err: Option<Exception>)
      requires w > 0 && i < |units| && dst.Valid()
      requires Emitted(dst.Capacity(), s0, b0, dst.Size(), dst.Buffer(), dst.Writing?,
                       Emission(UnitsBytes(e, units, w, i, s0), false), None)
      modifies dst.Repr()
      ensures dst.Valid()
      ensures err.None? ==> Emitted(dst.Capacity(), s0, b0, dst.Size(), dst.Buffer(), dst.Writing?,
                                    Emission(UnitsBytes(e, units, w, i + 1, s0), false), None)
      ensures err.Some? ==> Emitted(dst.Capacity(), s0, b0, dst.Size(), dst.Buffer(), dst.Writing?,
                                    Emission(UnitsBytes(e, units, w, |units|, s0), false), err)
    {
      ghost var s1, b1 := dst.Size(), dst.Buffer();
      err := SerializePrimitive(w, UIntBytes(units[i], w, e));
      UnitStep(dst.Capacity(), s0, b0, s1, b1, dst.Size(), dst.Buffer(), dst.Writing?, e, units, w, i, err);
    }

    /** `serialize` of one value, as its value helper reads it. */
    method SerializeValue(h: ValueHelper, v: Value) returns (err: Option<Exception>)
      requires ValueConforms(h, v) && ValueCountsFit(rd, h, v) && dst.Valid()
      modifies dst.Repr()
      ensures dst.Valid()
      ensures Emitted(dst.Capacity(), old(dst.Size()), old(dst.Buffer()), dst.Size(), dst.Buffer(),
                      dst.Writing?, ValueE(e, rd, h, v, old(dst.Size())), err)
      decreases v, 0
    {
      match h
      case NativeValueHelper(t) =>
        if t.ScalarType? {
          err := SerializePrimitive(SizeOf(t.c), v.bytes);
        } else if CharSize(t) == 1 {
          err := SerializeText(v.chars);
        } else {
          err := SerializeWide(v.units, CharSize(t));
        }
      case MessageValueHelper(tm) =>
        err := SerializeMessage(tm, v.fields);
    }

    /** `serialize(MessageRef)`: each member in index order. */
    method SerializeMessage(tm: TypedMembers, fields: seq<Field>) returns (err: Option<Exception>)
      requires MessageConforms(tm, fields) && MessageCountsFit(rd, tm, fields) && dst.Valid()
      modifies dst.Repr()
      ensures dst.Valid()
      ensures Emitted(dst.Capacity(), old(dst.Size()), old(dst.Buffer()), dst.Size(), dst.Buffer(),
                      dst.Writing?, MessageE(e, rd, tm, fields, old(dst.Size())), err)
      decreases fields, 2
    {
      ghost var s0, b0 := dst.Size(), dst.Buffer();
      EmittedNothing(dst.Capacity(), s0, b0, dst.Writing?);
      var msg := MessageRef(tm.meta, 0);
      var k := 0;
      while k < msg.Size()
        invariant k <= |fields| == |tm.meta.members|
        invariant dst.Valid()
        invariant Emitted(dst.Capacity(), s0, b0, dst.Size(), dst.Buffer(), dst.Writing?,
                          MembersE(e, rd, tm, fields, k, s0), None)
      {
        ghost var s1, b1 := dst.Size(), dst.Buffer();
        err := SerializeField(tm.generator, tm.meta.members[k], fields[k]);
        MemberStep(dst.Capacity(), s0, b0, s1, b1, dst.Size(), dst.Buffer(), dst.Writing?, e, rd, tm, fields, k, err);
        if err.Some? {
          return;
        }
        k := k + 1;
      }
      return None;
    }

    /**
     * One member: resolve its value helper, then, by its classification,
     * the single value, the array's `array_size_` values, or the sequence's
     * count and values.
     */
    method SerializeField(gen: TypeGenerator, m: MessageMember, f: Field) returns (err: Option<Exception>)
      requires FieldConforms(gen, m, f) && FieldCountsFit(rd, gen, m, f) && dst.Valid()
      modifies dst.Repr()
      ensures dst.Valid()
      ensures Emitted(dst.Capacity(), old(dst.Size()), old(dst.Buffer()), dst.Size(), dst.Buffer(),
                      dst.Writing?, FieldE(e, rd, gen, m, f, old(dst.Size())), err)
      decreases f, 3
    {
      ghost var s0, b0 := dst.Size(), dst.Buffer();
      var helper := HelperOf(rd, gen, m);
      WithValueHelperAsWrittenDiffers(gen, m);
      if helper.Err? {
        assert FieldE(e, rd, gen, m, f, s0) == Emission([], true);
        return Some(RuntimeError);
      }
      var h := helper.value;
      forall i | 0 <= i < |f.values|
        ensures ValueConforms(h, f.values[i])
      {
        if rd == AsWritten {
          ConformsUnderWrittenHelper(gen, m, f.values[i]);
        }
      }
      var c := Classify(rd, m);
      ReadingsAgreeButOnUnboundedSequences(m);
      if c == SingleValue {
        ValuesSingle(e, rd, h, f, s0);
        err := SerializeValue(h, f.values[0]);
      } else if c == MemberContainerType.Array {
        assert FieldE(e, rd, gen, m, f, s0) == ValuesE(e, rd, h, f, m.arraySize, s0);
        err := SerializeValues(h, f, m.arraySize);
      } else {
        err := SerializeSequence(h, f);
        assert FieldE(e, rd, gen, m, f, s0) == SequenceE(e, rd, h, f, s0);
      }
    }

    /** The sequence branch: `serialize_u32(m.size())`, then each element. */
    method SerializeSequence(h: ValueHelper, f: Field) returns (err: Option<Exception>)
      requires |f.values| < UINT32_MAX && dst.Valid()
      requires forall i :: 0 <= i < |f.values| ==> ValueConforms(h, f.values[i]) && ValueCountsFit(rd, h, f.values[i])
      modifies dst.Repr()
      ensures dst.Valid()
      ensures Emitted(dst.Capacity(), old(dst.Size()), old(dst.Buffer()), dst.Size(), dst.Buffer(),
                      dst.Writing?, SequenceE(e, rd, h, f, old(dst.Size())), err)
      decreases f, 2
    {
      hide ValueE, ValuesE, MessageE, MembersE, FieldE, StringE, UIntBytes, Zeros, PadLen, U32Bytes, PrimitiveBytes;
      ghost var s0, b0 := dst.Size(), dst.Buffer();
      ghost var count := Emission(U32Bytes(e, |f.values|, s0), false);
      err := SerializeU32(|f.values|);
      if err.Some? {
        EmittedStops(dst.Capacity(), s0, b0, dst.Size(), dst.Buffer(), dst.Writing?,
                     count, ValuesE(e, rd, h, f, |f.values|, s0 + |count.bytes|), err);
        return;
      }
      ghost var s1, b1 := dst.Size(), dst.Buffer();
      err := SerializeValues(h, f, |f.values|);
      EmittedThen(dst.Capacity(), s0, b0, s1, b1, dst.Size(), dst.Buffer(), dst.Writing?,
                  count, ValuesE(e, rd, h, f, |f.values|, s1), err);
    }

    /** The element loop of arrays and sequences: `serialize(m[i])` for each `i < n`. */
    method SerializeValues(h: ValueHelper, f: Field, n: nat) returns (err: Option<Exception>)
      requires n <= |f.values| && dst.Valid()
      requires forall i :: 0 <= i < |f.values| ==> ValueConforms(h, f.values[i]) && ValueCountsFit(rd, h, f.values[i])
      modifies dst.Repr()
      ensures dst.Valid()
      ensures Emitted(dst.Capacity(), old(dst.Size()), old(dst.Buffer()), dst.Size(), dst.Buffer(),
                      dst.Writing?, ValuesE(e, rd, h, f, n, old(dst.Size())), err)
      decreases f, 1
    {
      hide Emitted, Outcome, ValueE, MessageE, MembersE, FieldE, StringE, U32Bytes, PrimitiveBytes, UIntBytes, Zeros;
      ghost var s0, b0 := dst.Size(), dst.Buffer();
      EmittedNothing(dst.Capacity(), s0, b0, dst.Writing?);
      var i := 0;
      while i < n
        invariant i <= n
        invariant dst.Valid()
        invariant Emitted(dst.Capacity(), s0, b0, dst.Size(), dst.Buffer(), dst.Writing?,
                          ValuesE(e, rd, h, f, i, s0), None)
      {
        ghost var s1, b1 := dst.Size(), dst.Buffer();
        err := SerializeValue(h, f.values[i]);
        ValueStep(dst.Capacity(), s0, b0, s1, b1, dst.Size(), dst.Buffer(), dst.Writing?, e, rd, h, f, i, n, err);
        if err.Some? {
          return;
        }
        i := i + 1;
      }
      return None;
    }
  }

  /** A message the writer can be given under type support `ts`, once it is recognised. */
  predicate TopLevelSerializable(rd: Reading, ts: MessageTypeSupport, fields: seq<Field>)
  {
    WithTypesupport(ts).Ok? ==> Serializable(rd, WithTypesupport(ts).value, fields)
  }

  /**
   * `get_serialized_size(data, ts)`: a counting pass of the top-level
   * writer into a sink that can hold `SIZE_MAX` bytes; the size is the
   * number of bytes the message serializes to, and every exception the
   * pass raises is passed on.
   */
  method GetSerializedSize(e: Endian, rd: Reading, ts: MessageTypeSupport, fields: seq<Field>) returns (r: Result<nat>)
    requires TopLevelSerializable(rd, ts, fields)
    ensures r.Ok? <==> Outcome(SIZE_MAX, 0, TopLevelE(e, rd, ts, fields)).None?
    ensures r.Ok? ==> r.value == |TopLevelE(e, rd, ts, fields).bytes|
    ensures r.Err? ==> Outcome(SIZE_MAX, 0, TopLevelE(e, rd, ts, fields)) == Some(r.error)
  {
    var accum := new SizeAccumulator();
    var writer := new CDRWriter(Sizing(accum), e, rd);
    var tm := WithTypesupport(ts);
    if tm.Err? {
      return Err(tm.error);
    }
    var err := writer.SerializeTopLevel(tm.value, fields);
    if err.Some? {
      return Err(err.value);
    }
    return Ok(accum.size);
  }

  /**
   * `serialize(dest, dest_size, data, ts)`: a copying pass of the top-level
   * writer into the caller's buffer of `dest_size` bytes. The bytes land at
   * the start of the buffer; a message that does not fit raises
   * `length_error`.
   */
  method SerializeInto(dest: array<byte>, destSize: nat, e: Endian, rd: Reading, ts: MessageTypeSupport, fields: seq<Field>)
    returns (err: Option<Exception>)
    requires destSize <= dest.Length && TopLevelSerializable(rd, ts, fields)
    modifies dest
    ensures err == Outcome(destSize, 0, TopLevelE(e, rd, ts, fields))
    ensures err.None? ==> dest[..] == Overwrite(old(dest[..]), 0, TopLevelE(e, rd, ts, fields).bytes)
  {
    var accum := new DataAccumulator(dest, destSize);
    var writer := new CDRWriter(Writing(accum), e, rd);
    var tm := WithTypesupport(ts);
    if tm.Err? {
      return Some(tm.error);
    }
    err := writer.SerializeTopLevel(tm.value, fields);
  }

  /**
   * `serialize(dest, data, ts)` into an empty vector: size the message,
   * resize the vector to exactly that, and copy the message into it. The
   * copying pass then cannot fail, so the vector ends up holding exactly
   * the message's bytes; a failed sizing pass leaves it empty.
   */
  method SerializeToVector(dest: seq<byte>, e: Endian, rd: Reading, ts: MessageTypeSupport, fields: seq<Field>)
    returns (out: seq<byte>, err: Option<Exception>)
    requires dest == [] && TopLevelSerializable(rd, ts, fields)
    ensures err == Outcome(SIZE_MAX, 0, TopLevelE(e, rd, ts, fields))
    ensures err.None? ==> out == TopLevelE(e, rd, ts, fields).bytes
    ensures err.Some? ==> out == dest
  {
    var size := GetSerializedSize(e, rd, ts, fields);
    if size.Err? {
      return dest, Some(size.error);
    }
    var buffer := new byte[size.value](_ => 0);
    err := SerializeInto(buffer, size.value, e, rd, ts, fields);
    out := buffer[..];
  }

  /** `std::vector::resize(n)`: the first `n` bytes kept, zeros appended as needed. */
  function Resize(v: seq<byte>, n: nat): (r: seq<byte>)
    ensures |r| == n
    ensures forall i :: 0 <= i < n ==> r[i] == if i < |v| then v[i] else 0
  {
    if n <= |v| then v[..n] else v + Zeros(n - |v|)
  }

  /**
   * `serialize(dest, request, ts)`: inside `with_message`, size the request
   * header and message, resize the vector to that size (whatever it held
   * before), and copy them in from its start. The vector ends up holding
   * exactly the request's bytes; any failure leaves it as it was.
   */
  method SerializeRequest(dest: seq<byte>, e: Endian, rd: Reading, ts: MessageTypeSupport, rh: RequestHeader, fields: seq<Field>)
    returns (out: seq<byte>, err: Option<Exception>)
    requires rh.Valid() && TopLevelSerializable(rd, ts, fields)
    ensures err == Outcome(SIZE_MAX, 0, RequestE(e, rd, ts, rh, fields))
    ensures err.None? ==> out == RequestE(e, rd, ts, rh, fields).bytes
    ensures err.Some? ==> out == dest
  {
    hide ValueE, ValuesE, MessageE, MembersE, FieldE, StringE, U32Bytes, UIntBytes, Zeros, PadLen, TwosComplement64, PrimitiveBytes, RequestPrefix, RequestedE;
    var tm := WithTypesupport(ts);
    if tm.Err? {
      return dest, Some(tm.error);
    }
    var sizing := new SizeAccumulator();
    var counter := new CDRWriter(Sizing(sizing), e, rd);
    err := counter.SerializeRequestTopLevel(tm.value, rh, fields);
    if err.Some? {
      return dest, err;
    }
    var size := sizing.size;
    var buffer := new byte[size](i requires 0 <= i < size => if i < |dest| then dest[i] else 0);
    assert buffer[..] == Resize(dest, size);
    var accum := new DataAccumulator(buffer, size);
    var writer := new CDRWriter(Writing(accum), e, rd);
    err := writer.SerializeRequestTopLevel(tm.value, rh, fields);
    out := buffer[..];
  }
}
