/**
 * The stream codec of `serdes.hpp` as objects: the writer `cycser`, the
 * bounds-checked reader `cycdeserbase` / `cycdeser` and the printer
 * `cycprint`. Each method moves its object's state exactly as the matching
 * function of `SerdesLayout` says, so the round trips and the buffer
 * accounting proved there hold for the objects.
 *
 * `cycdeser` and `cycprint` derive from `cycdeserbase` in C++; here each
 * holds its `CycDeserBase` in the field `base`.
 */
module Serdes {
  import opened Wire
  import opened SerdesLayout
  import Serialization

  // ---------------------------------------------------------------------
  // Writer
  // ---------------------------------------------------------------------

  /** The offset after `cycser`'s alignment step is the offset rounded up to a multiple of `w`. */
  lemma AlignStep(off: nat, w: nat)
    requires IsScalarWidth(w)
    ensures (if off % w != 0 then off + (w - off % w) else off) == AlignUp(off, w)
  {
    RemIsMod(off, w);
  }

  /** Resizing to `n + |x|` bytes and copying `x` to `n` is resizing to `n` and appending `x`. */
  lemma ResizeThenCopy(d: seq<byte>, n: nat, x: seq<byte>)
    ensures Serialization.Overwrite(Serialization.Resize(d, n + |x|), n, x) == Serialization.Resize(d, n) + x
  {
    var big := Serialization.Resize(d, n + |x|);
    var small := Serialization.Resize(d, n);
    assert big[..n] == small;
  }

  /** `cycser`'s store step, from the offset `at` its alignment step reaches, is `Place`. */
  lemma StoreStep(d: seq<byte>, off: nat, x: seq<byte>, w: nat, at: nat)
    requires IsScalarWidth(w) && at == (if off % w != 0 then off + (w - off % w) else off)
    ensures Place(Out(d, off), x, w) ==
      Out(Serialization.Overwrite(Serialization.Resize(d, at + |x| + 4), at + 4, x), at + |x|)
  {
    hide Serialization.Overwrite, Serialization.Resize, AlignUp, Pad, Rem;
    AlignStep(off, w);
    ResizeThenCopy(d, at + 4, x);
  }

  /** `cycser`: appends values behind the 4 reserved bytes of `dst`; `off` is the body offset. */
  class CycSer {
    var dst: seq<byte>
    var off: nat

    /** The writer's state as a value. */
    function State(): Out
      reads this
    {
      Out(dst, off)
    }

    /**
     * `cycser(dst_)`. Its body is in serdes.cpp, which is not part of this
     * model: the writer starts from the state it is given.
     */
    constructor(st: Out)
      ensures State() == st
    {
      dst, off := st.dst, st.off;
    }

    /**
     * The step shared by `serialize<T>` and `serialize_many`: round `off`
     * up to a multiple of the element size `w`, resize to `off + |x|` body
     * bytes, copy `x` there and move `off` past it.
     */
    method Store(x: seq<byte>, w: nat)
      requires IsScalarWidth(w)
      modifies this
      ensures State() == Place(old(State()), x, w)
      ensures Framed(State())
    {
      hide Place, Serialization.Resize, Serialization.Overwrite, AlignUp, Pad;
      ghost var d0, off0 := dst, off;
      if off % w != 0 {
        off := off + (w - off % w);
      }
      StoreStep(d0, off0, x, w, off);
      dst := Serialization.Resize(dst, off + |x| + 4);
      dst := Serialization.Overwrite(dst, off + 4, x);
      off := off + |x|;
    }

    /** `serialize<T>(x)` for an integral `x` of `|x|` bytes, given by its native bytes. */
    method Serialize(x: seq<byte>)
      requires IsScalarWidth(|x|)
      modifies this
      ensures State() == Place(old(State()), x, |x|)
    {
      Store(x, |x|);
    }

    /** `serialize(bool)`: the bool as one byte, 1 or 0. */
    method SerializeBool(b: bool)
      modifies this
      ensures State() == Place(old(State()), [BoolByte(b)], 1)
    {
      Serialize([if b then 1 else 0]);
    }

    /** `serialize_many(x, cnt)`: `cnt` elements of `w` bytes; nothing at all when `cnt` is 0. */
    method SerializeMany(x: seq<byte>, w: nat, cnt: nat)
      requires IsScalarWidth(w) && |x| == cnt * w
      modifies this
      ensures State() == PlaceMany(old(State()), x, w, cnt)
    {
      if cnt > 0 {
        Store(x, w);
      }
    }

    /** `serialize_list(x, cnt)`, and `serialize(std::vector<T>)`: the count cast to 32 bits, then the elements. */
    method SerializeList(x: seq<byte>, w: nat, cnt: nat, e: Endian)
      requires IsScalarWidth(w) && |x| == cnt * w
      modifies this
      ensures State() == PutList(old(State()), x, w, cnt, e)
    {
      Serialize(UIntBytes(cnt, 4, e));
      SerializeMany(x, w, cnt);
    }

    /** `serialize(std::vector<T>)` for a `w`-byte integral `T`: `serialize_list` over the elements' bytes, that is `cycser << x` for a vector item. */
    method SerializeVector(xs: seq<seq<byte>>, w: nat, e: Endian)
      requires Writable(List(w, xs))
      modifies this
      ensures State() == Write(old(State()), List(w, xs), e)
    {
      JoinedLength(xs, w);
      SerializeList(Joined(xs), w, |xs|, e);
    }

    /** `serialize(std::string)`: `size() + 1` chars, the last one the NUL `c_str()` ends with. */
    method SerializeString(chars: seq<byte>, e: Endian)
      modifies this
      ensures State() == PutText(old(State()), chars, e)
    {
      SerializeList(chars + [0], 1, |chars| + 1, e);
    }

    /** `serialize(std::wstring)`: `size()` units of 4 bytes, no terminator. */
    method SerializeWString(units: seq<nat>, e: Endian)
      modifies this
      ensures State() == PutWide(old(State()), units, e)
    {
      SerializeList(WideChars(units, e), 4, |units|, e);
    }

    /** `serialize(std::vector<bool>)`: the count, then each flag through `serialize(bool)`. */
    method SerializeBools(flags: seq<bool>, e: Endian)
      modifies this
      ensures State() == PutBools(old(State()), flags, e)
    {
      hide Place, FlagBytes, Serialization.Resize, Pad, AlignUp, UIntBytes, BoolByte;
      Serialize(UIntBytes(|flags|, 4, e));
      ghost var counted := State();
      var i := 0;
      while i < |flags|
        invariant i <= |flags|
        invariant State() == PutFlags(counted, flags[..i])
      {
        PutFlagsStep(counted, flags[..i], flags[i]);
        SerializeBool(flags[i]);
        assert flags[..i + 1] == flags[..i] + [flags[i]];
        i := i + 1;
      }
      assert flags[..i] == flags;
    }
  }

  // ---------------------------------------------------------------------
  // Reader
  // ---------------------------------------------------------------------

  /**
   * A method's result `r` and final reader state `s` are what the reading
   * function's result `f` says: its value and state on success, its
   * exception on failure (the state after a throw is not stated).
   */
  predicate Yields<T(==)>(r: Result<T>, f: Result<(T, In)>, s: In)
  {
    match f
    case Err(ex) => r == Err(ex)
    case Ok((x, t)) => r == Ok(x) && s == t
  }

  /** The same for a method that reports only success or failure. */
  predicate Follows<T, U>(r: Result<U>, f: Result<(T, In)>, s: In)
  {
    match f
    case Err(ex) => r.Err? && r.error == ex
    case Ok((_, t)) => r.Ok? && s == t
  }

  /** `validate_size`'s test `count > room / sz` is the negation of `Fits`. */
  lemma FitsByDivision(room: nat, count: nat, sz: nat)
    requires IsScalarWidth(sz)
    ensures Fits(room, count, sz) <==> !(count > room / sz)
  {
  }

  /** `cycdeserbase`: the received bytes, the limit `lim` and the read position `pos`. */
  class CycDeserBase {
    const data: seq<byte>
    const lim: nat
    var pos: nat

    /** The reader's state as a value. */
    function State(): In
      reads this
    {
      In(data, lim, pos)
    }

    predicate Valid()
      reads this
    {
      State().Valid()
    }

    /**
     * `cycdeserbase(data_, lim_)`. Its body is in serdes.cpp, which is not
     * part of this model: the reader starts from the state it is given.
     */
    constructor(s: In)
      ensures State() == s
    {
      data, lim, pos := s.data, s.lim, s.pos;
    }

    /** `align(a)`: round `pos` up to a multiple of `a`; throw when that passes `lim` (with `pos` already moved). */
    method Align(a: nat) returns (r: Result<()>)
      requires Valid() && IsScalarWidth(a)
      modifies this
      ensures r.Ok? <==> AlignRead(old(State()), a).Ok?
      ensures r.Ok? ==> State() == AlignRead(old(State()), a).value
      ensures r.Err? ==> r.error == DeserializationError && pos == AlignUp(old(pos), a) > lim
    {
      AlignStep(pos, a);
      r := Ok(());
      if pos % a != 0 {
        pos := pos + (a - pos % a);
        if pos > lim {
          r := Err(DeserializationError);
        }
      }
    }

    /** `validate_size(count, sz)`: throw unless `count` elements of `sz` bytes fit between `pos` and `lim`. */
    method ValidateSize(count: nat, sz: nat) returns (r: Result<()>)
      requires Valid() && IsScalarWidth(sz)
      ensures r.Ok? <==> pos + count * sz <= lim
      ensures r.Err? ==> r.error == DeserializationError
    {
      FitsByDivision(lim - pos, count, sz);
      if count > (lim - pos) / sz {
        r := Err(DeserializationError);
      } else {
        r := Ok(());
      }
    }

    /** `validate_str(sz)`: throw when a nonempty string's last byte, at `pos + sz - 1`, is not NUL. */
    method ValidateStr(sz: nat) returns (r: Result<()>)
      requires Valid() && pos + sz <= lim
      ensures r.Ok? <==> sz == 0 || data[pos + sz - 1] == 0
      ensures r.Err? ==> r.error == DeserializationError
    {
      if sz > 0 && data[pos + sz - 1] != 0 {
        r := Err(DeserializationError);
      } else {
        r := Ok(());
      }
    }
  }

  /** The elements read so far, `xs`, in front of what the rest of a `deserialize_many` yields. */
  function Glue(xs: seq<seq<byte>>, rest: Result<(seq<seq<byte>>, In)>): Result<(seq<seq<byte>>, In)>
  {
    match rest
    case Err(ex) => Err(ex)
    case Ok((ys, u)) => Ok((xs + ys, u))
  }

  /** One more element read: what `deserialize_many` yields is unchanged. */
  lemma ManyStep(xs: seq<seq<byte>>, cur: In, w: nat, k: nat, x: seq<byte>, t: In)
    requires cur.Valid() && IsScalarWidth(w) && k > 0
    requires ReadScalar(cur, w) == Ok((x, t))
    ensures Glue(xs, ReadMany(cur, w, k)) == Glue(xs + [x], ReadMany(t, w, k - 1))
  {
    match ReadMany(t, w, k - 1)
    case Err(_) =>
    case Ok((ys, u)) =>
      assert xs + ([x] + ys) == (xs + [x]) + ys;
  }

  /** Nothing read yet: the glued result is the result itself. */
  lemma GlueNothing(rest: Result<(seq<seq<byte>>, In)>)
    ensures Glue([], rest) == rest
  {
    if rest.Ok? {
      assert [] + rest.value.0 == rest.value.0;
    }
  }

  /** An element that cannot be read stops `deserialize_many` with its exception. */
  lemma ManyFails(xs: seq<seq<byte>>, cur: In, w: nat, k: nat, ex: Exception)
    requires cur.Valid() && IsScalarWidth(w) && k > 0
    requires ReadScalar(cur, w) == Err(ex)
    ensures Glue(xs, ReadMany(cur, w, k)) == Err(ex)
  {
  }

  /** No element left: `deserialize_many` yields what was read, where the reader stands. */
  lemma ManyDone(xs: seq<seq<byte>>, cur: In, w: nat)
    requires cur.Valid() && IsScalarWidth(w)
    ensures Glue(xs, ReadMany(cur, w, 0)) == Ok((xs, cur))
  {
    assert xs + [] == xs;
  }

  /**
   * The string reader as written, once a nonzero count `sz` is read and
   * the first NUL after it is at `k`: reading the `k - pos` chars one by
   * one yields exactly the bytes before `k`, and the terminator read next
   * is that NUL.
   */
  lemma AsWrittenRead(s: In, e: Endian, sz: nat, t: In, k: nat)
    requires s.Valid() && ReadLen(s, 1, e) == Ok((sz, t)) && sz != 0
    requires FirstNul(t.data, t.pos, t.lim) == Some(k)
    ensures ReadMany(t, 1, k - t.pos) == Ok((Chunks(t.data, t.pos, 1, k - t.pos), t.(pos := k)))
    ensures Joined(Chunks(t.data, t.pos, 1, k - t.pos)) == t.data[t.pos..k]
    ensures ReadScalar(t.(pos := k), 1) == Ok(([0], t.(pos := k + 1)))
    ensures ReadTextAsWritten(s, e) == Ok((t.data[t.pos..k], t.(pos := k + 1)))
  {
    hide ReadMany, ReadScalar, ReadLen, Chunks, Joined, Pad, Zeros, UIntBytes;
    ManyReadBack(t.data, t.lim, t.pos, 1, k - t.pos);
    ChunksJoin(t.data, t.pos, 1, k - t.pos);
    NulRead(t, k);
  }

  /** A NUL byte before the limit reads back as one `char` of value 0. */
  lemma NulRead(t: In, k: nat)
    requires t.Valid() && t.pos <= k < t.lim && t.data[k] == 0
    ensures ReadScalar(t.(pos := k), 1) == Ok(([0], t.(pos := k + 1)))
  {
    hide ReadScalar;
    assert Pad(k, 1) == 0;
    assert t.data[k..k + 1] == [t.data[k]];
  }

  /** Each element's bytes read as a `wchar_t` unit. */
  function Units(xs: seq<seq<byte>>, e: Endian): (us: seq<nat>)
    ensures |us| == |xs|
    decreases |xs|
  {
    if |xs| == 0 then [] else [UIntValue(xs[0], e)] + Units(xs[1..], e)
  }

  /** `deserialize<std::wstring>()`: a list of 4-byte elements, taken as units. */
  function WideRead(s: In, e: Endian): (r: Result<(seq<nat>, In)>)
    requires s.Valid()
  {
    match ReadList(s, 4, e)
    case Err(ex) => Err(ex)
    case Ok((xs, t)) => Ok((Units(xs, e), t))
  }

  /** After `deserialize_len` the position is a multiple of 4: the count was aligned to 4 and is 4 bytes. */
  lemma LenLeavesAligned(s: In, elSz: nat, e: Endian)
    requires s.Valid() && IsScalarWidth(elSz) && ReadLen(s, elSz, e).Ok?
    ensures ReadLen(s, elSz, e).value.1.pos % 4 == 0
  {
    hide ReadScalar, Fits, UIntValue;
    PadAligns(s.pos, 4);
    NextAligned(AlignUp(s.pos, 4), 4);
  }

  /** 4-byte elements holding the bytes of `units` (each below 2^32) read back as those units. */
  lemma {:induction false} UnitsReadBack(d: seq<byte>, p: nat, units: seq<nat>, e: Endian)
    requires p + |units| * 4 <= |d| && d[p..p + |units| * 4] == WideChars(units, e)
    requires forall i :: 0 <= i < |units| ==> units[i] <= UINT32_MAX
    ensures Units(Chunks(d, p, 4, |units|), e) == units
    decreases |units|
  {
    hide Chunks, UIntBytes, UIntValue, WideChars;
    var n := |units|;
    if n == 0 {
      NoChunks(d, p, 4);
    } else {
      ChunksCons(d, p, 4, n);
      UnitHead(d, p, units, e);
      UnitsReadBack(d, p + 4, units[1..], e);
      var xs := Chunks(d, p, 4, n);
      assert xs[0] == d[p..p + 4] && xs[1..] == Chunks(d, p + 4, 4, n - 1);
      assert units == [units[0]] + units[1..];
    }
  }

  /** The first of those elements is the first unit; the rest hold the bytes of the other units. */
  lemma UnitHead(d: seq<byte>, p: nat, units: seq<nat>, e: Endian)
    requires |units| > 0 && p + |units| * 4 <= |d| && d[p..p + |units| * 4] == WideChars(units, e)
    requires units[0] <= UINT32_MAX
    ensures UIntValue(d[p..p + 4], e) == units[0]
    ensures d[p + 4..p + 4 + |units[1..]| * 4] == WideChars(units[1..], e)
  {
    hide UIntBytes, UIntValue;
    var end := p + |units| * 4;
    assert WideChars(units, e) == UIntBytes(units[0], 4, e) + WideChars(units[1..], e);
    SplitSlice(d, p, end, WideChars(units, e), UIntBytes(units[0], 4, e), WideChars(units[1..], e));
    Pow256Four();
    UIntRoundTrip(units[0], 4, e);
  }

  /**
   * `print(std::wstring)` reads what `deserialize<std::wstring>()` reads:
   * both take the same inputs, end at the same position, and the printer's
   * bytes are the list's elements one after another.
   */
  lemma PrintWideAgrees(s: In, e: Endian)
    requires s.Valid()
    ensures PrintWideRead(s, e).Ok? <==> ReadList(s, 4, e).Ok?
    ensures ReadList(s, 4, e).Ok? ==>
      PrintWideRead(s, e).value.1 == ReadList(s, 4, e).value.1 &&
      PrintWideRead(s, e).value.0 == Joined(ReadList(s, 4, e).value.0)
  {
    hide ReadMany, ReadScalar, Chunks, Joined, Fits, UIntValue;
    if ReadLen(s, 4, e).Ok? {
      var t := ReadLen(s, 4, e).value.1;
      var n := ReadLen(s, 4, e).value.0;
      LenLeavesAligned(s, 4, e);
      ManyReadBack(t.data, t.lim, t.pos, 4, n);
      ChunksJoin(t.data, t.pos, 4, n);
    }
  }

  /**
   * The wide string round trip: the units `serialize(std::wstring)` appends
   * to a framed buffer read back through `deserialize<std::wstring>()` as the
   * same units, and the reader stops at the writer's end.
   */
  lemma WideReadBack(st: Out, units: seq<nat>, e: Endian)
    requires Framed(st) && |units| <= UINT32_MAX
    requires forall i :: 0 <= i < |units| ==> units[i] <= UINT32_MAX
    ensures var out := PutWide(st, units, e);
      |out.dst| == out.off + 4 && st.off <= out.off &&
      WideRead(In(out.dst[4..], out.off, st.off), e) == Ok((units, In(out.dst[4..], out.off, out.off)))
  {
    hide ReadMany, ReadLen, ReadScalar, Chunks, Units, UIntBytes, UIntValue, WideChars, Place, PutU32, Zeros, Pad;
    var n := |units|;
    var wc := WideChars(units, e);
    var head := Zeros(Pad(st.off, 4)) + UIntBytes(n, 4, e);
    var at := st.off + |head|;
    var out := PutWide(st, units, e);
    WideAppends(st, units, e);
    var d := out.dst[4..];
    BodySlice(out.dst, st.dst, head + wc, st.off, out.off);
    SplitSlice(d, st.off, out.off, head + wc, head, wc);
    LenReadBack(d, out.off, st.off, at, n, 4, e);
    WideAligned(st.off, at);
    ManyReadBack(d, out.off, at, 4, n);
    UnitsReadBack(d, at, units, e);
  }

  /** The count of a wide string ends at a multiple of 4. */
  lemma WideAligned(off: nat, at: nat)
    requires at == off + Pad(off, 4) + 4
    ensures at % 4 == 0
  {
    PadAligns(off, 4);
    NextAligned(AlignUp(off, 4), 4);
  }

  /** On a framed writer, a wide string appends its padding and count, then its units with no more padding. */
  lemma WideAppends(st: Out, units: seq<nat>, e: Endian)
    requires Framed(st)
    ensures var head := Zeros(Pad(st.off, 4)) + UIntBytes(|units|, 4, e);
      PutWide(st, units, e) == Out(st.dst + (head + WideChars(units, e)), st.off + |head| + |units| * 4)
  {
    hide UIntBytes, WideChars, Serialization.Resize;
    var n := |units|;
    var head := Zeros(Pad(st.off, 4)) + UIntBytes(n, 4, e);
    var st1 := PutU32(st, n, e);
    PlaceAppends(st, UIntBytes(n, 4, e), 4);
    assert st1 == Out(st.dst + head, st.off + |head|);
    WideAligned(st.off, st1.off);
    PadAligns(st1.off, 4);
    if n > 0 {
      PlaceAppends(st1, WideChars(units, e), 4);
      assert Zeros(0) == [];
    } else {
      assert WideChars(units, e) == [];
    }
  }

  /** `cycdeser`: the typed reader over a `cycdeserbase`. */
  class CycDeser {
    const base: CycDeserBase

    function State(): In
      reads base
    {
      base.State()
    }

    predicate Valid()
      reads base
    {
      base.Valid()
    }

    /**
     * `cycdeser(data, size)`. Its body is in serdes.cpp, which is not part
     * of this model: the reader starts from the state it is given.
     */
    constructor(s: In)
      ensures State() == s && fresh(base)
    {
      base := new CycDeserBase(s);
    }

    /** `deserialize<T>()` for a `w`-byte integral `T`: align, check one value fits, take its bytes, advance. */
    method Deserialize(w: nat) returns (r: Result<seq<byte>>)
      requires Valid() && IsScalarWidth(w)
      modifies base
      ensures Yields(r, ReadScalar(old(State()), w), State())
    {
      hide ReadScalar, AlignRead, Fits, Pad, Rem;
      var a := base.Align(w);
      if a.Err? {
        return Err(a.error);
      }
      var v := base.ValidateSize(1, w);
      if v.Err? {
        return Err(v.error);
      }
      r := Ok(base.data[base.pos..base.pos + w]);
      base.pos := base.pos + w;
    }

    /** `deserialize<bool>()`: one byte, true iff it is not 0. */
    method DeserializeBool() returns (r: Result<bool>)
      requires Valid()
      modifies base
      ensures Yields(r, ReadBool(old(State())), State())
    {
      var x := Deserialize(1);
      if x.Err? {
        return Err(x.error);
      }
      r := Ok(x.value[0] != 0);
    }

    /** `deserialize_len(el_sz)`: a 32-bit count, refused unless that many `el_sz`-byte elements fit. */
    method DeserializeLen(elSz: nat, e: Endian) returns (r: Result<nat>)
      requires Valid() && IsScalarWidth(elSz)
      modifies base
      ensures Yields(r, ReadLen(old(State()), elSz, e), State())
    {
      hide ReadScalar, AlignRead, Fits, Pad, Rem, AlignUp, UIntValue;
      var x := Deserialize(4);
      if x.Err? {
        return Err(x.error);
      }
      var sz := UIntValue(x.value, e);
      var v := base.ValidateSize(sz, elSz);
      if v.Err? {
        return Err(v.error);
      }
      r := Ok(sz);
    }

    /** `deserialize_many` over `n` elements of `w` bytes, each through `deserialize<T>()`, front to back. */
    method DeserializeMany(w: nat, n: nat) returns (r: Result<seq<seq<byte>>>)
      requires Valid() && IsScalarWidth(w)
      modifies base
      ensures Yields(r, ReadMany(old(State()), w, n), State())
    {
      hide ReadMany, ReadScalar, Glue, AlignRead, Fits, Pad, Rem, AlignUp;
      ghost var s0 := State();
      GlueNothing(ReadMany(s0, w, n));
      var xs: seq<seq<byte>> := [];
      var i := 0;
      while i < n
        invariant i <= n && Valid()
        invariant ReadMany(s0, w, n) == Glue(xs, ReadMany(State(), w, n - i))
      {
        ghost var cur := State();
        var x := Deserialize(w);
        if x.Err? {
          ManyFails(xs, cur, w, n - i, x.error);
          return Err(x.error);
        }
        ManyStep(xs, cur, w, n - i, x.value, State());
        xs := xs + [x.value];
        i := i + 1;
      }
      ManyDone(xs, State(), w);
      r := Ok(xs);
    }

    /** `deserialize_list<T>()`: a count checked against the remaining bytes, then that many elements. */
    method DeserializeList(w: nat, e: Endian) returns (r: Result<seq<seq<byte>>>)
      requires Valid() && IsScalarWidth(w)
      modifies base
      ensures Yields(r, ReadList(old(State()), w, e), State())
    {
      var n := DeserializeLen(w, e);
      if n.Err? {
        return Err(n.error);
      }
      r := DeserializeMany(w, n.value);
    }

    /** `deserialize_list<bool>()`: each element read as `deserialize<bool>()`. */
    method DeserializeBools(e: Endian) returns (r: Result<seq<bool>>)
      requires Valid()
      modifies base
      ensures Yields(r, ReadBools(old(State()), e), State())
    {
      var xs := DeserializeList(1, e);
      if xs.Err? {
        return Err(xs.error);
      }
      r := Ok(Flags(xs.value));
    }

    /**
     * `deserialize<std::string>()` as written: after the count, the chars
     * before the first NUL at `pos` (`std::string(data + pos)`), read one
     * by one, then that NUL. With no NUL before `lim`, `std::string(data + pos)`
     * first scans past `lim`, out of the received buffer, until it meets a NUL;
     * only then does the one-by-one read throw at `lim`. The model keeps the
     * exception and not the overread.
     */
    method DeserializeStringAsWritten(e: Endian) returns (r: Result<seq<byte>>)
      requires Valid()
      modifies base
      ensures Yields(r, ReadTextAsWritten(old(State()), e), State())
    {
      hide ReadLen, ReadScalar, ReadMany, FirstNul, Chunks, Joined, UIntValue, AlignRead, Fits, Pad, Rem, UIntBytes, Zeros;
      ghost var s0 := State();
      var sz := DeserializeLen(1, e);
      if sz.Err? {
        return Err(sz.error);
      }
      if sz.value == 0 {
        return Ok([]);
      }
      var nul := FirstNul(base.data, base.pos, base.lim);
      if nul.None? {
        return Err(DeserializationError);
      }
      AsWrittenRead(s0, e, sz.value, State(), nul.value);
      var chars := DeserializeMany(1, nul.value - base.pos);
      var x := Joined(chars.value);
      var z := Deserialize(1);
      r := if z.value[0] != 0 then Err(DeserializationError) else Ok(x);
    }

    /**
     * `deserialize<std::string>()` as evidently intended: the count `sz`
     * covers the chars and the NUL; `validate_str(sz)` checks the NUL, the
     * string is the `sz - 1` chars before it and `pos` moves past all `sz`.
     */
    method DeserializeString(e: Endian) returns (r: Result<seq<byte>>)
      requires Valid()
      modifies base
      ensures Yields(r, ReadText(old(State()), e), State())
    {
      hide ReadLen, ReadScalar, ReadMany, FirstNul, UIntValue, AlignRead, Fits, Pad, Rem, UIntBytes, Zeros;
      var sz := DeserializeLen(1, e);
      if sz.Err? {
        return Err(sz.error);
      }
      if sz.value == 0 {
        return Ok([]);
      }
      var v := base.ValidateStr(sz.value);
      if v.Err? {
        return Err(v.error);
      }
      r := Ok(base.data[base.pos..base.pos + sz.value - 1]);
      base.pos := base.pos + sz.value;
    }

    /** `deserialize<std::wstring>()`: `deserialize_list<wchar_t>()`, the units without a terminator. */
    method DeserializeWString(e: Endian) returns (r: Result<seq<nat>>)
      requires Valid()
      modifies base
      ensures Yields(r, WideRead(old(State()), e), State())
    {
      var xs := DeserializeList(4, e);
      if xs.Err? {
        return Err(xs.error);
      }
      r := Ok(Units(xs.value, e));
    }
  }

  // ---------------------------------------------------------------------
  // Printer
  // ---------------------------------------------------------------------

  /** A run of `prtf` calls with these formatted lengths takes the text buffer from `(b0, z0)` to `(b, z)`. */
  predicate Shows(b0: nat, z0: nat, formatted: seq<int>, b: nat, z: nat)
  {
    PrtfAll(b0, z0, formatted).buf == b && PrtfAll(b0, z0, formatted).bufsize == z
  }

  /** Two runs of `prtf` one after the other are one run. */
  lemma {:induction false} ShowsThen(b0: nat, z0: nat, fs: seq<int>, b1: nat, z1: nat, gs: seq<int>, b2: nat, z2: nat)
    requires Shows(b0, z0, fs, b1, z1) && Shows(b1, z1, gs, b2, z2)
    ensures Shows(b0, z0, fs + gs, b2, z2)
    decreases |fs|
  {
    if |fs| == 0 {
      assert fs + gs == gs;
    } else {
      var p := Prtf(b0, z0, fs[0]);
      assert (fs + gs)[0] == fs[0] && (fs + gs)[1..] == fs[1..] + gs;
      ShowsThen(p.buf, p.bufsize, fs[1..], b1, z1, gs, b2, z2);
    }
  }

  /** No `prtf` call leaves the buffer as it is. */
  lemma ShowsNothing(b: nat, z: nat)
    ensures Shows(b, z, [], b, z)
  {
  }

  /** Whatever a run of `prtf` calls prints, the text stays within the buffer: `buf + bufsize` is unchanged. */
  lemma ShowsStaysInBuffer(b0: nat, z0: nat, formatted: seq<int>, b: nat, z: nat)
    requires Shows(b0, z0, formatted, b, z)
    ensures b + z == b0 + z0
    ensures z0 == 0 ==> b == b0 && z == 0
  {
    PrtfAllStaysInBuffer(b0, z0, formatted);
  }

  /**
   * What `vsnprintf` returns for `"\"%*.*s\""` with field width and
   * precision `len`: the field is exactly `len` chars (cut to, or padded
   * to, `len`) between two quotes; a result past `INT_MAX` is an error.
   */
  function QuotedLen(len: nat): (n: int)
    ensures len + 2 <= INT32_MAX ==> n == len + 2
    ensures len + 2 > INT32_MAX ==> n < 0
  {
    if len + 2 > INT32_MAX then -1 else len + 2
  }

  /** The formatted lengths `printA` prints between its braces: each element's text, with a 1-char `","` before all but the first. */
  function ElementTexts(xs: seq<seq<byte>>, text: seq<byte> -> int): (fs: seq<int>)
    ensures |xs| == 0 ==> fs == []
    ensures |xs| > 0 ==> |fs| == 2 * |xs| - 1
    ensures forall i :: 0 <= i < |xs| ==> fs[2 * i] == text(xs[i])
    ensures forall i :: 0 < i < |xs| ==> fs[2 * i - 1] == 1
    decreases |xs|
  {
    if |xs| == 0 then []
    else
      var front := xs[..|xs| - 1];
      ElementTexts(front, text) + (if |xs| == 1 then [] else [1]) + [text(xs[|xs| - 1])]
  }

  /** All of `printA`'s formatted lengths: `"{"`, the elements, `"}"`. */
  function ArrayTexts(xs: seq<seq<byte>>, text: seq<byte> -> int): seq<int>
  {
    [1] + ElementTexts(xs, text) + [1]
  }

  lemma ElementTextsSnoc(xs: seq<seq<byte>>, x: seq<byte>, text: seq<byte> -> int)
    ensures ElementTexts(xs + [x], text) == ElementTexts(xs, text) + (if |xs| == 0 then [] else [1]) + [text(x)]
  {
    assert (xs + [x])[..|xs|] == xs;
  }

  /**
   * The reading side of `print(std::vector<T>)`: `get_len(1)` (a count
   * checked as if the elements were 1 byte each), then that many `w`-byte
   * elements.
   */
  function ReadCounted(s: In, w: nat, e: Endian): (r: Result<(seq<seq<byte>>, In)>)
    requires s.Valid() && IsScalarWidth(w)
  {
    match ReadLen(s, 1, e)
    case Err(ex) => Err(ex)
    case Ok((n, t)) => ReadMany(t, w, n)
  }

  /**
   * The printer takes every list `deserialize_list<T>()` takes, with the
   * same elements and end; for 1-byte elements the two are the same.
   */
  lemma CountedAcceptsLists(s: In, w: nat, e: Endian)
    requires s.Valid() && IsScalarWidth(w)
    ensures ReadList(s, w, e).Ok? ==> ReadCounted(s, w, e) == ReadList(s, w, e)
    ensures w == 1 ==> ReadCounted(s, w, e) == ReadList(s, w, e)
  {
    hide ReadScalar, ReadMany;
  }

  /** The reading side of `print(std::wstring)`: `get_len(4)`, then the `4 * sz` bytes of the units. */
  function PrintWideRead(s: In, e: Endian): (r: Result<(seq<byte>, In)>)
    requires s.Valid()
    ensures r.Ok? ==> r.value.1.Valid() && |r.value.0| % 4 == 0
  {
    match ReadLen(s, 4, e)
    case Err(ex) => Err(ex)
    case Ok((n, t)) => Ok((t.data[t.pos..t.pos + n * 4], t.(pos := t.pos + n * 4)))
  }

  /** One turn of `printA`: the separator's run and the element's run extend the run so far. */
  lemma PrintAStep(b0: nat, z0: nat, pre: seq<int>, b1: nat, z1: nat, sep: seq<int>, b2: nat, z2: nat, t: int, b3: nat, z3: nat)
    requires Shows(b0, z0, pre, b1, z1) && Shows(b1, z1, sep, b2, z2) && Shows(b2, z2, [t], b3, z3)
    ensures Shows(b0, z0, pre + sep + [t], b3, z3)
  {
    ShowsThen(b0, z0, pre, b1, z1, sep, b2, z2);
    ShowsThen(b0, z0, pre + sep, b2, z2, [t], b3, z3);
  }

  /** `cycprint`: a reader whose values go as text into the buffer at `buf`, with `bufsize` chars of room. */
  class CycPrint {
    const base: CycDeserBase
    var buf: nat
    var bufsize: nat

    /**
     * `cycprint(buf, bufsize, data, size)`. Its body is in serdes.cpp,
     * which is not part of this model: the printer starts from the buffer
     * and the reader state it is given.
     */
    constructor(b: nat, z: nat, s: In)
      ensures buf == b && bufsize == z && base.State() == s && fresh(base)
    {
      buf, bufsize := b, z;
      base := new CycDeserBase(s);
    }

    /**
     * `prtf(&buf, &bufsize, fmt, ...)` for a text that formats to
     * `formatted` chars: moves `buf` on and `bufsize` down by what fits, and
     * says whether room is left.
     */
    method Prtf(formatted: int) returns (more: bool)
      modifies this
      ensures Printed(buf, bufsize, more) == SerdesLayout.Prtf(old(buf), old(bufsize), formatted)
      ensures Shows(old(buf), old(bufsize), [formatted], buf, bufsize)
    {
      if bufsize == 0 {
        return false;
      }
      if formatted < 0 {
        more := false;
      } else if formatted <= bufsize {
        buf := buf + formatted;
        bufsize := bufsize - formatted;
        more := bufsize > 0;
      } else {
        buf := buf + bufsize;
        bufsize := 0;
        more := false;
      }
    }

    /** `print_constant(x)`: `prtf` with `"%s"`, which formats to the `|x|` chars of `x`. */
    method PrintConstant(x: seq<char>)
      modifies this
      ensures Shows(old(buf), old(bufsize), [|x|], buf, bufsize)
    {
      var _ := Prtf(|x|);
    }

    /**
     * `print(T &)` for a `w`-byte value, and `print(bool &)`, `print(float &)`,
     * `print(double &)`: align, check one value fits, print the value as a
     * text of `text(bytes)` chars, advance.
     */
    method PrintScalar(w: nat, text: seq<byte> -> int) returns (r: Result<()>)
      requires base.Valid() && IsScalarWidth(w)
      modifies this, base
      ensures Follows(r, ReadScalar(old(base.State()), w), base.State())
      ensures r.Ok? ==> Shows(old(buf), old(bufsize), [text(ReadScalar(old(base.State()), w).value.0)], buf, bufsize)
    {
      hide ReadScalar, AlignRead, Fits, Pad, Rem, UIntValue, PrtfAll, SerdesLayout.Prtf;
      var a := base.Align(w);
      if a.Err? {
        return Err(a.error);
      }
      var v := base.ValidateSize(1, w);
      if v.Err? {
        return Err(v.error);
      }
      var x := base.data[base.pos..base.pos + w];
      var _ := Prtf(text(x));
      base.pos := base.pos + w;
      r := Ok(());
    }

    /** `get_len(el_sz)`: a 32-bit count, refused unless that many `el_sz`-byte elements fit. */
    method GetLen(elSz: nat, e: Endian) returns (r: Result<nat>)
      requires base.Valid() && IsScalarWidth(elSz)
      modifies base
      ensures Yields(r, ReadLen(old(base.State()), elSz, e), base.State())
    {
      hide ReadScalar, AlignRead, Fits, Pad, Rem, UIntValue;
      var a := base.Align(4);
      if a.Err? {
        return Err(a.error);
      }
      var v := base.ValidateSize(1, 4);
      if v.Err? {
        return Err(v.error);
      }
      var sz := UIntValue(base.data[base.pos..base.pos + 4], e);
      base.pos := base.pos + 4;
      var fits := base.ValidateSize(sz, elSz);
      if fits.Err? {
        return Err(fits.error);
      }
      r := Ok(sz);
    }

    /**
     * `print(std::string &)` and `print(char *&)`: the count `sz`,
     * `validate_str(sz)`, then the `sz - 1` chars (at most `INT32_MAX`)
     * between quotes; `pos` moves past all `sz` bytes.
     */
    method PrintString(e: Endian) returns (r: Result<()>)
      requires base.Valid()
      modifies this, base
      ensures Follows(r, PrintTextRead(old(base.State()), e), base.State())
      ensures r.Ok? ==> Shows(old(buf), old(bufsize), [QuotedLen(PrintLen(PrintTextRead(old(base.State()), e).value.0))], buf, bufsize)
    {
      hide ReadLen, ReadScalar, AlignRead, Fits, Pad, Rem, UIntValue, PrtfAll, SerdesLayout.Prtf, PrintLen, QuotedLen;
      var sz := GetLen(1, e);
      if sz.Err? {
        return Err(sz.error);
      }
      var v := base.ValidateStr(sz.value);
      if v.Err? {
        return Err(v.error);
      }
      var len := if sz.value == 0 then 0 else if sz.value > INT32_MAX then INT32_MAX else sz.value - 1;
      var _ := Prtf(QuotedLen(len));
      base.pos := base.pos + sz.value;
      r := Ok(());
    }

    /** `print(std::wstring &)`: the count, then the units printed as a text of `text(bytes)` chars; no terminator. */
    method PrintWString(e: Endian, text: seq<byte> -> int) returns (r: Result<()>)
      requires base.Valid()
      modifies this, base
      ensures Follows(r, PrintWideRead(old(base.State()), e), base.State())
      ensures r.Ok? ==> Shows(old(buf), old(bufsize), [text(PrintWideRead(old(base.State()), e).value.0)], buf, bufsize)
    {
      hide ReadLen, ReadScalar, AlignRead, Fits, Pad, Rem, UIntValue, PrtfAll, SerdesLayout.Prtf;
      var sz := GetLen(4, e);
      if sz.Err? {
        return Err(sz.error);
      }
      var units := base.data[base.pos..base.pos + sz.value * 4];
      var _ := Prtf(text(units));
      base.pos := base.pos + sz.value * 4;
      r := Ok(());
    }

    /**
     * `printA(x, cnt)`, and `print(std::array<T, S> &)` with `cnt == S`:
     * `"{"`, the `cnt` elements of `w` bytes separated by `","`, `"}"`.
     */
    method PrintA(w: nat, cnt: nat, text: seq<byte> -> int) returns (r: Result<()>)
      requires base.Valid() && IsScalarWidth(w)
      modifies this, base
      ensures Follows(r, ReadMany(old(base.State()), w, cnt), base.State())
      ensures r.Ok? ==> Shows(old(buf), old(bufsize), ArrayTexts(ReadMany(old(base.State()), w, cnt).value.0, text), buf, bufsize)
    {
      hide ReadMany, Glue, AlignUp, ElementTexts, Shows, ReadScalar, AlignRead, Fits, Pad, Rem, UIntValue, PrtfAll, SerdesLayout.Prtf;
      ghost var s0 := base.State();
      ghost var b0, z0 := buf, bufsize;
      GlueNothing(ReadMany(s0, w, cnt));
      var _ := Prtf(1);
      ghost var xs: seq<seq<byte>> := [];
      assert [1] + ElementTexts(xs, text) == [1];
      var i := 0;
      while i < cnt
        invariant i <= cnt && base.Valid() && |xs| == i
        invariant ReadMany(s0, w, cnt) == Glue(xs, ReadMany(base.State(), w, cnt - i))
        invariant Shows(b0, z0, [1] + ElementTexts(xs, text), buf, bufsize)
      {
        ghost var pre := [1] + ElementTexts(xs, text);
        ghost var b1, z1 := buf, bufsize;
        if i != 0 {
          var _ := Prtf(1);
        } else {
          ShowsNothing(buf, bufsize);
        }
        ghost var sep: seq<int> := if i != 0 then [1] else [];
        ghost var b2, z2 := buf, bufsize;
        ghost var cur := base.State();
        var p := PrintScalar(w, text);
        if p.Err? {
          ManyFails(xs, cur, w, cnt - i, p.error);
          return Err(p.error);
        }
        ghost var x := ReadScalar(cur, w).value.0;
        ManyStep(xs, cur, w, cnt - i, x, base.State());
        PrintAStep(b0, z0, pre, b1, z1, sep, b2, z2, text(x), buf, bufsize);
        ElementTextsSnoc(xs, x, text);
        assert pre + sep + [text(x)] == [1] + (ElementTexts(xs, text) + sep + [text(x)]);
        xs := xs + [x];
        i := i + 1;
      }
      ghost var b3, z3 := buf, bufsize;
      var _ := Prtf(1);
      ManyDone(xs, base.State(), w);
      ShowsThen(b0, z0, [1] + ElementTexts(xs, text), b3, z3, [1], buf, bufsize);
      r := Ok(());
    }

    /** `print(std::vector<T> &)`: `get_len(1)`, then `printA` over that many `w`-byte elements. */
    method PrintVector(w: nat, e: Endian, text: seq<byte> -> int) returns (r: Result<()>)
      requires base.Valid() && IsScalarWidth(w)
      modifies this, base
      ensures Follows(r, ReadCounted(old(base.State()), w, e), base.State())
      ensures r.Ok? ==> Shows(old(buf), old(bufsize), ArrayTexts(ReadCounted(old(base.State()), w, e).value.0, text), buf, bufsize)
    {
      hide ReadMany, ReadLen, ArrayTexts, ElementTexts, Shows, ReadScalar, AlignRead, Fits, Pad, Rem, UIntValue, PrtfAll, SerdesLayout.Prtf;
      var sz := GetLen(1, e);
      if sz.Err? {
        return Err(sz.error);
      }
      r := PrintA(w, sz.value, text);
    }
  }
}
