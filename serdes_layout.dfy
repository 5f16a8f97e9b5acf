/**
 * The byte layout of the older stream codec: the writer `cycser`, the
 * bounds-checked readers `cycdeser` / `cycprint` and the text-buffer
 * accounting of `cycprint`, as pure functions over writer and reader states.
 *
 * Unlike `CDRWriter`, the stream writer aligns every value to its full size
 * (an 8-byte value to 8) and keeps its offset relative to a body that starts
 * after 4 reserved bytes of the destination vector.
 */
module SerdesLayout {
  import opened Wire
  import Serialization

  /** The sizes `sizeof(T)` of the scalar types the stream codec moves. */
  predicate IsScalarWidth(w: nat)
  {
    w == 1 || w == 2 || w == 4 || w == 8
  }

  /** The remainder `off % w`, by repeated subtraction (`RemIsMod`). */
  function Rem(off: nat, w: nat): (r: nat)
    requires w > 0
    ensures r < w
    decreases off
  {
    if off < w then off else Rem(off - w, w)
  }

  /** Padding before a `w`-byte value at offset `off`: `w - off % w` when `off` is not a multiple of `w`. */
  function Pad(off: nat, w: nat): (p: nat)
    requires IsScalarWidth(w)
    ensures p < w
  {
    if w == 1 then 0 else if Rem(off, w) != 0 then w - Rem(off, w) else 0
  }

  /** `off` rounded up to the next multiple of `w`. */
  function AlignUp(off: nat, w: nat): (a: nat)
    requires IsScalarWidth(w)
    ensures off <= a < off + w
  {
    off + Pad(off, w)
  }

  lemma {:induction false} RemIsMod(off: nat, w: nat)
    requires IsScalarWidth(w)
    ensures Rem(off, w) == off % w
    decreases off
  {
    if off >= w {
      RemIsMod(off - w, w);
      if w == 1 {
      } else if w == 2 {
        assert (off - w) % w == (off - 2) % 2 && off % w == off % 2;
      } else if w == 4 {
        assert (off - w) % w == (off - 4) % 4 && off % w == off % 4;
      } else {
        assert (off - w) % w == (off - 8) % 8 && off % w == off % 8;
      }
    }
  }

  /** The rounded-up offset is a multiple of `w`; there is no padding exactly when `off` already is one. */
  lemma PadAligns(off: nat, w: nat)
    requires IsScalarWidth(w)
    ensures AlignUp(off, w) % w == 0
    ensures off % w == 0 <==> Pad(off, w) == 0
  {
    var a := AlignUp(off, w);
    RemIsMod(off, w);
    if w == 1 {
    } else if w == 2 {
      assert a % w == a % 2 && off % w == off % 2;
    } else if w == 4 {
      assert a % w == a % 4 && off % w == off % 4;
    } else {
      assert a % w == a % 8 && off % w == off % 8;
    }
  }

  /** The byte `serialize(bool)` stores: the bool cast to `unsigned char`. */
  function BoolByte(b: bool): byte
  {
    if b then 1 else 0
  }

  // ---------------------------------------------------------------------
  // Writer (`cycser`)
  // ---------------------------------------------------------------------

  /** A writer's state: the destination vector and the body offset `off`. */
  datatype Out = Out(dst: seq<byte>, off: nat)

  /** The writer's own invariant: the vector holds the 4 reserved bytes and exactly `off` body bytes. */
  predicate Framed(st: Out)
  {
    |st.dst| == st.off + 4
  }

  /**
   * Storing the bytes `x` of `w`-byte elements: round `off` up to a multiple
   * of `w`, resize the vector to `off + |x|` body bytes and copy `x` to body
   * offset `off`, which leaves the vector resized to the aligned offset with
   * `x` after it; `off` then moves past `x`.
   */
  function Place(st: Out, x: seq<byte>, w: nat): (r: Out)
    requires IsScalarWidth(w)
    ensures Framed(r)
  {
    var at := AlignUp(st.off, w);
    Out(Serialization.Resize(st.dst, 4 + at) + x, at + |x|)
  }

  /** `serialize_many`: `cnt` elements of `w` bytes; nothing at all, not even padding, when `cnt` is 0. */
  function PlaceMany(st: Out, x: seq<byte>, w: nat, cnt: nat): (r: Out)
    requires IsScalarWidth(w) && |x| == cnt * w
    ensures cnt == 0 ==> r == st
    ensures cnt > 0 ==> r == Place(st, x, w)
  {
    if cnt > 0 then Place(st, x, w) else st
  }

  /** `serialize(static_cast<uint32_t>(v))`: the cast keeps `v` modulo 2^32. */
  function PutU32(st: Out, v: nat, e: Endian): Out
  {
    Place(st, UIntBytes(v, 4, e), 4)
  }

  /** `serialize_list`: a 32-bit element count, then the elements. */
  function PutList(st: Out, x: seq<byte>, w: nat, cnt: nat, e: Endian): Out
    requires IsScalarWidth(w) && |x| == cnt * w
  {
    PlaceMany(PutU32(st, cnt, e), x, w, cnt)
  }

  /** `serialize(std::string)`: a list of `size() + 1` chars, the last being the terminating NUL. */
  function PutText(st: Out, chars: seq<byte>, e: Endian): Out
  {
    PutList(st, chars + [0], 1, |chars| + 1, e)
  }

  /** The bytes of a wide string's `wchar_t` units, 4 bytes each in native order. */
  function WideChars(units: seq<nat>, e: Endian): (bs: seq<byte>)
    ensures |bs| == |units| * 4
  {
    if |units| == 0 then [] else UIntBytes(units[0], 4, e) + WideChars(units[1..], e)
  }

  /** `serialize(std::wstring)`: a list of `size()` units of 4 bytes, no terminator. */
  function PutWide(st: Out, units: seq<nat>, e: Endian): Out
  {
    PutList(st, WideChars(units, e), 4, |units|, e)
  }

  /** The flags as the bytes `serialize(bool)` stores. */
  function FlagBytes(fs: seq<bool>): (bs: seq<byte>)
    ensures |bs| == |fs|
    ensures forall i :: 0 <= i < |fs| ==> bs[i] == BoolByte(fs[i])
  {
    if |fs| == 0 then [] else [BoolByte(fs[0])] + FlagBytes(fs[1..])
  }

  /**
   * The state after the per-element loop of `serialize(std::vector<bool>)`:
   * a 1-byte value never pads, so the flags end up one byte each right after
   * the body's first `off` bytes.
   */
  function PutFlags(st: Out, flags: seq<bool>): Out
  {
    if |flags| == 0 then st
    else Out(Serialization.Resize(st.dst, 4 + st.off) + FlagBytes(flags), st.off + |flags|)
  }

  /** One more turn of that loop is one more `serialize(bool)`. */
  lemma PutFlagsStep(st: Out, flags: seq<bool>, b: bool)
    ensures Place(PutFlags(st, flags), [BoolByte(b)], 1) == PutFlags(st, flags + [b])
  {
    var before := PutFlags(st, flags);
    assert Pad(before.off, 1) == 0;
    if |flags| > 0 {
      assert Serialization.Resize(before.dst, 4 + before.off) == before.dst;
    }
    assert FlagBytes(flags + [b]) == FlagBytes(flags) + [BoolByte(b)];
  }

  /** `serialize(std::vector<bool>)`: a 32-bit count, then one byte per flag. */
  function PutBools(st: Out, flags: seq<bool>, e: Endian): Out
  {
    PutFlags(PutU32(st, |flags|, e), flags)
  }

  /** On a framed writer, storing a value appends its padding (zero bytes) and its bytes. */
  lemma PlaceAppends(st: Out, x: seq<byte>, w: nat)
    requires Framed(st) && IsScalarWidth(w)
    ensures Place(st, x, w) == Out(st.dst + Zeros(Pad(st.off, w)) + x, st.off + Pad(st.off, w) + |x|)
  {
    assert Serialization.Resize(st.dst, 4 + AlignUp(st.off, w)) == st.dst + Zeros(Pad(st.off, w));
  }

  // ---------------------------------------------------------------------
  // Reader (`cycdeserbase` / `cycdeser`)
  // ---------------------------------------------------------------------

  /** A reader's state: the received bytes, the limit `lim` and the read position `pos`. */
  datatype In = In(data: seq<byte>, lim: nat, pos: nat)
  {
    /** The reader's invariant: the position is within the limit, and the limit within the bytes. */
    predicate Valid()
    {
      pos <= lim <= |data|
    }
  }

  /** `validate_size(count, sz)` passes iff `count <= room / sz`, where `room = lim - pos`. */
  function Fits(room: nat, count: nat, sz: nat): (ok: bool)
    requires IsScalarWidth(sz)
    ensures ok <==> count * sz <= room
  {
    if sz == 1 then count <= room
    else if sz == 2 then count <= room / 2
    else if sz == 4 then count <= room / 4
    else count <= room / 8
  }

  /** `align(a)`: round `pos` up to a multiple of `a`, failing if that passes `lim`; no check when already aligned. */
  function AlignRead(s: In, a: nat): (r: Result<In>)
    requires s.Valid() && IsScalarWidth(a)
    ensures r.Ok? ==> r.value == s.(pos := AlignUp(s.pos, a)) && r.value.Valid()
    ensures r.Err? <==> AlignUp(s.pos, a) > s.lim
    ensures r.Err? ==> r.error == DeserializationError
  {
    var p := Pad(s.pos, a);
    if p != 0 then
      if s.pos + p > s.lim then Err(DeserializationError) else Ok(s.(pos := s.pos + p))
    else
      Ok(s)
  }

  /**
   * `deserialize<T>()` for a `w`-byte integral `T`: align, check that one
   * value fits, take its bytes and advance past them. The value comes back
   * in the bytes' own order (see `maybe_bswap` in the README).
   */
  function ReadScalar(s: In, w: nat): (r: Result<(seq<byte>, In)>)
    requires s.Valid() && IsScalarWidth(w)
    ensures r.Ok? ==> |r.value.0| == w && r.value.1.Valid()
    ensures r.Ok? <==> AlignUp(s.pos, w) + w <= s.lim
    ensures r.Ok? ==> r.value.0 == s.data[AlignUp(s.pos, w)..AlignUp(s.pos, w) + w]
    ensures r.Ok? ==> r.value.1 == s.(pos := AlignUp(s.pos, w) + w)
    ensures r.Err? ==> r.error == DeserializationError
  {
    match AlignRead(s, w)
    case Err(ex) => Err(ex)
    case Ok(t) =>
      if !Fits(t.lim - t.pos, 1, w) then Err(DeserializationError)
      else Ok((t.data[t.pos..t.pos + w], t.(pos := t.pos + w)))
  }

  /** `deserialize<bool>()`: one byte, true iff it is not zero. */
  function ReadBool(s: In): (r: Result<(bool, In)>)
    requires s.Valid()
    ensures r.Ok? ==> r.value.1.Valid()
  {
    match ReadScalar(s, 1)
    case Err(ex) => Err(ex)
    case Ok((x, t)) => Ok((x[0] != 0, t))
  }

  /** `deserialize_len(el_sz)`: a 32-bit count, rejected unless that many `el_sz`-byte elements fit. */
  function ReadLen(s: In, elSz: nat, e: Endian): (r: Result<(nat, In)>)
    requires s.Valid() && IsScalarWidth(elSz)
    ensures r.Ok? ==> r.value.1.Valid() && r.value.1.pos + r.value.0 * elSz <= s.lim
    ensures r.Ok? ==> r.value.1.data == s.data && r.value.1.lim == s.lim
  {
    match ReadScalar(s, 4)
    case Err(ex) => Err(ex)
    case Ok((x, t)) =>
      var n := UIntValue(x, e);
      if !Fits(t.lim - t.pos, n, elSz) then Err(DeserializationError) else Ok((n, t))
  }

  /** `deserialize_many` over `n` elements of `w` bytes, each read with `deserialize<T>()`. */
  function ReadMany(s: In, w: nat, n: nat): (r: Result<(seq<seq<byte>>, In)>)
    requires s.Valid() && IsScalarWidth(w)
    ensures r.Ok? ==> |r.value.0| == n && r.value.1.Valid()
    ensures r.Ok? ==> forall i :: 0 <= i < n ==> |r.value.0[i]| == w
    ensures r.Ok? ==> r.value.1.data == s.data && r.value.1.lim == s.lim
    decreases n
  {
    if n == 0 then Ok(([], s))
    else
      match ReadScalar(s, w)
      case Err(ex) => Err(ex)
      case Ok((x, t)) =>
        match ReadMany(t, w, n - 1)
        case Err(ex) => Err(ex)
        case Ok((xs, u)) => Ok(([x] + xs, u))
  }

  /** `deserialize_list<T>()`: a count checked against the remaining bytes, then that many elements. */
  function ReadList(s: In, w: nat, e: Endian): (r: Result<(seq<seq<byte>>, In)>)
    requires s.Valid() && IsScalarWidth(w)
    ensures r.Ok? ==> r.value.1.Valid()
  {
    match ReadLen(s, w, e)
    case Err(ex) => Err(ex)
    case Ok((n, t)) => ReadMany(t, w, n)
  }

  /** Each element read as a bool, as `deserialize_many` over `std::vector<bool>` does. */
  function Flags(xs: seq<seq<byte>>): (bs: seq<bool>)
    requires forall i :: 0 <= i < |xs| ==> |xs[i]| == 1
    ensures |bs| == |xs|
    ensures forall i :: 0 <= i < |xs| ==> bs[i] == (xs[i][0] != 0)
  {
    if |xs| == 0 then [] else [xs[0][0] != 0] + Flags(xs[1..])
  }

  /** `deserialize_list<bool>()`. */
  function ReadBools(s: In, e: Endian): (r: Result<(seq<bool>, In)>)
    requires s.Valid()
    ensures r.Ok? ==> r.value.1.Valid()
  {
    match ReadList(s, 1, e)
    case Err(ex) => Err(ex)
    case Ok((xs, t)) => Ok((Flags(xs), t))
  }

  /** The bytes of `n` elements of `w` bytes from `d[p]` on, one element each. */
  function Chunks(d: seq<byte>, p: nat, w: nat, n: nat): (xs: seq<seq<byte>>)
    requires p + n * w <= |d|
    ensures |xs| == n && forall i :: 0 <= i < n ==> |xs[i]| == w
    decreases n
  {
    if n == 0 then []
    else
      assert p + w + (n - 1) * w == p + n * w;
      [d[p..p + w]] + Chunks(d, p + w, w, n - 1)
  }

  /** The elements one after another, as `std::string` or `std::wstring` holds them. */
  function Joined(xs: seq<seq<byte>>): seq<byte>
    decreases |xs|
  {
    if |xs| == 0 then [] else xs[0] + Joined(xs[1..])
  }

  /** The chunks of `d[p..p + n * w]` join back to those bytes. */
  lemma {:induction false} ChunksJoin(d: seq<byte>, p: nat, w: nat, n: nat)
    requires p + n * w <= |d|
    ensures Joined(Chunks(d, p, w, n)) == d[p..p + n * w]
    decreases n
  {
    hide Chunks;
    if n == 0 {
      NoChunks(d, p, w);
    } else {
      ChunksCons(d, p, w, n);
      ChunksJoin(d, p + w, w, n - 1);
      var xs := Chunks(d, p, w, n);
      var end := p + n * w;
      assert xs[0] == d[p..p + w] && xs[1..] == Chunks(d, p + w, w, n - 1);
      assert d[p..end] == d[p..p + w] + d[p + w..end];
    }
  }

  lemma NoChunks(d: seq<byte>, p: nat, w: nat)
    requires p <= |d|
    ensures Chunks(d, p, w, 0) == []
  {
  }

  /** A position that is a multiple of `w` stays one after an element. */
  lemma NextAligned(p: nat, w: nat)
    requires IsScalarWidth(w) && p % w == 0
    ensures (p + w) % w == 0
  {
  }

  /** From a position that is a multiple of `w`, `deserialize_many` takes `n` elements that fit one after another, with no padding. */
  lemma {:induction false} ManyReadBack(d: seq<byte>, lim: nat, p: nat, w: nat, n: nat)
    requires IsScalarWidth(w) && p % w == 0 && p + n * w <= lim <= |d|
    ensures ReadMany(In(d, lim, p), w, n) == Ok((Chunks(d, p, w, n), In(d, lim, p + n * w)))
    decreases n
  {
    hide ReadMany, ReadScalar, Chunks, AlignRead, Fits, Rem;
    if n == 0 {
      NoElements(d, lim, p, w);
    } else {
      assert p + w + (n - 1) * w == p + n * w;
      PadAligns(p, w);
      NextAligned(p, w);
      ManyReadBack(d, lim, p + w, w, n - 1);
      ChunksCons(d, p, w, n);
      ReadManyCons(In(d, lim, p), w, n, d[p..p + w], In(d, lim, p + w), Chunks(d, p + w, w, n - 1), In(d, lim, p + n * w));
    }
  }

  /** No element to read: `deserialize_many` takes nothing and stays put. */
  lemma NoElements(d: seq<byte>, lim: nat, p: nat, w: nat)
    requires IsScalarWidth(w) && p <= lim <= |d|
    ensures ReadMany(In(d, lim, p), w, 0) == Ok((Chunks(d, p, w, 0), In(d, lim, p)))
  {
  }

  lemma ChunksCons(d: seq<byte>, p: nat, w: nat, n: nat)
    requires n > 0 && p + n * w <= |d|
    ensures p + w + (n - 1) * w <= |d|
    ensures Chunks(d, p, w, n) == [d[p..p + w]] + Chunks(d, p + w, w, n - 1)
  {
    assert p + w + (n - 1) * w == p + n * w;
  }

  /** Elements of `w` bytes each join into `w` bytes per element. */
  lemma {:induction false} JoinedLength(xs: seq<seq<byte>>, w: nat)
    requires forall i :: 0 <= i < |xs| ==> |xs[i]| == w
    ensures |Joined(xs)| == |xs| * w
    decreases |xs|
  {
    if |xs| > 0 {
      JoinedLength(xs[1..], w);
    }
  }

  /** Bytes holding `w`-byte elements joined one after another split back into those elements. */
  lemma {:induction false} ChunksOfJoined(d: seq<byte>, p: nat, w: nat, xs: seq<seq<byte>>)
    requires forall i :: 0 <= i < |xs| ==> |xs[i]| == w
    requires p + |xs| * w <= |d| && d[p..p + |xs| * w] == Joined(xs)
    ensures Chunks(d, p, w, |xs|) == xs
    decreases |xs|
  {
    hide Chunks;
    var n := |xs|;
    if n == 0 {
      NoChunks(d, p, w);
    } else {
      JoinedLength(xs[1..], w);
      ChunksCons(d, p, w, n);
      SplitSlice(d, p, p + n * w, Joined(xs), xs[0], Joined(xs[1..]));
      assert p + w + (n - 1) * w == p + n * w;
      ChunksOfJoined(d, p + w, w, xs[1..]);
      assert [xs[0]] + xs[1..] == xs;
    }
  }

  /** `deserialize_many` over at least one element starts by aligning, so it reads the same from the aligned position. */
  lemma ReadManyAligns(s: In, w: nat, n: nat)
    requires s.Valid() && IsScalarWidth(w) && n > 0 && AlignUp(s.pos, w) <= s.lim
    ensures s.(pos := AlignUp(s.pos, w)).Valid()
    ensures ReadMany(s, w, n) == ReadMany(s.(pos := AlignUp(s.pos, w)), w, n)
  {
    hide ReadScalar, AlignRead, Fits;
    var a := AlignUp(s.pos, w);
    PadAligns(s.pos, w);
    PadAligns(a, w);
    assert AlignUp(a, w) == a;
    assert ReadScalar(s, w) == ReadScalar(s.(pos := a), w);
  }

  /** A framed writer appends a vector's padding and count, then (when it has elements) their padding and bytes. */
  lemma ListAppends(st: Out, w: nat, xs: seq<seq<byte>>, e: Endian)
    requires Framed(st) && Writable(List(w, xs))
    ensures Write(st, List(w, xs), e) == Out(st.dst + Enc(st.off, List(w, xs), e), st.off + |Enc(st.off, List(w, xs), e)|)
  {
    hide UIntBytes, Joined, Place, Serialization.Resize;
    JoinedLength(xs, w);
    var head := Zeros(Pad(st.off, 4)) + UIntBytes(|xs|, 4, e);
    var st1 := PutU32(st, |xs|, e);
    PlaceAppends(st, UIntBytes(|xs|, 4, e), 4);
    assert st1 == Out(st.dst + head, AlignUp(st.off, 4) + 4);
    var body := ListBody(st1.off, w, xs);
    assert Enc(st.off, List(w, xs), e) == head + body;
    if |xs| > 0 {
      PlaceAppends(st1, Joined(xs), w);
      assert st1.dst + Zeros(Pad(st1.off, w)) + Joined(xs) == st.dst + (head + body);
    } else {
      assert st.dst + head == st.dst + (head + body);
    }
  }

  /**
   * A vector stored in `d[off..end]` (padding and count up to `at`, then
   * its elements) reads back through `deserialize_list<T>()` as the same
   * elements, and the reader stops at `end`.
   */
  lemma ListReadBack(d: seq<byte>, lim: nat, off: nat, at: nat, end: nat, w: nat, xs: seq<seq<byte>>, e: Endian)
    requires Writable(List(w, xs)) && end <= lim <= |d|
    requires at == AlignUp(off, 4) + 4 && end == at + |ListBody(at, w, xs)|
    requires d[off..at] == Zeros(Pad(off, 4)) + UIntBytes(|xs|, 4, e) && d[at..end] == ListBody(at, w, xs)
    ensures ReadList(In(d, lim, off), w, e) == Ok((xs, In(d, lim, end)))
  {
    hide Pad, Zeros, UIntBytes, ReadLen, ReadMany, ReadScalar, Joined, Chunks;
    var n := |xs|;
    JoinedLength(xs, w);
    if n == 0 {
      LenReadBack(d, lim, off, at, n, w, e);
      NoElements(d, lim, at, w);
      NoChunks(d, at, w);
    } else {
      var p := AlignUp(at, w);
      assert end == p + n * w;
      LenReadBack(d, lim, off, at, n, w, e);
      SplitSlice(d, at, end, ListBody(at, w, xs), Zeros(Pad(at, w)), Joined(xs));
      PadAligns(at, w);
      ManyReadBack(d, lim, p, w, n);
      ChunksOfJoined(d, p, w, xs);
      ReadManyAligns(In(d, lim, at), w, n);
    }
  }

  /** The index of the first NUL byte in `data[from..lim)`, if there is one. */
  function FirstNul(data: seq<byte>, from: nat, lim: nat): (r: Option<nat>)
    requires from <= lim <= |data|
    ensures r.Some? ==> from <= r.value < lim && data[r.value] == 0
    ensures r.Some? ==> forall k :: from <= k < r.value ==> data[k] != 0
    ensures r.None? ==> forall k :: from <= k < lim ==> data[k] != 0
    decreases lim - from
  {
    if from == lim then None
    else if data[from] == 0 then Some(from)
    else FirstNul(data, from + 1, lim)
  }

  /**
   * `deserialize<std::string>()` as written: after the count, the string is
   * whatever precedes the first NUL at `pos`; its chars and that NUL are then
   * read one by one. The count itself is only compared with 0. With no NUL
   * in `[pos, lim)` the source's scan reads past the received bytes before
   * the element reads throw; the model gives only that exception.
   */
  function ReadTextAsWritten(s: In, e: Endian): (r: Result<(seq<byte>, In)>)
    requires s.Valid()
    ensures r.Ok? ==> r.value.1.Valid()
  {
    match ReadLen(s, 1, e)
    case Err(ex) => Err(ex)
    case Ok((sz, t)) =>
      if sz == 0 then Ok(([], t))
      else
        match FirstNul(t.data, t.pos, t.lim)
        case None => Err(DeserializationError)
        case Some(k) => Ok((t.data[t.pos..k], t.(pos := k + 1)))
  }

  /**
   * `deserialize<std::string>()` as evidently intended: the count `sz`
   * covers the chars and the terminator; `validate_str(sz)` checks the
   * terminator, and `pos` advances by exactly `sz`.
   */
  function ReadText(s: In, e: Endian): (r: Result<(seq<byte>, In)>)
    requires s.Valid()
    ensures r.Ok? ==> r.value.1.Valid() && r.value.1.data == s.data && r.value.1.lim == s.lim
  {
    match ReadLen(s, 1, e)
    case Err(ex) => Err(ex)
    case Ok((sz, t)) =>
      if sz == 0 then Ok(([], t))
      else if t.data[t.pos + sz - 1] != 0 then Err(DeserializationError)
      else Ok((t.data[t.pos..t.pos + sz - 1], t.(pos := t.pos + sz)))
  }

  // ---------------------------------------------------------------------
  // Writing then reading
  // ---------------------------------------------------------------------

  /** A value as the stream codec writes it. */
  datatype Item =
    | Scalar(bytes: seq<byte>)   // an integral value of `|bytes|` bytes, by its native bytes
    | Text(chars: seq<byte>)     // `std::string`
    | Bools(flags: seq<bool>)    // `std::vector<bool>`
    | List(width: nat, elems: seq<seq<byte>>)  // `std::vector<T>` of a `width`-byte integral `T`, by its elements' native bytes

  /** What a reader is told to extract next. */
  datatype Kind = ScalarKind(width: nat) | TextKind | BoolsKind | ListKind(width: nat)

  function KindOf(it: Item): Kind
  {
    match it
    case Scalar(bs) => ScalarKind(|bs|)
    case Text(_) => TextKind
    case Bools(_) => BoolsKind
    case List(w, _) => ListKind(w)
  }

  function KindsOf(items: seq<Item>): (ks: seq<Kind>)
    ensures |ks| == |items|
    decreases |items|
  {
    if |items| == 0 then [] else [KindOf(items[0])] + KindsOf(items[1..])
  }

  /** An item the writer can store and a reader can take back: a scalar of a supported size, counts within 32 bits. */
  predicate Writable(it: Item)
  {
    match it
    case Scalar(bs) => IsScalarWidth(|bs|)
    case Text(cs) => |cs| + 1 <= UINT32_MAX
    case Bools(fs) => |fs| <= UINT32_MAX
    case List(w, xs) => IsScalarWidth(w) && |xs| <= UINT32_MAX && forall i :: 0 <= i < |xs| ==> |xs[i]| == w
  }

  /** Every item is writable (stated item by item, front to back). */
  predicate AllWritable(items: seq<Item>)
    decreases |items|
  {
    |items| == 0 || (Writable(items[0]) && AllWritable(items[1..]))
  }

  predicate Readable(k: Kind)
  {
    (k.ScalarKind? || k.ListKind?) ==> IsScalarWidth(k.width)
  }

  predicate AllReadable(kinds: seq<Kind>)
    decreases |kinds|
  {
    |kinds| == 0 || (Readable(kinds[0]) && AllReadable(kinds[1..]))
  }

  /** `cycser << x` for one item. */
  function Write(st: Out, it: Item, e: Endian): Out
    requires Writable(it)
  {
    match it
    case Scalar(bs) => Place(st, bs, |bs|)
    case Text(cs) => PutText(st, cs, e)
    case Bools(fs) => PutBools(st, fs, e)
    case List(w, xs) => JoinedLength(xs, w); PutList(st, Joined(xs), w, |xs|, e)
  }

  /** `cycser << x1 << x2 << ...`. */
  function WriteAll(st: Out, items: seq<Item>, e: Endian): Out
    requires AllWritable(items)
    decreases |items|
  {
    if |items| == 0 then st else WriteAll(Write(st, items[0], e), items[1..], e)
  }

  /**
   * `cycdeser >> x` for one item of kind `k`, taken as the typed reader for
   * `x` (the operator's `deserialize(x)` matches no overload), with the
   * corrected string reader.
   */
  function ReadItem(s: In, k: Kind, e: Endian): (r: Result<(Item, In)>)
    requires s.Valid() && Readable(k)
    ensures r.Ok? ==> r.value.1.Valid()
  {
    match k
    case ScalarKind(w) =>
      (match ReadScalar(s, w) case Err(ex) => Err(ex) case Ok((x, t)) => Ok((Scalar(x), t)))
    case TextKind =>
      (match ReadText(s, e) case Err(ex) => Err(ex) case Ok((x, t)) => Ok((Text(x), t)))
    case BoolsKind =>
      (match ReadBools(s, e) case Err(ex) => Err(ex) case Ok((x, t)) => Ok((Bools(x), t)))
    case ListKind(w) =>
      (match ReadList(s, w, e) case Err(ex) => Err(ex) case Ok((x, t)) => Ok((List(w, x), t)))
  }

  /** `cycdeser >> x1 >> x2 >> ...`. */
  function ReadAll(s: In, kinds: seq<Kind>, e: Endian): (r: Result<(seq<Item>, In)>)
    requires s.Valid() && AllReadable(kinds)
    decreases |kinds|
  {
    if |kinds| == 0 then Ok(([], s))
    else
      match ReadItem(s, kinds[0], e)
      case Err(ex) => Err(ex)
      case Ok((x, t)) =>
        match ReadAll(t, kinds[1..], e)
        case Err(ex) => Err(ex)
        case Ok((xs, u)) => Ok(([x] + xs, u))
  }

  /** The bytes a framed writer at body offset `off` appends for an item. */
  function Enc(off: nat, it: Item, e: Endian): seq<byte>
    requires Writable(it)
  {
    match it
    case Scalar(bs) => Zeros(Pad(off, |bs|)) + bs
    case Text(cs) => Zeros(Pad(off, 4)) + UIntBytes(|cs| + 1, 4, e) + cs + [0]
    case Bools(fs) => Zeros(Pad(off, 4)) + UIntBytes(|fs|, 4, e) + FlagBytes(fs)
    case List(w, xs) => Zeros(Pad(off, 4)) + UIntBytes(|xs|, 4, e) + ListBody(AlignUp(off, 4) + 4, w, xs)
  }

  /** The elements after a vector's count: nothing for an empty vector, else padding to `w` and the elements. */
  function ListBody(at: nat, w: nat, xs: seq<seq<byte>>): seq<byte>
    requires IsScalarWidth(w)
  {
    if |xs| == 0 then [] else Zeros(Pad(at, w)) + Joined(xs)
  }

  function EncAll(off: nat, items: seq<Item>, e: Endian): seq<byte>
    requires AllWritable(items)
    decreases |items|
  {
    if |items| == 0 then []
    else
      var first := Enc(off, items[0], e);
      first + EncAll(off + |first|, items[1..], e)
  }

  /** On a framed writer the flag loop appends one byte per flag. */
  lemma PutFlagsAppends(st: Out, fs: seq<bool>)
    requires Framed(st)
    ensures PutFlags(st, fs).dst == st.dst + FlagBytes(fs)
    ensures PutFlags(st, fs).off == st.off + |fs|
  {
    assert Serialization.Resize(st.dst, 4 + st.off) == st.dst;
  }

  /** A string item's bytes: padding to 4, the count `|cs| + 1`, the chars, a NUL. */
  lemma TextEnc(off: nat, cs: seq<byte>, e: Endian)
    requires |cs| + 1 <= UINT32_MAX
    ensures Enc(off, Text(cs), e) == Zeros(Pad(off, 4)) + UIntBytes(|cs| + 1, 4, e) + (cs + [0])
    ensures |Enc(off, Text(cs), e)| == Pad(off, 4) + 4 + |cs| + 1
  {
    assert Zeros(Pad(off, 4)) + UIntBytes(|cs| + 1, 4, e) + cs + [0]
      == Zeros(Pad(off, 4)) + UIntBytes(|cs| + 1, 4, e) + (cs + [0]);
  }

  /** A framed writer appends a string's padding, count, chars and NUL. */
  lemma TextAppends(st: Out, cs: seq<byte>, e: Endian)
    requires Framed(st) && |cs| + 1 <= UINT32_MAX
    ensures PutText(st, cs, e) == Out(st.dst + Enc(st.off, Text(cs), e), st.off + |Enc(st.off, Text(cs), e)|)
  {
    hide UIntBytes, Enc, Place, Serialization.Resize;
    var head := Zeros(Pad(st.off, 4)) + UIntBytes(|cs| + 1, 4, e);
    var st1 := PutU32(st, |cs| + 1, e);
    PlaceAppends(st, UIntBytes(|cs| + 1, 4, e), 4);
    assert st1 == Out(st.dst + head, st.off + Pad(st.off, 4) + 4);
    PlaceAppends(st1, cs + [0], 1);
    TextEnc(st.off, cs, e);
    assert st1.dst + Zeros(Pad(st1.off, 1)) + (cs + [0]) == st.dst + (head + (cs + [0]));
  }

  /** A flag-vector item's bytes: padding to 4, the count, one byte per flag. */
  lemma BoolsEnc(off: nat, fs: seq<bool>, e: Endian)
    requires |fs| <= UINT32_MAX
    ensures Enc(off, Bools(fs), e) == Zeros(Pad(off, 4)) + UIntBytes(|fs|, 4, e) + FlagBytes(fs)
    ensures |Enc(off, Bools(fs), e)| == Pad(off, 4) + 4 + |fs|
  {
  }

  /** A framed writer appends a flag vector's padding, count and flag bytes. */
  lemma BoolsAppends(st: Out, fs: seq<bool>, e: Endian)
    requires Framed(st) && |fs| <= UINT32_MAX
    ensures PutBools(st, fs, e) == Out(st.dst + Enc(st.off, Bools(fs), e), st.off + |Enc(st.off, Bools(fs), e)|)
  {
    hide Pad, Zeros, UIntBytes, FlagBytes, Enc, PutFlags, Place, Serialization.Resize;
    var head := Zeros(Pad(st.off, 4)) + UIntBytes(|fs|, 4, e);
    var st1 := PutU32(st, |fs|, e);
    PlaceAppends(st, UIntBytes(|fs|, 4, e), 4);
    assert st1 == Out(st.dst + head, st.off + Pad(st.off, 4) + 4);
    PutFlagsAppends(st1, fs);
    BoolsEnc(st.off, fs, e);
    assert st1.dst + FlagBytes(fs) == st.dst + (head + FlagBytes(fs));
  }

  /** A framed writer appends exactly `Enc` for each item, and stays framed. */
  lemma WriteAppends(st: Out, it: Item, e: Endian)
    requires Framed(st) && Writable(it)
    ensures Write(st, it, e) == Out(st.dst + Enc(st.off, it, e), st.off + |Enc(st.off, it, e)|)
  {
    match it
    case Scalar(bs) => PlaceAppends(st, bs, |bs|);
    case Text(cs) => TextAppends(st, cs, e);
    case Bools(fs) => BoolsAppends(st, fs, e);
    case List(w, xs) => ListAppends(st, w, xs, e);
  }

  /** A nonempty list's bytes are its first item's, then the rest's from where those end. */
  lemma EncAllSplit(off: nat, mid: nat, items: seq<Item>, e: Endian)
    requires |items| > 0 && AllWritable(items)
    requires mid == off + |Enc(off, items[0], e)|
    ensures AllWritable(items[1..])
    ensures EncAll(off, items, e) == Enc(off, items[0], e) + EncAll(mid, items[1..], e)
  {
    hide Enc, Pad, Zeros, UIntBytes, FlagBytes;
  }

  lemma WriteAllStep(st: Out, items: seq<Item>, e: Endian) returns (st1: Out, first: seq<byte>)
    requires Framed(st) && |items| > 0 && AllWritable(items)
    ensures Framed(st1) && st1.dst == st.dst + first && st1.off == st.off + |first|
    ensures AllWritable(items[1..])
    ensures WriteAll(st, items, e) == WriteAll(st1, items[1..], e)
    ensures EncAll(st.off, items, e) == first + EncAll(st1.off, items[1..], e)
  {
    hide Enc, Write, Pad, Zeros, UIntBytes, FlagBytes, PutText, PutBools, Place;
    first := Enc(st.off, items[0], e);
    st1 := Write(st, items[0], e);
    WriteAppends(st, items[0], e);
  }

  lemma {:induction false} WriteAllAppends(st: Out, items: seq<Item>, e: Endian)
    requires Framed(st) && AllWritable(items)
    ensures WriteAll(st, items, e).dst == st.dst + EncAll(st.off, items, e)
    ensures WriteAll(st, items, e).off == st.off + |EncAll(st.off, items, e)|
    decreases |items|
  {
    if |items| == 0 {
      assert EncAll(st.off, items, e) == [];
      assert st.dst + [] == st.dst;
    } else {
      var st1, first := WriteAllStep(st, items, e);
      WriteAllAppends(st1, items[1..], e);
      WriteAllJoin(st, st1, first, WriteAll(st, items, e), EncAll(st.off, items, e), EncAll(st1.off, items[1..], e));
    }
  }

  lemma WriteAllJoin(st: Out, st1: Out, first: seq<byte>, out: Out, all: seq<byte>, tail: seq<byte>)
    requires st1.dst == st.dst + first && st1.off == st.off + |first|
    requires all == first + tail
    requires out.dst == st1.dst + tail && out.off == st1.off + |tail|
    ensures out.dst == st.dst + all && out.off == st.off + |all|
  {
    assert st.dst + first + tail == st.dst + (first + tail);
  }


  /** Bytes `off..end` holding `z == x + y` hold `x` up to `off + |x|` and `y` from there. */
  lemma SplitSlice(d: seq<byte>, off: nat, end: nat, z: seq<byte>, x: seq<byte>, y: seq<byte>)
    requires end == off + |z| <= |d| && d[off..end] == z && z == x + y
    ensures d[off..off + |x|] == x && d[off + |x|..end] == y
  {
    assert d[off..off + |x|] == (x + y)[..|x|];
    assert d[off + |x|..end] == (x + y)[|x|..];
  }

  /** A scalar stored in `d[off..end]` (after its padding) reads back as the same bytes. */
  lemma ScalarReadBack(d: seq<byte>, lim: nat, off: nat, end: nat, bs: seq<byte>)
    requires IsScalarWidth(|bs|) && end <= lim <= |d|
    requires end == off + Pad(off, |bs|) + |bs| && d[off..end] == Zeros(Pad(off, |bs|)) + bs
    ensures ReadScalar(In(d, lim, off), |bs|) == Ok((bs, In(d, lim, end)))
  {
    hide Zeros, UIntBytes;
    SplitSlice(d, off, end, Zeros(Pad(off, |bs|)) + bs, Zeros(Pad(off, |bs|)), bs);
  }

  /** `2^32`, the number of values of a 32-bit count. */
  lemma Pow256Four()
    ensures Pow256(4) == UINT32_MAX + 1
  {
  }

  /** A 32-bit count stored in `d[off..at]` reads back, provided that many elements fit. */
  lemma LenReadBack(d: seq<byte>, lim: nat, off: nat, at: nat, v: nat, elSz: nat, e: Endian)
    requires IsScalarWidth(elSz) && v <= UINT32_MAX && at + v * elSz <= lim <= |d|
    requires at == off + Pad(off, 4) + 4 && d[off..at] == Zeros(Pad(off, 4)) + UIntBytes(v, 4, e)
    ensures ReadLen(In(d, lim, off), elSz, e) == Ok((v, In(d, lim, at)))
  {
    hide Pad, Zeros, UIntBytes, UIntValue, ReadScalar, ReadLen;
    ScalarReadBack(d, lim, off, at, UIntBytes(v, 4, e));
    Pow256Four();
    UIntRoundTrip(v, 4, e);
    ReadLenAfter(In(d, lim, off), elSz, e, UIntBytes(v, 4, e), In(d, lim, at));
  }

  /** `deserialize_len` once its 4 bytes are read: the count is accepted when its elements fit. */
  lemma ReadLenAfter(s: In, elSz: nat, e: Endian, x: seq<byte>, t: In)
    requires s.Valid() && IsScalarWidth(elSz)
    requires ReadScalar(s, 4) == Ok((x, t))
    requires t.pos + UIntValue(x, e) * elSz <= t.lim
    ensures ReadLen(s, elSz, e) == Ok((UIntValue(x, e), t))
  {
  }

  /** A string stored in `d[off..end]` (padding and count up to `at`, then chars and NUL) reads back through the corrected reader. */
  lemma TextReadBack(d: seq<byte>, lim: nat, off: nat, at: nat, end: nat, cs: seq<byte>, e: Endian)
    requires |cs| + 1 <= UINT32_MAX && end <= lim <= |d|
    requires at == off + Pad(off, 4) + 4 && end == at + |cs| + 1
    requires d[off..at] == Zeros(Pad(off, 4)) + UIntBytes(|cs| + 1, 4, e) && d[at..end] == cs + [0]
    ensures ReadText(In(d, lim, off), e) == Ok((cs, In(d, lim, end)))
  {
    hide Pad, Zeros, UIntBytes, ReadLen, ReadText, ReadScalar;
    LenReadBack(d, lim, off, at, |cs| + 1, 1, e);
    var last := at + |cs|;
    SplitSlice(d, at, end, cs + [0], cs, [0]);
    assert d[last] == d[last..end][0];
    ReadTextAfter(d, lim, off, at, last, end, |cs| + 1, e);
  }

  /** `deserialize<std::string>()` once the count `sz` is read: a string whose last byte is NUL is accepted. */
  lemma ReadTextAfter(d: seq<byte>, lim: nat, off: nat, at: nat, last: nat, end: nat, sz: nat, e: Endian)
    requires off <= at && end <= lim <= |d| && end == at + sz && last + 1 == end && at <= last
    requires ReadLen(In(d, lim, off), 1, e) == Ok((sz, In(d, lim, at)))
    requires d[last] == 0
    ensures ReadText(In(d, lim, off), e) == Ok((d[at..last], In(d, lim, end)))
  {
    hide ReadLen, ReadScalar, Pad, Zeros, UIntBytes;
  }

  /** The elements `deserialize_many` reads for stored flags, one byte each; read as bools they are the flags. */
  function FlagChunks(fs: seq<bool>): (xs: seq<seq<byte>>)
    ensures |xs| == |fs| && forall i :: 0 <= i < |xs| ==> |xs[i]| == 1
    ensures Flags(xs) == fs
  {
    if |fs| == 0 then [] else [[BoolByte(fs[0])]] + FlagChunks(fs[1..])
  }

  /** `deserialize_many` once its first element and then the rest have been read. */
  lemma ReadManyCons(s: In, w: nat, n: nat, x: seq<byte>, t: In, xs: seq<seq<byte>>, u: In)
    requires s.Valid() && IsScalarWidth(w) && n > 0
    requires ReadScalar(s, w) == Ok((x, t)) && ReadMany(t, w, n - 1) == Ok((xs, u))
    ensures ReadMany(s, w, n) == Ok(([x] + xs, u))
  {
  }

  /** One flag byte per element, stored in `d[p..end]`, reads back one byte per element. */
  lemma {:induction false} FlagsReadBack(d: seq<byte>, lim: nat, p: nat, end: nat, fs: seq<bool>)
    requires end == p + |fs| && end <= lim <= |d|
    requires d[p..end] == FlagBytes(fs)
    ensures ReadMany(In(d, lim, p), 1, |fs|) == Ok((FlagChunks(fs), In(d, lim, end)))
    decreases |fs|
  {
    if |fs| == 0 {
      assert FlagChunks(fs) == [];
    } else {
      hide ReadMany, ReadScalar, AlignRead, Rem;
      var b := [BoolByte(fs[0])];
      assert FlagBytes(fs) == b + FlagBytes(fs[1..]);
      SplitSlice(d, p, end, FlagBytes(fs), b, FlagBytes(fs[1..]));
      assert Zeros(Pad(p, 1)) + b == b;
      ScalarReadBack(d, lim, p, p + 1, b);
      FlagsReadBack(d, lim, p + 1, end, fs[1..]);
      assert |fs[1..]| == |fs| - 1;
      ReadManyCons(In(d, lim, p), 1, |fs|, b, In(d, lim, p + 1), FlagChunks(fs[1..]), In(d, lim, end));
    }
  }

  /** A flag vector stored in `d[off..end]` (padding and count up to `at`, then flag bytes) reads back as the same flags. */
  lemma BoolsReadBack(d: seq<byte>, lim: nat, off: nat, at: nat, end: nat, fs: seq<bool>, e: Endian)
    requires |fs| <= UINT32_MAX && end <= lim <= |d|
    requires at == off + Pad(off, 4) + 4 && end == at + |fs|
    requires d[off..at] == Zeros(Pad(off, 4)) + UIntBytes(|fs|, 4, e) && d[at..end] == FlagBytes(fs)
    ensures ReadBools(In(d, lim, off), e) == Ok((fs, In(d, lim, end)))
  {
    hide Pad, Zeros, UIntBytes, ReadLen, ReadMany, ReadScalar, FlagBytes, FlagChunks, Flags;
    LenReadBack(d, lim, off, at, |fs|, 1, e);
    FlagsReadBack(d, lim, at, end, fs);
  }

  /** The bytes of a string item split into its padding and count, then its chars and NUL. */
  lemma TextSlices(d: seq<byte>, off: nat, end: nat, cs: seq<byte>, e: Endian) returns (at: nat)
    requires Writable(Text(cs))
    requires end == off + |Enc(off, Text(cs), e)| <= |d| && d[off..end] == Enc(off, Text(cs), e)
    ensures at == off + Pad(off, 4) + 4 && end == at + |cs| + 1
    ensures d[off..at] == Zeros(Pad(off, 4)) + UIntBytes(|cs| + 1, 4, e) && d[at..end] == cs + [0]
  {
    var head := Zeros(Pad(off, 4)) + UIntBytes(|cs| + 1, 4, e);
    at := off + |head|;
    assert Enc(off, Text(cs), e) == head + (cs + [0]);
    SplitSlice(d, off, end, Enc(off, Text(cs), e), head, cs + [0]);
  }

  /** The bytes of a flag-vector item split into its padding and count, then its flag bytes. */
  lemma BoolsSlices(d: seq<byte>, off: nat, end: nat, fs: seq<bool>, e: Endian) returns (at: nat)
    requires Writable(Bools(fs))
    requires end == off + |Enc(off, Bools(fs), e)| <= |d| && d[off..end] == Enc(off, Bools(fs), e)
    ensures at == off + Pad(off, 4) + 4 && end == at + |fs|
    ensures d[off..at] == Zeros(Pad(off, 4)) + UIntBytes(|fs|, 4, e) && d[at..end] == FlagBytes(fs)
  {
    var head := Zeros(Pad(off, 4)) + UIntBytes(|fs|, 4, e);
    at := off + |head|;
    assert Enc(off, Bools(fs), e) == head + FlagBytes(fs);
    SplitSlice(d, off, end, Enc(off, Bools(fs), e), head, FlagBytes(fs));
  }

  /** The bytes of a vector item split into its padding and count, then its elements (with their padding). */
  lemma ListSlices(d: seq<byte>, off: nat, end: nat, w: nat, xs: seq<seq<byte>>, e: Endian) returns (at: nat)
    requires Writable(List(w, xs))
    requires end == off + |Enc(off, List(w, xs), e)| <= |d| && d[off..end] == Enc(off, List(w, xs), e)
    ensures at == AlignUp(off, 4) + 4 && end == at + |ListBody(at, w, xs)|
    ensures d[off..at] == Zeros(Pad(off, 4)) + UIntBytes(|xs|, 4, e) && d[at..end] == ListBody(at, w, xs)
  {
    var head := Zeros(Pad(off, 4)) + UIntBytes(|xs|, 4, e);
    at := off + |head|;
    assert Enc(off, List(w, xs), e) == head + ListBody(at, w, xs);
    SplitSlice(d, off, end, Enc(off, List(w, xs), e), head, ListBody(at, w, xs));
  }

  /** `cycdeser >> x` reads an item of the requested kind exactly as the matching reader does. */
  lemma ReadItemOk(s: In, k: Kind, e: Endian, it: Item, t: In)
    requires s.Valid() && Readable(k) && KindOf(it) == k
    requires it.Scalar? ==> ReadScalar(s, k.width) == Ok((it.bytes, t))
    requires it.Text? ==> ReadText(s, e) == Ok((it.chars, t))
    requires it.Bools? ==> ReadBools(s, e) == Ok((it.flags, t))
    requires it.List? ==> ReadList(s, k.width, e) == Ok((it.elems, t))
    ensures ReadItem(s, k, e) == Ok((it, t))
  {
  }

  /** Any item stored in `d[off..end]` reads back as itself, and the reader stops at `end`. */
  lemma ItemReadBack(d: seq<byte>, lim: nat, off: nat, end: nat, it: Item, e: Endian)
    requires Writable(it) && end <= lim <= |d|
    requires end == off + |Enc(off, it, e)| && d[off..end] == Enc(off, it, e)
    ensures ReadItem(In(d, lim, off), KindOf(it), e) == Ok((it, In(d, lim, end)))
  {
    hide UIntBytes, FlagBytes, ReadScalar, ReadText, ReadBools, ReadItem;
    var t := In(d, lim, end);
    match it
    case Scalar(bs) =>
      ScalarReadBack(d, lim, off, end, bs);
      ReadItemOk(In(d, lim, off), KindOf(it), e, it, t);
    case Text(cs) =>
      var at := TextSlices(d, off, end, cs, e);
      TextReadBack(d, lim, off, at, end, cs, e);
      ReadItemOk(In(d, lim, off), KindOf(it), e, it, t);
    case Bools(fs) =>
      var at := BoolsSlices(d, off, end, fs, e);
      BoolsReadBack(d, lim, off, at, end, fs, e);
      ReadItemOk(In(d, lim, off), KindOf(it), e, it, t);
    case List(w, xs) =>
      var at := ListSlices(d, off, end, w, xs, e);
      ListReadBack(d, lim, off, at, end, w, xs, e);
      ReadItemOk(In(d, lim, off), KindOf(it), e, it, t);
  }

  /** Every kind a writable item has can be read. */
  lemma {:induction false} KindsReadable(items: seq<Item>)
    requires AllWritable(items)
    ensures AllReadable(KindsOf(items))
    decreases |items|
  {
    if |items| > 0 {
      KindsReadable(items[1..]);
      assert KindsOf(items)[1..] == KindsOf(items[1..]);
    }
  }

  /** Bytes `off..end` holding a nonempty item list hold its first item up to `mid` and the rest from there. */
  lemma EncAllHead(d: seq<byte>, off: nat, end: nat, items: seq<Item>, e: Endian) returns (mid: nat)
    requires |items| > 0 && AllWritable(items)
    requires end == off + |EncAll(off, items, e)| <= |d| && d[off..end] == EncAll(off, items, e)
    ensures AllWritable(items[1..])
    ensures mid == off + |Enc(off, items[0], e)| && d[off..mid] == Enc(off, items[0], e)
    ensures end == mid + |EncAll(mid, items[1..], e)| && d[mid..end] == EncAll(mid, items[1..], e)
  {
    hide EncAll, Enc, Pad, Zeros, UIntBytes, FlagBytes;
    mid := off + |Enc(off, items[0], e)|;
    EncAllSplit(off, mid, items, e);
    SplitSlice(d, off, end, EncAll(off, items, e), Enc(off, items[0], e), EncAll(mid, items[1..], e));
  }

  /** `cycdeser >> x1 >> x2 >> ...` once the first item and then the rest have been read. */
  lemma ReadAllStep(s: In, items: seq<Item>, e: Endian, t: In, u: In)
    requires s.Valid() && |items| > 0 && AllWritable(items)
    requires ReadItem(s, KindOf(items[0]), e) == Ok((items[0], t))
    requires AllReadable(KindsOf(items[1..]))
    requires ReadAll(t, KindsOf(items[1..]), e) == Ok((items[1..], u))
    ensures AllReadable(KindsOf(items))
    ensures ReadAll(s, KindsOf(items), e) == Ok((items, u))
  {
    KindsReadable(items);
    assert KindsOf(items)[1..] == KindsOf(items[1..]);
    assert [items[0]] + items[1..] == items;
  }

  /** Items stored one after another in `d[off..end]` read back, in order, as the same items. */
  lemma {:induction false} ReadAllBack(d: seq<byte>, lim: nat, off: nat, end: nat, items: seq<Item>, e: Endian)
    requires AllWritable(items) && end <= lim <= |d|
    requires end == off + |EncAll(off, items, e)| && d[off..end] == EncAll(off, items, e)
    ensures AllReadable(KindsOf(items))
    ensures ReadAll(In(d, lim, off), KindsOf(items), e) == Ok((items, In(d, lim, end)))
    decreases |items|
  {
    KindsReadable(items);
    if |items| > 0 {
      hide ReadAll, ReadItem, EncAll, Enc, Pad, Zeros, UIntBytes, FlagBytes;
      var mid := EncAllHead(d, off, end, items, e);
      ItemReadBack(d, lim, off, mid, items[0], e);
      ReadAllBack(d, lim, mid, end, items[1..], e);
      ReadAllStep(In(d, lim, off), items, e, In(d, lim, mid), In(d, lim, end));
    }
  }

  /**
   * The stream codec round trip: what `cycser` appends to a framed buffer
   * reads back through `cycdeser` over the body, kind by kind, as the same
   * items, and the reader stops exactly at the writer's final offset.
   */
  lemma RoundTrip(st: Out, items: seq<Item>, e: Endian)
    requires Framed(st) && AllWritable(items)
    ensures AllReadable(KindsOf(items))
    ensures var out := WriteAll(st, items, e);
      |out.dst| == out.off + 4 && st.off <= out.off &&
      ReadAll(In(out.dst[4..], out.off, st.off), KindsOf(items), e) == Ok((items, In(out.dst[4..], out.off, out.off)))
  {
    hide WriteAll, ReadAll, ReadItem, EncAll, Enc, Pad, Zeros, UIntBytes, FlagBytes;
    var out := WriteAll(st, items, e);
    var enc := EncAll(st.off, items, e);
    WriteAllAppends(st, items, e);
    BodySlice(out.dst, st.dst, enc, st.off, out.off);
    ReadAllBack(out.dst[4..], out.off, st.off, out.off, items, e);
  }

  /** What a framed writer appended is the body's bytes from its old offset to its new one. */
  lemma BodySlice(dst: seq<byte>, pre: seq<byte>, x: seq<byte>, from: nat, to: nat)
    requires dst == pre + x && |pre| == from + 4 && to == from + |x|
    ensures dst[4..][from..to] == x
  {
    assert dst[4..][from..to] == dst[from + 4..to + 4];
  }

  /** The scan for a NUL stops at the first one. */
  lemma {:induction false} FirstNulAt(data: seq<byte>, from: nat, k: nat, lim: nat)
    requires from <= k < lim <= |data| && data[k] == 0
    requires forall j :: from <= j < k ==> data[j] != 0
    ensures FirstNul(data, from, lim) == Some(k)
    decreases k - from
  {
    if from < k {
      FirstNulAt(data, from + 1, k, lim);
    }
  }

  /**
   * The string reader as written, on a stored string whose first NUL is at
   * index `k` of `cs + [0]`: it returns the chars before that NUL and stops
   * just past it. When `cs` holds no NUL (`k == |cs|`) that is the string
   * and the writer's end; otherwise the rest of the string is left unread
   * and the next extraction starts inside it.
   */
  lemma TextAsWritten(d: seq<byte>, lim: nat, off: nat, at: nat, end: nat, cs: seq<byte>, k: nat, e: Endian)
    requires |cs| + 1 <= UINT32_MAX && end <= lim <= |d|
    requires at == off + Pad(off, 4) + 4 && end == at + |cs| + 1
    requires d[off..at] == Zeros(Pad(off, 4)) + UIntBytes(|cs| + 1, 4, e) && d[at..end] == cs + [0]
    requires k <= |cs| && (cs + [0])[k] == 0 && forall j :: 0 <= j < k ==> cs[j] != 0
    ensures ReadTextAsWritten(In(d, lim, off), e) == Ok((cs[..k], In(d, lim, at + k + 1)))
    ensures k < |cs| ==> at + k + 1 < end
  {
    hide Pad, Zeros, UIntBytes, ReadLen, ReadScalar, ReadTextAsWritten, FirstNul;
    LenReadBack(d, lim, off, at, |cs| + 1, 1, e);
    StoredNul(d, lim, at, end, cs, k);
    AsWrittenAfter(d, lim, off, at, e, |cs| + 1, at + k);
  }

  /** In a stored string's chars and NUL, the scan finds the first NUL, and the bytes before it are the chars before it. */
  lemma StoredNul(d: seq<byte>, lim: nat, at: nat, end: nat, cs: seq<byte>, k: nat)
    requires end == at + |cs| + 1 && end <= lim <= |d| && d[at..end] == cs + [0]
    requires k <= |cs| && (cs + [0])[k] == 0 && forall j :: 0 <= j < k ==> cs[j] != 0
    ensures FirstNul(d, at, lim) == Some(at + k)
    ensures d[at..at + k] == cs[..k]
  {
    hide FirstNul, ReadLen, ReadScalar, Pad, Zeros, UIntBytes;
    forall j | at <= j <= at + k
      ensures d[j] == (cs + [0])[j - at]
    {
      assert d[at..end][j - at] == d[j];
    }
    FirstNulAt(d, at, at + k, lim);
    assert d[at..at + k] == d[at..end][..k];
  }

  /** `deserialize<std::string>()` as written, once a nonzero count is read and a NUL found at `k`. */
  lemma AsWrittenAfter(d: seq<byte>, lim: nat, off: nat, at: nat, e: Endian, sz: nat, k: nat)
    requires off <= at <= lim <= |d| && sz > 0
    requires ReadLen(In(d, lim, off), 1, e) == Ok((sz, In(d, lim, at)))
    requires FirstNul(d, at, lim) == Some(k)
    ensures ReadTextAsWritten(In(d, lim, off), e) == Ok((d[at..k], In(d, lim, k + 1)))
  {
  }

  /**
   * A string written by a framed writer, read back from the body: the reader
   * as written returns the chars before the first NUL (index `k` of
   * `cs + [0]`) and stops just past it, `|cs| - k` bytes before the writer's
   * end; the corrected reader returns all of `cs` and stops at that end.
   */
  lemma WrittenTextRead(st: Out, cs: seq<byte>, k: nat, e: Endian)
    requires Framed(st) && |cs| + 1 <= UINT32_MAX
    requires k <= |cs| && (cs + [0])[k] == 0 && forall j :: 0 <= j < k ==> cs[j] != 0
    ensures var out := PutText(st, cs, e);
      |out.dst| == out.off + 4 && st.off + |cs| + 1 <= out.off &&
      ReadTextAsWritten(In(out.dst[4..], out.off, st.off), e) == Ok((cs[..k], In(out.dst[4..], out.off, out.off - |cs| + k))) &&
      ReadText(In(out.dst[4..], out.off, st.off), e) == Ok((cs, In(out.dst[4..], out.off, out.off)))
  {
    hide Enc, Pad, Zeros, UIntBytes, ReadLen, ReadScalar, ReadText, ReadTextAsWritten, FirstNul, PutText;
    var out := PutText(st, cs, e);
    TextAppends(st, cs, e);
    BodySlice(out.dst, st.dst, Enc(st.off, Text(cs), e), st.off, out.off);
    var d := out.dst[4..];
    var at := TextSlices(d, st.off, out.off, cs, e);
    TextAsWritten(d, out.off, st.off, at, out.off, cs, k, e);
    TextReadBack(d, out.off, st.off, at, out.off, cs, e);
  }

  /**
   * A concrete case: the string "a\0b" (`61 00 62`) written by any framed
   * writer reads back as written as just "a", and the reader stops two bytes
   * short of the writer's end, where the `62` is; the corrected reader yields
   * all three chars.
   */
  lemma EmbeddedNulExample(st: Out, e: Endian)
    requires Framed(st)
    ensures var out := PutText(st, [0x61, 0, 0x62], e);
      |out.dst| == out.off + 4 && st.off + 4 <= out.off &&
      ReadTextAsWritten(In(out.dst[4..], out.off, st.off), e) == Ok(([0x61], In(out.dst[4..], out.off, out.off - 2))) &&
      ReadText(In(out.dst[4..], out.off, st.off), e) == Ok(([0x61, 0, 0x62], In(out.dst[4..], out.off, out.off)))
  {
    hide Pad, Zeros, UIntBytes, ReadLen, ReadScalar, ReadText, ReadTextAsWritten, FirstNul, PutText;
    var cs: seq<byte> := [0x61, 0, 0x62];
    WrittenTextRead(st, cs, 1, e);
    assert cs[..1] == [0x61];
  }

  /** The corrected string reader does what `print(std::string)` already does: same checks, same final position. */
  lemma PrintTextAgrees(s: In, e: Endian)
    requires s.Valid()
    ensures ReadText(s, e).Ok? <==> PrintTextRead(s, e).Ok?
    ensures ReadText(s, e).Ok? ==> ReadText(s, e).value.1 == PrintTextRead(s, e).value.1
    ensures ReadText(s, e).Ok? && PrintTextRead(s, e).value.0 <= INT32_MAX + 1 ==>
      |ReadText(s, e).value.0| == PrintLen(PrintTextRead(s, e).value.0)
  {
    hide ReadLen, ReadScalar, Pad, Zeros, UIntBytes;
  }

  // ---------------------------------------------------------------------
  // Printer (`cycprint`)
  // ---------------------------------------------------------------------

  /** `prtf`'s result: the new buffer position and room, and whether room is left. */
  datatype Printed = Printed(buf: nat, bufsize: nat, more: bool)

  /**
   * `prtf(&buf, &bufsize, fmt, ...)` when the formatted text is `formatted`
   * chars long (what `vsnprintf` returns; negative on an encoding error).
   */
  function Prtf(buf: nat, bufsize: nat, formatted: int): (r: Printed)
    ensures r.buf + r.bufsize == buf + bufsize
    ensures r.bufsize <= bufsize
    ensures bufsize == 0 ==> r == Printed(buf, 0, false)
    ensures formatted < 0 ==> r == Printed(buf, bufsize, false)
    ensures 0 <= formatted <= bufsize && bufsize > 0 ==> r.buf == buf + formatted
    ensures formatted > bufsize ==> r.bufsize == 0 && !r.more
    ensures r.more <==> bufsize > 0 && 0 <= formatted < bufsize
  {
    if bufsize == 0 then Printed(buf, bufsize, false)
    else if formatted < 0 then Printed(buf, bufsize, false)
    else if formatted <= bufsize then Printed(buf + formatted, bufsize - formatted, bufsize - formatted > 0)
    else Printed(buf + bufsize, 0, false)
  }

  /** A run of `prtf` calls, one per formatted length. */
  function PrtfAll(buf: nat, bufsize: nat, formatted: seq<int>): Printed
    decreases |formatted|
  {
    if |formatted| == 0 then Printed(buf, bufsize, bufsize > 0)
    else
      var p := Prtf(buf, bufsize, formatted[0]);
      PrtfAll(p.buf, p.bufsize, formatted[1..])
  }

  /** However many `prtf` calls run, the text never passes the end of the buffer, and a full buffer stays full. */
  lemma {:induction false} PrtfAllStaysInBuffer(buf: nat, bufsize: nat, formatted: seq<int>)
    ensures PrtfAll(buf, bufsize, formatted).buf + PrtfAll(buf, bufsize, formatted).bufsize == buf + bufsize
    ensures bufsize == 0 ==> PrtfAll(buf, bufsize, formatted) == Printed(buf, 0, false)
    decreases |formatted|
  {
    if |formatted| > 0 {
      var p := Prtf(buf, bufsize, formatted[0]);
      PrtfAllStaysInBuffer(p.buf, p.bufsize, formatted[1..]);
    }
  }

  /** The field width and precision `print(std::string)` passes for a count `sz`: `sz - 1` chars, capped at `INT32_MAX`. */
  function PrintLen(sz: nat): (len: nat)
    ensures len <= INT32_MAX
    ensures sz == 0 ==> len == 0
    ensures 0 < sz <= INT32_MAX + 1 ==> len == sz - 1
    ensures sz > INT32_MAX + 1 ==> len == INT32_MAX
  {
    if sz == 0 then 0 else if sz > INT32_MAX then INT32_MAX else sz - 1
  }

  /**
   * The reading side of `print(std::string)`: `get_len(1)`, then
   * `validate_str(sz)`; on success `pos` moves past the `sz` bytes and the
   * result is `sz`.
   */
  function PrintTextRead(s: In, e: Endian): (r: Result<(nat, In)>)
    requires s.Valid()
    ensures r.Ok? ==> r.value.1.Valid()
    ensures r.Ok? ==> r.value.1.data == s.data && r.value.1.pos >= r.value.0
    ensures r.Ok? && r.value.0 > 0 ==> s.data[r.value.1.pos - 1] == 0
  {
    match ReadLen(s, 1, e)
    case Err(ex) => Err(ex)
    case Ok((sz, t)) =>
      if sz > 0 && t.data[t.pos + sz - 1] != 0 then Err(DeserializationError)
      else Ok((sz, t.(pos := t.pos + sz)))
  }
}
