/**
 * Bytes, byte order and the exceptions the codec can raise.
 *
 * The codec writes every multi-byte value in the producer's native byte
 * order (the platform's DDSRT_ENDIAN, a parameter here), so the fixed-width
 * unsigned encodings below are given for both orders.
 */
module Wire {

  /** An octet: `uint8_t` / `unsigned char`. */
  newtype byte = x: int | 0 <= x < 256

  /** Largest value of a 32-bit unsigned count. */
  const UINT32_MAX: nat := 0xFFFF_FFFF

  /** Largest value of a 64-bit `size_t`. */
  const SIZE_MAX: nat := 0xFFFF_FFFF_FFFF_FFFF

  /** Largest value of a 32-bit signed `int`. */
  const INT32_MAX: nat := 0x7FFF_FFFF

  /** A UTF-16 code unit: `char16_t`. */
  type char16 = x: int | 0 <= x < 0x1_0000

  datatype Endian = BigEndian | LittleEndian

  /** Exceptions thrown by the codec and its type-support layer. */
  datatype Exception =
    | LengthError        // std::length_error: a byte sink is full
    | LogicError         // std::logic_error: a descriptor kind that has no concrete type
    | InvalidArgument    // std::invalid_argument: not a primitive value
    | RuntimeError       // std::runtime_error: type support not recognised, resize failed
    | OutOfRange         // std::out_of_range: index past the end
    | DeserializationError  // DeserializationException: malformed or truncated input

  datatype Result<+T> = Ok(value: T) | Err(error: Exception)

  datatype Option<+T> = None | Some(value: T)

  /** `n` zero bytes, as written by padding. */
  function Zeros(n: nat): (z: seq<byte>)
    ensures |z| == n
    ensures forall i :: 0 <= i < n ==> z[i] == 0
  {
    seq(n, _ => 0)
  }

  lemma ZerosAdd(m: nat, n: nat)
    ensures Zeros(m) + Zeros(n) == Zeros(m + n)
  {
  }

  /** 256 to the power `width`: the number of values that fit in `width` bytes. */
  function Pow256(width: nat): (p: nat)
    ensures p > 0
  {
    if width == 0 then 1 else 256 * Pow256(width - 1)
  }

  /** The `width` low-order bytes of `v`, least significant first. */
  function LittleEndianBytes(v: nat, width: nat): (bs: seq<byte>)
    ensures |bs| == width
  {
    if width == 0 then [] else [(v % 256) as byte] + LittleEndianBytes(v / 256, width - 1)
  }

  function LittleEndianValue(bs: seq<byte>): nat
  {
    if |bs| == 0 then 0 else bs[0] as nat + 256 * LittleEndianValue(bs[1..])
  }

  /** The bytes of a sequence in the opposite order. */
  function Reversed(bs: seq<byte>): (r: seq<byte>)
    ensures |r| == |bs|
  {
    if |bs| == 0 then [] else Reversed(bs[1..]) + [bs[0]]
  }

  lemma {:induction false} ReversedAt(bs: seq<byte>, k: nat)
    requires k < |bs|
    ensures Reversed(bs)[k] == bs[|bs| - 1 - k]
  {
    if k < |bs| - 1 {
      ReversedAt(bs[1..], k);
    }
  }

  /** Reversing twice gives back the original bytes. */
  lemma ReversedInvolution(bs: seq<byte>)
    ensures Reversed(Reversed(bs)) == bs
  {
    var r := Reversed(bs);
    forall k | 0 <= k < |bs|
      ensures Reversed(r)[k] == bs[k]
    {
      ReversedAt(r, k);
      ReversedAt(bs, |bs| - 1 - k);
    }
  }

  /**
   * The native-order bytes of an unsigned value of `width` bytes; like a C
   * cast to the narrower type, `v` is truncated modulo 256^width.
   */
  function UIntBytes(v: nat, width: nat, e: Endian): (bs: seq<byte>)
    ensures |bs| == width
  {
    match e
    case LittleEndian => LittleEndianBytes(v, width)
    case BigEndian => Reversed(LittleEndianBytes(v, width))
  }

  /** The unsigned value read back from native-order bytes. */
  function UIntValue(bs: seq<byte>, e: Endian): nat
  {
    match e
    case LittleEndian => LittleEndianValue(bs)
    case BigEndian => LittleEndianValue(Reversed(bs))
  }

  lemma {:induction false} LittleEndianRoundTrip(v: nat, width: nat)
    ensures LittleEndianValue(LittleEndianBytes(v, width)) == v % Pow256(width)
  {
    if width > 0 {
      LittleEndianRoundTrip(v / 256, width - 1);
      var p := Pow256(width - 1);
      assert LittleEndianBytes(v, width)[1..] == LittleEndianBytes(v / 256, width - 1);
      calc {
        LittleEndianValue(LittleEndianBytes(v, width));
        v % 256 + 256 * ((v / 256) % p);
        { DivModNested(v, p); }
        v % (256 * p);
      }
    }
  }

  lemma DivModNested(v: nat, p: nat)
    requires p > 0
    ensures v % 256 + 256 * ((v / 256) % p) == v % (256 * p)
  {
    var q := v / 256;
    var r := v % 256;
    var q2 := q / p;
    var r2 := q % p;
    assert v == 256 * p * q2 + (256 * r2 + r) by {
      assert q == p * q2 + r2;
      assert v == 256 * q + r;
    }
    assert 0 <= 256 * r2 + r < 256 * p by {
      assert r2 <= p - 1;
      assert 256 * r2 <= 256 * (p - 1);
    }
    ModUnique(v, 256 * p, q2, 256 * r2 + r);
  }

  lemma ModUnique(v: nat, d: nat, q: nat, r: nat)
    requires d > 0 && r < d && v == d * q + r
    ensures v % d == r
  {
    var q0 := v / d;
    var r0 := v % d;
    assert d * q0 + r0 == d * q + r;
    if q0 < q {
      MulAtLeast(d, q - q0);
    } else if q < q0 {
      MulAtLeast(d, q0 - q);
    }
  }

  lemma MulAtLeast(d: nat, k: nat)
    requires k >= 1
    ensures d * k >= d
  {
  }

  /** A value that fits in `width` bytes reads back unchanged in either byte order. */
  lemma UIntRoundTrip(v: nat, width: nat, e: Endian)
    requires v < Pow256(width)
    ensures UIntValue(UIntBytes(v, width, e), e) == v
  {
    var bs := LittleEndianBytes(v, width);
    LittleEndianRoundTrip(v, width);
    ModUnique(v, Pow256(width), 0, v);
    assert LittleEndianValue(bs) == v;
    match e
    case LittleEndian =>
    case BigEndian =>
      ReversedInvolution(bs);
  }
}
