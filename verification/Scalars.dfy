/**
  Integers in memory against integers on the wire: casts to the width of a struct
  member, zigzag numbers and fixed-width little-endian numbers.
 */
module Scalars {
  import opened Prelude
  import opened Bits

  /** The widths a varint struct member may have, in bytes. */
  predicate IntSize(size: nat) {
    size == 1 || size == 2 || size == 4 || size == 8
  }

  /** 2^(8 * size - 1). */
  function Half(size: nat): (h: int)
    requires IntSize(size)
    ensures h >= 0x80
  {
    if size == 1 then 0x80 else if size == 2 then 0x8000 else if size == 4 then TWO31 else TWO63
  }

  predicate FitsSigned(n: int, size: nat)
    requires IntSize(size)
  {
    -Half(size) <= n < Half(size)
  }

  predicate FitsUnsigned(n: int, size: nat)
    requires IntSize(size)
  {
    0 <= n < 2 * Half(size)
  }

  /** The C cast to an unsigned type. */
  function CastUnsigned(n: int, size: nat): (r: int)
    requires IntSize(size)
    ensures FitsUnsigned(r, size)
  {
    if 0 <= n < 2 * Half(size) then n
    else if -2 * Half(size) <= n < 0 then n + 2 * Half(size)
    else if size == 1 then n % 0x100
    else if size == 2 then n % 0x1_0000
    else if size == 4 then n % TWO32
    else n % TWO64
  }

  /** The C cast to a signed type. */
  function CastSigned(n: int, size: nat): (r: int)
    requires IntSize(size)
    ensures FitsSigned(r, size)
  {
    var low := CastUnsigned(n, size);
    if low < Half(size) then low else low - 2 * Half(size)
  }

  // -------- what the field decoders store (None is 'integer too large' or 'invalid data_size')

  /** pb_dec_varint: members of at most 32 bits see only the low 32 bits of the number. */
  function StoreSigned(v: nat, size: nat): Option<int> {
    if !IntSize(size) then None
    else
      var svalue := if size == 8 then CastSigned(v, 8) else CastSigned(v, 4);
      var clamped := CastSigned(svalue, size);
      if clamped == svalue then Some(clamped) else None
  }

  /** pb_dec_uvarint. */
  function StoreUnsigned(v: nat, size: nat): Option<int> {
    if !IntSize(size) then None
    else
      var clamped := CastUnsigned(v, size);
      if clamped == v then Some(clamped) else None
  }

  /** pb_decode_svarint: odd numbers are the complements of the negative ones. */
  function UnZigZag(v: nat): int
    requires v < TWO64
  {
    if v % 2 == 1 then CastSigned(TWO64 - 1 - v / 2, 8) else CastSigned(v / 2, 8)
  }

  /** pb_dec_svarint. */
  function StoreZigZag(v: nat, size: nat): Option<int>
    requires v < TWO64
  {
    if !IntSize(size) then None
    else
      var value := UnZigZag(v);
      var clamped := CastSigned(value, size);
      if clamped == value then Some(clamped) else None
  }

  // -------- what the field encoders put on the wire

  /** pb_encode_svarint: the complement of the doubled word for negative numbers. */
  function ZigZag(n: int): (v: nat)
    requires FitsSigned(n, 8)
    ensures v < TWO64
  {
    var doubled := CastUnsigned(2 * CastUnsigned(n, 8), 8);
    if n < 0 then TWO64 - 1 - doubled else doubled
  }

  // -------- properties

  lemma CastUnsignedOf(n: int, size: nat)
    requires IntSize(size) && -2 * Half(size) <= n < 4 * Half(size)
    ensures CastUnsigned(n, size) == if n < 0 then n + 2 * Half(size)
                                     else if n < 2 * Half(size) then n
                                     else n - 2 * Half(size)
  {
    var m := 2 * Half(size);
    if n < 0 {
      DivModUnique(n, -1, n + m, m);
    } else if n < m {
      DivModUnique(n, 0, n, m);
    } else {
      DivModUnique(n, 1, n - m, m);
    }
  }

  lemma CastSignedOf(n: int, size: nat)
    requires IntSize(size) && -Half(size) <= n < 2 * Half(size)
    ensures CastSigned(n, size) == if n < Half(size) then n else n - 2 * Half(size)
  {
    CastUnsignedOf(n, size);
  }

  /** A 64-bit two's-complement word cut to 32 bits is the same small number. */
  lemma LowWordOf(n: int)
    requires FitsSigned(n, 4)
    ensures CastSigned(CastUnsigned(n, 8), 4) == n
  {
    CastUnsignedOf(n, 8);
    var u := CastUnsigned(n, 8);
    if n < 0 {
      DivModUnique(u, TWO32 - 1, n + TWO32, TWO32);
    } else {
      CastSignedOf(n, 4);
    }
  }

  /** Every signed number that fits its member is stored back from its 64-bit word. */
  lemma SignedRoundTrip(n: int, size: nat)
    requires IntSize(size) && FitsSigned(n, size)
    ensures StoreSigned(CastUnsigned(n, 8), size) == Some(n)
  {
    if size == 8 {
      CastUnsignedOf(n, 8);
      CastSignedOf(CastUnsigned(n, 8), 8);
    } else {
      LowWordOf(n);
    }
    CastSignedOf(n, size);
  }

  /**
    A signed member of 32 or 64 bits takes every varint; a narrower one takes it exactly
    when the number in its low 32 bits fits.
   */
  lemma SignedAccepts(v: nat, size: nat)
    requires IntSize(size)
    ensures StoreSigned(v, size).Some? <==> size >= 4 || FitsSigned(CastSigned(v, 4), size)
  {
    var svalue := if size == 8 then CastSigned(v, 8) else CastSigned(v, 4);
    if FitsSigned(svalue, size) {
      CastSignedOf(svalue, size);
    }
  }

  /** An unsigned member takes a varint exactly when the number fits, and stores it. */
  lemma UnsignedAccepts(v: nat, size: nat)
    requires IntSize(size)
    ensures StoreUnsigned(v, size) == if FitsUnsigned(v, size) then Some(v) else None
  {
    if FitsUnsigned(v, size) {
      CastUnsignedOf(v, size);
    }
  }

  /** Zigzag interleaves: 0, -1, 1, -2, ... */
  lemma ZigZagValue(n: int)
    requires FitsSigned(n, 8)
    ensures ZigZag(n) == if n < 0 then -2 * n - 1 else 2 * n
  {
    CastUnsignedOf(n, 8);
    var u := CastUnsigned(n, 8);
    CastUnsignedOf(2 * u, 8);
  }

  lemma UnZigZagValue(v: nat)
    requires v < TWO64
    ensures UnZigZag(v) == if v % 2 == 1 then -(v / 2) - 1 else v / 2
  {
    CastSignedOf(v / 2, 8);
    CastSignedOf(TWO64 - 1 - v / 2, 8);
  }

  lemma ZigZagRoundTrip(n: int)
    requires FitsSigned(n, 8)
    ensures UnZigZag(ZigZag(n)) == n
  {
    ZigZagValue(n);
    UnZigZagValue(ZigZag(n));
  }

  lemma ZigZagOnto(v: nat)
    requires v < TWO64
    ensures FitsSigned(UnZigZag(v), 8) && ZigZag(UnZigZag(v)) == v
  {
    UnZigZagValue(v);
    ZigZagValue(UnZigZag(v));
  }

  /** A zigzag member takes a varint exactly when the number fits, and stores it. */
  lemma ZigZagAccepts(v: nat, size: nat)
    requires v < TWO64 && IntSize(size)
    ensures StoreZigZag(v, size) == if FitsSigned(UnZigZag(v), size) then Some(UnZigZag(v)) else None
  {
    if FitsSigned(UnZigZag(v), size) {
      CastSignedOf(UnZigZag(v), size);
    }
  }

  // -------- numbers in memory

  /** The first `size` bytes of a little-endian two's-complement number are zero. */
  predicate ZeroBytes(n: int, size: nat)
    decreases size
  {
    size == 0 || (n % 256 == 0 && ZeroBytes(n / 256, size - 1))
  }

  /** A number that fits its bytes is zero exactly when all of them are. */
  lemma {:induction false} ZeroBytesAre(n: int, size: nat)
    requires -Pow2(8 * size) < n < Pow2(8 * size)
    ensures ZeroBytes(n, size) <==> n == 0
    decreases size
  {
    if size > 0 {
      Pow2Add(8, 8 * (size - 1));
      assert Pow2(8) == 256;
      var q := n / 256;
      assert n == 256 * q + n % 256;
      if n % 256 == 0 {
        ZeroBytesAre(q, size - 1);
      }
    }
  }

  lemma ZeroMember(n: int, size: nat)
    requires IntSize(size) && (FitsSigned(n, size) || FitsUnsigned(n, size))
    ensures ZeroBytes(n, size) <==> n == 0
  {
    Widths();
    ZeroBytesAre(n, size);
  }

  // -------- fixed-width numbers

  /** The low `n` bytes of v, least significant first. */
  function ToLE(v: nat, n: nat): (bs: Bytes)
    ensures |bs| == n
    decreases n
  {
    if n == 0 then [] else [v % 256] + ToLE(v / 256, n - 1)
  }

  function FromLE(bs: Bytes): (v: nat)
    decreases |bs|
  {
    if bs == [] then 0 else bs[0] + 256 * FromLE(bs[1..])
  }

  /** 256^n for the two widths of fixed fields. */
  lemma {:induction false} LERoundTrip(v: nat, n: nat)
    requires v < Pow2(8 * n)
    ensures FromLE(ToLE(v, n)) == v
    decreases n
  {
    if n > 0 {
      Pow2Add(8, 8 * (n - 1));
      assert Pow2(8) == 256;
      assert v / 256 < Pow2(8 * (n - 1));
      LERoundTrip(v / 256, n - 1);
      assert ToLE(v, n)[1..] == ToLE(v / 256, n - 1);
    }
  }

  lemma {:induction false} LEBound(bs: Bytes)
    ensures FromLE(bs) < Pow2(8 * |bs|)
    decreases |bs|
  {
    if bs != [] {
      LEBound(bs[1..]);
      Pow2Add(8, 8 * (|bs| - 1));
      assert Pow2(8) == 256;
    }
  }
}
