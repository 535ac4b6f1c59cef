/**
  The Protocol Buffers wire format: base-128 varints, zigzag numbers, fixed-width
  little-endian numbers, tags, and the rules for skipping a field.

  Each reader is a function from the bytes left in a stream to a `Parse`; the methods of
  IStream are proved against these functions.
 */
module Wire {
  import opened Prelude
  import opened Bits

  // ---------------------------------------------------------------- wire types

  const WT_VARINT := 0
  const WT_64BIT := 1
  const WT_STRING := 2
  const WT_32BIT := 5

  // ---------------------------------------------------------------- varints

  /** The seven payload bits of a varint byte (byte & 0x7F). */
  function Low7(b: byte): (g: nat)
    ensures g < 128
  {
    if b < 128 then b else b - 128
  }

  /** Base-128 groups, least significant first, the top bit marking continuation. */
  function EncVarint(v: nat): (bs: Bytes)
    ensures |bs| >= 1
  {
    if v < 128 then [v] else [v % 128 + 128] + EncVarint(v / 128)
  }

  /** 2^(64 - 7k): what the groups from number k on can contribute to a 64-bit word. */
  function Cap(k: nat): (c: nat)
    requires k <= 10
  {
    match k
    case 0 => TWO64
    case 1 => 0x200_0000_0000_0000
    case 2 => 0x4_0000_0000_0000
    case 3 => 0x800_0000_0000
    case 4 => 0x10_0000_0000
    case 5 => 0x2000_0000
    case 6 => 0x40_0000
    case 7 => 0x8000
    case 8 => 0x100
    case 9 => 2
    case _ => 1
  }

  /**
    The number spelled by the groups of `s`, of which `k` were read already. The tenth
    group is shifted by 63, so a 64-bit word keeps only its lowest bit.
   */
  function DecGroups(s: Bytes, k: nat): (p: Parse<nat>)
    requires k <= 10
    ensures p.Ok? ==> Consumed(s, p.rest) && |s| - |p.rest| + k <= 10
    decreases |s|
  {
    if k == 10 || s == [] then Fail
    else
      var g := if k == 9 then s[0] % 2 else Low7(s[0]);
      if s[0] < 128 then Ok(g, s[1..])
      else
        match DecGroups(s[1..], k + 1)
        case Fail => Fail
        case Ok(v, rest) => Ok(g + 128 * v, rest)
  }

  lemma {:induction false} DecGroupsBound(s: Bytes, k: nat)
    requires k <= 10
    ensures DecGroups(s, k).Ok? ==> DecGroups(s, k).value < Cap(k)
    decreases |s|
  {
    if k < 10 && s != [] && s[0] >= 128 {
      DecGroupsBound(s[1..], k + 1);
    }
  }

  /** pb_decode_varint: at most ten groups, a 64-bit result. */
  function DecVarint(s: Bytes): (p: Parse<nat>)
    ensures p.Ok? ==> Consumed(s, p.rest) && p.value < TWO64
  {
    DecGroupsBound(s, 0);
    DecGroups(s, 0)
  }

  /** The check pb_decode_varint32 makes on a group beyond bit 31. */
  predicate BadHighGroup(b: byte, bitpos: nat, result: nat) {
    var signExtension := if bitpos < 63 then 0xFF else 0x01;
    Low7(b) != 0 && (result < TWO31 || b != signExtension)
  }

  /** A word cut to 32 bits. */
  function Cut32(x: nat): (r: nat)
    ensures r < TWO32
  {
    if x < TWO32 then x else x % TWO32
  }

  /** One turn of pb_decode_varint32's loop: the new accumulator, a 32-bit word. */
  function Or32(result: nat, b: byte, bitpos: nat): (r: nat)
    requires result < TWO32
    ensures r < TWO32
  {
    if bitpos >= 32 then result
    else Cut32(Or(result, Cut32(Low7(b) * Pow2(bitpos))))
  }

  /**
    The do-while loop of pb_decode_varint32. `bitpos` is an 8-bit counter, as uint_fast8_t
    is on the platforms this library is built for here, so it wraps at 256.
   */
  function Dec32Tail(s: Bytes, bitpos: nat, result: nat): (p: Parse<nat>)
    requires result < TWO32
    ensures p.Ok? ==> Consumed(s, p.rest) && p.value < TWO32
    decreases |s|
  {
    if s == [] then Fail
    else
      var b := s[0];
      if bitpos >= 32 && BadHighGroup(b, bitpos, result) then Fail
      else
        var r := Or32(result, b, bitpos);
        var next := (bitpos + 7) % 256;
        if b >= 128 then Dec32Tail(s[1..], next, r)
        else if next == 35 && b >= 16 then Fail
        else Ok(r, s[1..])
  }

  /** pb_decode_varint32. */
  function DecVarint32(s: Bytes): (p: Parse<nat>)
    ensures p.Ok? ==> Consumed(s, p.rest) && p.value < TWO32
  {
    if s == [] then Fail
    else if s[0] < 128 then Ok(s[0], s[1..])
    else Dec32Tail(s[1..], 7, Low7(s[0]))
  }

  // -------- locality: a reader that succeeds does not look past what it consumes

  lemma {:induction false} DecGroupsLocal(s: Bytes, t: Bytes, k: nat)
    requires k <= 10 && DecGroups(s, k).Ok?
    ensures DecGroups(s + t, k) == Ok(DecGroups(s, k).value, DecGroups(s, k).rest + t)
    decreases |s|
  {
    assert (s + t)[1..] == s[1..] + t;
    if s[0] >= 128 {
      DecGroupsLocal(s[1..], t, k + 1);
    }
  }

  lemma DecVarintLocal(s: Bytes, t: Bytes)
    requires DecVarint(s).Ok?
    ensures DecVarint(s + t) == Ok(DecVarint(s).value, DecVarint(s).rest + t)
  {
    DecGroupsLocal(s, t, 0);
  }

  lemma {:induction false} Dec32TailLocal(s: Bytes, t: Bytes, bitpos: nat, result: nat)
    requires result < TWO32 && Dec32Tail(s, bitpos, result).Ok?
    ensures Dec32Tail(s + t, bitpos, result)
         == Ok(Dec32Tail(s, bitpos, result).value, Dec32Tail(s, bitpos, result).rest + t)
    decreases |s|
  {
    assert (s + t)[1..] == s[1..] + t;
    if s[0] >= 128 {
      Dec32TailLocal(s[1..], t, (bitpos + 7) % 256, Or32(result, s[0], bitpos));
    }
  }

  lemma DecVarint32Local(s: Bytes, t: Bytes)
    requires DecVarint32(s).Ok?
    ensures DecVarint32(s + t) == Ok(DecVarint32(s).value, DecVarint32(s).rest + t)
  {
    assert (s + t)[1..] == s[1..] + t;
    if s[0] >= 128 {
      Dec32TailLocal(s[1..], t, 7, Low7(s[0]));
    }
  }

  // -------- round trip and shortest form

  lemma EncVarintHead(v: nat, t: Bytes)
    ensures var s := EncVarint(v) + t;
            Low7(s[0]) == v % 128 && (s[0] < 128 <==> v < 128)
            && s[1..] == if v < 128 then t else EncVarint(v / 128) + t
  {
    var s := EncVarint(v) + t;
    if v < 128 {
      assert s[0] == v;
      assert s[1..] == t;
    } else {
      assert s[0] == v % 128 + 128;
      assert s[1..] == EncVarint(v / 128) + t;
    }
  }

  lemma {:induction false} GroupsRoundTrip(v: nat, t: Bytes, k: nat)
    requires k <= 9 && v < Cap(k)
    ensures DecGroups(EncVarint(v) + t, k) == Ok(v, t)
    decreases 10 - k
  {
    var s := EncVarint(v) + t;
    EncVarintHead(v, t);
    if v >= 128 {
      GroupsRoundTrip(v / 128, t, k + 1);
      assert v == v % 128 + 128 * (v / 128);
    }
  }

  /** n groups hold exactly the numbers below 2^(7n). */
  lemma {:induction false} VarintLength(v: nat, n: nat)
    requires n >= 1
    ensures |EncVarint(v)| <= n <==> v < Pow2(7 * n)
    decreases n
  {
    Pow2Plus7(7 * (n - 1));
    if v >= 128 {
      if n > 1 {
        VarintLength(v / 128, n - 1);
      }
    } else {
      Pow2Monotone(7, 7 * n);
      assert Pow2(7) == 128;
    }
  }

  /** The ten-byte buffer of pb_encode_varint holds every 64-bit number. */
  lemma VarintAtMostTen(v: nat)
    requires v < TWO64
    ensures |EncVarint(v)| <= 10
  {
    Widths();
    Pow2Monotone(64, 70);
    VarintLength(v, 10);
  }

  /** Every 64-bit number is read back, and the reader stops where the encoding ends. */
  lemma VarintRoundTrip(v: nat, t: Bytes)
    requires v < TWO64
    ensures DecVarint(EncVarint(v) + t) == Ok(v, t)
  {
    GroupsRoundTrip(v, t, 0);
  }

  /** No bytes that the reader takes for v are fewer than the encoding of v. */
  lemma {:induction false} VarintShortest(s: Bytes, k: nat)
    requires k <= 10 && DecGroups(s, k).Ok?
    ensures |EncVarint(DecGroups(s, k).value)| <= |s| - |DecGroups(s, k).rest|
    decreases |s|
  {
    if s[0] >= 128 {
      VarintShortest(s[1..], k + 1);
      GroupQuotient(Low7(s[0]), DecGroups(s[1..], k + 1).value);
    }
  }

  lemma GroupQuotient(g: nat, w: nat)
    requires g < 128
    ensures (g + 128 * w) / 128 == w && (g + 128 * w) % 128 == g
  {
  }

  // -------- the 32-bit reader against the 64-bit reader

  /** 2^(7k) as a literal, so that each group position is linear arithmetic. */
  function Weight(k: nat): (p: int)
    requires k <= 10
    ensures p >= 1
  {
    match k
    case 0 => 1
    case 1 => 0x80
    case 2 => 0x4000
    case 3 => 0x20_0000
    case 4 => 0x1000_0000
    case 5 => 0x8_0000_0000
    case 6 => 0x400_0000_0000
    case 7 => 0x2_0000_0000_0000
    case 8 => 0x100_0000_0000_0000
    case 9 => 0x8000_0000_0000_0000
    case _ => 0x40_0000_0000_0000_0000
  }

  lemma {:induction false} WeightIsPow2(k: nat)
    requires k <= 10
    ensures Pow2(7 * k) == Weight(k)
  {
    if k > 0 {
      WeightIsPow2(k - 1);
      Pow2Plus7(7 * (k - 1));
    }
  }

  /** What the loop has in its accumulator after `k` groups. */
  predicate Accumulated(k: nat, result: nat) {
    result < TWO32 && (k <= 4 ==> result < Weight(k))
  }

  /** x * 2^(7k), a literal multiple for each k. */
  function Scaled(k: nat, x: nat): nat
    requires k <= 10
  {
    match k
    case 0 => x
    case 1 => 0x80 * x
    case 2 => 0x4000 * x
    case 3 => 0x20_0000 * x
    case 4 => 0x1000_0000 * x
    case 5 => 0x8_0000_0000 * x
    case 6 => 0x400_0000_0000 * x
    case 7 => 0x2_0000_0000_0000 * x
    case 8 => 0x100_0000_0000_0000 * x
    case 9 => 0x8000_0000_0000_0000 * x
    case _ => 0x40_0000_0000_0000_0000 * x
  }

  lemma ScaledGroup(k: nat, g: nat, w: nat)
    requires k <= 9
    ensures Scaled(k, g + 128 * w) == Scaled(k, g) + Scaled(k + 1, w)
  {
  }

  /** The part of group `k` that fits in 32 bits, at its weight. */
  function Group32(b: byte, k: nat): (g: nat)
    requires k <= 4
  {
    if k < 4 then Scaled(k, Low7(b)) else 0x1000_0000 * (Low7(b) % 16)
  }

  /** The 32-bit loop in plain arithmetic, by group number, for up to ten bytes. */
  function Ref32(s: Bytes, k: nat, result: nat): (p: Parse<nat>)
    requires k <= 10 && Accumulated(k, result)
    decreases |s|
  {
    if s == [] || k == 10 then Fail
    else
      var b := s[0];
      if k >= 5 && BadHighGroup(b, 7 * k, result) then Fail
      else
        var r := if k <= 4 then result + Group32(b, k) else result;
        if b >= 128 then Ref32(s[1..], k + 1, r)
        else if k == 4 && b >= 16 then Fail
        else Ok(r, s[1..])
  }

  lemma ShiftedGroup(g: nat, k: nat)
    requires k <= 4 && g < 128
    ensures Cut32(g * Weight(k)) == if k < 4 then Scaled(k, g) else 0x1000_0000 * (g % 16)
  {
    if k == 4 {
      assert g == 16 * (g / 16) + g % 16;
      DivModUnique(g * 0x1000_0000, g / 16, 0x1000_0000 * (g % 16), TWO32);
    }
  }

  lemma GroupFits(result: nat, b: byte, k: nat)
    requires k <= 4 && Accumulated(k, result)
    ensures result + Group32(b, k) < TWO32
  {
  }

  lemma OrGroup(result: nat, b: byte, k: nat)
    requires k <= 4 && Accumulated(k, result)
    ensures Or(result, Group32(b, k)) == result + Group32(b, k)
  {
    WeightIsPow2(k);
    var g := if k < 4 then Low7(b) else Low7(b) % 16;
    assert Group32(b, k) == g * Weight(k);
    OrDisjoint(result, g, 7 * k);
  }

  lemma OrValue(result: nat, b: byte, k: nat)
    requires k <= 4 && Accumulated(k, result)
    ensures Or32(result, b, 7 * k) == result + Group32(b, k)
  {
    WeightIsPow2(k);
    ShiftedGroup(Low7(b), k);
    assert Cut32(Low7(b) * Pow2(7 * k)) == Group32(b, k);
    OrGroup(result, b, k);
    GroupFits(result, b, k);
  }

  /** On at most ten bytes the machine loop computes the arithmetic form. */
  lemma {:induction false} RefIsTail(s: Bytes, k: nat, result: nat)
    requires 1 <= k <= 10 && Accumulated(k, result)
    ensures Ref32(s, k, result).Ok? ==> Dec32Tail(s, 7 * k, result) == Ref32(s, k, result)
    ensures var p := Dec32Tail(s, 7 * k, result);
            p.Ok? && k + |s| - |p.rest| <= 10 ==> Ref32(s, k, result) == p
    ensures Dec32Tail(s, 7 * k, result).Ok? && Ref32(s, k, result).Fail? ==> k + |s| - |Dec32Tail(s, 7 * k, result).rest| > 10
    decreases |s|
  {
    if s != [] && k < 10 {
      if k <= 4 { OrValue(result, s[0], k); }
      assert (7 * k + 7) % 256 == 7 * (k + 1);
      var r := Or32(result, s[0], 7 * k);
      if s[0] >= 128 && !(k >= 5 && BadHighGroup(s[0], 7 * k, result)) {
        RefIsTail(s[1..], k + 1, r);
      }
    }
  }

  /** The whole 32-bit reader in arithmetic form. */
  function RefVarint32(s: Bytes): Parse<nat> {
    if s == [] then Fail
    else if s[0] < 128 then Ok(s[0], s[1..])
    else Ref32(s[1..], 1, Low7(s[0]))
  }

  lemma RefIsVarint32(s: Bytes)
    ensures RefVarint32(s).Ok? ==> DecVarint32(s) == RefVarint32(s)
    ensures DecVarint32(s).Ok? && |s| - |DecVarint32(s).rest| <= 10 ==> RefVarint32(s) == DecVarint32(s)
  {
    if s != [] && s[0] >= 128 {
      RefIsTail(s[1..], 1, Low7(s[0]));
    }
  }

  lemma {:induction false} RefSameEnd(s: Bytes, k: nat, result: nat)
    requires k <= 10 && Accumulated(k, result) && Ref32(s, k, result).Ok?
    ensures DecGroups(s, k).Ok? && DecGroups(s, k).rest == Ref32(s, k, result).rest
    decreases |s|
  {
    if s[0] >= 128 {
      RefSameEnd(s[1..], k + 1, if k <= 4 then result + Group32(s[0], k) else result);
    }
  }

  /** From the sixth byte on the accumulator no longer changes. */
  lemma {:induction false} RefHigh(s: Bytes, k: nat, result: nat)
    requires 5 <= k <= 10 && result < TWO32 && Ref32(s, k, result).Ok?
    ensures Ref32(s, k, result).value == result
    decreases |s|
  {
    if s[0] >= 128 {
      RefHigh(s[1..], k + 1, result);
    }
  }

  /** How many of the 32 bits lie at or above group `k`, as a power of two. */
  function Room32(k: nat): (m: nat)
    requires 1 <= k <= 4
    ensures m > 0
  {
    if k == 1 then 0x200_0000 else if k == 2 then 0x4_0000 else if k == 3 then 0x800 else 0x10
  }

  lemma LowBits(k: nat, g: nat, w: nat)
    requires 1 <= k <= 4 && g < 128
    ensures k == 4 ==> (g + 128 * w) % Room32(4) == g % 16
    ensures k < 4 ==> (g + 128 * w) % Room32(k) == g + 128 * (w % Room32(k + 1))
  {
    var x := g + 128 * w;
    if k == 4 {
      DivModUnique(x, g / 16 + 8 * w, g % 16, 0x10);
    } else {
      var m := Room32(k + 1);
      var q := w / m;
      assert Room32(k) == 128 * m && w == q * m + w % m;
      assert x == q * (128 * m) + (g + 128 * (w % m));
      DivModUnique(x, q, g + 128 * (w % m), 128 * m);
    }
  }

  /** At the fifth byte four bits are left to collect. */
  lemma RefAgreesFifth(s: Bytes, result: nat)
    requires Accumulated(4, result) && Ref32(s, 4, result).Ok? && DecGroups(s, 4).Ok?
    ensures Ref32(s, 4, result).value == result + Scaled(4, DecGroups(s, 4).value % Room32(4))
  {
    var g := Low7(s[0]);
    if s[0] < 128 {
      LowBits(4, g, 0);
    } else {
      LowBits(4, g, DecGroups(s[1..], 5).value);
      RefHigh(s[1..], 5, result + Group32(s[0], 4));
    }
  }

  /** The 32-bit loop collects the low bits of the 64-bit number. */
  lemma {:induction false} RefAgrees(s: Bytes, k: nat, result: nat)
    requires 1 <= k <= 4 && Accumulated(k, result)
    requires Ref32(s, k, result).Ok? && DecGroups(s, k).Ok?
    ensures Ref32(s, k, result).value == result + Scaled(k, DecGroups(s, k).value % Room32(k))
    decreases 4 - k
  {
    var g := Low7(s[0]);
    if k == 4 {
      RefAgreesFifth(s, result);
    } else if s[0] < 128 {
      LowBits(k, g, 0);
    } else {
      var w := DecGroups(s[1..], k + 1).value;
      LowBits(k, g, w);
      RefAgrees(s[1..], k + 1, result + Group32(s[0], k));
      ScaledGroup(k, g, w % Room32(k + 1));
    }
  }

  /**
    When the 32-bit reader accepts at most ten bytes, the 64-bit reader accepts the same
    bytes, and the 32-bit value is the 64-bit value modulo 2^32.
   */
  lemma Varint32Agrees(s: Bytes)
    requires DecVarint32(s).Ok? && |s| - |DecVarint32(s).rest| <= 10
    ensures DecVarint(s).Ok? && DecVarint(s).rest == DecVarint32(s).rest
    ensures DecVarint32(s).value == DecVarint(s).value % TWO32
  {
    RefIsVarint32(s);
    RefVarint32SameEnd(s);
    RefVarint32Agrees(s);
  }

  lemma RefVarint32SameEnd(s: Bytes)
    requires RefVarint32(s).Ok?
    ensures DecGroups(s, 0).Ok? && DecGroups(s, 0).rest == RefVarint32(s).rest
  {
    if s[0] >= 128 {
      RefSameEnd(s[1..], 1, Low7(s[0]));
    }
  }

  lemma RefVarint32Agrees(s: Bytes)
    requires RefVarint32(s).Ok? && DecGroups(s, 0).Ok?
    ensures RefVarint32(s).value == DecGroups(s, 0).value % TWO32
  {
    if s[0] >= 128 {
      var g := Low7(s[0]);
      var w := DecGroups(s[1..], 1).value;
      RefAgrees(s[1..], 1, g);
      CutTo32(g, w);
      assert DecGroups(s, 0).value == g + 128 * w;
      assert RefVarint32(s).value == Ref32(s[1..], 1, g).value;
    }
  }

  lemma CutTo32(g: nat, w: nat)
    requires g < 128
    ensures (g + 128 * w) % TWO32 == g + Scaled(1, w % Room32(1))
  {
    var m := 0x200_0000;
    assert w == w / m * m + w % m;
    DivModUnique(g + 128 * w, w / m, g + 0x80 * (w % m), TWO32);
  }

  lemma {:induction false} RefCanonical(w: nat, t: Bytes, k: nat, result: nat)
    requires 1 <= k <= 4 && Accumulated(k, result) && result + Scaled(k, w) < TWO32
    ensures Ref32(EncVarint(w) + t, k, result) == Ok(result + Scaled(k, w), t)
    decreases 4 - k
  {
    var s := EncVarint(w) + t;
    EncVarintHead(w, t);
    assert w == w % 128 + 128 * (w / 128);
    ScaledGroup(k, w % 128, w / 128);
    if w >= 128 {
      RefCanonical(w / 128, t, k + 1, result + Group32(s[0], k));
    }
  }

  /** The 32-bit reader accepts the canonical encoding of every 32-bit number. */
  lemma Varint32RoundTrip(v: nat, t: Bytes)
    requires v < TWO32
    ensures DecVarint32(EncVarint(v) + t) == Ok(v, t)
  {
    RefVarint32RoundTrip(v, t);
    RefIsVarint32(EncVarint(v) + t);
  }

  lemma RefVarint32RoundTrip(v: nat, t: Bytes)
    requires v < TWO32
    ensures RefVarint32(EncVarint(v) + t) == Ok(v, t)
  {
    EncVarintHead(v, t);
    if v >= 128 {
      assert v % 128 + 128 * (v / 128) == v;
      RefCanonical(v / 128, t, 1, v % 128);
    }
  }

  /** Past bit 32, a group that ends the number must be zero. */
  lemma {:induction false} RefRejectsHigh(w: nat, t: Bytes, k: nat, result: nat)
    requires 1 <= k <= 8 && Accumulated(k, result)
    requires TWO32 <= Scaled(k, w) < TWO63
    ensures Ref32(EncVarint(w) + t, k, result).Fail?
    decreases 9 - k
  {
    var s := EncVarint(w) + t;
    EncVarintHead(w, t);
    if w >= 128 {
      HighPart(w, k);
      RefRejectsHigh(w / 128, t, k + 1, if k <= 4 then result + Group32(s[0], k) else result);
    }
  }

  lemma HighPart(w: nat, k: nat)
    requires 1 <= k <= 8 && w >= 128 && TWO32 <= Scaled(k, w) < TWO63
    ensures k < 8 && TWO32 <= Scaled(k + 1, w / 128) < TWO63
  {
    assert w == w % 128 + 128 * (w / 128);
    ScaledGroup(k, w % 128, w / 128);
  }

  /** Reading an encoding uses exactly all of it. */
  lemma {:induction false} TailWithin(w: nat, t: Bytes, bitpos: nat, result: nat)
    requires result < TWO32 && Dec32Tail(EncVarint(w) + t, bitpos, result).Ok?
    ensures |Dec32Tail(EncVarint(w) + t, bitpos, result).rest| == |t|
    decreases w
  {
    EncVarintHead(w, t);
    var s := EncVarint(w) + t;
    if w >= 128 {
      TailWithin(w / 128, t, (bitpos + 7) % 256, Or32(result, s[0], bitpos));
    }
  }

  lemma RefVarint32Rejects(v: nat, t: Bytes)
    requires TWO32 <= v < TWO63
    ensures RefVarint32(EncVarint(v) + t).Fail?
  {
    EncVarintHead(v, t);
    assert v == v % 128 + 128 * (v / 128);
    RefRejectsHigh(v / 128, t, 1, v % 128);
  }

  /** The 32-bit reader rejects the canonical encoding of 2^32 <= v < 2^63. */
  lemma Varint32Rejects(v: nat, t: Bytes)
    requires TWO32 <= v < TWO63
    ensures DecVarint32(EncVarint(v) + t).Fail?
  {
    var s := EncVarint(v) + t;
    RefVarint32Rejects(v, t);
    RefIsVarint32(s);
    EncVarintHead(v, t);
    VarintAtMostTen(v);
    if DecVarint32(s).Ok? {
      TailWithin(v / 128, t, 7, v % 128);
    }
  }

  /** The all-ones groups above bit 31 of a sign-extended negative number are accepted. */
  lemma {:induction false} RefOnes(k: nat, t: Bytes, result: nat)
    requires 5 <= k <= 9 && TWO31 <= result < TWO32
    ensures Ref32(EncVarint(Cap(k) - 1) + t, k, result) == Ok(result, t)
    decreases 10 - k
  {
    EncVarintHead(Cap(k) - 1, t);
    if k < 9 {
      DivModUnique(Cap(k) - 1, Cap(k + 1) - 1, 127, 128);
      assert (EncVarint(Cap(k) - 1) + t)[0] == 255;
      RefOnes(k + 1, t, result);
    }
  }

  lemma RefNegativeFifth(h: nat, t: Bytes, result: nat)
    requires Accumulated(4, result) && 8 <= h < 16
    ensures Ref32(EncVarint(Cap(4) - 16 + h) + t, 4, result) == Ok(result + Scaled(4, h), t)
  {
    var w := Cap(4) - 16 + h;
    var s := EncVarint(w) + t;
    EncVarintHead(w, t);
    DivModUnique(w, Cap(5) - 1, 112 + h, 128);
    DivModUnique(Low7(s[0]), 7, h, 16);
    RefOnes(5, t, result + 0x1000_0000 * h);
  }

  lemma {:induction false} RefNegative(h: nat, t: Bytes, k: nat, result: nat)
    requires 1 <= k <= 4 && Accumulated(k, result) && Room32(k) <= 2 * h < 2 * Room32(k)
    ensures Ref32(EncVarint(Cap(k) - Room32(k) + h) + t, k, result) == Ok(result + Scaled(k, h), t)
    decreases 4 - k
  {
    if k == 4 {
      RefNegativeFifth(h, t, result);
    } else {
      var w := Cap(k) - Room32(k) + h;
      EncVarintHead(w, t);
      var q, r := h / 128, h % 128;
      assert h == 128 * q + r;
      DivModUnique(w, Cap(k + 1) - Room32(k + 1) + q, r, 128);
      ScaledGroup(k, r, q);
      RefNegative(q, t, k + 1, result + Scaled(k, r));
    }
  }

  /** The 32-bit reader accepts a negative int32 that was sign-extended to ten bytes. */
  lemma Varint32Negative(n: int, t: Bytes)
    requires -TWO31 <= n < 0
    ensures DecVarint32(EncVarint(TWO64 + n) + t) == Ok(TWO32 + n, t)
  {
    var s := EncVarint(TWO64 + n) + t;
    EncVarintHead(TWO64 + n, t);
    var h := TWO32 + n;
    var q, r := h / 128, h % 128;
    assert h == 128 * q + r;
    DivModUnique(TWO64 + n, Cap(1) - Room32(1) + q, r, 128);
    RefNegative(q, t, 1, r);
    RefIsVarint32(s);
  }

  // ---------------------------------------------------------------- raw bytes, tags, skipping

  /** pb_read of `n` bytes. */
  function Take(s: Bytes, n: nat): (p: Parse<Bytes>)
    ensures p.Ok? <==> n <= |s|
    ensures p.Ok? ==> |p.value| == n && p.value + p.rest == s
  {
    if n <= |s| then Ok(s[..n], s[n..]) else Fail
  }

  /**
    What pb_decode_tag reports: a failure, the end of the message (the eof flag, raised
    by a zero), or a tag with its wire type.
   */
  datatype TagParse = TagFail | TagEnd(rest: Bytes) | Tagged(tag: nat, wireType: nat, rest: Bytes)

  function DecTag(s: Bytes): (p: TagParse)
    ensures p.TagEnd? && s != [] ==> Consumed(s, p.rest)
    ensures p.Tagged? ==> Consumed(s, p.rest) && p.wireType < 8
  {
    if s == [] then TagEnd(s)
    else
      match DecVarint32(s)
      case Fail => TagFail
      case Ok(v, rest) => if v == 0 then TagEnd(rest) else Tagged(v / 8, v % 8, rest)
  }

  function SkipVarint(s: Bytes): (r: Option<Bytes>)
    ensures r.Some? ==> Consumed(s, r.value)
    decreases |s|
  {
    if s == [] then None
    else if s[0] < 128 then Some(s[1..])
    else SkipVarint(s[1..])
  }

  /** pb_skip_string */
  function SkipString(s: Bytes): (r: Option<Bytes>)
    ensures r.Some? ==> Consumed(s, r.value)
  {
    match DecVarint32(s)
    case Fail => None
    case Ok(n, rest) => if n <= |rest| then Some(rest[n..]) else None
  }

  function Drop(s: Bytes, n: nat): (r: Option<Bytes>)
    ensures r.Some? && n > 0 ==> Consumed(s, r.value)
  {
    if n <= |s| then Some(s[n..]) else None
  }

  /** pb_skip_field: the bytes after the payload of a field of the given wire type. */
  function Skip(wireType: nat, s: Bytes): (r: Option<Bytes>)
    ensures r.Some? ==> Consumed(s, r.value)
  {
    if wireType == WT_VARINT then SkipVarint(s)
    else if wireType == WT_64BIT then Drop(s, 8)
    else if wireType == WT_32BIT then Drop(s, 4)
    else if wireType == WT_STRING then SkipString(s)
    else None
  }

  /** The key pb_encode_tag writes before a field. */
  function EncTag(wireType: nat, tag: nat): (bs: Bytes)
    requires wireType < 8
    ensures |bs| >= 1
  {
    EncVarint(tag * 8 + wireType)
  }

  /** pb_encode_string: a length and that many bytes. */
  function EncSized(bs: Bytes): Bytes {
    EncVarint(|bs|) + bs
  }

  lemma DecTagLocal(s: Bytes, t: Bytes)
    requires s != [] && !DecTag(s).TagFail?
    ensures DecTag(s + t) == match DecTag(s)
                             case TagEnd(rest) => TagEnd(rest + t)
                             case Tagged(tag, wt, rest) => Tagged(tag, wt, rest + t)
                             case TagFail => TagFail
  {
    DecVarint32Local(s, t);
  }

  lemma {:induction false} SkipVarintLocal(s: Bytes, t: Bytes)
    requires SkipVarint(s).Some?
    ensures SkipVarint(s + t) == Some(SkipVarint(s).value + t)
    decreases |s|
  {
    assert (s + t)[1..] == s[1..] + t;
    if s[0] >= 128 {
      SkipVarintLocal(s[1..], t);
    }
  }

  lemma DropLocal(s: Bytes, t: Bytes, n: nat)
    requires n <= |s|
    ensures (s + t)[n..] == s[n..] + t
  {
  }

  lemma SkipLocal(wireType: nat, s: Bytes, t: Bytes)
    requires Skip(wireType, s).Some?
    ensures Skip(wireType, s + t) == Some(Skip(wireType, s).value + t)
  {
    if wireType == WT_VARINT {
      SkipVarintLocal(s, t);
    } else if wireType == WT_64BIT {
      DropLocal(s, t, 8);
    } else if wireType == WT_32BIT {
      DropLocal(s, t, 4);
    } else {
      DecVarint32Local(s, t);
      var p := DecVarint32(s);
      DropLocal(p.rest, t, p.value);
    }
  }

  lemma TakeLocal(s: Bytes, t: Bytes, n: nat)
    requires Take(s, n).Ok?
    ensures Take(s + t, n) == Ok(Take(s, n).value, Take(s, n).rest + t)
  {
    assert (s + t)[..n] == s[..n];
    assert (s + t)[n..] == s[n..] + t;
  }

  /** Every key with a field number of at most 29 bits is read back. */
  lemma TagRoundTrip(wireType: nat, tag: nat, t: Bytes)
    requires wireType < 8 && 1 <= tag < 0x2000_0000
    ensures DecTag(EncTag(wireType, tag) + t) == Tagged(tag, wireType, t)
  {
    Varint32RoundTrip(tag * 8 + wireType, t);
    DivModUnique(tag * 8 + wireType, tag, wireType, 8);
  }
}
