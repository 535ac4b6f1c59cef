/**
  The bytes on the wire, spelled out: what the Protocol Buffers Encoding guide fixes for keys,
  numbers, strings and skipping, stated without the names the codec uses for its constants.
 */
module WireFormat {
  import opened Prelude
  import opened Bits
  import opened Wire
  import opened Scalars
  import opened Descriptor
  import opened DecodeSpec
  import opened EncodeSpec
  import opened Observe
  import opened ValueTrip

  // ---------------------------------------------------------------- varints

  /** The first n bytes of s spell one number: each but the last has its top bit set. */
  predicate Spelled(s: Bytes, n: nat) {
    1 <= n <= |s| && (forall i :: 0 <= i < n - 1 ==> s[i] >= 128) && s[n - 1] < 128
  }

  /** The number that n groups of seven bits spell, the least significant group first. */
  function Spells(s: Bytes, n: nat): nat
    requires n <= |s|
  {
    if n == 0 then 0 else s[0] % 128 + 128 * Spells(s[1..], n - 1)
  }

  lemma SpelledTail(s: Bytes, n: nat)
    requires n >= 2
    ensures Spelled(s, n) <==> |s| >= 1 && s[0] >= 128 && Spelled(s[1..], n - 1)
  {
    if |s| >= 1 && s[0] >= 128 && Spelled(s[1..], n - 1) {
      forall i | 0 <= i < n - 1 ensures s[i] >= 128 {
        assert i > 0 ==> s[i] == s[1..][i - 1];
      }
      assert s[n - 1] == s[1..][n - 2];
    }
    if Spelled(s, n) {
      assert forall i :: 0 <= i < n - 2 ==> s[1..][i] == s[i + 1];
    }
  }

  /** Byte i of a varint has bits 7i to 7i + 6, and its top bit says whether another follows. */
  lemma {:induction false} VarintByte(v: nat, i: nat)
    requires i < |EncVarint(v)|
    ensures EncVarint(v)[i] == v / Pow2(7 * i) % 128 + if i < |EncVarint(v)| - 1 then 128 else 0
    decreases i
  {
    if i > 0 {
      VarintByte(v / 128, i - 1);
      Pow2Plus7(7 * (i - 1));
      DivTwice(v, 128, Pow2(7 * (i - 1)));
    }
  }

  /** Dividing by a group and then by the weight of the groups before it. */
  lemma DivTwice(v: nat, a: nat, b: nat)
    requires (a == 128 || a == 256) && b >= 1
    ensures v / a / b == v / (a * b)
  {
    var q, r := v / a / b, v / a % b;
    assert v / a == q * b + r;
    if a == 128 {
      assert q * (128 * b) == 128 * (q * b);
      DivModUnique(v, q, 128 * r + v % 128, 128 * b);
    } else {
      assert q * (256 * b) == 256 * (q * b);
      DivModUnique(v, q, 256 * r + v % 256, 256 * b);
    }
  }

  lemma {:induction false} GroupsSpelled(s: Bytes, n: nat, k: nat)
    requires Spelled(s, n) && k <= 10
    ensures DecGroups(s, k) == if n + k <= 10 then Ok(Spells(s, n) % Cap(k), s[n..]) else Fail
    decreases n
  {
    if k < 10 && n == 1 {
      GroupAlone(s[0], k);
      assert Spells(s[1..], 0) == 0;
    } else if k < 10 {
      SpelledTail(s, n);
      GroupsSpelled(s[1..], n - 1, k + 1);
      if n + k <= 10 {
        GroupThen(s[0], k, Spells(s[1..], n - 1));
      }
      assert s[1..][n - 1..] == s[n..];
    }
  }

  lemma GroupAlone(b: byte, k: nat)
    requires k < 10 && b < 128
    ensures (if k == 9 then b % 2 else Low7(b)) == b % 128 % Cap(k)
  {
  }

  lemma GroupThen(b: byte, k: nat, x: nat)
    requires k < 9 && b >= 128
    ensures Low7(b) + 128 * (x % Cap(k + 1)) == (b % 128 + 128 * x) % Cap(k)
  {
    var c := Cap(k + 1);
    assert Cap(k) == 128 * c;
    var q, r := x / c, x % c;
    assert x == q * c + r;
    assert b % 128 + 128 * x == q * (128 * c) + (b % 128 + 128 * r);
    DivModUnique(b % 128 + 128 * x, q, b % 128 + 128 * r, 128 * c);
  }

  lemma {:induction false} GroupsEnd(s: Bytes, k: nat) returns (n: nat)
    requires k <= 10 && DecGroups(s, k).Ok?
    ensures Spelled(s, n)
    decreases |s|
  {
    if s[0] < 128 {
      n := 1;
    } else {
      var rest := GroupsEnd(s[1..], k + 1);
      n := rest + 1;
      SpelledTail(s, n);
    }
  }

  /**
    pb_decode_varint accepts exactly the spellings of at most ten bytes, shortest or not. It
    reads the lowest 64 bits of the number and stops behind its last byte.
   */
  lemma VarintReads(s: Bytes)
    ensures DecVarint(s).Ok? <==> exists n :: 1 <= n <= 10 && Spelled(s, n)
    ensures forall n :: 1 <= n <= 10 && Spelled(s, n) ==> DecVarint(s) == Ok(Spells(s, n) % TWO64, s[n..])
  {
    forall n | 1 <= n && Spelled(s, n)
      ensures DecVarint(s) == if n <= 10 then Ok(Spells(s, n) % TWO64, s[n..]) else Fail
    {
      GroupsSpelled(s, n, 0);
    }
    if DecVarint(s).Ok? {
      var n := GroupsEnd(s, 0);
      assert Spelled(s, n);
    }
  }

  // ---------------------------------------------------------------- the 32-bit reader

  lemma {:induction false} ZeroGroups(s: Bytes, n: nat, k: nat, result: nat)
    requires Spelled(s, n) && 5 <= k && n + k <= 10 && Spells(s, n) == 0 && result < TWO32
    ensures Ref32(s, k, result) == Ok(result, s[n..])
    decreases n
  {
    if n > 1 {
      SpelledTail(s, n);
      ZeroGroups(s[1..], n - 1, k + 1, result);
      assert s[1..][n - 1..] == s[n..];
    } else {
      assert Spells(s[1..], 0) == 0;
    }
  }

  /** One group of a number that fits 32 bits. */
  lemma GroupFits32(b: byte, k: nat, result: nat, x: nat)
    requires 1 <= k <= 4 && Accumulated(k, result) && result + Scaled(k, b % 128 + 128 * x) < TWO32
    ensures k < 4 ==> Accumulated(k + 1, result + Group32(b, k))
    ensures k < 4 ==> result + Group32(b, k) + Scaled(k + 1, x) == result + Scaled(k, b % 128 + 128 * x)
    ensures k == 4 ==> x == 0 && b % 128 < 16 && result + Group32(b, k) == result + Scaled(k, b % 128)
  {
    ScaledGroup(k, b % 128, x);
  }

  lemma {:induction false} Groups32(s: Bytes, n: nat, k: nat, result: nat)
    requires Spelled(s, n) && 1 <= k <= 4 && n + k <= 10
    requires Accumulated(k, result) && result + Scaled(k, Spells(s, n)) < TWO32
    ensures Ref32(s, k, result) == Ok(result + Scaled(k, Spells(s, n)), s[n..])
    decreases n
  {
    if n == 1 {
      assert Spells(s[1..], 0) == 0;
      GroupFits32(s[0], k, result, 0);
    } else {
      SpelledTail(s, n);
      assert s[1..][n - 1..] == s[n..];
      GroupFits32(s[0], k, result, Spells(s[1..], n - 1));
      if k < 4 {
        Groups32(s[1..], n - 1, k + 1, result + Group32(s[0], k));
      } else {
        ZeroGroups(s[1..], n - 1, 5, result + Group32(s[0], 4));
      }
    }
  }

  lemma Ref32Reads(s: Bytes, n: nat)
    requires Spelled(s, n) && 2 <= n <= 10 && Spells(s, n) < TWO32
    ensures RefVarint32(s) == Ok(Spells(s, n), s[n..])
  {
    SpelledTail(s, n);
    assert s[1..][n - 1..] == s[n..];
    var x := Spells(s[1..], n - 1);
    assert Spells(s, n) == Low7(s[0]) + Scaled(1, x);
    Groups32(s[1..], n - 1, 1, Low7(s[0]));
  }

  /** pb_decode_varint32 reads every spelling of a 32-bit number in at most ten bytes. */
  lemma Varint32Reads(s: Bytes, n: nat)
    requires Spelled(s, n) && n <= 10 && Spells(s, n) < TWO32
    ensures DecVarint32(s) == Ok(Spells(s, n), s[n..])
  {
    if n == 1 {
      assert Spells(s[1..], 0) == 0;
    } else {
      Ref32Reads(s, n);
      RefIsVarint32(s);
    }
  }

  /** The groups above bit 34 are empty or all ones, and the one for bit 63 is a one. */
  predicate SignGroups(w: nat, k: nat)
    requires 5 <= k <= 9
    decreases 9 - k
  {
    if k == 9 then w == 1 else w >= 128 && w % 128 in {0, 127} && SignGroups(w / 128, k + 1)
  }

  lemma {:induction false} HighExactly(w: nat, t: Bytes, k: nat, result: nat)
    requires 5 <= k <= 9 && 0 < w < Cap(k) && result < TWO32
    ensures Ref32(EncVarint(w) + t, k, result)
         == if result >= TWO31 && SignGroups(w, k) then Ok(result, t) else Fail
    decreases 9 - k
  {
    EncVarintHead(w, t);
    if k < 9 && w >= 128 {
      HighExactly(w / 128, t, k + 1, result);
    }
  }

  /** 128^(5 - k): what is left of a number after its fifth group. */
  function FromFifth(k: nat): (d: nat)
    requires 1 <= k <= 5
    ensures d >= 1
  {
    if k == 1 then 0x1000_0000 else if k == 2 then 0x20_0000 else if k == 3 then 0x4000 else if k == 4 then 0x80 else 1
  }

  lemma NextGroup(w: nat, k: nat)
    requires 1 <= k <= 4 && w >= FromFifth(k)
    ensures w >= 128 && w / 128 >= FromFifth(k + 1) && w / 128 / FromFifth(k + 1) == w / FromFifth(k)
  {
  }

  /** One of the first four groups, and what its 32 bits have room for. */
  lemma LowStep(w: nat, k: nat, result: nat)
    requires 1 <= k <= 4 && Accumulated(k, result)
    ensures k < 4 ==> Accumulated(k + 1, result + Scaled(k, w % 128))
    ensures k < 4 ==> Scaled(k, w % Room32(k)) == Scaled(k, w % 128) + Scaled(k + 1, w / 128 % Room32(k + 1))
    ensures k == 4 ==> w % Room32(k) == w % 128 % 16 && result + Scaled(4, w % 128 % 16) < TWO32
  {
    assert w % 128 + 128 * (w / 128) == w;
    LowBits(k, w % 128, w / 128);
    if k < 4 {
      ScaledGroup(k, w % 128, w / 128 % Room32(k + 1));
    }
  }

  /** The first five groups are collected without a check when more follow. */
  lemma {:induction false} LowGroups(w: nat, t: Bytes, k: nat, result: nat)
    requires 1 <= k <= 4 && Accumulated(k, result) && w >= FromFifth(k)
    ensures result + Scaled(k, w % Room32(k)) < TWO32
    ensures Ref32(EncVarint(w) + t, k, result)
         == Ref32(EncVarint(w / FromFifth(k)) + t, 5, result + Scaled(k, w % Room32(k)))
    decreases 4 - k
  {
    EncVarintHead(w, t);
    NextGroup(w, k);
    LowStep(w, k, result);
    if k < 4 {
      LowGroups(w / 128, t, k + 1, result + Scaled(k, w % 128));
    }
  }

  lemma SplitAt35(v: nat)
    requires v >= 0x8_0000_0000
    ensures v / 128 >= FromFifth(1) && v / 128 / FromFifth(1) == v / 0x8_0000_0000
    ensures v % 128 + Scaled(1, v / 128 % Room32(1)) == v % TWO32
  {
    CutTo32(v % 128, v / 128);
    assert v % 128 + 128 * (v / 128) == v;
  }

  /** Which 64-bit words the 32-bit reader takes. */
  predicate Taken32(v: nat) {
    if v < 0x8_0000_0000 then v < TWO32 else v % TWO32 >= TWO31 && SignGroups(v / 0x8_0000_0000, 5)
  }

  /** A reader that accepts an encoding uses exactly its bytes, at most ten. */
  lemma Varint32Used(v: nat, t: Bytes)
    requires 128 <= v < TWO64
    ensures DecVarint32(EncVarint(v) + t).Ok? ==> |EncVarint(v) + t| - |DecVarint32(EncVarint(v) + t).rest| <= 10
  {
    EncVarintHead(v, t);
    VarintAtMostTen(v);
    if DecVarint32(EncVarint(v) + t).Ok? {
      TailWithin(v / 128, t, 7, v % 128);
    }
  }

  lemma LongExactly(v: nat, t: Bytes)
    requires 0x8_0000_0000 <= v < TWO64
    ensures RefVarint32(EncVarint(v) + t) == if Taken32(v) then Ok(v % TWO32, t) else Fail
  {
    EncVarintHead(v, t);
    SplitAt35(v);
    LowGroups(v / 128, t, 1, v % 128);
    HighExactly(v / 0x8_0000_0000, t, 5, v % TWO32);
  }

  /**
    pb_decode_varint32 on the encoding of any 64-bit word: it takes the 32-bit numbers, and
    words whose bits 31 and 63 are ones and whose groups in between are empty or all ones,
    among them the sign-extended negative numbers; of those it returns the lowest 32 bits.
   */
  lemma Varint32Exactly(v: nat, t: Bytes)
    requires v < TWO64
    ensures DecVarint32(EncVarint(v) + t) == if Taken32(v) then Ok(v % TWO32, t) else Fail
  {
    if v < 0x8_0000_0000 {
      ShortTaken(v, t);
    } else {
      LongTaken(v, t);
    }
  }

  lemma ShortTaken(v: nat, t: Bytes)
    requires v < 0x8_0000_0000
    ensures DecVarint32(EncVarint(v) + t) == if Taken32(v) then Ok(v % TWO32, t) else Fail
  {
    if v < TWO32 {
      Varint32RoundTrip(v, t);
      DivModUnique(v, 0, v, TWO32);
    } else {
      Varint32Rejects(v, t);
    }
  }

  lemma LongTaken(v: nat, t: Bytes)
    requires 0x8_0000_0000 <= v < TWO64
    ensures DecVarint32(EncVarint(v) + t) == RefVarint32(EncVarint(v) + t)
         == if Taken32(v) then Ok(v % TWO32, t) else Fail
  {
    LongExactly(v, t);
    RefIsVarint32(EncVarint(v) + t);
    Varint32Used(v, t);
  }

  /** n bytes that spell nothing but say that more follows. */
  function Padding(n: nat): (s: Bytes)
    ensures |s| == n
    ensures forall i :: 0 <= i < n ==> s[i] == 0x80
  {
    seq(n, i => 0x80)
  }

  /** The 8-bit counter after n more groups. */
  function Counter(n: nat, bitpos: nat): nat {
    if n == 0 then bitpos else Counter(n - 1, (bitpos + 7) % 256)
  }

  lemma PaddingOne(s: Bytes, bitpos: nat)
    requires s != [] && s[0] == 0x80
    ensures Dec32Tail(s, bitpos, 0) == Dec32Tail(s[1..], (bitpos + 7) % 256, 0)
  {
    OrZero(0);
    assert Low7(s[0]) == 0 && Cut32(0 * Pow2(bitpos)) == 0;
  }

  lemma {:induction false} PaddingPassed(n: nat, t: Bytes, bitpos: nat)
    ensures Dec32Tail(Padding(n) + t, bitpos, 0) == Dec32Tail(t, Counter(n, bitpos), 0)
    decreases n
  {
    if n == 0 {
      assert Padding(0) + t == t;
    } else {
      assert (Padding(n) + t)[1..] == Padding(n - 1) + t;
      PaddingOne(Padding(n) + t, bitpos);
      PaddingPassed(n - 1, t, (bitpos + 7) % 256);
    }
  }

  lemma LastGroup(t: Bytes)
    ensures Dec32Tail([1] + t, 3, 0) == Ok(8, t)
  {
    assert ([1] + t)[0] == 1 && ([1] + t)[1..] == t;
    assert Pow2(3) == 8;
    OrZero(8);
  }

  /** It counts by sevens up to its limit, and then starts over. */
  lemma {:induction false} CounterCounts(n: nat, bitpos: nat)
    requires bitpos + 7 * n < 256
    ensures Counter(n, bitpos) == bitpos + 7 * n
    ensures bitpos + 7 * n + 7 >= 256 ==> Counter(n + 1, bitpos) == bitpos + 7 * n + 7 - 256
    decreases n
  {
    if n > 0 {
      CounterCounts(n - 1, bitpos + 7);
    } else {
      assert Counter(1, bitpos) == Counter(0, (bitpos + 7) % 256);
    }
  }

  lemma PaddedTail(n: nat, bitpos: nat, u: Bytes)
    requires bitpos + 7 * n < 256 <= bitpos + 7 * n + 7
    ensures Dec32Tail(Padding(n + 1) + u, bitpos, 0) == Dec32Tail(u, bitpos + 7 * n + 7 - 256, 0)
  {
    CounterCounts(n, bitpos);
    PaddingPassed(n + 1, u, bitpos);
  }

  lemma PaddedHead(s: Bytes)
    requires s != [] && s[0] == 0x80
    ensures DecVarint32(s) == Dec32Tail(s[1..], 7, 0)
  {
  }

  /** The 32-bit reader has no length limit: after 37 empty groups its 8-bit counter is back at bit 3. */
  lemma CounterWraps(n: nat, t: Bytes)
    requires n == 37
    ensures DecVarint32(Padding(n) + ([1] + t)) == Ok(8, t)
  {
    var u := [1] + t;
    var s := Padding(n) + u;
    PaddedHead(s);
    assert s[1..] == Padding(n - 1) + u;
    PaddedTail(n - 2, 7, u);
    LastGroup(t);
  }

  // ---------------------------------------------------------------- skipping by wire type

  lemma {:induction false} SkipSpelled(s: Bytes, n: nat)
    requires Spelled(s, n)
    ensures SkipVarint(s) == Some(s[n..])
    decreases n
  {
    if n > 1 {
      SpelledTail(s, n);
      SkipSpelled(s[1..], n - 1);
      assert s[1..][n - 1..] == s[n..];
    }
  }

  lemma {:induction false} SkipEnd(s: Bytes) returns (n: nat)
    requires SkipVarint(s).Some?
    ensures Spelled(s, n)
    decreases |s|
  {
    if s[0] < 128 {
      n := 1;
    } else {
      var rest := SkipEnd(s[1..]);
      n := rest + 1;
      SpelledTail(s, n);
    }
  }

  /** A varint, of any length, is skipped up to its last byte. */
  lemma SkipsVarint(s: Bytes)
    ensures Skip(0, s).Some? <==> exists n :: 1 <= n <= |s| && Spelled(s, n)
    ensures forall n :: 1 <= n <= |s| && Spelled(s, n) ==> Skip(0, s) == Some(s[n..])
  {
    forall n | 1 <= n <= |s| && Spelled(s, n)
      ensures SkipVarint(s) == Some(s[n..])
    {
      SkipSpelled(s, n);
    }
    if Skip(0, s).Some? {
      var n := SkipEnd(s);
      assert Spelled(s, n);
    }
  }

  /**
    What skipping leaves, by the number of the wire type: 8 bytes for type 1, 4 bytes for type
    5, a length and that many bytes for type 2; types 3, 4, 6 and 7 cannot be skipped.
   */
  lemma SkipsOthers(s: Bytes, wireType: nat)
    ensures Skip(1, s) == if |s| >= 8 then Some(s[8..]) else None
    ensures Skip(5, s) == if |s| >= 4 then Some(s[4..]) else None
    ensures var p := DecVarint32(s);
            Skip(2, s) == if p.Ok? && |p.rest| >= p.value then Some(p.rest[p.value..]) else None
    ensures wireType !in {0, 1, 2, 5} ==> Skip(wireType, s) == None
  {
  }

  // ---------------------------------------------------------------- keys

  /** The wire type of each type of field, in the numbers of the guide. */
  function WireNumber(l: LType): nat {
    match l
    case LBool => 0
    case LVarint => 0
    case LUVarint => 0
    case LSVarint => 0
    case LExtension => 0
    case LFixed64 => 1
    case LFixed32 => 5
    case LBytes => 2
    case LString => 2
    case LSubmessage => 2
    case LFixedBytes => 2
  }

  /** The key of a field is the varint of eight times its number plus its wire type. */
  lemma KeyIs(f: Field)
    ensures KeyOf(f) == EncVarint(8 * f.tag + WireNumber(f.ltype))
  {
  }

  /** And a varint of up to 32 bits is read as a key: the quotient and the remainder by eight. */
  lemma KeyReads(v: nat, t: Bytes)
    requires v < TWO32
    ensures DecTag(EncVarint(v) + t) == if v == 0 then TagEnd(t) else Tagged(v / 8, v % 8, t)
  {
    Varint32RoundTrip(v, t);
  }

  /** A packed array of any packable type is one length-delimited field, wire type 2. */
  lemma PackedArrayBytes(f: Field, items: seq<Value>, count: nat)
    requires FieldOk(f) && Packable(f.ltype) && |items| == f.arraySize && 1 <= count <= f.arraySize
    ensures EncArray(f, items, count)
         == match EncItems(f, items, count)
            case None => None
            case Some(bs) => Some(EncVarint(8 * f.tag + 2) + (EncVarint(|bs|) + bs))
  {
  }

  /** In a message without fields the number 0 names the terminator entry, a bool whatever its type says. */
  lemma TerminatorReads(wireType: nat, x: nat, st: DecState)
    requires StateOk([], st) && 1 <= wireType < 8 && x < TWO32
    ensures Loop([], EncVarint(wireType) + EncVarint(x), st) == Drained(st)
  {
    KeyReads(wireType, EncVarint(x));
    Varint32RoundTrip(x, []);
    EmptyRight(EncVarint(x));
    assert Loop([], [], st) == Drained(st);
  }

  // ---------------------------------------------------------------- numbers in memory and on the wire

  /** The width of a member, as a power of two. */
  lemma HalfIs(size: nat)
    requires IntSize(size)
    ensures Half(size) == Pow2(8 * size - 1)
  {
    Widths();
  }

  /** Byte i of a fixed-width number, counted from the least significant one. */
  lemma {:induction false} FixedByte(v: nat, n: nat, i: nat)
    requires i < n
    ensures ToLE(v, n)[i] == v / Pow2(8 * i) % 256
    decreases i
  {
    if i > 0 {
      FixedByte(v / 256, n - 1, i - 1);
      Pow2Add(8, 8 * (i - 1));
      assert Pow2(8) == 256;
      DivTwice(v, 256, Pow2(8 * (i - 1)));
    }
  }

  /** Every run of bytes is the fixed-width form of the number read from it. */
  lemma {:induction false} FixedOnto(bs: Bytes)
    ensures ToLE(FromLE(bs), |bs|) == bs
    decreases |bs|
  {
    if bs != [] {
      FixedOnto(bs[1..]);
      assert FromLE(bs) % 256 == bs[0] && FromLE(bs) / 256 == FromLE(bs[1..]);
    }
  }

  /** The remainder by 256 m, split at the first byte. */
  lemma ModSplit(n: nat, m: nat)
    requires m in {1, 0x100, 0x1_0000, 0x100_0000}
    ensures n % (256 * m) == 256 * (n / 256 % m) + n % 256
  {
    var q, r := n / 256 / m, n / 256 % m;
    assert n / 256 == q * m + r;
    DivModUnique(n, q, 256 * r + n % 256, 256 * m);
  }

  lemma ClearOne(n: nat, w: nat)
    requires 1 <= w <= 4
    ensures ClearLow(n, w) % 256 == 0 && ClearLow(n, w) / 256 == ClearLow(n / 256, w - 1)
  {
    var m := if w == 1 then 1 else if w == 2 then 0x100 else if w == 3 then 0x1_0000 else 0x100_0000;
    ModSplit(n, m);
    var q := n / 256;
    assert ClearLow(q, w - 1) == q - q % m;
    assert ClearLow(n, w) == 256 * (q - q % m);
  }

  /** Clearing the lowest bytes of a number clears those bytes and leaves the others. */
  lemma {:induction false} ClearedByte(n: nat, w: nat, size: nat, i: nat)
    requires w <= 4 && i < size
    ensures ToLE(ClearLow(n, w), size)[i] == if i < w then 0 else ToLE(n, size)[i]
    decreases i
  {
    if w > 0 {
      ClearOne(n, w);
      if i > 0 {
        ClearedByte(n / 256, w - 1, size - 1, i - 1);
      }
    }
  }

  lemma WordIs(size: nat)
    requires IntSize(size)
    ensures 2 * Half(size) == Pow2(8 * size)
  {
    Widths();
  }

  /** The number a varint field puts on the wire for its member. */
  function Wired(l: LType, n: int): int {
    match l
    case LBool => n
    case LUVarint => n
    case LVarint => if n < 0 then 0x1_0000_0000_0000_0000 + n else n
    case _ => if n < 0 then -2 * n - 1 else 2 * n
  }

  /** A varint field, byte for byte: key type 0 and the number. */
  lemma VarintField(f: Field, v: Value)
    requires FieldOk(f) && ValueOk(f, v)
    requires f.ltype.LBool? || f.ltype.LVarint? || f.ltype.LUVarint? || f.ltype.LSVarint?
    ensures Wired(f.ltype, v.n) >= 0
    ensures EncTagged(f, v) == Some(EncVarint(8 * f.tag) + EncVarint(Wired(f.ltype, v.n)))
  {
    KeyIs(f);
    if f.ltype.LSVarint? {
      CastSignedOf(v.n, 8);
      ZigZagValue(v.n);
    } else {
      CastUnsignedOf(v.n, 8);
    }
  }

  /** A fixed-width field: key type 5 and four bytes, or key type 1 and eight bytes. */
  lemma FixedField(f: Field, v: Value)
    requires FieldOk(f) && ValueOk(f, v) && (f.ltype.LFixed32? || f.ltype.LFixed64?)
    ensures EncTagged(f, v) == Some(if f.ltype.LFixed32? then EncVarint(8 * f.tag + 5) + ToLE(v.n, 4)
                                    else EncVarint(8 * f.tag + 1) + ToLE(v.n, 8))
  {
    KeyIs(f);
    CastUnsignedOf(v.n, if f.ltype.LFixed32? then 4 else 8);
  }

  /** A field of bytes or characters: key type 2, the length, and the contents up to the first NUL of a string. */
  lemma SizedField(f: Field, v: Value)
    requires FieldOk(f) && ValueOk(f, v) && (f.ltype.LBytes? || f.ltype.LString? || f.ltype.LFixedBytes?)
    ensures var bs := if f.ltype.LString? then CString(v.bytes) else v.bytes;
            EncTagged(f, v) == Some(EncVarint(8 * f.tag + 2) + (EncVarint(|bs|) + bs))
  {
    KeyIs(f);
    StrnLenIsCString(v.bytes);
  }

  /** A submessage: key type 2, the length of its encoding, and its encoding. */
  lemma SubmessageField(f: Field, v: Value)
    requires FieldOk(f) && f.ltype.LSubmessage?
    ensures var bs := Enc(f.ptr.fields, AsMsg(f.ptr.fields, v));
            EncTagged(f, v) == if bs.None? then None
                               else Some(EncVarint(8 * f.tag + 2) + (EncVarint(|bs.value|) + bs.value))
  {
    KeyIs(f);
  }

  // ---------------------------------------------------------------- what a member takes from the wire

  /** The signed number in the lowest bits of a word. */
  function SignedWord(x: nat, bits: nat): int
    requires bits >= 1
  {
    var low := x % Pow2(bits);
    if low < Pow2(bits - 1) then low else low - Pow2(bits)
  }

  predicate FitsBits(n: int, bits: nat)
    requires bits >= 1
  {
    -Pow2(bits - 1) <= n < Pow2(bits - 1)
  }

  lemma StoredIf(n: int, fits: bool, t: Bytes)
    ensures Stored(if fits then Some(n) else None, t) == if fits then Ok(Num(n), t) else Fail
  {
  }

  /** A bool is true for every number but zero. */
  lemma BoolReads(f: Field, x: nat, t: Bytes)
    requires f.ltype.LBool? && x < TWO32
    ensures DecNumber(f, EncVarint(x) + t) == Ok(Num(if x == 0 then 0 else 1), t)
  {
    Varint32RoundTrip(x, t);
  }

  /** An unsigned member takes exactly the numbers of its width. */
  lemma UnsignedReads(f: Field, x: nat, t: Bytes)
    requires f.ltype.LUVarint? && IntSize(f.dataSize) && x < TWO64
    ensures DecNumber(f, EncVarint(x) + t) == if x < Pow2(8 * f.dataSize) then Ok(Num(x), t) else Fail
  {
    WordIs(f.dataSize);
    VarintRoundTrip(x, t);
    UnsignedAccepts(x, f.dataSize);
  }

  /** A zigzag member takes exactly the numbers of its width: even words are n / 2, odd ones negative. */
  lemma ZigZagReads(f: Field, x: nat, t: Bytes)
    requires f.ltype.LSVarint? && IntSize(f.dataSize) && x < TWO64
    ensures var n := if x % 2 == 0 then x / 2 else -(x / 2) - 1;
            DecNumber(f, EncVarint(x) + t) == if FitsBits(n, 8 * f.dataSize) then Ok(Num(n), t) else Fail
  {
    HalfIs(f.dataSize);
    VarintRoundTrip(x, t);
    UnZigZagValue(x);
    ZigZagAccepts(x, f.dataSize);
  }

  /**
    A signed member of 64 bits takes the 64-bit word; a narrower one takes the number in the
    lowest 32 bits of the word, if that fits.
   */
  lemma SignedReads(f: Field, x: nat, t: Bytes)
    requires f.ltype.LVarint? && IntSize(f.dataSize) && x < TWO64
    ensures var n := SignedWord(x, if f.dataSize == 8 then 64 else 32);
            DecNumber(f, EncVarint(x) + t) == if FitsBits(n, 8 * f.dataSize) then Ok(Num(n), t) else Fail
  {
    Widths();
    HalfIs(f.dataSize);
    VarintRoundTrip(x, t);
    LowWord(x);
    SignedAccepts(x, f.dataSize);
    var n := SignedWord(x, if f.dataSize == 8 then 64 else 32);
    if FitsSigned(n, f.dataSize) {
      CastSignedOf(n, f.dataSize);
    }
  }

  lemma LowWord(x: nat)
    requires x < TWO64
    ensures CastSigned(x, 4) == SignedWord(x, 32) && CastSigned(x, 8) == SignedWord(x, 64)
  {
    Widths();
  }

  /** Fixed-width members take the bytes as they come, least significant first. */
  lemma FixedReads(f: Field, bs: Bytes, t: Bytes)
    requires (f.ltype.LFixed32? && |bs| == 4) || (f.ltype.LFixed64? && |bs| == 8)
    ensures DecNumber(f, bs + t) == Ok(Num(FromLE(bs)), t)
  {
    SplitAt(bs, t);
  }

  /**
    Announced bytes: a bytes member holds them after a header of four bytes, a string member
    needs room for a NUL behind them, fixed-length bytes must be complete or missing altogether.
   */
  lemma BlobReads(f: Field, bs: Bytes, t: Bytes, prior: Value)
    requires FieldOk(f) && |bs| < TWO32 - 1
    ensures f.ltype.LBytes? ==>
              DecValue(f, EncSized(bs) + t, prior) == if 4 + |bs| <= f.dataSize then Ok(Blob(bs), t) else Fail
    ensures f.ltype.LString? ==>
              DecValue(f, EncSized(bs) + t, prior)
              == if |bs| + 1 > f.dataSize then Fail
                 else Ok(Blob(bs + [0] + AsBuffer(prior, f.dataSize)[|bs| + 1..]), t)
    ensures f.ltype.LFixedBytes? ==>
              DecValue(f, EncSized(bs) + t, prior)
              == if |bs| == f.dataSize then Ok(Blob(bs), t)
                 else if bs == [] then Ok(Blob(Zeros(f.dataSize)), t)
                 else Fail
  {
    SizedTrip(bs, t);
    assert bs == [] ==> bs + t == t && bs == Zeros(0);
  }

  lemma CutValue(f: Field, n: nat, bs: Bytes, prior: Value)
    requires FieldOk(f) && !Packable(f.ltype) && |bs| < n < TWO32
    ensures DecValue(f, EncVarint(n) + bs, prior).Fail?
  {
    Varint32RoundTrip(n, bs);
  }

  /** Fewer bytes than announced: nothing that has a length is decoded. */
  lemma CutPayload(f: Field, wireType: nat, n: nat, bs: Bytes, slot: Slot, count: nat)
    requires FieldOk(f) && |slot.items| == Cells(f) && |bs| < n < TWO32
    requires !Packable(f.ltype) || (f.htype.Repeated? && wireType == 2)
    ensures DecField(f, wireType, EncVarint(n) + bs, slot, count).Fail?
  {
    if Packable(f.ltype) {
      Varint32RoundTrip(n, bs);
    } else {
      forall prior: Value ensures DecValue(f, EncVarint(n) + bs, prior).Fail? {
        CutValue(f, n, bs, prior);
      }
    }
  }

  /** For a field the reader knows, the wire type of the key only tells packed arrays from single entries. */
  lemma WireTypeIgnored(f: Field, x: nat, y: nat, s: Bytes, slot: Slot, count: nat)
    requires FieldOk(f) && |slot.items| == Cells(f)
    requires f.htype.Repeated? && Packable(f.ltype) ==> (x == 2 <==> y == 2)
    ensures DecField(f, x, s, slot, count) == DecField(f, y, s, slot, count)
  {
  }

  // ---------------------------------------------------------------- the examples of the guide

  /** Field 1 an int32, field 2 a string of up to 15 characters, field 6 up to four int32 numbers. */
  const NUMBER := Field(1, LVarint, Required, Static, 0, 0, 4, 0, Null, 0)
  const TEXT := Field(2, LString, Required, Static, 0, 0, 16, 0, Null, 4)
  const LIST := Field(6, LVarint, Repeated, Static, 4, -4, 4, 4, Null, 24)

  const TESTING: Bytes := [0x74, 0x65, 0x73, 0x74, 0x69, 0x6E, 0x67]

  lemma ExampleVarints()
    ensures EncVarint(150) == [0x96, 0x01] && EncVarint(270) == [0x8E, 0x02] && EncVarint(86942) == [0x9E, 0xA7, 0x05]
  {
  }

  lemma NumberExample()
    ensures EncField(NUMBER, Slot(0, [Num(150)])) == Some([0x08, 0x96, 0x01])
  {
    ExampleVarints();
    var slot := Slot(0, [Num(150)]);
    assert slot.items[0] == Num(150);
    VarintField(NUMBER, Num(150));
    assert EncVarint(8) == [0x08] && [0x08] + [0x96, 0x01] == [0x08, 0x96, 0x01];
  }

  lemma TextOf(b: Bytes)
    requires b == TESTING + Zeros(9)
    ensures CString(b) == TESTING && 0 in b && |b| == 16
  {
    assert b[7] == 0 && b[..7] == TESTING;
    CStringIs(b, TESTING);
  }

  lemma TextExample()
    ensures EncField(TEXT, Slot(0, [Blob(TESTING + Zeros(9))])) == Some([0x12, 0x07] + TESTING)
  {
    var b := TESTING + Zeros(9);
    TextOf(b);
    var slot := Slot(0, [Blob(b)]);
    assert slot.items[0] == Blob(b);
    SizedField(TEXT, Blob(b));
    assert EncVarint(0x12) == [0x12] && EncVarint(7) == [0x07];
    assert [0x12] + ([0x07] + TESTING) == [0x12, 0x07] + TESTING;
  }

  lemma ListItems(items: seq<Value>)
    requires items == [Num(3), Num(270), Num(86942), Num(0)]
    ensures EncItems(LIST, items, 3) == Some([0x03, 0x8E, 0x02, 0x9E, 0xA7, 0x05])
  {
    ExampleVarints();
    assert EncVarint(3) == [0x03];
    assert EncValue(LIST, items[0]) == Some([0x03]);
    assert EncValue(LIST, items[1]) == Some([0x8E, 0x02]);
    assert EncValue(LIST, items[2]) == Some([0x9E, 0xA7, 0x05]);
    assert EncItems(LIST, items, 0) == Some([]);
    assert EncItems(LIST, items, 1) == Append(EncItems(LIST, items, 0), EncValue(LIST, items[0]));
    assert [] + [0x03] == [0x03];
    assert EncItems(LIST, items, 2) == Append(EncItems(LIST, items, 1), EncValue(LIST, items[1]));
    assert EncItems(LIST, items, 3) == Append(EncItems(LIST, items, 2), EncValue(LIST, items[2]));
    var a: Bytes, b: Bytes, c: Bytes := [0x03], [0x8E, 0x02], [0x9E, 0xA7, 0x05];
    assert (a + b) + c == [0x03, 0x8E, 0x02, 0x9E, 0xA7, 0x05];
  }

  lemma ListExample()
    ensures EncField(LIST, Slot(3, [Num(3), Num(270), Num(86942), Num(0)]))
         == Some([0x32, 0x06, 0x03, 0x8E, 0x02, 0x9E, 0xA7, 0x05])
  {
    var slot := Slot(3, [Num(3), Num(270), Num(86942), Num(0)]);
    ListItems(slot.items);
    PackedArrayBytes(LIST, slot.items, 3);
    assert EncField(LIST, slot) == EncArray(LIST, slot.items, 3);
    assert EncVarint(0x32) == [0x32] && EncVarint(6) == [0x06];
    var bs: Bytes := [0x03, 0x8E, 0x02, 0x9E, 0xA7, 0x05];
    assert [0x32] + ([0x06] + bs) == [0x32, 0x06, 0x03, 0x8E, 0x02, 0x9E, 0xA7, 0x05];
  }

  function ExampleStruct(): Msg {
    Msg(map[0 := Slot(0, [Num(150)]), 4 := Slot(0, [Blob(TESTING + Zeros(9))]),
            24 := Slot(3, [Num(3), Num(270), Num(86942), Num(0)])])
  }

  lemma ExampleOk()
    ensures Wf([NUMBER, TEXT, LIST]) && Shaped([NUMBER, TEXT, LIST], ExampleStruct())
  {
  }

  lemma InOrder(fields: seq<Field>, m: Msg, a: Bytes, b: Bytes, c: Bytes)
    requires Wf(fields) && Shaped(fields, m) && |fields| == 3
    requires EncField(fields[0], m.slots[fields[0].at]) == Some(a)
    requires EncField(fields[1], m.slots[fields[1].at]) == Some(b)
    requires EncField(fields[2], m.slots[fields[2].at]) == Some(c)
    ensures Enc(fields, m) == Some(a + b + c)
  {
    assert EncUpTo(fields, 0, m) == Some([]);
    OneMore(fields, 0, m, [], a);
    assert [] + a == a;
    OneMore(fields, 1, m, a, b);
    OneMore(fields, 2, m, a + b, c);
  }

  /** A field is encoded behind those before it. */
  lemma OneMore(fields: seq<Field>, k: nat, m: Msg, before: Bytes, e: Bytes)
    requires Wf(fields) && Shaped(fields, m) && k < |fields|
    requires EncUpTo(fields, k, m) == Some(before) && EncField(fields[k], m.slots[fields[k].at]) == Some(e)
    ensures EncUpTo(fields, k + 1, m) == Some(before + e)
  {
    assert fields[k] in fields;
  }

  /** The messages of the guide, in one: fields in the order of the descriptor. */
  lemma ExampleEncodes()
    ensures Wf([NUMBER, TEXT, LIST]) && Shaped([NUMBER, TEXT, LIST], ExampleStruct())
    ensures Enc([NUMBER, TEXT, LIST], ExampleStruct())
         == Some([0x08, 0x96, 0x01] + ([0x12, 0x07] + TESTING) + [0x32, 0x06, 0x03, 0x8E, 0x02, 0x9E, 0xA7, 0x05])
  {
    NumberExample();
    TextExample();
    ListExample();
    ExampleOk();
    InOrder([NUMBER, TEXT, LIST], ExampleStruct(), [0x08, 0x96, 0x01], [0x12, 0x07] + TESTING,
            [0x32, 0x06, 0x03, 0x8E, 0x02, 0x9E, 0xA7, 0x05]);
  }
}
