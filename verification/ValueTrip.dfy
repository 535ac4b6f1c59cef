/** One cell or one array encoded and decoded again. */
module ValueTrip {
  import opened Prelude
  import opened Bits
  import opened Wire
  import opened Scalars
  import opened Descriptor
  import opened DecodeSpec
  import opened EncodeSpec
  import opened Observe
  import opened Merge

  // ---------------------------------------------------------------- scalars

  lemma SizedTrip(bs: Bytes, t: Bytes)
    requires |bs| < TWO32
    ensures DecVarint32(EncSized(bs) + t) == Ok(|bs|, bs + t)
    ensures Take(bs + t, |bs|) == Ok(bs, t)
  {
    Assoc(EncVarint(|bs|), bs, t);
    SplitAt(bs, t);
    Varint32RoundTrip(|bs|, bs + t);
  }

  lemma FixedTrip(n: int, size: nat, t: Bytes)
    requires (size == 4 || size == 8) && FitsUnsigned(n, size)
    ensures var bs := ToLE(CastUnsigned(n, size), size);
            Take(bs + t, size) == Ok(bs, t) && FromLE(bs) == n
  {
    Widths();
    CastUnsignedOf(n, size);
    LERoundTrip(n, size);
    var bs := ToLE(n, size);
    SplitAt(bs, t);
  }

  /** Every number is read back as it was. */
  lemma VarintTrip(f: Field, v: Value, t: Bytes)
    requires FieldOk(f) && ValueOk(f, v) && (f.ltype.LVarint? || f.ltype.LUVarint? || f.ltype.LSVarint?)
    ensures EncValue(f, v).Some? && DecNumber(f, EncValue(f, v).value + t) == Ok(v, t)
  {
    var n := v.n;
    if f.ltype.LVarint? {
      VarintRoundTrip(ToU64(n), t);
      SignedRoundTrip(n, f.dataSize);
    } else if f.ltype.LUVarint? {
      CastUnsignedOf(n, 8);
      VarintRoundTrip(ToU64(n), t);
      UnsignedAccepts(n, f.dataSize);
    } else {
      CastSignedOf(n, 8);
      VarintRoundTrip(ZigZag(n), t);
      ZigZagRoundTrip(n);
      ZigZagAccepts(ZigZag(n), f.dataSize);
    }
  }

  /** Every packable value is read back as it was. */
  lemma PackableTrip(f: Field, v: Value, t: Bytes)
    requires FieldOk(f) && Packable(f.ltype) && ValueOk(f, v)
    ensures EncValue(f, v).Some? && DecNumber(f, EncValue(f, v).value + t) == Ok(v, t)
  {
    if f.ltype.LBool? {
      Varint32RoundTrip(v.n, t);
    } else if f.ltype.LFixed32? || f.ltype.LFixed64? {
      FixedTrip(v.n, if f.ltype.LFixed32? then 4 else 8, t);
    } else {
      VarintTrip(f, v, t);
    }
  }

  // ---------------------------------------------------------------- strings and bytes

  lemma {:induction false} StrnLenIsCString(b: Bytes)
    ensures b[..StrnLen(b, |b|)] == CString(b)
    decreases |b|
  {
    if b != [] && b[0] != 0 {
      StrnLenIsCString(b[1..]);
      var n := StrnLen(b[1..], |b[1..]|);
      assert b[..1 + n] == [b[0]] + b[1..][..n];
    }
  }

  lemma {:induction false} CStringShorter(b: Bytes)
    requires 0 in b
    ensures |CString(b)| < |b|
    decreases |b|
  {
    if b[0] != 0 {
      assert 0 in b[1..];
      CStringShorter(b[1..]);
    }
  }

  /** A string read into any buffer reads the same as the one it was taken from. */
  lemma StringSame(f: Field, v: Value, prior: Value)
    requires FieldOk(f) && f.ltype.LString? && ValueOk(f, v) && |CString(v.bytes)| + 1 <= f.dataSize
    ensures SameValue(f, v, BlobOf(f, CString(v.bytes), prior), false)
  {
    var s := CString(v.bytes);
    CStringIs(s, s);
    StringPrefix(s, AsBuffer(prior, f.dataSize)[|s| + 1..]);
  }

  /** A string is read back up to its NUL. */
  lemma StringTrip(f: Field, v: Value, t: Bytes, prior: Value)
    requires FieldOk(f) && f.ltype.LString? && ValueOk(f, v)
    ensures EncValue(f, v).Some?
    ensures var p := DecValue(f, EncValue(f, v).value + t, prior);
            p.Ok? && p.rest == t && SameValue(f, v, p.value, false)
  {
    var s := CString(v.bytes);
    StrnLenIsCString(v.bytes);
    CStringShorter(v.bytes);
    SizedTrip(s, t);
    assert EncBlob(f, v) == Some(EncSized(s));
    StringSame(f, v, prior);
  }

  lemma BytesTrip(f: Field, v: Value, t: Bytes, prior: Value)
    requires FieldOk(f) && (f.ltype.LBytes? || f.ltype.LFixedBytes?) && ValueOk(f, v)
    ensures EncValue(f, v).Some?
    ensures var p := DecValue(f, EncValue(f, v).value + t, prior);
            p.Ok? && p.rest == t && SameValue(f, v, p.value, false)
  {
    SizedTrip(v.bytes, t);
    if |v.bytes| == 0 {
      assert v.bytes == Zeros(0);
    }
  }

  // ---------------------------------------------------------------- packed arrays

  /** Reading two packed stretches in one chunk is reading one after the other. */
  lemma {:induction false} PackedConcat(f: Field, a: Bytes, b: Bytes, items: seq<Value>, count: nat)
    requires Packable(f.ltype) && |items| == f.arraySize
    requires var r := PackedLoop(f, a, items, count); r.PackedOk? && r.rest == []
    ensures var r := PackedLoop(f, a, items, count);
            PackedLoop(f, a + b, items, count) == PackedLoop(f, b, r.items, r.count)
    decreases |a|
  {
    if a == [] {
      assert a + b == b;
    } else {
      var p := DecNumber(f, a);
      DecNumberLocal(f, a, b);
      PackedConcat(f, p.rest, b, items[count := p.value], count + 1);
    }
  }

  /** The cells of `base` with `vals` written from position `at` on. */
  function Overlay(base: seq<Value>, at: nat, vals: seq<Value>): (r: seq<Value>)
    requires at + |vals| <= |base|
    ensures |r| == |base|
    ensures forall k :: 0 <= k < |base| ==> r[k] == if at <= k < at + |vals| then vals[k - at] else base[k]
  {
    base[..at] + vals + base[at + |vals|..]
  }

  lemma OverlayNext(base: seq<Value>, at: nat, vals: seq<Value>, n: nat)
    requires 1 <= n <= |vals| && at + n <= |base|
    ensures Overlay(base, at, vals[..n - 1])[at + n - 1 := vals[n - 1]] == Overlay(base, at, vals[..n])
  {
  }

  /** One valid entry fills one cell. */
  lemma PackedOne(f: Field, v: Value, items: seq<Value>, count: nat)
    requires FieldOk(f) && Packable(f.ltype) && |items| == f.arraySize && ValueOk(f, v) && count < f.arraySize
    ensures EncValue(f, v).Some? && EncValue(f, v).value != []
    ensures PackedLoop(f, EncValue(f, v).value, items, count) == PackedOk(items[count := v], count + 1, [])
  {
    PackableTrip(f, v, []);
    EmptyRight(EncValue(f, v).value);
    assert PackedLoop(f, [], items[count := v], count + 1) == PackedOk(items[count := v], count + 1, []);
  }

  /** One more valid entry at the end of a packed chunk. */
  lemma PackedMore(f: Field, a: Bytes, v: Value, base: seq<Value>, count: nat, before: seq<Value>, n: nat)
    requires FieldOk(f) && Packable(f.ltype) && |base| == f.arraySize && ValueOk(f, v)
    requires PackedLoop(f, a, base, count) == PackedOk(before, n, []) && n < f.arraySize
    ensures EncValue(f, v).Some?
    ensures PackedLoop(f, a + EncValue(f, v).value, base, count) == PackedOk(before[n := v], n + 1, [])
  {
    PackedOne(f, v, before, n);
    PackedConcat(f, a, EncValue(f, v).value, base, count);
  }

  lemma PackedNext(f: Field, vals: seq<Value>, n: nat, base: seq<Value>, count: nat)
    requires FieldOk(f) && Packable(f.ltype) && |base| == f.arraySize && 1 <= n <= |vals|
    requires ValueOk(f, vals[n - 1]) && count + n <= f.arraySize && EncItems(f, vals, n - 1).Some?
    requires PackedLoop(f, EncItems(f, vals, n - 1).value, base, count)
          == PackedOk(Overlay(base, count, vals[..n - 1]), count + n - 1, [])
    ensures EncItems(f, vals, n).Some?
    ensures PackedLoop(f, EncItems(f, vals, n).value, base, count) == PackedOk(Overlay(base, count, vals[..n]), count + n, [])
  {
    var before := Overlay(base, count, vals[..n - 1]);
    PackedMore(f, EncItems(f, vals, n - 1).value, vals[n - 1], base, count, before, count + n - 1);
    OverlayNext(base, count, vals, n);
  }

  /** A packed chunk of n valid entries fills the next n cells with exactly those entries. */
  lemma {:induction false} PackedTrip(f: Field, vals: seq<Value>, n: nat, base: seq<Value>, count: nat)
    requires FieldOk(f) && Packable(f.ltype) && |base| == f.arraySize && n <= |vals|
    requires forall k :: 0 <= k < n ==> ValueOk(f, vals[k])
    requires count + n <= f.arraySize
    ensures EncItems(f, vals, n).Some?
    ensures PackedLoop(f, EncItems(f, vals, n).value, base, count) == PackedOk(Overlay(base, count, vals[..n]), count + n, [])
    decreases n
  {
    if n == 0 {
      assert Overlay(base, count, vals[..0]) == base;
    } else {
      PackedTrip(f, vals, n - 1, base, count);
      PackedNext(f, vals, n, base, count);
    }
  }

  /** A packed chunk holding a whole list. */
  lemma PackedWhole(f: Field, vals: seq<Value>, base: seq<Value>, count: nat)
    requires FieldOk(f) && Packable(f.ltype) && |base| == f.arraySize
    requires forall k :: 0 <= k < |vals| ==> ValueOk(f, vals[k])
    requires count + |vals| <= f.arraySize
    ensures EncItems(f, vals, |vals|).Some?
    ensures PackedLoop(f, EncItems(f, vals, |vals|).value, base, count)
         == PackedOk(Overlay(base, count, vals), count + |vals|, [])
  {
    PackedTrip(f, vals, |vals|, base, count);
    TakeAll(vals);
  }

  lemma {:induction false} ItemsOfPrefix(f: Field, items: seq<Value>, n: nat, k: nat)
    requires FieldOk(f) && k <= n <= |items|
    ensures EncItems(f, items[..n], k) == EncItems(f, items, k)
    decreases k
  {
    if k > 0 {
      ItemsOfPrefix(f, items, n, k - 1);
      assert items[..n][k - 1] == items[k - 1];
    }
  }
}
