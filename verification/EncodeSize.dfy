/**
  A bound on the encoded size of any struct a descriptor tree describes. As long as the
  bound is a 64-bit number no length the encoder computes leaves size_t.
 */
module EncodeSize {
  import opened Prelude
  import opened Bits
  import opened Wire
  import opened Scalars
  import opened Descriptor
  import opened EncodeSpec

  /** No varint is longer. */
  const VARINT := 10

  function MaxValue(f: Field): nat
    requires FieldOk(f)
    decreases f, 0
  {
    if Packable(f.ltype) then VARINT
    else if f.ltype.LSubmessage? then VARINT + MaxSize(f.ptr.fields)
    else VARINT + f.dataSize
  }

  /** Every entry with a tag, and the tag and length of a packed array. */
  function MaxField(f: Field): (n: nat)
    requires FieldOk(f)
    ensures n >= VARINT + MaxValue(f)
    decreases f, 1
  {
    MulAtLeast(Cells(f), VARINT + MaxValue(f));
    2 * VARINT + Cells(f) * (VARINT + MaxValue(f))
  }

  function MaxUpTo(fields: seq<Field>, k: nat): nat
    requires Wf(fields) && k <= |fields|
    decreases fields, k
  {
    if k == 0 then 0
    else
      assert fields[k - 1] in fields;
      MaxUpTo(fields, k - 1) + MaxField(fields[k - 1])
  }

  function MaxSize(fields: seq<Field>): nat
    requires Wf(fields)
    decreases fields, |fields| + 1
  {
    MaxUpTo(fields, |fields|)
  }

  /** A descriptor tree none of whose structs can overflow size_t. */
  predicate Sizeable(fields: seq<Field>)
    requires Wf(fields)
  {
    MaxSize(fields) < TWO64
  }

  lemma {:induction false} MaxUpToMonotone(fields: seq<Field>, i: nat, k: nat)
    requires Wf(fields) && i < k <= |fields|
    ensures MaxUpTo(fields, i) + MaxField(fields[i]) <= MaxUpTo(fields, k)
    decreases k
  {
    if i < k - 1 {
      MaxUpToMonotone(fields, i, k - 1);
    }
  }

  lemma MulNext(n: nat, m: nat)
    requires n > 0
    ensures (n - 1) * m + m == n * m
  {
  }

  lemma MulMonotone(a: nat, b: nat, x: nat, y: nat)
    requires a <= b && x <= y
    ensures a * x <= b * y
  {
    assert (b - a) * x >= 0 && (b - a) * x == b * x - a * x;
    assert b * (y - x) >= 0 && b * (y - x) == b * y - b * x;
  }

  lemma SizedBound(bs: Bytes)
    requires |bs| < TWO64
    ensures |EncSized(bs)| <= VARINT + |bs|
  {
    VarintAtMostTen(|bs|);
  }

  lemma NumberBound(f: Field, n: int)
    requires Packable(f.ltype) && EncNumber(f, n).Some?
    ensures |EncNumber(f, n).value| <= VARINT
  {
    if f.ltype.LBool? {
    } else if f.ltype.LFixed32? || f.ltype.LFixed64? {
    } else {
      VarintAtMostTen(if f.ltype.LSVarint? then ZigZag(CastSigned(n, 8)) else ToU64(n));
    }
  }

  lemma {:induction false} ValueBound(f: Field, v: Value)
    requires FieldOk(f) && MaxValue(f) < TWO64 && EncValue(f, v).Some?
    ensures |EncValue(f, v).value| <= MaxValue(f)
    decreases f, 0
  {
    if Packable(f.ltype) {
      NumberBound(f, AsNum(v));
    } else if f.ltype.LSubmessage? {
      var m := AsMsg(f.ptr.fields, v);
      SizeBound(f.ptr.fields, m);
      SizedBound(Enc(f.ptr.fields, m).value);
    } else if f.ltype.LBytes? {
      SizedBound(AsBlob(v));
    } else {
      var b := AsBuffer(v, f.dataSize);
      SizedBound(if f.ltype.LString? then b[..StrnLen(b, f.dataSize)] else b);
    }
  }

  lemma TaggedBound(f: Field, v: Value)
    requires FieldOk(f) && MaxValue(f) < TWO64 && EncTagged(f, v).Some?
    ensures |EncTagged(f, v).value| <= VARINT + MaxValue(f)
    decreases f, 1
  {
    ValueBound(f, v);
    VarintAtMostTen(f.tag * 8 + WireTypeOf(f.ltype));
  }

  lemma {:induction false} ItemsBound(f: Field, items: seq<Value>, n: nat)
    requires FieldOk(f) && MaxValue(f) < TWO64 && n <= |items| && EncItems(f, items, n).Some?
    ensures |EncItems(f, items, n).value| <= n * MaxValue(f)
    decreases f, 1, n
  {
    if n > 0 {
      ItemsBound(f, items, n - 1);
      ValueBound(f, items[n - 1]);
      MulNext(n, MaxValue(f));
    }
  }

  lemma {:induction false} EntriesBound(f: Field, items: seq<Value>, n: nat)
    requires FieldOk(f) && MaxValue(f) < TWO64 && n <= |items| && EncEntries(f, items, n).Some?
    ensures |EncEntries(f, items, n).value| <= n * (VARINT + MaxValue(f))
    decreases f, 2, n
  {
    if n > 0 {
      EntriesBound(f, items, n - 1);
      TaggedBound(f, items[n - 1]);
      MulNext(n, VARINT + MaxValue(f));
    }
  }

  lemma PackedBound(f: Field, items: seq<Value>, count: nat)
    requires FieldOk(f) && MaxField(f) < TWO64 && f.htype.Repeated? && count <= f.arraySize == |items|
    requires EncItems(f, items, count).Some?
    ensures |EncItems(f, items, count).value| <= f.arraySize * (VARINT + MaxValue(f)) < TWO64
    ensures |EncTag(WT_STRING, f.tag) + EncSized(EncItems(f, items, count).value)| <= MaxField(f)
    decreases f, 2
  {
    var bs := EncItems(f, items, count).value;
    ItemsBound(f, items, count);
    MulMonotone(count, f.arraySize, MaxValue(f), VARINT + MaxValue(f));
    VarintAtMostTen(f.tag * 8 + WT_STRING);
    SizedBound(bs);
  }

  lemma ArrayBound(f: Field, items: seq<Value>, count: nat)
    requires FieldOk(f) && MaxField(f) < TWO64 && f.htype.Repeated? && |items| == f.arraySize
    requires EncArray(f, items, count).Some?
    ensures |EncArray(f, items, count).value| <= MaxField(f)
    decreases f, 3
  {
    if count == 0 {
    } else if Packable(f.ltype) {
      PackedBound(f, items, count);
    } else {
      EntriesBound(f, items, count);
      MulMonotone(count, f.arraySize, VARINT + MaxValue(f), VARINT + MaxValue(f));
    }
  }

  lemma FieldBound(f: Field, slot: Slot)
    requires FieldOk(f) && MaxField(f) < TWO64 && |slot.items| == Cells(f) && EncField(f, slot).Some?
    ensures |EncField(f, slot).value| <= MaxField(f)
    decreases f, 4
  {
    if f.htype.Repeated? {
      ArrayBound(f, slot.items, if f.sizeOffset != 0 then slot.size else f.arraySize);
    } else if EncTagged(f, slot.items[0]).Some? {
      TaggedBound(f, slot.items[0]);
    }
  }

  lemma {:induction false} UpToBound(fields: seq<Field>, k: nat, m: Msg)
    requires Wf(fields) && Shaped(fields, m) && k <= |fields| && Sizeable(fields)
    requires EncUpTo(fields, k, m).Some?
    ensures |EncUpTo(fields, k, m).value| <= MaxUpTo(fields, k)
    decreases fields, k
  {
    if k > 0 {
      UpToBound(fields, k - 1, m);
      MaxUpToMonotone(fields, k - 1, |fields|);
      assert fields[k - 1] in fields;
      FieldBound(fields[k - 1], m.slots[fields[k - 1].at]);
    }
  }

  /** No struct encodes to more than the bound of its descriptor. */
  lemma SizeBound(fields: seq<Field>, m: Msg)
    requires Wf(fields) && Shaped(fields, m) && Sizeable(fields) && Enc(fields, m).Some?
    ensures |Enc(fields, m).value| <= MaxSize(fields)
    decreases fields, |fields| + 1
  {
    UpToBound(fields, |fields|, m);
  }
}
