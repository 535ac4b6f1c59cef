/**
  When pb_encode succeeds, and when it leaves a proto3 field out, both exactly.
 */
module EncodeExact {
  import opened Prelude
  import opened Bits
  import opened Wire
  import opened Scalars
  import opened Descriptor
  import opened EncodeSpec
  import opened Observe
  import opened ValueTrip
  import opened RoundTrip
  import opened Evolution

  // ---------------------------------------------------------------- success

  /** Integer members have one of four widths, bytes fit behind their header of four bytes. */
  predicate EncodableValue(f: Field, v: Value)
    requires FieldOk(f)
    decreases f, 0
  {
    match f.ltype
    case LVarint => f.dataSize in {1, 2, 4, 8}
    case LUVarint => f.dataSize in {1, 2, 4, 8}
    case LSVarint => f.dataSize in {1, 2, 4, 8}
    case LBytes => 4 + |AsBlob(v)| <= f.dataSize
    case LSubmessage => EncodableMsg(f.ptr.fields, AsMsg(f.ptr.fields, v))
    case _ => true
  }

  /** Whatever is present can be encoded, and no count is above array_size. */
  predicate EncodableSlot(f: Field, slot: Slot)
    requires FieldOk(f) && |slot.items| == Cells(f)
    decreases f, 1
  {
    match f.htype
    case Required => EncodableValue(f, slot.items[0])
    case Optional =>
      (if f.sizeOffset != 0 then slot.size != 0 else !IsZero(f, slot.items[0])) ==> EncodableValue(f, slot.items[0])
    case Repeated =>
      (FixedCount(f) || slot.size <= f.arraySize)
      && forall k :: 0 <= k < f.arraySize && (FixedCount(f) || k < slot.size) ==> EncodableValue(f, slot.items[k])
    case Oneof => slot.size == f.tag ==> EncodableValue(f, slot.items[0])
  }

  predicate EncodableMsg(fields: seq<Field>, m: Msg)
    requires Wf(fields) && Shaped(fields, m)
    decreases fields
  {
    forall i :: 0 <= i < |fields| ==> EncodableSlot(fields[i], m.slots[fields[i].at])
  }

  lemma {:induction false} ValueExact(f: Field, v: Value)
    requires FieldOk(f)
    ensures EncValue(f, v).Some? <==> EncodableValue(f, v)
    decreases f, 0
  {
    if f.ltype.LSubmessage? {
      EncodesExactly(f.ptr.fields, AsMsg(f.ptr.fields, v));
    }
  }

  lemma {:induction false} ItemsExact(f: Field, items: seq<Value>, n: nat)
    requires FieldOk(f) && n <= |items|
    ensures EncItems(f, items, n).Some? <==> forall k :: 0 <= k < n ==> EncodableValue(f, items[k])
    ensures EncEntries(f, items, n).Some? <==> forall k :: 0 <= k < n ==> EncodableValue(f, items[k])
    decreases f, 1, n
  {
    if n > 0 {
      ItemsExact(f, items, n - 1);
      ValueExact(f, items[n - 1]);
    }
  }

  lemma {:induction false} SlotExact(f: Field, slot: Slot)
    requires FieldOk(f) && |slot.items| == Cells(f)
    ensures EncField(f, slot).Some? <==> EncodableSlot(f, slot)
    decreases f, 2
  {
    if f.htype.Repeated? {
      if Entries(f, slot) <= f.arraySize {
        ItemsExact(f, slot.items, Entries(f, slot));
      }
    } else {
      ValueExact(f, slot.items[0]);
    }
  }

  lemma {:induction false} PrefixExact(fields: seq<Field>, k: nat, m: Msg)
    requires Wf(fields) && Shaped(fields, m) && k <= |fields|
    ensures EncUpTo(fields, k, m).Some? <==> forall i :: 0 <= i < k ==> EncodableSlot(fields[i], m.slots[fields[i].at])
    decreases fields, k
  {
    if k > 0 {
      assert fields[k - 1] in fields;
      PrefixExact(fields, k - 1, m);
      SlotExact(fields[k - 1], m.slots[fields[k - 1].at]);
    }
  }

  /**
    Room aside, pb_encode succeeds exactly when every count is within array_size and every
    bytes member that is present fits its buffer, at every depth.
   */
  lemma {:induction false} EncodesExactly(fields: seq<Field>, m: Msg)
    requires Wf(fields) && Shaped(fields, m)
    ensures Enc(fields, m).Some? <==> EncodableMsg(fields, m)
    decreases fields, |fields| + 1
  {
    PrefixExact(fields, |fields|, m);
  }

  // ---------------------------------------------------------------- left out

  /** No digits, no bytes, no characters before the NUL. Fixed-length bytes are never nothing. */
  predicate ReadsAsNothing(f: Field, v: Value)
    requires FieldOk(f)
  {
    match f.ltype
    case LBytes => AsBlob(v) == []
    case LString => CString(AsBuffer(v, f.dataSize)) == []
    case LFixedBytes => f.dataSize == 0
    case LSubmessage => Enc(f.ptr.fields, AsMsg(f.ptr.fields, v)) == Some([])
    case _ => AsNum(v) == 0
  }

  /** A field that is not encoded is default in the sense of the zero check, unions aside. */
  lemma EmptyIsDefault(f: Field, slot: Slot)
    requires FieldOk(f) && |slot.items| == Cells(f) && SlotOk(f, slot) && EncField(f, slot) == Some([])
    ensures if f.htype.Oneof? then slot.size != f.tag else IsDefault(f, slot)
  {
    assert |KeyOf(f)| >= 1;
    assert EncTagged(f, slot.items[0]) != Some([]);
    if f.htype.Repeated? && !Packable(f.ltype) {
      EntriesNotEmpty(f, slot.items, Entries(f, slot));
    } else if f.htype.Optional? && f.sizeOffset == 0 {
      LeftOut(f, slot);
    }
  }

  lemma {:induction false} AllEmpty(fields: seq<Field>, k: nat, m: Msg)
    requires Wf(fields) && Shaped(fields, m) && k <= |fields| && EncUpTo(fields, k, m) == Some([])
    ensures forall i :: 0 <= i < k ==> EncField(fields[i], m.slots[fields[i].at]) == Some([])
    decreases k
  {
    if k > 0 {
      assert fields[k - 1] in fields;
      AllEmpty(fields, k - 1, m);
    }
  }

  /**
    In any struct, valid or not: a required field, an array without a count, or a selector
    that is not 0, whatever it selects, keeps a submessage from being left out.
   */
  lemma NeverDefault(fields: seq<Field>, i: nat, m: Msg)
    requires Wf(fields) && Shaped(fields, m) && i < |fields|
    requires var f := fields[i];
             f.htype.Required? || FixedCount(f) || (f.htype.Oneof? && m.slots[f.at].size != 0)
    ensures !AllDefault(fields, m)
  {
    assert !IsDefault(fields[i], m.slots[fields[i].at]);
  }

  /** A valid submessage passes the zero check exactly when its encoding is empty. */
  lemma AllDefaultIffEmpty(fields: seq<Field>, m: Msg)
    requires Wf(fields) && Shaped(fields, m) && MsgOk(fields, m)
    ensures AllDefault(fields, m) <==> Enc(fields, m) == Some([])
  {
    if AllDefault(fields, m) {
      DefaultIsEmpty(fields, |fields|, m);
    }
    if Enc(fields, m) == Some([]) {
      AllEmpty(fields, |fields|, m);
      forall i | 0 <= i < |fields|
        ensures IsDefault(fields[i], m.slots[fields[i].at])
      {
        var f := fields[i];
        assert SlotOk(f, m.slots[f.at]);
        EmptyIsDefault(f, m.slots[f.at]);
        if f.htype.Oneof? {
          NothingSelected(fields, i, m);
        }
      }
    }
  }

  lemma NothingSelected(fields: seq<Field>, i: nat, m: Msg)
    requires Wf(fields) && Shaped(fields, m) && MsgOk(fields, m) && i < |fields| && fields[i].htype.Oneof?
    requires forall j :: 0 <= j < |fields| ==> EncField(fields[j], m.slots[fields[j].at]) == Some([])
    ensures m.slots[fields[i].at].size == 0
  {
    var which := m.slots[fields[i].at].size;
    assert SelectorOk(fields, fields[i].at, which);
    if which != 0 {
      var j :| 0 <= j < |fields| && fields[j].at == fields[i].at && fields[j].tag == which;
      assert fields[j].htype.Oneof? && SlotOk(fields[j], m.slots[fields[j].at]);
      EmptyIsDefault(fields[j], m.slots[fields[j].at]);
    }
  }

  lemma {:induction false} CStringEmpty(b: Bytes)
    ensures CString(b) == [] <==> b == [] || b[0] == 0
  {
  }

  /** A proto3 singular field with a valid value is left out exactly when it reads as nothing. */
  lemma LeftOutExactly(f: Field, slot: Slot)
    requires FieldOk(f) && f.htype.Optional? && f.sizeOffset == 0 && |slot.items| == 1 && ValueOk(f, slot.items[0])
    ensures EncField(f, slot) == Some([]) <==> ReadsAsNothing(f, slot.items[0])
  {
    var v := slot.items[0];
    LeftOut(f, slot);
    if f.ltype.LSubmessage? {
      AllDefaultIffEmpty(f.ptr.fields, v.msg);
    } else if f.ltype.LString? {
      CStringEmpty(v.bytes);
    } else if Packable(f.ltype) {
      ZeroMember(v.n, f.dataSize);
    }
    assert IsDefault(f, slot) == IsZero(f, v);
    assert |KeyOf(f)| >= 1;
  }
}
