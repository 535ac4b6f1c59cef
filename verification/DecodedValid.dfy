/**
  What the decoder leaves is valid, whatever bytes it read: a struct that pb_decode accepted
  can be encoded again. Only fixed-count arrays, which keep prior contents, ask anything of
  the destination.
 */
module DecodedValid {
  import opened Prelude
  import opened Bits
  import opened Wire
  import opened Scalars
  import opened Descriptor
  import opened DecodeSpec
  import opened EncodeSpec
  import opened Observe
  import opened RoundTrip

  // ---------------------------------------------------------------- descriptors of generated structs

  /** A union somewhere in the struct. */
  predicate HoldsUnion(fields: seq<Field>)
    decreases fields
  {
    exists i :: 0 <= i < |fields| && FieldHoldsUnion(fields[i])
  }

  predicate FieldHoldsUnion(f: Field)
    decreases f
  {
    f.htype.Oneof? || (f.ptr.Fields? && HoldsUnion(f.ptr.fields))
  }

  /**
    The sizes of the C types, an initial value of the right type, and which_ members and the
    structs around them at multiples of their own four bytes.
   */
  predicate SoundField(f: Field)
    requires FieldOk(f)
    decreases f
  {
    && (f.ltype.LBool? ==> f.dataSize == 1)
    && (f.ltype.LVarint? || f.ltype.LUVarint? || f.ltype.LSVarint? ==> IntSize(f.dataSize))
    && (f.ltype.LFixed32? ==> f.dataSize == 4) && (f.ltype.LFixed64? ==> f.dataSize == 8)
    && (f.ltype.LBytes? ==> f.dataSize >= BYTES_HEADER) && (f.ltype.LString? ==> f.dataSize >= 1)
    && (f.ptr.Default? ==> ValueOk(f, f.ptr.value))
    && (f.htype.Oneof? ==> SizeAt(f) % SIZE_WIDTH == 0)
    && (FieldHoldsUnion(f) ==> f.at % SIZE_WIDTH == 0)
    && (f.ptr.Fields? ==> Sound(f.ptr.fields) && (HoldsUnion(f.ptr.fields) ==> f.dataSize % SIZE_WIDTH == 0))
  }

  predicate Sound(fields: seq<Field>)
    requires Wf(fields)
    decreases fields
  {
    forall i :: 0 <= i < |fields| ==> SoundField(fields[i])
  }

  // ---------------------------------------------------------------- valid at every depth

  /**
    A cell that holds a valid value, even where it cannot be observed yet. Without `whole`
    only the fixed-count arrays in it do.
   */
  predicate TidyValue(f: Field, v: Value, whole: bool)
    requires FieldOk(f)
    decreases f, 0
  {
    if f.ltype.LSubmessage? then
      (whole ==> v.Sub? && Shaped(f.ptr.fields, v.msg)) && TidyMsg(f.ptr.fields, AsMsg(f.ptr.fields, v), whole)
    else whole ==> ValueOk(f, v)
  }

  predicate TidySlot(f: Field, slot: Slot, whole: bool)
    requires FieldOk(f) && |slot.items| == Cells(f)
    decreases f, 1
  {
    match f.htype
    case Required => TidyValue(f, slot.items[0], whole)
    case Optional => TidyValue(f, slot.items[0], whole)
    case Oneof => whole && slot.size == f.tag ==> TidyValue(f, slot.items[0], true)
    case Repeated =>
      if FixedCount(f) then forall k :: 0 <= k < f.arraySize ==> TidyValue(f, slot.items[k], true)
      else
        (whole ==> slot.size <= f.arraySize)
        && forall k :: 0 <= k < f.arraySize ==> TidyValue(f, slot.items[k], whole && k < slot.size)
  }

  predicate TidyMsg(fields: seq<Field>, m: Msg, whole: bool)
    requires Wf(fields) && Shaped(fields, m)
    decreases fields
  {
    && (forall i :: 0 <= i < |fields| ==> TidySlot(fields[i], m.slots[fields[i].at], whole))
    && (forall i :: 0 <= i < |fields| && fields[i].htype.Oneof? && whole ==>
          SelectorOk(fields, fields[i].at, m.slots[fields[i].at].size))
  }

  lemma {:induction false} TidyIsOk(f: Field, v: Value)
    requires FieldOk(f) && TidyValue(f, v, true)
    ensures ValueOk(f, v)
    decreases f, 0
  {
    if f.ltype.LSubmessage? {
      TidyMsgIsOk(f.ptr.fields, v.msg);
    }
  }

  lemma {:induction false} TidySlotIsOk(f: Field, slot: Slot)
    requires FieldOk(f) && |slot.items| == Cells(f) && TidySlot(f, slot, true)
    ensures SlotOk(f, slot)
    decreases f, 1
  {
    forall k | 0 <= k < |slot.items| && TidyValue(f, slot.items[k], true)
      ensures ValueOk(f, slot.items[k])
    {
      TidyIsOk(f, slot.items[k]);
    }
  }

  lemma {:induction false} TidyMsgIsOk(fields: seq<Field>, m: Msg)
    requires Wf(fields) && Shaped(fields, m) && TidyMsg(fields, m, true)
    ensures MsgOk(fields, m)
    decreases fields
  {
    forall i | 0 <= i < |fields|
      ensures SlotOk(fields[i], m.slots[fields[i].at])
    {
      TidySlotIsOk(fields[i], m.slots[fields[i].at]);
    }
  }

  lemma {:induction false} TidyLess(f: Field, v: Value, whole: bool)
    requires FieldOk(f) && TidyValue(f, v, whole)
    ensures TidyValue(f, v, false)
    decreases f, 0
  {
    if f.ltype.LSubmessage? {
      TidyMsgLess(f.ptr.fields, AsMsg(f.ptr.fields, v), whole);
    }
  }

  lemma {:induction false} TidySlotLess(f: Field, slot: Slot, whole: bool)
    requires FieldOk(f) && |slot.items| == Cells(f) && TidySlot(f, slot, whole)
    ensures TidySlot(f, slot, false)
    decreases f, 1
  {
    if !f.htype.Oneof? {
      forall k, b | 0 <= k < |slot.items| && TidyValue(f, slot.items[k], b)
        ensures TidyValue(f, slot.items[k], false)
      {
        TidyLess(f, slot.items[k], b);
      }
    }
  }

  lemma {:induction false} TidyMsgLess(fields: seq<Field>, m: Msg, whole: bool)
    requires Wf(fields) && Shaped(fields, m) && TidyMsg(fields, m, whole)
    ensures TidyMsg(fields, m, false)
    decreases fields
  {
    forall i | 0 <= i < |fields|
      ensures TidySlot(fields[i], m.slots[fields[i].at], false)
    {
      TidySlotLess(fields[i], m.slots[fields[i].at], whole);
    }
  }

  // ---------------------------------------------------------------- zeroed structs

  lemma {:induction false} ZeroTidy(f: Field)
    requires FieldOk(f) && SoundField(f)
    ensures TidyValue(f, ZeroValue(f), true)
    decreases f, 0
  {
    if f.ltype.LSubmessage? {
      ZeroMsgTidy(f.ptr.fields);
    } else if f.ltype.LString? {
      assert Zeros(f.dataSize)[0] == 0;
    }
  }

  /** A zeroed struct is valid. */
  lemma {:induction false} ZeroMsgTidy(fields: seq<Field>)
    requires Wf(fields) && Sound(fields)
    ensures TidyMsg(fields, Zero(fields), true)
    decreases fields
  {
    forall i | 0 <= i < |fields|
      ensures TidySlot(fields[i], Zero(fields).slots[fields[i].at], true)
      ensures fields[i].htype.Oneof? ==> SelectorOk(fields, fields[i].at, Zero(fields).slots[fields[i].at].size)
    {
      ZeroAt(fields, |fields|, i);
      assert FieldOk(fields[i]) && SoundField(fields[i]);
      ZeroTidy(fields[i]);
      TidyLess(fields[i], ZeroValue(fields[i]), true);
    }
  }

  // ---------------------------------------------------------------- clearing keeps a struct valid

  /** Clearing the first `w` bytes never cuts a which_ member in two. */
  predicate Clears(f: Field, w: nat) {
    w <= SIZE_WIDTH && (f.ptr.Fields? && HoldsUnion(f.ptr.fields) ==> w % SIZE_WIDTH == 0)
  }

  lemma WipeScalarTidy(f: Field, v: Value, w: nat)
    requires FieldOk(f) && SoundField(f) && !f.ltype.LSubmessage? && w <= SIZE_WIDTH && ValueOk(f, v)
    ensures ValueOk(f, WipeValue(f, v, w))
  {
    if w > 0 && f.ltype.LString? {
      var b := v.bytes;
      var i :| 0 <= i < |b| && b[i] == 0;
      assert ClearStart(b, w)[i] == 0;
    }
  }

  lemma {:induction false} WipeTidy(f: Field, v: Value, w: nat, whole: bool)
    requires FieldOk(f) && SoundField(f) && Clears(f, w) && TidyValue(f, v, whole)
    ensures TidyValue(f, WipeValue(f, v, w), whole)
    decreases f, 0
  {
    if f.ltype.LSubmessage? {
      if w > 0 {
        WipeMsgTidy(f.ptr.fields, AsMsg(f.ptr.fields, v), w, whole);
      }
    } else if whole {
      WipeScalarTidy(f, v, w);
    }
  }

  lemma CellClears(f: Field, w: nat, k: nat)
    requires FieldOk(f) && SoundField(f) && Clears(f, w)
    ensures Clears(f, CellReach(f, w, k))
  {
    if f.ptr.Fields? && HoldsUnion(f.ptr.fields) && k * f.dataSize < w {
      assert k * f.dataSize == 0 by {
        if k > 0 && f.dataSize > 0 {
          assert f.dataSize >= SIZE_WIDTH;
          MulAtLeast(k, f.dataSize);
        }
      }
    }
  }

  lemma {:induction false} WipeSlotTidy(f: Field, was: Slot, now: Slot, w: nat, whole: bool)
    requires FieldOk(f) && SoundField(f) && |was.items| == |now.items| == Cells(f)
    requires w <= SIZE_WIDTH && (FieldHoldsUnion(f) ==> w % SIZE_WIDTH == 0) && TidySlot(f, was, whole)
    ensures TidySlot(f, WipeSlot(f, was, now, w), whole)
    decreases f, 1
  {
    var r := WipeSlot(f, was, now, w);
    var d := Reach(w, f.at);
    forall k, b | 0 <= k < |was.items| && TidyValue(f, was.items[k], b)
      ensures TidyValue(f, WipeItems(f, was.items, d)[k], b)
    {
      CellClears(f, d, k);
      WipeTidy(f, was.items[k], CellReach(f, d, k), b);
    }
    if f.htype.Repeated? && !FixedCount(f) {
      forall k | 0 <= k < f.arraySize ensures TidyValue(f, r.items[k], whole && k < r.size) {
        assert TidyValue(f, was.items[k], whole && k < was.size);
        TidyLess(f, r.items[k], whole && k < was.size);
      }
    }
  }

  /** A which_ member is cleared as a whole or not at all. */
  lemma WipeSelector(f: Field, which: nat, w: nat)
    requires FieldOk(f) && SoundField(f) && f.htype.Oneof? && w <= SIZE_WIDTH && w % SIZE_WIDTH == 0
    ensures WipeSize(f, which, w) == which || WipeSize(f, which, w) == 0
  {
  }

  lemma {:induction false} WipedMember(fields: seq<Field>, i: nat, m: Msg, w: nat, whole: bool)
    requires Wf(fields) && Shaped(fields, m) && i < |fields| && SoundField(fields[i])
    requires TidySlot(fields[i], m.slots[fields[i].at], whole)
    requires w <= SIZE_WIDTH && (FieldHoldsUnion(fields[i]) ==> w % SIZE_WIDTH == 0)
    ensures TidySlot(fields[i], WipeMsg(fields, m, w).slots[fields[i].at], whole)
    ensures fields[i].htype.Oneof? ==>
              WipeMsg(fields, m, w).slots[fields[i].at].size in {m.slots[fields[i].at].size, 0}
    decreases fields, 0
  {
    var f := fields[i];
    var was, r := m.slots[f.at], WipeMsg(fields, m, w).slots[f.at];
    WipeAt(fields, |fields|, m, w, i);
    WipeSlotTidy(f, was, was, w, whole);
    if f.htype.Oneof? {
      WipeSelector(f, was.size, w);
      assert FieldOk(f);
    } else {
      assert r == WipeSlot(f, was, was, w);
    }
  }

  /** Clearing the first bytes of a valid struct leaves a valid struct. */
  lemma {:induction false} WipeMsgTidy(fields: seq<Field>, m: Msg, w: nat, whole: bool)
    requires Wf(fields) && Sound(fields) && Shaped(fields, m) && TidyMsg(fields, m, whole)
    requires w <= SIZE_WIDTH && (HoldsUnion(fields) ==> w % SIZE_WIDTH == 0)
    ensures TidyMsg(fields, WipeMsg(fields, m, w), whole)
    decreases fields, 1
  {
    var r := WipeMsg(fields, m, w);
    forall i | 0 <= i < |fields|
      ensures TidySlot(fields[i], r.slots[fields[i].at], whole)
      ensures fields[i].htype.Oneof? ==> r.slots[fields[i].at].size in {m.slots[fields[i].at].size, 0}
    {
      assert SoundField(fields[i]) && TidySlot(fields[i], m.slots[fields[i].at], whole);
      WipedMember(fields, i, m, w, whole);
    }
  }

  // ---------------------------------------------------------------- defaults

  lemma {:induction false} DefaultTidy(f: Field, prior: Value)
    requires FieldOk(f) && SoundField(f) && TidyValue(f, prior, false)
    ensures TidyValue(f, DefaultValue(f, prior), true)
    decreases f, 0
  {
    if f.ltype.LSubmessage? {
      DefaultsTidy(f.ptr.fields, AsMsg(f.ptr.fields, prior));
    } else if !f.ptr.Default? {
      ZeroTidy(f);
    }
  }

  lemma {:induction false} DefaultSlotTidy(f: Field, slot: Slot)
    requires FieldOk(f) && SoundField(f) && |slot.items| == Cells(f) && TidySlot(f, slot, false)
    ensures TidySlot(f, DefaultSlot(f, slot), true)
    decreases f, 1
  {
    if FixedCount(f) {
      forall k | 0 <= k < f.arraySize
        ensures TidyValue(f, WipeItems(f, slot.items, SIZE_WIDTH)[k], true)
      {
        CellClears(f, SIZE_WIDTH, k);
        WipeTidy(f, slot.items[k], CellReach(f, SIZE_WIDTH, k), true);
      }
    } else if f.htype.Required? || f.htype.Optional? {
      DefaultTidy(f, slot.items[0]);
    }
  }

  /** Setting defaults makes any struct valid whose fixed-count arrays are. */
  lemma {:induction false} DefaultsTidy(fields: seq<Field>, m: Msg)
    requires Wf(fields) && Sound(fields) && Shaped(fields, m) && TidyMsg(fields, m, false)
    ensures TidyMsg(fields, SetDefaults(fields, m), true)
    decreases fields
  {
    var r := SetDefaults(fields, m);
    forall i | 0 <= i < |fields|
      ensures TidySlot(fields[i], r.slots[fields[i].at], true)
      ensures fields[i].htype.Oneof? ==> r.slots[fields[i].at].size == 0
    {
      assert FieldOk(fields[i]) && SoundField(fields[i]) && TidySlot(fields[i], m.slots[fields[i].at], false);
      DefaultsAt(fields, |fields|, m, i);
      DefaultSlotTidy(fields[i], m.slots[fields[i].at]);
    }
  }

  // ---------------------------------------------------------------- one value

  lemma NumberTidy(f: Field, s: Bytes)
    requires FieldOk(f) && SoundField(f) && Packable(f.ltype) && DecNumber(f, s).Ok?
    ensures ValueOk(f, DecNumber(f, s).value)
  {
    if f.ltype.LFixed32? || f.ltype.LFixed64? {
      LEBound(Take(s, if f.ltype.LFixed32? then 4 else 8).value);
      Widths();
    }
  }

  lemma BlobTidy(f: Field, s: Bytes, prior: Value)
    requires FieldOk(f) && (f.ltype.LBytes? || f.ltype.LString? || f.ltype.LFixedBytes?)
    requires DecBlob(f, s, prior).Ok?
    ensures ValueOk(f, DecBlob(f, s, prior).value)
  {
    var l := DecVarint32(s);
    if f.ltype.LString? {
      var bs := Take(l.rest, l.value).value;
      assert DecBlob(f, s, prior).value.bytes[|bs|] == 0;
    }
  }

  /** A submessage is merged into a valid one; an array entry is set to defaults first. */
  lemma {:induction false} ReadTidy(f: Field, s: Bytes, prior: Value)
    requires FieldOk(f) && SoundField(f) && DecValue(f, s, prior).Ok?
    requires f.ltype.LSubmessage? ==> TidyValue(f, prior, !f.htype.Repeated?)
    ensures TidyValue(f, DecValue(f, s, prior).value, true)
    decreases |s|, 1
  {
    if Packable(f.ltype) {
      NumberTidy(f, s);
    } else if f.ltype.LSubmessage? {
      var l := DecVarint32(s);
      var sub := l.rest[..l.value];
      var m := AsMsg(f.ptr.fields, prior);
      if f.htype.Repeated? {
        DecodeTidy(f.ptr.fields, sub, m);
      } else {
        NoinitTidy(f.ptr.fields, sub, m);
      }
    } else {
      BlobTidy(f, s, prior);
    }
  }

  // ---------------------------------------------------------------- one field

  /** The first `count` entries of an array are valid, and all of them if it has no count. */
  predicate TidyItems(f: Field, items: seq<Value>, count: nat)
    requires FieldOk(f) && |items| == f.arraySize
  {
    forall k :: 0 <= k < f.arraySize ==> TidyValue(f, items[k], FixedCount(f) || k < count)
  }

  lemma TidyItemsNext(f: Field, items: seq<Value>, count: nat, v: Value)
    requires FieldOk(f) && |items| == f.arraySize && count < f.arraySize
    requires TidyItems(f, items, count) && TidyValue(f, v, true)
    ensures TidyItems(f, items[count := v], count + 1)
  {
    TidyLess(f, v, true);
  }

  lemma {:induction false} PackedTidy(f: Field, s: Bytes, items: seq<Value>, count: nat)
    requires FieldOk(f) && SoundField(f) && Packable(f.ltype) && |items| == f.arraySize
    requires TidyItems(f, items, count) && PackedLoop(f, s, items, count).PackedOk?
    ensures var r := PackedLoop(f, s, items, count);
            TidyItems(f, r.items, r.count) && (count <= f.arraySize ==> r.count <= f.arraySize)
    decreases |s|
  {
    if s != [] && count < f.arraySize {
      var p := DecNumber(f, s);
      NumberTidy(f, s);
      TidyItemsNext(f, items, count, p.value);
      PackedTidy(f, p.rest, items[count := p.value], count + 1);
    }
  }

  lemma {:induction false} ArrayTidy(f: Field, wireType: nat, s: Bytes, slot: Slot, count: nat)
    requires FieldOk(f) && SoundField(f) && f.htype.Repeated? && |slot.items| == f.arraySize
    requires TidyItems(f, slot.items, count) && (FixedCount(f) || count <= f.arraySize)
    requires DecField(f, wireType, s, slot, count).Ok?
    ensures TidySlot(f, DecField(f, wireType, s, slot, count).value.slot, true)
    decreases |s|, 2
  {
    if wireType == WT_STRING && Packable(f.ltype) {
      var l := DecVarint32(s);
      PackedTidy(f, l.rest[..l.value], slot.items, count);
    } else {
      TidyLess(f, slot.items[count], FixedCount(f));
      ReadTidy(f, s, slot.items[count]);
      TidyItemsNext(f, slot.items, count, DecValue(f, s, slot.items[count]).value);
    }
  }

  lemma {:induction false} FieldTidy(f: Field, wireType: nat, s: Bytes, slot: Slot, count: nat)
    requires FieldOk(f) && SoundField(f) && |slot.items| == Cells(f) && TidySlot(f, slot, true)
    requires f.htype.Repeated? && !FixedCount(f) ==> count == slot.size
    requires DecField(f, wireType, s, slot, count).Ok?
    ensures var r := DecField(f, wireType, s, slot, count).value.slot;
            TidySlot(f, r, true) && (f.htype.Oneof? ==> r.size == f.tag)
    decreases |s|, 3
  {
    if f.htype.Repeated? {
      ArrayTidy(f, wireType, s, slot, count);
    } else if f.htype.Oneof? {
      if f.ltype.LSubmessage? {
        ZeroTidy(f);
        ZeroMsgTidy(f.ptr.fields);
        TidyMsgLess(f.ptr.fields, Zero(f.ptr.fields), true);
        DefaultsTidy(f.ptr.fields, Zero(f.ptr.fields));
        ReadTidy(f, s, Sub(SetDefaults(f.ptr.fields, Zero(f.ptr.fields))));
      } else {
        ReadTidy(f, s, slot.items[0]);
      }
    } else {
      ReadTidy(f, s, slot.items[0]);
    }
  }

  // ---------------------------------------------------------------- the field loop

  lemma WithSlotTidy(fields: seq<Field>, m: Msg, i: nat, slot: Slot)
    requires Wf(fields) && Shaped(fields, m) && TidyMsg(fields, m, true) && i < |fields|
    requires |slot.items| == Cells(fields[i]) && TidySlot(fields[i], slot, true)
    requires fields[i].htype.Oneof? ==> slot.size == fields[i].tag
    ensures TidyMsg(fields, WithSlot(fields, m, i, slot), true)
  {
    var r := WithSlot(fields, m, i, slot);
    forall j | 0 <= j < |fields|
      ensures TidySlot(fields[j], r.slots[fields[j].at], true)
      ensures fields[j].htype.Oneof? ==> SelectorOk(fields, fields[j].at, r.slots[fields[j].at].size)
    {
      if fields[j].at != fields[i].at {
        assert TidySlot(fields[j], m.slots[fields[j].at], true);
      } else if j != i {
        assert fields[j].tag != fields[i].tag && fields[j].htype.Oneof?;
      }
    }
  }

  lemma {:induction false} StepTidy(fields: seq<Field>, tag: nat, wireType: nat, s: Bytes, st: DecState)
    requires Wf(fields) && Sound(fields) && StateOk(fields, st) && TidyMsg(fields, st.msg, true)
    requires Step(fields, tag, wireType, s, st).Ok?
    ensures TidyMsg(fields, Step(fields, tag, wireType, s, st).value.msg, true)
    decreases |s|, 4
  {
    if Find(fields, tag).Some? {
      var i := Find(fields, tag).value;
      var f, st1 := fields[i], Enter(fields, i, st).value;
      var slot := st.msg.slots[f.at];
      assert FieldOk(f) && SoundField(f) && TidySlot(f, slot, true);
      FieldTidy(f, wireType, s, slot, CountOf(f, st1, slot));
      var placed := DecField(f, wireType, s, slot, CountOf(f, st1, slot)).value;
      WithSlotTidy(fields, st.msg, i, placed.slot);
    }
  }

  lemma {:induction false} LoopTidy(fields: seq<Field>, s: Bytes, st: DecState)
    requires Wf(fields) && Sound(fields) && StateOk(fields, st) && TidyMsg(fields, st.msg, true)
    requires !Loop(fields, s, st).Failed?
    ensures TidyMsg(fields, Loop(fields, s, st).st.msg, true)
    decreases |s|, 5
  {
    if s != [] && DecTag(s).Tagged? {
      var t := DecTag(s);
      StepTidy(fields, t.tag, t.wireType, t.rest, st);
      var p := Step(fields, t.tag, t.wireType, t.rest, st);
      LoopTidy(fields, p.rest, p.value);
    }
  }

  lemma {:induction false} NoinitTidy(fields: seq<Field>, s: Bytes, m: Msg)
    requires Wf(fields) && Sound(fields) && Shaped(fields, m) && TidyMsg(fields, m, true)
    requires DecodeNoinit(fields, s, m).Ok?
    ensures TidyMsg(fields, DecodeNoinit(fields, s, m).value, true)
    decreases |s|, 6
  {
    LoopTidy(fields, s, Start(m));
  }

  lemma {:induction false} DecodeTidy(fields: seq<Field>, s: Bytes, d: Msg)
    requires Wf(fields) && Sound(fields) && Shaped(fields, d) && TidyMsg(fields, d, false)
    requires Decode(fields, s, d).Ok?
    ensures TidyMsg(fields, Decode(fields, s, d).value, true)
    decreases |s|, 7
  {
    DefaultsTidy(fields, d);
    NoinitTidy(fields, s, SetDefaults(fields, d));
  }

  // ---------------------------------------------------------------- what the decoder promises

  /** No fixed-count array at any depth. */
  predicate Counted(fields: seq<Field>)
    decreases fields
  {
    forall i :: 0 <= i < |fields| ==> CountedField(fields[i])
  }

  predicate CountedField(f: Field)
    decreases f
  {
    !FixedCount(f) && (f.ptr.Fields? ==> Counted(f.ptr.fields))
  }

  lemma {:induction false} CountedValueTidy(f: Field, v: Value)
    requires FieldOk(f) && CountedField(f)
    ensures TidyValue(f, v, false)
    decreases f, 0
  {
    if f.ltype.LSubmessage? {
      CountedTidy(f.ptr.fields, AsMsg(f.ptr.fields, v));
    }
  }

  /** Without fixed-count arrays any memory will do. */
  lemma {:induction false} CountedTidy(fields: seq<Field>, d: Msg)
    requires Wf(fields) && Counted(fields) && Shaped(fields, d)
    ensures TidyMsg(fields, d, false)
    decreases fields
  {
    forall i | 0 <= i < |fields|
      ensures TidySlot(fields[i], d.slots[fields[i].at], false)
    {
      var f := fields[i];
      assert FieldOk(f) && CountedField(f);
      forall v: Value ensures TidyValue(f, v, false) {
        CountedValueTidy(f, v);
      }
    }
  }

  /**
    Whatever the bytes, a struct that pb_decode accepts is valid: provided the fixed-count
    arrays of the destination are, at every depth, and so always if there are none.
   */
  lemma DecodedIsValid(fields: seq<Field>, s: Bytes, d: Msg)
    requires Wf(fields) && Sound(fields) && Shaped(fields, d) && Decode(fields, s, d).Ok?
    requires Counted(fields) || TidyMsg(fields, d, false)
    ensures MsgOk(fields, Decode(fields, s, d).value)
  {
    if Counted(fields) {
      CountedTidy(fields, d);
    }
    DecodeTidy(fields, s, d);
    TidyMsgIsOk(fields, Decode(fields, s, d).value);
  }

  // ---------------------------------------------------------------- valid where it can be observed is not enough

  /** A fixed-count array of five bools, and an optional submessage with nothing else in it. */
  const FIVE_BOOLS := Field(1, LBool, Repeated, Static, 0, 0, 1, 5, Null, 0)
  const HOLDER := Field(1, LSubmessage, Optional, Static, 1, -1, 5, 0, Fields([FIVE_BOOLS]), 1)

  function FiveBools(): Msg {
    Msg(map[0 := Slot(0, [Num(0), Num(0), Num(0), Num(0), Num(2)])])
  }

  function Holding(size: nat): Msg {
    Msg(map[1 := Slot(size, [Sub(FiveBools())])])
  }

  lemma FiveBoolsKept()
    ensures Wf([FIVE_BOOLS]) && Shaped([FIVE_BOOLS], FiveBools()) && !MsgOk([FIVE_BOOLS], FiveBools())
    ensures SetDefaults([FIVE_BOOLS], FiveBools()) == FiveBools()
  {
    var f, slot := FIVE_BOOLS, FiveBools().slots[0];
    assert Cells(f) == 5 && Shaped([f], FiveBools());
    assert forall k :: 0 <= k < 5 ==> CellReach(f, SIZE_WIDTH, k) == if k < 4 then 4 - k else 0;
    assert WipeItems(f, slot.items, SIZE_WIDTH) == slot.items;
    DefaultsAt([f], 1, FiveBools(), 0);
    assert SetDefaults([f], FiveBools()).slots == FiveBools().slots;
    assert !ValueOk(f, slot.items[4]) && !SlotOk([f][0], slot);
  }

  lemma HoldingValid()
    ensures Wf([HOLDER]) && Sound([HOLDER]) && Shaped([HOLDER], Holding(0)) && Shaped([HOLDER], Holding(1))
    ensures MsgOk([HOLDER], Holding(0)) && !MsgOk([HOLDER], Holding(1))
  {
    FiveBoolsKept();
    var f, sub := HOLDER, Sub(FiveBools());
    assert SoundField(FIVE_BOOLS) && FieldOk(f) && !HoldsUnion([FIVE_BOOLS]);
    assert Sound([FIVE_BOOLS]) && SoundField(f);
    assert !ValueOk(f, sub) && !SlotOk([f][0], Holding(1).slots[1]);
  }

  lemma HoldingDecodes()
    requires Wf([HOLDER]) && Shaped([HOLDER], Holding(0)) && Shaped([HOLDER], Holding(1))
    ensures Decode([HOLDER], [10, 0], Holding(0)) == Ok(Holding(1), [])
  {
    FiveBoolsKept();
    var f, sub := HOLDER, Sub(FiveBools());
    DefaultsAt([f], 1, Holding(0), 0);
    assert SetDefaults([f], Holding(0)).slots == Holding(0).slots;
    assert DecTag([10, 0]) == Tagged(1, WT_STRING, [0]);
    assert DecVarint32([0]) == Ok(0, []);
    assert Loop([FIVE_BOOLS], [], Start(FiveBools())) == Drained(Start(FiveBools()));
    assert DecodeNoinit([FIVE_BOOLS], [], FiveBools()) == Ok(FiveBools(), []);
    assert DecSubmessage(f, [0], sub) == Ok(sub, []);
    assert DecField(f, WT_STRING, [0], Slot(0, [sub]), 0) == Ok(Placed(Slot(1, [sub]), 0), []);
    var st := DecState(Holding(1), {}, None, 0);
    assert Holding(0).slots[1 := Slot(1, [sub])] == Holding(1).slots;
    assert Step([f], 1, WT_STRING, [0], Start(Holding(0))) == Ok(st, []);
    assert Loop([f], [], st) == Drained(st);
  }

  /**
    An input that shows it: a bool that is neither true nor false, in an array of five behind
    a cleared has_ flag, is brought to light by an empty submessage.
   */
  lemma HiddenContentsShow()
    ensures exists fields, s: Bytes, d ::
              && Wf(fields) && Sound(fields) && Shaped(fields, d) && MsgOk(fields, d)
              && Decode(fields, s, d).Ok? && !MsgOk(fields, Decode(fields, s, d).value)
  {
    HoldingValid();
    HoldingDecodes();
  }
}
