/**
  Merging, member by member: what decoding a message into a struct that already holds
  something keeps of it and what it replaces. A submessage that arrives again is merged in
  the same way, at every depth.
 */
module MergeInto {
  import opened Prelude
  import opened Bits
  import opened Wire
  import opened Descriptor
  import opened DecodeSpec
  import opened EncodeSpec
  import opened Observe
  import opened Merge
  import opened ValueTrip
  import opened RoundTrip
  import opened PackedArrays
  import opened LastWins

  // ---------------------------------------------------------------- the merge of two structs

  /** A value is replaced; a submessage is merged. */
  predicate MergedValue(f: Field, before: Value, w: Value, after: Value)
    requires FieldOk(f)
    decreases f, 0
  {
    if f.ltype.LSubmessage? then
      MergedMsg(f.ptr.fields, AsMsg(f.ptr.fields, before), AsMsg(f.ptr.fields, w), AsMsg(f.ptr.fields, after))
    else SameValue(f, w, after, false)
  }

  /** Entry j of `w` is found in `after`, `at` entries further on. */
  predicate EntryAt(f: Field, w: seq<Value>, after: seq<Value>, at: nat, j: nat)
    requires FieldOk(f) && j < |w| && at + j < |after|
  {
    SameValue(f, w[j], after[at + j], false)
  }

  /** The entries of `w` follow those that were there; an array without a count is replaced. */
  predicate MergedArray(f: Field, before: Slot, w: Slot, after: Slot)
    requires FieldOk(f) && |before.items| == |w.items| == |after.items| == f.arraySize
  {
    if FixedCount(f) then forall k :: 0 <= k < f.arraySize ==> EntryAt(f, w.items, after.items, 0, k)
    else
      && after.size == before.size + w.size
      && (w.size > 0 ==> after.size <= f.arraySize)
      && (forall k :: 0 <= k < before.size && k < f.arraySize ==> after.items[k] == before.items[k])
      && (forall k :: 0 <= k < w.size && before.size + k < f.arraySize && k < f.arraySize ==>
            EntryAt(f, w.items, after.items, before.size, k))
  }

  /**
    What is absent from `w` stays. What is present replaces, is merged or is appended; a union
    takes over the selection, and a submessage in it starts afresh.
   */
  predicate MergedSlot(f: Field, before: Slot, w: Slot, after: Slot)
    requires FieldOk(f) && |before.items| == |w.items| == |after.items| == Cells(f)
    decreases f, 1
  {
    match f.htype
    case Required => MergedValue(f, before.items[0], w.items[0], after.items[0])
    case Optional =>
      if f.sizeOffset != 0 then
        if w.size == 0 then after == before
        else after.size == 1 && MergedValue(f, before.items[0], w.items[0], after.items[0])
      else if EncField(f, w) == Some([]) then after == before
      else MergedValue(f, before.items[0], w.items[0], after.items[0])
    case Repeated => MergedArray(f, before, w, after)
    case Oneof =>
      if w.size == 0 then after == before
      else after.size == w.size && (w.size == f.tag ==> SameValue(f, w.items[0], after.items[0], false))
  }

  predicate MergedMsg(fields: seq<Field>, before: Msg, w: Msg, after: Msg)
    requires Wf(fields) && Shaped(fields, before) && Shaped(fields, w) && Shaped(fields, after)
    decreases fields
  {
    forall i :: 0 <= i < |fields| ==>
      var at := fields[i].at;
      MergedSlot(fields[i], before.slots[at], w.slots[at], after.slots[at])
  }

  // ---------------------------------------------------------------- room

  predicate FitsValue(f: Field, before: Value, w: Value)
    requires FieldOk(f)
    decreases f, 0
  {
    f.ltype.LSubmessage? ==> FitsMsg(f.ptr.fields, AsMsg(f.ptr.fields, before), AsMsg(f.ptr.fields, w))
  }

  predicate FitsSlot(f: Field, before: Slot, w: Slot)
    requires FieldOk(f) && |before.items| == |w.items| == Cells(f)
    decreases f, 1
  {
    match f.htype
    case Required => FitsValue(f, before.items[0], w.items[0])
    case Optional => EncField(f, w) != Some([]) ==> FitsValue(f, before.items[0], w.items[0])
    case Repeated => FixedCount(f) || w.size == 0 || before.size + w.size <= f.arraySize
    case Oneof => true
  }

  /** Every array that is appended to has room, at every depth that is merged. */
  predicate FitsMsg(fields: seq<Field>, before: Msg, w: Msg)
    requires Wf(fields) && Shaped(fields, before) && Shaped(fields, w)
    decreases fields, 1
  {
    FitsUpTo(fields, |fields|, before, w)
  }

  predicate FitsUpTo(fields: seq<Field>, n: nat, before: Msg, w: Msg)
    requires Wf(fields) && Shaped(fields, before) && Shaped(fields, w) && n <= |fields|
    decreases fields, 0
  {
    forall i :: 0 <= i < n ==> FitsSlot(fields[i], before.slots[fields[i].at], w.slots[fields[i].at])
  }

  /** A valid struct that can be sent, and one that has room for its first n members. */
  predicate Mergeable(fields: seq<Field>, n: nat, w: Msg, m: Msg) {
    && Wf(fields) && Plain(fields) && Shaped(fields, w) && Shaped(fields, m)
    && MsgOk(fields, w) && Short(fields, w) && n <= |fields| && FitsUpTo(fields, n, m, w)
  }

  // ---------------------------------------------------------------- progress of the field loop

  /** Field i of `msg` after the first k fields of `w` were decoded into `m`. */
  predicate FieldMerged(fields: seq<Field>, k: nat, i: nat, w: Msg, m: Msg, msg: Msg)
    requires Wf(fields) && Shaped(fields, w) && Shaped(fields, m) && Shaped(fields, msg)
    requires k <= |fields| && i < |fields|
  {
    var f := fields[i];
    var a, before, b := w.slots[f.at], m.slots[f.at], msg.slots[f.at];
    if (if f.htype.Oneof? then Selected(fields, k, i, a.size) else i < k) then MergedSlot(f, before, a, b)
    else b == before
  }

  predicate Merging(fields: seq<Field>, k: nat, w: Msg, m: Msg, st: DecState)
    requires Wf(fields) && Shaped(fields, w) && Shaped(fields, m) && StateOk(fields, st) && k <= |fields|
  {
    && (forall i :: 0 <= i < |fields| ==> FieldMerged(fields, k, i, w, m, st.msg))
    && (forall i :: 0 <= i < k && Tracked(fields, i) ==> RequiredBefore(fields, i) in st.seen)
    && FixedComplete(fields, st)
    && (st.fixedField.Some? ==> st.fixedField.value < k)
  }

  /** What `w` does not send stays as it is. */
  lemma AbsentMerged(f: Field, before: Slot, w: Slot)
    requires FieldOk(f) && |before.items| == |w.items| == Cells(f) && SlotOk(f, w)
    requires !f.htype.Oneof? && EncField(f, w) == Some([])
    ensures MergedSlot(f, before, w, before)
  {
    assert |KeyOf(f)| >= 1;
    if f.htype.Repeated? && !Packable(f.ltype) {
      EntriesNotEmpty(f, w.items, if f.sizeOffset != 0 then w.size else f.arraySize);
    }
  }

  lemma SkippedMember(fields: seq<Field>, k: nat, i: nat, w: Msg, m: Msg, msg: Msg)
    requires Wf(fields) && Shaped(fields, w) && Shaped(fields, m) && Shaped(fields, msg) && k < |fields| && i < |fields|
    requires SlotOk(fields[k], w.slots[fields[k].at]) && FieldMerged(fields, k, i, w, m, msg)
    requires EncField(fields[k], w.slots[fields[k].at]) == Some([])
    ensures FieldMerged(fields, k + 1, i, w, m, msg)
  {
    var f := fields[i];
    if f.htype.Oneof? {
      SelectedElsewhere(fields, k, i, w.slots[f.at].size);
    } else if i == k {
      AbsentMerged(f, m.slots[f.at], w.slots[f.at]);
    }
  }

  lemma SkippedMerging(fields: seq<Field>, k: nat, w: Msg, m: Msg, st: DecState)
    requires Wf(fields) && Shaped(fields, w) && Shaped(fields, m) && StateOk(fields, st) && k < |fields|
    requires SlotOk(fields[k], w.slots[fields[k].at]) && Merging(fields, k, w, m, st)
    requires EncField(fields[k], w.slots[fields[k].at]) == Some([])
    ensures Merging(fields, k + 1, w, m, st)
  {
    var next := k + 1;
    forall i | 0 <= i < |fields|
      ensures FieldMerged(fields, next, i, w, m, st.msg)
    {
      SkippedMember(fields, k, i, w, m, st.msg);
    }
  }

  lemma DecodedMerging(fields: seq<Field>, k: nat, w: Msg, m: Msg, st: DecState, b: Slot, st': DecState)
    requires Wf(fields) && Shaped(fields, w) && Shaped(fields, m) && StateOk(fields, st) && k < |fields|
    requires StateOk(fields, st') && Merging(fields, k, w, m, st)
    requires |b.items| == Cells(fields[k]) && st'.msg == WithSlot(fields, st.msg, k, b)
    requires MergedSlot(fields[k], m.slots[fields[k].at], w.slots[fields[k].at], b)
    requires fields[k].htype.Oneof? ==> w.slots[fields[k].at].size == fields[k].tag
    requires st.seen <= st'.seen && (Tracked(fields, k) ==> RequiredBefore(fields, k) in st'.seen)
    requires FixedComplete(fields, st') && (st'.fixedField.Some? ==> st'.fixedField.value <= k)
    ensures Merging(fields, k + 1, w, m, st')
  {
    var g, next := fields[k], k + 1;
    forall i | 0 <= i < |fields|
      ensures FieldMerged(fields, next, i, w, m, st'.msg)
    {
      var f := fields[i];
      assert FieldMerged(fields, k, i, w, m, st.msg);
      var which := w.slots[f.at].size;
      if f.at != g.at {
        if f.htype.Oneof? {
          SelectedElsewhere(fields, k, i, which);
        }
      } else if f.htype.Oneof? {
        assert g.htype.Oneof? && FieldOk(g);
        if i != k { assert f.tag != g.tag; }
      } else {
        assert i == k;
      }
    }
  }

  lemma FinalMerging(fields: seq<Field>, w: Msg, m: Msg, st: DecState)
    requires Wf(fields) && Shaped(fields, w) && Shaped(fields, m) && StateOk(fields, st)
    requires MsgOk(fields, w) && Merging(fields, |fields|, w, m, st)
    ensures MergedMsg(fields, m, w, st.msg) && AllRequiredSeen(fields, st.seen)
  {
    forall i | 0 <= i < |fields|
      ensures MergedSlot(fields[i], m.slots[fields[i].at], w.slots[fields[i].at], st.msg.slots[fields[i].at])
    {
      var f := fields[i];
      assert FieldMerged(fields, |fields|, i, w, m, st.msg);
      if f.htype.Oneof? {
        var which := w.slots[f.at].size;
        assert SelectorOk(fields, f.at, which) && FieldOk(f);
        if which != 0 {
          assert Selected(fields, |fields|, i, which);
        }
      }
    }
  }

  // ---------------------------------------------------------------- singular members

  /** One value decoded into a cell that holds `prior`. */
  lemma {:induction false} CellMerges(f: Field, v: Value, t: Bytes, prior: Value)
    requires FieldOk(f) && PlainField(f) && ValueOk(f, v) && !f.htype.Repeated?
    requires EncValue(f, v).Some? && ShortValue(f, v) && FitsValue(f, prior, v)
    ensures var p := DecValue(f, EncValue(f, v).value + t, prior);
            p.Ok? && p.rest == t && MergedValue(f, prior, v, p.value)
    decreases f, 0
  {
    if f.ltype.LSubmessage? {
      var fs := f.ptr.fields;
      var bs := Enc(fs, v.msg).value;
      SizedTrip(bs, t);
      SplitAt(bs, t);
      var st := DecodingMerges(fs, v.msg, AsMsg(fs, prior));
    } else {
      ScalarTrip(f, v, t, prior);
    }
  }

  /** What one arrival makes of a singular member. */
  lemma {:induction false} SingularMerges(f: Field, w: Slot, slot: Slot, count: nat) returns (placed: Placed)
    requires FieldOk(f) && PlainField(f) && !f.htype.Repeated? && |w.items| == |slot.items| == 1
    requires SlotOk(f, w) && ShortSlot(f, w) && FitsSlot(f, slot, w)
    requires EncField(f, w).Some? && EncField(f, w) != Some([])
    ensures EncField(f, w) == EncTagged(f, w.items[0]) && EncValue(f, w.items[0]).Some?
    ensures DecField(f, WireTypeOf(f.ltype), EncValue(f, w.items[0]).value, slot, count) == Ok(placed, [])
    ensures |placed.slot.items| == 1 && MergedSlot(f, slot, w, placed.slot) && placed.count == count
    ensures f.htype.Oneof? ==> w.size == f.tag
    decreases f, 1
  {
    var v := w.items[0];
    var e := EncValue(f, v).value;
    EmptyRight(e);
    if f.htype.Oneof? {
      var y := if f.ltype.LSubmessage? then Sub(Zero(f.ptr.fields)) else slot.items[0];
      var prior := if f.ltype.LSubmessage? then Sub(SetDefaults(f.ptr.fields, Zero(f.ptr.fields))) else slot.items[0];
      CellTrip(f, v, [], prior, y);
      placed := Placed(Slot(f.tag, [DecValue(f, e, prior).value]), count);
    } else {
      CellMerges(f, v, [], slot.items[0]);
      var size := if f.htype.Optional? && f.sizeOffset != 0 then 1 else slot.size;
      placed := Placed(Slot(size, [DecValue(f, e, slot.items[0]).value]), count);
    }
  }

  lemma {:induction false} SingularStep(fields: seq<Field>, k: nat, w: Msg, m: Msg, st: DecState) returns (st': DecState)
    requires Mergeable(fields, k + 1, w, m) && StateOk(fields, st) && k < |fields| && Merging(fields, k, w, m, st)
    requires !fields[k].htype.Repeated? && EncField(fields[k], w.slots[fields[k].at]).Some?
    requires EncField(fields[k], w.slots[fields[k].at]) != Some([])
    ensures StateOk(fields, st') && Merging(fields, k + 1, w, m, st')
    ensures Loop(fields, EncField(fields[k], w.slots[fields[k].at]).value, st) == Drained(st')
    decreases fields, k, 0
  {
    var f := fields[k];
    assert PlainField(f) && FieldOk(f) && f in fields;
    var a, slot := w.slots[f.at], st.msg.slots[f.at];
    assert SlotOk(f, a) && ShortSlot(f, a) && FitsSlot(f, m.slots[f.at], a);
    assert FieldMerged(fields, k, k, w, m, st.msg);
    var st1 := Enter(fields, k, st).value;
    if f.htype.Oneof? {
      NotYetSelected(fields, k, a.size);
    }
    var placed := SingularMerges(f, a, slot, CountOf(f, st1, slot));
    OneField(fields, k, WireTypeOf(f.ltype), EncValue(f, a.items[0]).value, st, st1, placed);
    st' := After(fields, k, st, st1, placed);
    DecodedMerging(fields, k, w, m, st, placed.slot, st');
  }

  /** The field a union selects has not been decoded before its turn. */
  lemma NotYetSelected(fields: seq<Field>, k: nat, which: nat)
    requires Wf(fields) && k < |fields| && which == fields[k].tag
    ensures !Selected(fields, k, k, which)
  {
  }

  // ---------------------------------------------------------------- arrays

  /** How many entries an array starts with when its field begins. */
  function Base(f: Field, slot: Slot): nat {
    if FixedCount(f) then 0 else slot.size
  }

  /** The first n entries of `a` have been added to array k of `st0`. */
  predicate Added(fields: seq<Field>, k: nat, n: nat, a: Slot, st0: DecState, st: DecState)
    requires Wf(fields) && StateOk(fields, st0) && StateOk(fields, st) && k < |fields| && fields[k].htype.Repeated?
    requires |a.items| == fields[k].arraySize && FieldOk(fields[k])
    requires Base(fields[k], st0.msg.slots[fields[k].at]) + n <= fields[k].arraySize
  {
    var f := fields[k];
    var x, b := st0.msg.slots[f.at], st.msg.slots[f.at];
    && st.msg == WithSlot(fields, st0.msg, k, b) && st.seen == st0.seen
    && (forall j :: 0 <= j < Base(f, x) ==> b.items[j] == x.items[j])
    && (forall j :: 0 <= j < n ==> EntryAt(f, a.items, b.items, Base(f, x), j))
    && (if FixedCount(f) then
          if n == 0 then st == st0 else st.fixedField == Some(k) && st.fixedCount == n
        else b.size == x.size + n && st.fixedField == st0.fixedField && st.fixedCount == st0.fixedCount)
  }

  /** The first n entries of array k are valid and can be sent, and there is room for them. */
  predicate Addable(fields: seq<Field>, k: nat, n: nat, a: Slot, st0: DecState) {
    && Wf(fields) && Plain(fields) && StateOk(fields, st0) && k < |fields| && FieldOk(fields[k])
    && fields[k].htype.Repeated? && !Packable(fields[k].ltype)
    && |a.items| == fields[k].arraySize && Base(fields[k], st0.msg.slots[fields[k].at]) + n <= fields[k].arraySize
    && (forall j :: 0 <= j < n ==> ValueOk(fields[k], a.items[j]) && ShortValue(fields[k], a.items[j]))
    && FixedComplete(fields, st0) && st0.fixedField != Some(k)
  }

  /** One more entry behind those that were added. */
  lemma EntryAdds(fields: seq<Field>, k: nat, n: nat, a: Slot, st0: DecState, mid: DecState, e: Bytes)
    returns (st: DecState)
    requires n >= 1 && Addable(fields, k, n, a, st0) && StateOk(fields, mid)
    requires EncValue(fields[k], a.items[n - 1]) == Some(e) && Added(fields, k, n - 1, a, st0, mid)
    ensures StateOk(fields, st) && Added(fields, k, n, a, st0, st)
    ensures Loop(fields, KeyOf(fields[k]) + e, mid) == Drained(st)
  {
    var f := fields[k];
    assert PlainField(f);
    var b := mid.msg.slots[f.at];
    var at := Base(f, st0.msg.slots[f.at]) + n - 1;
    var st1 := Enter(fields, k, mid).value;
    var w := EntryField(f, a.items[n - 1], e, b, at);
    var placed := Placed(Slot(if FixedCount(f) then b.size else at + 1, b.items[at := w]), at + 1);
    OneField(fields, k, WireTypeOf(f.ltype), e, mid, st1, placed);
    st := After(fields, k, mid, st1, placed);
    AddedNext(fields, k, n, a, st0, mid, st1, placed, w);
  }

  lemma AddedNext(fields: seq<Field>, k: nat, n: nat, a: Slot, st0: DecState, mid: DecState, st1: DecState,
                  placed: Placed, w: Value)
    requires Wf(fields) && StateOk(fields, st0) && StateOk(fields, mid) && k < |fields| && fields[k].htype.Repeated?
    requires FieldOk(fields[k]) && |a.items| == fields[k].arraySize && n >= 1
    requires Base(fields[k], st0.msg.slots[fields[k].at]) + n <= fields[k].arraySize
    requires Added(fields, k, n - 1, a, st0, mid) && Enter(fields, k, mid) == Some(st1) && StateOk(fields, st1)
    requires SameValue(fields[k], a.items[n - 1], w, false)
    requires var b, at := mid.msg.slots[fields[k].at], Base(fields[k], st0.msg.slots[fields[k].at]) + n - 1;
             placed == Placed(Slot(if FixedCount(fields[k]) then b.size else at + 1, b.items[at := w]), at + 1)
    ensures Added(fields, k, n, a, st0, After(fields, k, mid, st1, placed))
  {
    var f := fields[k];
    var at, b := Base(f, st0.msg.slots[f.at]), mid.msg.slots[f.at];
    TwiceSet(fields, k, st0.msg, mid.msg, b, placed.slot);
    forall j | 0 <= j < n
      ensures EntryAt(f, a.items, placed.slot.items, at, j)
    {
      assert j < n - 1 ==> EntryAt(f, a.items, b.items, at, j);
    }
  }

  lemma {:induction false} EntriesAdd(fields: seq<Field>, k: nat, n: nat, a: Slot, st0: DecState) returns (st: DecState)
    requires Addable(fields, k, n, a, st0) && EncEntries(fields[k], a.items, n).Some?
    ensures StateOk(fields, st) && Added(fields, k, n, a, st0, st)
    ensures Loop(fields, EncEntries(fields[k], a.items, n).value, st0) == Drained(st)
    decreases n
  {
    var f := fields[k];
    if n == 0 {
      st := st0;
      assert st0.msg.slots[f.at := st0.msg.slots[f.at]] == st0.msg.slots;
    } else {
      var e := EncValue(f, a.items[n - 1]).value;
      var mid := EntriesAdd(fields, k, n - 1, a, st0);
      st := EntryAdds(fields, k, n, a, st0, mid, e);
      LoopConcat(fields, EncEntries(f, a.items, n - 1).value, KeyOf(f) + e, st0);
    }
  }

  lemma OverlayMerged(f: Field, before: Slot, w: Slot, after: Slot)
    requires FieldOk(f) && f.htype.Repeated? && !f.ltype.LSubmessage? && |before.items| == |w.items| == f.arraySize
    requires Entries(f, w) <= f.arraySize && Base(f, before) + Entries(f, w) <= f.arraySize
    requires after.items == Overlay(before.items, Base(f, before), w.items[..Entries(f, w)])
    requires FixedCount(f) || (w.size > 0 && after.size == before.size + w.size)
    ensures MergedArray(f, before, w, after)
  {
    forall j | 0 <= j < Entries(f, w)
      ensures EntryAt(f, w.items, after.items, Base(f, before), j)
    {
      assert after.items[Base(f, before) + j] == w.items[..Entries(f, w)][j];
      SameRefl(f, w.items[j], false);
    }
  }

  lemma AddedMerged(fields: seq<Field>, k: nat, a: Slot, st0: DecState, st: DecState)
    requires Wf(fields) && StateOk(fields, st0) && StateOk(fields, st) && k < |fields| && fields[k].htype.Repeated?
    requires FieldOk(fields[k]) && |a.items| == fields[k].arraySize && (FixedCount(fields[k]) || a.size > 0)
    requires Base(fields[k], st0.msg.slots[fields[k].at]) + Entries(fields[k], a) <= fields[k].arraySize
    requires Added(fields, k, Entries(fields[k], a), a, st0, st)
    ensures MergedSlot(fields[k], st0.msg.slots[fields[k].at], a, st.msg.slots[fields[k].at])
  {
  }

  /** When the turn of array k comes it is as it was in `m`, and it fits. */
  lemma ArrayTurn(fields: seq<Field>, k: nat, w: Msg, m: Msg, st: DecState)
    requires Mergeable(fields, k + 1, w, m) && StateOk(fields, st) && k < |fields| && Merging(fields, k, w, m, st)
    requires fields[k].htype.Repeated? && EncField(fields[k], w.slots[fields[k].at]) != Some([])
    ensures var f := fields[k]; var a, slot := w.slots[f.at], st.msg.slots[f.at];
            && FieldOk(f) && SlotOk(f, a) && ShortSlot(f, a) && slot == m.slots[f.at]
            && (FixedCount(f) || a.size > 0) && Entries(f, a) <= f.arraySize
            && Base(f, slot) + Entries(f, a) <= f.arraySize
  {
    var f := fields[k];
    assert FitsSlot(f, m.slots[f.at], w.slots[f.at]) && SlotOk(f, w.slots[f.at]) && ShortSlot(f, w.slots[f.at]);
    assert FieldMerged(fields, k, k, w, m, st.msg);
  }

  /** What one chunk with all entries of `a` makes of an array. */
  lemma ChunkPlaced(f: Field, a: Slot, slot: Slot) returns (placed: Placed)
    requires FieldOk(f) && f.htype.Repeated? && Packable(f.ltype) && |a.items| == |slot.items| == f.arraySize
    requires SlotOk(f, a) && ShortSlot(f, a) && (FixedCount(f) || a.size > 0)
    requires Entries(f, a) <= f.arraySize && Base(f, slot) + Entries(f, a) <= f.arraySize
    ensures EncItems(f, a.items, Entries(f, a)).Some?
    ensures DecField(f, WT_STRING, EncSized(EncItems(f, a.items, Entries(f, a)).value), slot, Base(f, slot))
         == Ok(placed, [])
    ensures |placed.slot.items| == f.arraySize && MergedSlot(f, slot, a, placed.slot)
    ensures FixedCount(f) ==> placed.count == f.arraySize
  {
    var n := Entries(f, a);
    ItemsOfPrefix(f, a.items, n, n);
    PackedField(f, a.items[..n], slot, Base(f, slot));
    placed := Appended(f, slot, Base(f, slot), a.items[..n]);
    OverlayMerged(f, slot, a, placed.slot);
  }

  /** The array is sent: as one chunk, or entry by entry. */
  lemma PackedMerges(fields: seq<Field>, k: nat, w: Msg, m: Msg, st: DecState) returns (st': DecState)
    requires Mergeable(fields, k + 1, w, m) && StateOk(fields, st) && k < |fields| && Merging(fields, k, w, m, st)
    requires fields[k].htype.Repeated? && Packable(fields[k].ltype)
    requires EncField(fields[k], w.slots[fields[k].at]).Some? && EncField(fields[k], w.slots[fields[k].at]) != Some([])
    ensures StateOk(fields, st') && Merging(fields, k + 1, w, m, st')
    ensures Loop(fields, EncField(fields[k], w.slots[fields[k].at]).value, st) == Drained(st')
  {
    var f := fields[k];
    var a, slot := w.slots[f.at], st.msg.slots[f.at];
    ArrayTurn(fields, k, w, m, st);
    var n := Entries(f, a);
    var st1 := Enter(fields, k, st).value;
    var placed := ChunkPlaced(f, a, slot);
    OneField(fields, k, WT_STRING, EncSized(EncItems(f, a.items, n).value), st, st1, placed);
    st' := After(fields, k, st, st1, placed);
    DecodedMerging(fields, k, w, m, st, placed.slot, st');
  }

  lemma EntriesMerge(fields: seq<Field>, k: nat, w: Msg, m: Msg, st: DecState) returns (st': DecState)
    requires Mergeable(fields, k + 1, w, m) && StateOk(fields, st) && k < |fields| && Merging(fields, k, w, m, st)
    requires fields[k].htype.Repeated? && !Packable(fields[k].ltype)
    requires EncField(fields[k], w.slots[fields[k].at]).Some? && EncField(fields[k], w.slots[fields[k].at]) != Some([])
    ensures StateOk(fields, st') && Merging(fields, k + 1, w, m, st')
    ensures Loop(fields, EncField(fields[k], w.slots[fields[k].at]).value, st) == Drained(st')
  {
    var f := fields[k];
    var a, slot := w.slots[f.at], st.msg.slots[f.at];
    ArrayTurn(fields, k, w, m, st);
    st' := EntriesAdd(fields, k, Entries(f, a), a, st);
    AddedMerged(fields, k, a, st, st');
    DecodedMerging(fields, k, w, m, st, st'.msg.slots[f.at], st');
  }

  // ---------------------------------------------------------------- whole messages

  /** Decoding the first k fields of `w` into `m` leads to `st`. */
  predicate PrefixMerged(fields: seq<Field>, k: nat, w: Msg, m: Msg, st: DecState)
    requires Wf(fields) && Shaped(fields, w) && Shaped(fields, m) && k <= |fields|
  {
    && StateOk(fields, st) && Merging(fields, k, w, m, st) && EncUpTo(fields, k, w).Some?
    && Loop(fields, EncUpTo(fields, k, w).value, Start(m)) == Drained(st)
  }

  lemma {:induction false} FieldMerges(fields: seq<Field>, k: nat, w: Msg, m: Msg, st: DecState) returns (st': DecState)
    requires Mergeable(fields, k + 1, w, m) && StateOk(fields, st) && k < |fields| && Merging(fields, k, w, m, st)
    requires EncField(fields[k], w.slots[fields[k].at]).Some?
    ensures StateOk(fields, st') && Merging(fields, k + 1, w, m, st')
    ensures Loop(fields, EncField(fields[k], w.slots[fields[k].at]).value, st) == Drained(st')
    decreases fields, k, 1
  {
    if EncField(fields[k], w.slots[fields[k].at]) == Some([]) {
      st' := st;
      SkippedMerging(fields, k, w, m, st);
    } else if !fields[k].htype.Repeated? {
      st' := SingularStep(fields, k, w, m, st);
    } else if Packable(fields[k].ltype) {
      st' := PackedMerges(fields, k, w, m, st);
    } else {
      st' := EntriesMerge(fields, k, w, m, st);
    }
  }

  lemma NothingMerged(fields: seq<Field>, w: Msg, m: Msg)
    requires Wf(fields) && Shaped(fields, w) && Shaped(fields, m)
    ensures PrefixMerged(fields, 0, w, m, Start(m))
  {
  }

  lemma {:induction false} PrefixMergesOn(fields: seq<Field>, k: nat, w: Msg, m: Msg, mid: DecState) returns (st: DecState)
    requires Mergeable(fields, k + 1, w, m) && k < |fields| && PrefixMerged(fields, k, w, m, mid)
    ensures PrefixMerged(fields, k + 1, w, m, st)
    decreases fields, k, 2
  {
    PrefixEncodes(fields, k + 1, w);
    st := FieldMerges(fields, k, w, m, mid);
    LoopConcat(fields, EncUpTo(fields, k, w).value, EncField(fields[k], w.slots[fields[k].at]).value, Start(m));
  }

  lemma {:induction false} PrefixMerges(fields: seq<Field>, k: nat, w: Msg, m: Msg) returns (st: DecState)
    requires Mergeable(fields, k, w, m)
    ensures PrefixMerged(fields, k, w, m, st)
    decreases fields, k, 2
  {
    if k == 0 {
      st := Start(m);
      NothingMerged(fields, w, m);
    } else {
      var mid := PrefixMerges(fields, k - 1, w, m);
      st := PrefixMergesOn(fields, k - 1, w, m, mid);
    }
  }

  /**
    Decoding the encoding of a valid struct into any struct with room for it succeeds and
    merges the two, member by member and at every depth.
   */
  lemma {:induction false} DecodingMerges(fields: seq<Field>, w: Msg, m: Msg) returns (st: DecState)
    requires Mergeable(fields, |fields|, w, m)
    ensures Enc(fields, w).Some? && StateOk(fields, st)
    ensures Loop(fields, Enc(fields, w).value, Start(m)) == Drained(st)
    ensures DecodeNoinit(fields, Enc(fields, w).value, m) == Ok(st.msg, [])
    ensures MergedMsg(fields, m, w, st.msg)
    decreases fields, |fields| + 1, 3
  {
    st := PrefixMerges(fields, |fields|, w, m);
    FinalMerging(fields, w, m, st);
  }

  // ---------------------------------------------------------------- no room

  /** One entry, after which r + 1 entries and some more bytes are the whole array. */
  lemma {:induction false} EntriesSplit(f: Field, items: seq<Value>, r: nat, n: nat) returns (b: Bytes)
    requires FieldOk(f) && r <= n <= |items| && EncEntries(f, items, n).Some?
    ensures EncEntries(f, items, r).Some? && EncEntries(f, items, n).value == EncEntries(f, items, r).value + b
    decreases n
  {
    if r == n {
      b := [];
    } else {
      var c := EntriesSplit(f, items, r, n - 1);
      var e := EncTagged(f, items[n - 1]).value;
      b := c + e;
      Assoc(EncEntries(f, items, r).value, c, e);
    }
  }

  lemma EntryBehind(f: Field, items: seq<Value>, r: nat)
    requires FieldOk(f) && r < |items| && EncEntries(f, items, r + 1).Some?
    ensures EncEntries(f, items, r).Some? && EncTagged(f, items[r]).Some?
    ensures EncEntries(f, items, r + 1).value == EncEntries(f, items, r).value + EncTagged(f, items[r]).value
  {
  }

  /** The loop fails at a field that cannot be placed. */
  lemma PlacingFails(fields: seq<Field>, k: nat, wireType: nat, payload: Bytes, st: DecState)
    requires Wf(fields) && StateOk(fields, st) && k < |fields| && wireType < 8 && FieldOk(fields[k])
    requires !FixedCount(fields[k])
    requires var slot := st.msg.slots[fields[k].at]; DecField(fields[k], wireType, payload, slot, slot.size).Fail?
    ensures Loop(fields, EncTag(wireType, fields[k].tag) + payload, st).Failed?
  {
    TagRoundTrip(wireType, fields[k].tag, payload);
    FindDistinct(fields, k);
    assert StepFound(fields, k, wireType, payload, st).Fail?;
  }

  /** A full array takes no further entry. */
  lemma FullArray(fields: seq<Field>, k: nat, v: Value, st: DecState, t: Bytes)
    requires Wf(fields) && StateOk(fields, st) && k < |fields| && FieldOk(fields[k])
    requires fields[k].htype.Repeated? && !FixedCount(fields[k]) && !Packable(fields[k].ltype)
    requires st.msg.slots[fields[k].at].size >= fields[k].arraySize && EncTagged(fields[k], v).Some?
    ensures Loop(fields, EncTagged(fields[k], v).value + t, st).Failed?
  {
    var f := fields[k];
    var e := EncValue(f, v).value;
    PlacingFails(fields, k, WireTypeOf(f.ltype), e + t, st);
    Assoc(KeyOf(f), e, t);
  }

  lemma EntriesOverflow(fields: seq<Field>, k: nat, n: nat, a: Slot, st: DecState, t: Bytes)
    requires Wf(fields) && Plain(fields) && StateOk(fields, st) && k < |fields| && FieldOk(fields[k])
    requires fields[k].htype.Repeated? && !Packable(fields[k].ltype) && !FixedCount(fields[k])
    requires |a.items| == fields[k].arraySize && n <= |a.items| && EncEntries(fields[k], a.items, n).Some?
    requires forall j :: 0 <= j < n ==> ValueOk(fields[k], a.items[j]) && ShortValue(fields[k], a.items[j])
    requires st.msg.slots[fields[k].at].size + n > fields[k].arraySize && n > 0 && FixedComplete(fields, st)
    requires st.fixedField != Some(k)
    ensures Loop(fields, EncEntries(fields[k], a.items, n).value + t, st).Failed?
  {
    var f := fields[k];
    var size := st.msg.slots[f.at].size;
    var r := if size >= f.arraySize then 0 else f.arraySize - size;
    var rest := EntriesSplit(f, a.items, r + 1, n);
    EntryBehind(f, a.items, r);
    var x, e := EncEntries(f, a.items, r).value, EncTagged(f, a.items[r]).value;
    var full := st;
    if size < f.arraySize {
      full := EntriesAdd(fields, k, r, a, st);
    }
    FullArray(fields, k, a.items[r], full, rest + t);
    FailsInside(fields, x, e, rest, t, st);
  }

  /** A chunk for which there is no room. */
  lemma ChunkOverflows(f: Field, items: seq<Value>, n: nat, slot: Slot, t: Bytes)
    requires FieldOk(f) && f.htype.Repeated? && Packable(f.ltype) && |slot.items| == |items| == f.arraySize
    requires 0 < n <= f.arraySize < slot.size + n && EncItems(f, items, n).Some?
    requires forall j :: 0 <= j < n ==> ValueOk(f, items[j])
    requires |EncItems(f, items, n).value| < TWO32
    ensures DecField(f, WT_STRING, EncSized(EncItems(f, items, n).value) + t, slot, slot.size).Fail?
  {
    ItemsOfPrefix(f, items, n, n);
    var bs := EncItems(f, items, n).value;
    if slot.size <= f.arraySize {
      ChunkTooLong(f, items[..n], slot, slot.size, t);
    } else {
      SizedTrip(bs, t);
      SplitAt(bs, t);
      ItemsNotEmpty(f, items, n);
    }
  }

  lemma ItemsNotEmpty(f: Field, items: seq<Value>, n: nat)
    requires FieldOk(f) && Packable(f.ltype) && 0 < n <= |items| && EncItems(f, items, n).Some?
    ensures EncItems(f, items, n).value != []
  {
    PackableNotEmpty(f, items[n - 1]);
  }

  lemma {:induction false} CellOverflows(f: Field, v: Value, t: Bytes, prior: Value)
    requires FieldOk(f) && PlainField(f) && ValueOk(f, v) && !f.htype.Repeated? && !f.htype.Oneof?
    requires EncValue(f, v).Some? && ShortValue(f, v) && !FitsValue(f, prior, v)
    ensures DecValue(f, EncValue(f, v).value + t, prior).Fail?
    decreases f, 0
  {
    var fs := f.ptr.fields;
    var bs := Enc(fs, v.msg).value;
    SizedTrip(bs, t);
    SplitAt(bs, t);
    DecodingOverflows(fs, v.msg, AsMsg(fs, prior), []);
    EmptyRight(bs);
    assert EncValue(f, v) == Some(EncSized(bs)) && DecodeNoinit(fs, bs, AsMsg(fs, prior)).Fail?;
    assert DecSubmessage(f, EncSized(bs) + t, prior).Fail?;
  }

  /** The field that does not fit ends the loop. */
  lemma {:induction false} FieldOverflows(fields: seq<Field>, k: nat, w: Msg, m: Msg, st: DecState, t: Bytes)
    requires Mergeable(fields, k, w, m) && StateOk(fields, st) && k < |fields| && Merging(fields, k, w, m, st)
    requires !FitsSlot(fields[k], m.slots[fields[k].at], w.slots[fields[k].at])
    requires EncField(fields[k], w.slots[fields[k].at]).Some?
    ensures Loop(fields, EncField(fields[k], w.slots[fields[k].at]).value + t, st).Failed?
    decreases fields, k, 0
  {
    var f := fields[k];
    assert f in fields && FieldOk(f) && PlainField(f);
    var a, slot := w.slots[f.at], st.msg.slots[f.at];
    assert SlotOk(f, a) && ShortSlot(f, a) && FieldMerged(fields, k, k, w, m, st.msg);
    if f.htype.Repeated? {
      if Packable(f.ltype) {
        var bs := EncItems(f, a.items, a.size).value;
        ChunkOverflows(f, a.items, a.size, slot, t);
        PlacingFails(fields, k, WT_STRING, EncSized(bs) + t, st);
        Assoc(EncTag(WT_STRING, f.tag), EncSized(bs), t);
      } else {
        EntriesOverflow(fields, k, a.size, a, st, t);
      }
    } else {
      var e := EncValue(f, a.items[0]).value;
      CellOverflows(f, a.items[0], t, slot.items[0]);
      PlacingFails(fields, k, WireTypeOf(f.ltype), e + t, st);
      Assoc(KeyOf(f), e, t);
    }
  }

  lemma {:induction false} UpToSplit(fields: seq<Field>, w: Msg, k: nat, n: nat) returns (b: Bytes)
    requires Wf(fields) && Shaped(fields, w) && k <= n <= |fields| && EncUpTo(fields, n, w).Some?
    ensures EncUpTo(fields, k, w).Some? && EncUpTo(fields, n, w).value == EncUpTo(fields, k, w).value + b
    decreases n
  {
    if k == n {
      b := [];
    } else {
      assert fields[n - 1] in fields;
      var c := UpToSplit(fields, w, k, n - 1);
      var e := EncField(fields[n - 1], w.slots[fields[n - 1].at]).value;
      b := c + e;
      Assoc(EncUpTo(fields, k, w).value, c, e);
    }
  }

  /** The first member for which there is no room. */
  lemma {:induction false} FirstMisfit(fields: seq<Field>, w: Msg, m: Msg, n: nat) returns (k: nat)
    requires Wf(fields) && Shaped(fields, w) && Shaped(fields, m) && n <= |fields|
    requires !FitsUpTo(fields, n, m, w)
    ensures k < n && FitsUpTo(fields, k, m, w)
    ensures !FitsSlot(fields[k], m.slots[fields[k].at], w.slots[fields[k].at])
    decreases n
  {
    if FitsUpTo(fields, n - 1, m, w) {
      k := n - 1;
    } else {
      k := FirstMisfit(fields, w, m, n - 1);
    }
  }

  /** The loop does not get past field k. */
  lemma {:induction false} StuckAt(fields: seq<Field>, k: nat, w: Msg, m: Msg, rest: Bytes, t: Bytes)
    requires Mergeable(fields, k, w, m) && k < |fields| && EncUpTo(fields, k + 1, w).Some?
    requires !FitsSlot(fields[k], m.slots[fields[k].at], w.slots[fields[k].at])
    ensures Loop(fields, (EncUpTo(fields, k + 1, w).value + rest) + t, Start(m)).Failed?
    decreases fields, k, 1
  {
    var st := PrefixMerges(fields, k, w, m);
    FieldOverflows(fields, k, w, m, st, rest + t);
    FailsInside(fields, EncUpTo(fields, k, w).value, EncField(fields[k], w.slots[fields[k].at]).value, rest, t, Start(m));
  }

  /** Where the encoding meets the first member without room. */
  lemma MisfitAt(fields: seq<Field>, w: Msg, m: Msg) returns (k: nat, rest: Bytes)
    requires Mergeable(fields, 0, w, m) && !FitsMsg(fields, m, w)
    ensures k < |fields| && Mergeable(fields, k, w, m)
    ensures !FitsSlot(fields[k], m.slots[fields[k].at], w.slots[fields[k].at])
    ensures EncUpTo(fields, k + 1, w).Some? && Enc(fields, w) == Some(EncUpTo(fields, k + 1, w).value + rest)
  {
    PrefixEncodes(fields, |fields|, w);
    k := FirstMisfit(fields, w, m, |fields|);
    rest := UpToSplit(fields, w, k + 1, |fields|);
  }

  /** Without room decoding fails, whatever follows. */
  lemma {:induction false} DecodingOverflows(fields: seq<Field>, w: Msg, m: Msg, t: Bytes)
    requires Mergeable(fields, 0, w, m) && !FitsMsg(fields, m, w)
    ensures Enc(fields, w).Some? && Loop(fields, Enc(fields, w).value + t, Start(m)).Failed?
    decreases fields, |fields| + 1, 1
  {
    var k, rest := MisfitAt(fields, w, m);
    StuckAt(fields, k, w, m, rest, t);
  }

  lemma FailsInside(fields: seq<Field>, x: Bytes, e: Bytes, rest: Bytes, t: Bytes, st: DecState)
    requires Wf(fields) && StateOk(fields, st) && Loop(fields, x, st).Drained?
    requires Loop(fields, e + (rest + t), Loop(fields, x, st).st).Failed?
    ensures Loop(fields, ((x + e) + rest) + t, st).Failed?
  {
    InThree(x, e, rest, t);
    LoopConcat(fields, x, e + (rest + t), st);
  }

  lemma InThree(x: Bytes, e: Bytes, rest: Bytes, t: Bytes)
    ensures ((x + e) + rest) + t == x + (e + (rest + t))
  {
  }

  /** So there is room exactly when decoding succeeds. */
  lemma MergesIffFits(fields: seq<Field>, w: Msg, m: Msg)
    requires Mergeable(fields, 0, w, m)
    ensures Enc(fields, w).Some?
    ensures DecodeNoinit(fields, Enc(fields, w).value, m).Ok? <==> FitsMsg(fields, m, w)
  {
    if FitsMsg(fields, m, w) {
      var st := DecodingMerges(fields, w, m);
    } else {
      DecodingOverflows(fields, w, m, []);
      EmptyRight(Enc(fields, w).value);
    }
  }

  /** What the arrival of a submessage makes of a member. */
  predicate MergesIn(f: Field, v: Value, before: Slot, after: Slot)
    requires FieldOk(f) && |before.items| == 1
  {
    && |after.items| == 1 && MergedValue(f, before.items[0], v, after.items[0])
    && (f.htype.Optional? && f.sizeOffset != 0 ==> after.size == 1)
  }

  lemma SubmessagePlaced(f: Field, wireType: nat, v: Value, slot: Slot, count: nat) returns (placed: Placed)
    requires FieldOk(f) && f.ltype.LSubmessage? && (f.htype.Required? || f.htype.Optional?) && |slot.items| == 1
    requires PlainField(f) && ValueOk(f, v) && ShortValue(f, v) && FitsValue(f, slot.items[0], v)
    ensures EncValue(f, v).Some?
    ensures DecField(f, wireType, EncValue(f, v).value, slot, count) == Ok(placed, [])
    ensures MergesIn(f, v, slot, placed.slot) && placed.count == count
  {
    ValueEncodes(f, v);
    var e := EncValue(f, v).value;
    CellMerges(f, v, [], slot.items[0]);
    EmptyRight(e);
    var size := if f.htype.Optional? && f.sizeOffset != 0 then 1 else slot.size;
    placed := Placed(Slot(size, [DecValue(f, e, slot.items[0]).value]), count);
  }

  /**
    In any state of the loop, a submessage that arrives, under a key of any wire type, is
    merged into the one that is there; nothing else changes.
   */
  lemma ArrivalMerges(fields: seq<Field>, k: nat, wireType: nat, v: Value, st: DecState) returns (st': DecState)
    requires Wf(fields) && StateOk(fields, st) && k < |fields| && wireType < 8 && FieldOk(fields[k])
    requires fields[k].ltype.LSubmessage? && (fields[k].htype.Required? || fields[k].htype.Optional?)
    requires PlainField(fields[k]) && ValueOk(fields[k], v) && ShortValue(fields[k], v)
    requires FitsValue(fields[k], st.msg.slots[fields[k].at].items[0], v)
    ensures EncValue(fields[k], v).Some? && StateOk(fields, st')
    ensures Loop(fields, EncVarint(8 * fields[k].tag + wireType) + EncValue(fields[k], v).value, st) == Drained(st')
    ensures OnlyMember(fields, k, st, st')
    ensures MergesIn(fields[k], v, st.msg.slots[fields[k].at], st'.msg.slots[fields[k].at])
  {
    var f := fields[k];
    var slot := st.msg.slots[f.at];
    var placed := SubmessagePlaced(f, wireType, v, slot, slot.size);
    st' := MemberPlaced(fields, k, wireType, EncValue(f, v).value, st, placed);
  }
}
