/**
  Whole-message round trip: pb_decode of what pb_encode wrote for a valid struct uses up
  all the bytes and leaves a struct no program can tell from the one encoded.
 */
module RoundTrip {
  import opened Prelude
  import opened Bits
  import opened Wire
  import opened Scalars
  import opened Descriptor
  import opened DecodeSpec
  import opened EncodeSpec
  import opened Observe
  import opened Merge
  import opened ValueTrip

  // ---------------------------------------------------------------- conditions

  predicate PlainField(f: Field)
    decreases f
  {
    (f.htype.Optional? && f.sizeOffset == 0 ==> !f.ptr.Default?)
    && (f.ptr.Fields? ==> Plain(f.ptr.fields))
  }

  /** Proto3 singular fields, at every depth, have the zero default. */
  predicate Plain(fields: seq<Field>)
    decreases fields
  {
    forall i :: 0 <= i < |fields| ==> PlainField(fields[i])
  }

  predicate ShortValue(f: Field, v: Value)
    requires FieldOk(f)
    decreases f, 0
  {
    f.ltype.LSubmessage? ==>
      var m := AsMsg(f.ptr.fields, v);
      Short(f.ptr.fields, m) && (Enc(f.ptr.fields, m).Some? ==> |Enc(f.ptr.fields, m).value| < TWO32)
  }

  /** The number of entries encode_basic_field encodes. */
  function Entries(f: Field, slot: Slot): nat {
    if f.sizeOffset != 0 then slot.size else f.arraySize
  }

  predicate ShortSlot(f: Field, slot: Slot)
    requires FieldOk(f) && |slot.items| == Cells(f)
    decreases f, 1
  {
    if !f.htype.Repeated? then EncField(f, slot) != Some([]) ==> ShortValue(f, slot.items[0])
    else
      Entries(f, slot) <= f.arraySize ==>
        if Packable(f.ltype) then
          var e := EncItems(f, slot.items, Entries(f, slot));
          e.Some? ==> |e.value| < TWO32
        else forall k :: 0 <= k < Entries(f, slot) ==> ShortValue(f, slot.items[k])
  }

  /** Every length in the encoding, of a submessage or a packed array, fits the 32 bits the decoder reads. */
  predicate Short(fields: seq<Field>, m: Msg)
    requires Wf(fields) && Shaped(fields, m)
    decreases fields
  {
    forall i :: 0 <= i < |fields| ==> ShortSlot(fields[i], m.slots[fields[i].at])
  }

  // ---------------------------------------------------------------- encoding a valid struct succeeds

  lemma {:induction false} ValueEncodes(f: Field, v: Value)
    requires FieldOk(f) && ValueOk(f, v)
    ensures EncValue(f, v).Some?
    decreases f, 0
  {
    if f.ltype.LSubmessage? {
      MsgEncodes(f.ptr.fields, v.msg);
    }
  }

  lemma {:induction false} ArrayEncodes(f: Field, items: seq<Value>, n: nat)
    requires FieldOk(f) && n <= |items| && forall k :: 0 <= k < n ==> ValueOk(f, items[k])
    ensures EncItems(f, items, n).Some? && EncEntries(f, items, n).Some?
    decreases f, 1, n
  {
    if n > 0 {
      ArrayEncodes(f, items, n - 1);
      ValueEncodes(f, items[n - 1]);
    }
  }

  lemma {:induction false} FieldEncodes(f: Field, slot: Slot)
    requires FieldOk(f) && |slot.items| == Cells(f) && SlotOk(f, slot)
    ensures EncField(f, slot).Some?
    decreases f, 2
  {
    if f.htype.Repeated? {
      ArrayEncodes(f, slot.items, if FixedCount(f) then f.arraySize else slot.size);
    } else if f.htype.Required? || (f.htype.Optional? && (f.sizeOffset == 0 || slot.size != 0)) || slot.size == f.tag {
      if f.htype.Optional? && f.sizeOffset != 0 && slot.size == 0 {
      } else {
        ValueEncodes(f, slot.items[0]);
      }
    }
  }

  lemma {:induction false} PrefixEncodes(fields: seq<Field>, k: nat, m: Msg)
    requires Wf(fields) && Shaped(fields, m) && MsgOk(fields, m) && k <= |fields|
    ensures EncUpTo(fields, k, m).Some?
    decreases fields, k
  {
    if k > 0 {
      PrefixEncodes(fields, k - 1, m);
      FieldEncodes(fields[k - 1], m.slots[fields[k - 1].at]);
    }
  }

  /** pb_encode of a valid struct fails only for want of room. */
  lemma MsgEncodes(fields: seq<Field>, m: Msg)
    requires Wf(fields) && Shaped(fields, m) && MsgOk(fields, m)
    ensures Enc(fields, m).Some?
    decreases fields, |fields| + 1
  {
    PrefixEncodes(fields, |fields|, m);
  }

  // ---------------------------------------------------------------- what is not encoded is the default

  /** A zero proto3 member reads the same as its default. */
  lemma {:induction false} ZeroSame(f: Field, v: Value, y: Value)
    requires FieldOk(f) && PlainField(f) && f.htype.Optional? && f.sizeOffset == 0
    requires ValueOk(f, v) && IsZero(f, v)
    ensures SameValue(f, v, DefaultValue(f, y), false)
    decreases f, 0
  {
    if f.ltype.LSubmessage? {
      AllDefaultSame(f.ptr.fields, v.msg, AsMsg(f.ptr.fields, y));
    } else if f.ltype.LString? {
      assert Zeros(f.dataSize)[0] == 0;
    } else if Packable(f.ltype) {
      ZeroMember(v.n, f.dataSize);
    }
  }

  lemma {:induction false} AllDefaultSame(fields: seq<Field>, m: Msg, x: Msg)
    requires Wf(fields) && Shaped(fields, m) && Shaped(fields, x) && Plain(fields)
    requires MsgOk(fields, m) && AllDefault(fields, m)
    ensures SameMsg(fields, m, SetDefaults(fields, x), false)
    decreases fields
  {
    forall i | 0 <= i < |fields|
      ensures SameSlot(fields[i], m.slots[fields[i].at], SetDefaults(fields, x).slots[fields[i].at], false)
    {
      var f := fields[i];
      DefaultsAt(fields, |fields|, x, i);
      assert IsDefault(f, m.slots[f.at]) && SlotOk(f, m.slots[f.at]);
      if f.htype.Optional? && f.sizeOffset == 0 {
        ZeroSame(f, m.slots[f.at].items[0], x.slots[f.at].items[0]);
      }
    }
  }

  lemma {:induction false} EntriesNotEmpty(f: Field, items: seq<Value>, n: nat)
    requires FieldOk(f) && n <= |items| && EncEntries(f, items, n).Some?
    ensures |EncEntries(f, items, n).value| >= n
    decreases n
  {
    if n > 0 {
      EntriesNotEmpty(f, items, n - 1);
    }
  }

  /** A member that is left out of the encoding reads the same as its default. */
  lemma AbsentSame(f: Field, a: Slot, y: Slot)
    requires FieldOk(f) && PlainField(f) && |a.items| == Cells(f) && |y.items| == Cells(f)
    requires SlotOk(f, a) && !f.htype.Oneof? && EncField(f, a) == Some([])
    ensures SameSlot(f, a, DefaultSlot(f, y), false)
  {
    if f.htype.Optional? && f.sizeOffset == 0 {
      ZeroSame(f, a.items[0], y.items[0]);
    } else if f.htype.Repeated? && !Packable(f.ltype) {
      EntriesNotEmpty(f, a.items, if f.sizeOffset != 0 then a.size else f.arraySize);
    }
  }

  // ---------------------------------------------------------------- progress of the field loop

  /** The tag `which` belongs to one of the first k fields, in the same union as field i. */
  predicate Selected(fields: seq<Field>, k: nat, i: nat, which: nat)
    requires k <= |fields| && i < |fields|
  {
    exists j :: 0 <= j < k && fields[j].at == fields[i].at && fields[j].tag == which
  }

  /** Field i of `msg` after the first k fields of `m` were decoded into defaulted `d`. */
  predicate FieldProgress(fields: seq<Field>, k: nat, i: nat, m: Msg, d: Msg, msg: Msg)
    requires Wf(fields) && Shaped(fields, m) && Shaped(fields, d) && Shaped(fields, msg)
    requires k <= |fields| && i < |fields|
  {
    var f := fields[i];
    var a, b := m.slots[f.at], msg.slots[f.at];
    if f.htype.Oneof? then
      if Selected(fields, k, i, a.size) then SameSlot(f, a, b, false) else b.size == 0
    else if i < k then SameSlot(f, a, b, false)
    else b == DefaultSlot(f, d.slots[f.at])
  }

  predicate Progress(fields: seq<Field>, k: nat, m: Msg, d: Msg, st: DecState)
    requires Wf(fields) && Shaped(fields, m) && Shaped(fields, d) && StateOk(fields, st) && k <= |fields|
  {
    && (forall i :: 0 <= i < |fields| ==> FieldProgress(fields, k, i, m, d, st.msg))
    && (forall i :: 0 <= i < k && Tracked(fields, i) ==> RequiredBefore(fields, i) in st.seen)
    && FixedComplete(fields, st)
    && (st.fixedField.Some? ==> st.fixedField.value < k)
  }

  lemma SelectedElsewhere(fields: seq<Field>, k: nat, i: nat, w: nat)
    requires k < |fields| && i < |fields|
    requires fields[i].at != fields[k].at || fields[k].tag != w
    ensures Selected(fields, k + 1, i, w) <==> Selected(fields, k, i, w)
  {
    if Selected(fields, k, i, w) {
      var j :| 0 <= j < k && fields[j].at == fields[i].at && fields[j].tag == w;
      assert Selected(fields, k + 1, i, w);
    }
  }

  lemma SkippedProgress(fields: seq<Field>, k: nat, m: Msg, d: Msg, st: DecState)
    requires Wf(fields) && Shaped(fields, m) && Shaped(fields, d) && StateOk(fields, st) && k < |fields|
    requires Plain(fields) && MsgOk(fields, m) && Progress(fields, k, m, d, st)
    requires EncField(fields[k], m.slots[fields[k].at]) == Some([])
    ensures Progress(fields, k + 1, m, d, st)
  {
    var next := k + 1;
    forall i | 0 <= i < |fields|
      ensures FieldProgress(fields, next, i, m, d, st.msg)
    {
      var f := fields[i];
      assert FieldProgress(fields, k, i, m, d, st.msg);
      if f.htype.Oneof? {
        SelectedElsewhere(fields, k, i, m.slots[f.at].size);
      } else if i == k {
        assert PlainField(f) && SlotOk(f, m.slots[f.at]);
        AbsentSame(f, m.slots[f.at], d.slots[f.at]);
      }
    }
  }

  lemma DecodedProgress(fields: seq<Field>, k: nat, m: Msg, d: Msg, st: DecState, b: Slot, st': DecState)
    requires Wf(fields) && Shaped(fields, m) && Shaped(fields, d) && StateOk(fields, st) && k < |fields|
    requires StateOk(fields, st') && Progress(fields, k, m, d, st)
    requires |b.items| == Cells(fields[k]) && st'.msg == WithSlot(fields, st.msg, k, b)
    requires SameSlot(fields[k], m.slots[fields[k].at], b, false)
    requires fields[k].htype.Oneof? ==> m.slots[fields[k].at].size == fields[k].tag
    requires st.seen <= st'.seen && (Tracked(fields, k) ==> RequiredBefore(fields, k) in st'.seen)
    requires FixedComplete(fields, st') && (st'.fixedField.Some? ==> st'.fixedField.value <= k)
    ensures Progress(fields, k + 1, m, d, st')
  {
    var g, next := fields[k], k + 1;
    forall i | 0 <= i < |fields|
      ensures FieldProgress(fields, next, i, m, d, st'.msg)
    {
      var f := fields[i];
      assert FieldProgress(fields, k, i, m, d, st.msg);
      var w := m.slots[f.at].size;
      if f.at != g.at {
        if f.htype.Oneof? {
          SelectedElsewhere(fields, k, i, w);
        }
      } else if f.htype.Oneof? {
        assert g.htype.Oneof?;
        assert Selected(fields, k + 1, i, w);
        if i != k { assert f.tag != g.tag; }
      } else {
        assert i == k;
      }
    }
  }

  lemma StartProgress(fields: seq<Field>, m: Msg, d: Msg)
    requires Wf(fields) && Shaped(fields, m) && Shaped(fields, d)
    ensures Progress(fields, 0, m, d, Start(SetDefaults(fields, d)))
  {
    forall i | 0 <= i < |fields|
      ensures FieldProgress(fields, 0, i, m, d, SetDefaults(fields, d))
    {
      DefaultsAt(fields, |fields|, d, i);
    }
  }

  lemma FinalProgress(fields: seq<Field>, m: Msg, d: Msg, st: DecState)
    requires Wf(fields) && Shaped(fields, m) && Shaped(fields, d) && StateOk(fields, st)
    requires MsgOk(fields, m) && Progress(fields, |fields|, m, d, st)
    ensures SameMsg(fields, m, st.msg, false) && AllRequiredSeen(fields, st.seen)
  {
    forall i | 0 <= i < |fields|
      ensures SameSlot(fields[i], m.slots[fields[i].at], st.msg.slots[fields[i].at], false)
    {
      var f := fields[i];
      assert FieldProgress(fields, |fields|, i, m, d, st.msg);
      if f.htype.Oneof? {
        var w := m.slots[f.at].size;
        assert SelectorOk(fields, f.at, w);
        if w != 0 {
          assert Selected(fields, |fields|, i, w);
        } else {
          forall j | 0 <= j < |fields|
            ensures fields[j].tag != 0
          {
            assert FieldOk(fields[j]);
          }
        }
      }
    }
  }

  // ---------------------------------------------------------------- one field on the wire

  lemma FindDistinct(fields: seq<Field>, k: nat)
    requires Wf(fields) && k < |fields|
    ensures Find(fields, fields[k].tag) == Some(k)
  {
    assert forall j :: 0 <= j < |fields| && j != k ==> fields[j].tag != fields[k].tag;
  }

  /** The state after field k was entered and its payload placed. */
  function After(fields: seq<Field>, k: nat, st: DecState, st1: DecState, placed: Placed): (r: DecState)
    requires Wf(fields) && StateOk(fields, st) && StateOk(fields, st1) && k < |fields|
    requires |placed.slot.items| == Cells(fields[k])
    ensures StateOk(fields, r)
  {
    st1.(msg := WithSlot(fields, st.msg, k, placed.slot),
         fixedCount := if FixedCount(fields[k]) then placed.count else st1.fixedCount)
  }

  /** The loop on exactly one field. */
  lemma OneField(fields: seq<Field>, k: nat, wireType: nat, payload: Bytes, st: DecState, st1: DecState, placed: Placed)
    requires Wf(fields) && StateOk(fields, st) && k < |fields| && wireType < 8
    requires Enter(fields, k, st) == Some(st1)
    requires var slot := st.msg.slots[fields[k].at];
             |placed.slot.items| == Cells(fields[k])
             && DecField(fields[k], wireType, payload, slot, CountOf(fields[k], st1, slot)) == Ok(placed, [])
    ensures Loop(fields, EncTag(wireType, fields[k].tag) + payload, st) == Drained(After(fields, k, st, st1, placed))
  {
    var f := fields[k];
    assert FieldOk(f);
    TagRoundTrip(wireType, f.tag, payload);
    FindDistinct(fields, k);
    var st' := After(fields, k, st, st1, placed);
    assert StepFound(fields, k, wireType, payload, st) == Ok(st', []);
    assert Loop(fields, [], st') == Drained(st');
  }

  // ---------------------------------------------------------------- the induction

  /**
    Any valid cell is read back the same. A submessage that is not an array entry must be
    decoded into a defaulted struct, as it is after pb_message_set_to_defaults.
   */
  lemma {:induction false} CellTrip(f: Field, v: Value, t: Bytes, prior: Value, y: Value)
    requires FieldOk(f) && PlainField(f) && ValueOk(f, v)
    requires EncValue(f, v).Some? && ShortValue(f, v)
    requires f.ltype.LSubmessage? && !f.htype.Repeated? ==> prior == DefaultValue(f, y)
    ensures var p := DecValue(f, EncValue(f, v).value + t, prior);
            p.Ok? && p.rest == t && SameValue(f, v, p.value, false)
    decreases f, 0
  {
    if Packable(f.ltype) {
      PackableTrip(f, v, t);
    } else if f.ltype.LString? {
      StringTrip(f, v, t, prior);
    } else if f.ltype.LSubmessage? {
      var fs := f.ptr.fields;
      var bs := Enc(fs, v.msg).value;
      SizedTrip(bs, t);
      SplitAt(bs, t);
      MsgTrip(fs, v.msg, AsMsg(fs, if f.htype.Repeated? then prior else y));
    } else {
      BytesTrip(f, v, t, prior);
    }
  }

  /** A field encoded as one tag and one value. */
  lemma {:induction false} SingleStep(fields: seq<Field>, k: nat, m: Msg, d: Msg, st: DecState) returns (st': DecState)
    requires Wf(fields) && Shaped(fields, m) && Shaped(fields, d) && StateOk(fields, st) && k < |fields|
    requires Plain(fields) && MsgOk(fields, m) && Short(fields, m) && Progress(fields, k, m, d, st)
    requires var f := fields[k]; var a := m.slots[f.at];
             !f.htype.Repeated? && ValueOk(f, a.items[0])
             && EncField(f, a).Some? && EncField(f, a) == EncTagged(f, a.items[0])
             && (f.htype.Oneof? ==> a.size == f.tag) && (f.htype.Optional? && f.sizeOffset != 0 ==> a.size != 0)
    ensures StateOk(fields, st') && Progress(fields, k + 1, m, d, st')
    ensures Loop(fields, EncField(fields[k], m.slots[fields[k].at]).value, st) == Drained(st')
    decreases fields, k, 0
  {
    var f := fields[k];
    assert PlainField(f) && FieldOk(f);
    assert FieldProgress(fields, k, k, m, d, st.msg);
    var a, slot := m.slots[f.at], st.msg.slots[f.at];
    var e := EncValue(f, a.items[0]).value;
    assert ShortSlot(f, a) && |KeyOf(f)| >= 1;
    var st1 := Enter(fields, k, st).value;
    var y := if f.htype.Oneof? && f.ltype.LSubmessage? then Sub(Zero(f.ptr.fields)) else d.slots[f.at].items[0];
    var prior := if f.htype.Oneof? && f.ltype.LSubmessage? then Sub(SetDefaults(f.ptr.fields, Zero(f.ptr.fields)))
                 else slot.items[0];
    CellTrip(f, a.items[0], [], prior, y);
    EmptyRight(e);
    var v := DecValue(f, e, prior).value;
    var size := if f.htype.Oneof? then f.tag else if f.htype.Optional? && f.sizeOffset != 0 then 1 else slot.size;
    var placed := Placed(Slot(size, [v]), CountOf(f, st1, slot));
    OneField(fields, k, WireTypeOf(f.ltype), e, st, st1, placed);
    st' := After(fields, k, st, st1, placed);
    DecodedProgress(fields, k, m, d, st, placed.slot, st');
  }

  /** What decode_static_field leaves of an array after appending `vals` at `count`. */
  function Appended(f: Field, slot: Slot, count: nat, vals: seq<Value>): (p: Placed)
    requires count + |vals| <= |slot.items|
    ensures |p.slot.items| == |slot.items|
  {
    var n := count + |vals|;
    Placed(Slot(if FixedCount(f) then slot.size else n, Overlay(slot.items, count, vals)), n)
  }

  /** A packed chunk of valid entries after the first `count` cells of an array. */
  lemma PackedField(f: Field, vals: seq<Value>, slot: Slot, count: nat)
    requires FieldOk(f) && f.htype.Repeated? && Packable(f.ltype) && |slot.items| == f.arraySize
    requires count + |vals| <= f.arraySize && forall k :: 0 <= k < |vals| ==> ValueOk(f, vals[k])
    requires EncItems(f, vals, |vals|).Some? ==> |EncItems(f, vals, |vals|).value| < TWO32
    ensures EncItems(f, vals, |vals|).Some?
    ensures DecField(f, WT_STRING, EncSized(EncItems(f, vals, |vals|).value), slot, count)
         == Ok(Appended(f, slot, count, vals), [])
  {
    PackedWhole(f, vals, slot.items, count);
    var bs := EncItems(f, vals, |vals|).value;
    SizedTrip(bs, []);
    EmptyRight(EncSized(bs));
    EmptyRight(bs);
    SplitAt(bs, []);
  }

  /** An array encoded as one packed chunk. */
  lemma PackedStep(fields: seq<Field>, k: nat, m: Msg, d: Msg, st: DecState) returns (st': DecState)
    requires Wf(fields) && Shaped(fields, m) && Shaped(fields, d) && StateOk(fields, st) && k < |fields|
    requires Plain(fields) && MsgOk(fields, m) && Short(fields, m) && Progress(fields, k, m, d, st)
    requires var f := fields[k]; var a := m.slots[f.at];
             f.htype.Repeated? && Packable(f.ltype) && (FixedCount(f) || a.size > 0)
             && EncField(f, a).Some?
    ensures StateOk(fields, st') && Progress(fields, k + 1, m, d, st')
    ensures Loop(fields, EncField(fields[k], m.slots[fields[k].at]).value, st) == Drained(st')
  {
    var f := fields[k];
    assert FieldOk(f);
    var a, slot := m.slots[f.at], st.msg.slots[f.at];
    assert SlotOk(f, a) && ShortSlot(f, a);
    assert FieldProgress(fields, k, k, m, d, st.msg);
    var n := if FixedCount(f) then f.arraySize else a.size;
    var st1 := Enter(fields, k, st).value;
    var vals := a.items[..n];
    ItemsOfPrefix(f, a.items, n, n);
    PackedField(f, vals, slot, 0);
    var placed := Appended(f, slot, 0, vals);
    OneField(fields, k, WT_STRING, EncSized(EncItems(f, a.items, n).value), st, st1, placed);
    st' := After(fields, k, st, st1, placed);
    OverlaySame(f, a, placed.slot, n, slot.items);
    DecodedProgress(fields, k, m, d, st, placed.slot, st');
  }

  lemma OverlaySame(f: Field, a: Slot, b: Slot, n: nat, base: seq<Value>)
    requires FieldOk(f) && f.htype.Repeated? && Packable(f.ltype) && |a.items| == |base| == f.arraySize
    requires n == (if FixedCount(f) then f.arraySize else a.size) && n <= f.arraySize
    requires b.items == Overlay(base, 0, a.items[..n]) && (FixedCount(f) || b.size == n)
    ensures SameSlot(f, a, b, false)
  {
    forall j | 0 <= j < n
      ensures SameValue(f, a.items[j], b.items[j], false)
    {
      assert b.items[j] == a.items[..n][j];
    }
  }

  /** The state between two entries of an array that is sent entry by entry. */
  predicate Between(fields: seq<Field>, k: nat, n: nat, a: Slot, st0: DecState, st: DecState)
    requires Wf(fields) && StateOk(fields, st0) && StateOk(fields, st) && k < |fields| && fields[k].htype.Repeated?
    requires |a.items| == fields[k].arraySize && n <= fields[k].arraySize
  {
    var f := fields[k];
    var b := st.msg.slots[f.at];
    && st.msg == WithSlot(fields, st0.msg, k, b)
    && st.seen == st0.seen
    && (forall j :: 0 <= j < n ==> SameValue(f, a.items[j], b.items[j], false))
    && (if FixedCount(f) then
          if n == 0 then st == st0 else st.fixedField == Some(k) && st.fixedCount == n
        else b.size == n && st.fixedField == st0.fixedField && st.fixedCount == st0.fixedCount)
  }

  lemma {:induction false} EntriesTrip(fields: seq<Field>, k: nat, n: nat, a: Slot, st0: DecState) returns (st: DecState)
    requires Wf(fields) && Plain(fields) && StateOk(fields, st0) && k < |fields|
    requires var f := fields[k];
             f.htype.Repeated? && !Packable(f.ltype) && |a.items| == f.arraySize && n <= f.arraySize
             && (forall j :: 0 <= j < n ==> ValueOk(f, a.items[j]))
             && EncEntries(f, a.items, n).Some? && (forall j :: 0 <= j < n ==> ShortValue(f, a.items[j]))
             && FixedComplete(fields, st0) && st0.fixedField != Some(k)
             && (!FixedCount(f) ==> st0.msg.slots[f.at].size == 0)
    ensures StateOk(fields, st) && Between(fields, k, n, a, st0, st)
    ensures Loop(fields, EncEntries(fields[k], a.items, n).value, st0) == Drained(st)
    decreases fields, k, 1, n
  {
    var f := fields[k];
    assert PlainField(f) && FieldOk(f);
    if n == 0 {
      st := st0;
      assert st0.msg.slots[f.at := st0.msg.slots[f.at]] == st0.msg.slots;
    } else {
      var e := EncValue(f, a.items[n - 1]).value;
      var mid := EntriesTrip(fields, k, n - 1, a, st0);
      st := EntryStep(fields, k, n, a, st0, mid, e);
      LoopConcat(fields, EncEntries(f, a.items, n - 1).value, KeyOf(f) + e, st0);
    }
  }

  /** One entry, with its tag, at the end of an array that holds `count`. */
  lemma {:induction false} EntryField(f: Field, v: Value, e: Bytes, b: Slot, count: nat) returns (w: Value)
    requires FieldOk(f) && PlainField(f) && f.htype.Repeated? && !Packable(f.ltype)
    requires |b.items| == f.arraySize && count < f.arraySize
    requires ValueOk(f, v) && EncValue(f, v) == Some(e) && ShortValue(f, v)
    ensures DecField(f, WireTypeOf(f.ltype), e, b, count)
         == Ok(Placed(Slot(if FixedCount(f) then b.size else count + 1, b.items[count := w]), count + 1), [])
    ensures SameValue(f, v, w, false)
    decreases f, 1
  {
    CellTrip(f, v, [], b.items[count], b.items[count]);
    EmptyRight(e);
    w := DecValue(f, e, b.items[count]).value;
  }

  /** One more entry. */
  lemma {:induction false} EntryStep(fields: seq<Field>, k: nat, n: nat, a: Slot, st0: DecState, mid: DecState, e: Bytes)
    returns (st: DecState)
    requires Wf(fields) && Plain(fields) && StateOk(fields, st0) && StateOk(fields, mid) && k < |fields|
    requires var f := fields[k];
             f.htype.Repeated? && !Packable(f.ltype) && |a.items| == f.arraySize && 1 <= n <= f.arraySize
             && ValueOk(f, a.items[n - 1]) && EncValue(f, a.items[n - 1]) == Some(e) && ShortValue(f, a.items[n - 1])
             && FixedComplete(fields, st0) && st0.fixedField != Some(k)
    requires Between(fields, k, n - 1, a, st0, mid)
    ensures StateOk(fields, st) && Between(fields, k, n, a, st0, st)
    ensures Loop(fields, KeyOf(fields[k]) + e, mid) == Drained(st)
    decreases fields, k, 0
  {
    var f := fields[k];
    assert PlainField(f) && FieldOk(f);
    var b := mid.msg.slots[f.at];
    var st1 := Enter(fields, k, mid).value;
    var w := EntryField(f, a.items[n - 1], e, b, n - 1);
    var placed := Placed(Slot(if FixedCount(f) then b.size else n, b.items[n - 1 := w]), n);
    OneField(fields, k, WireTypeOf(f.ltype), e, mid, st1, placed);
    st := After(fields, k, mid, st1, placed);
    BetweenNext(fields, k, n, a, st0, mid, st1, placed, w);
  }

  lemma BetweenNext(fields: seq<Field>, k: nat, n: nat, a: Slot, st0: DecState, mid: DecState, st1: DecState,
                    placed: Placed, w: Value)
    requires Wf(fields) && StateOk(fields, st0) && StateOk(fields, mid) && k < |fields| && fields[k].htype.Repeated?
    requires |a.items| == fields[k].arraySize && 1 <= n <= fields[k].arraySize
    requires Between(fields, k, n - 1, a, st0, mid) && Enter(fields, k, mid) == Some(st1) && StateOk(fields, st1)
    requires FieldOk(fields[k]) && SameValue(fields[k], a.items[n - 1], w, false)
    requires var b := mid.msg.slots[fields[k].at];
             placed == Placed(Slot(if FixedCount(fields[k]) then b.size else n, b.items[n - 1 := w]), n)
    ensures Between(fields, k, n, a, st0, After(fields, k, mid, st1, placed))
  {
    TwiceSet(fields, k, st0.msg, mid.msg, mid.msg.slots[fields[k].at], placed.slot);
  }

  lemma TwiceSet(fields: seq<Field>, k: nat, m: Msg, mid: Msg, b: Slot, c: Slot)
    requires Wf(fields) && Shaped(fields, m) && Shaped(fields, mid) && k < |fields|
    requires |b.items| == Cells(fields[k]) && |c.items| == Cells(fields[k])
    requires mid == WithSlot(fields, m, k, b)
    ensures WithSlot(fields, mid, k, c) == WithSlot(fields, m, k, c)
  {
    assert mid.slots[fields[k].at := c] == m.slots[fields[k].at := c];
  }

  lemma {:induction false} UnpackedStep(fields: seq<Field>, k: nat, m: Msg, d: Msg, st: DecState) returns (st': DecState)
    requires Wf(fields) && Shaped(fields, m) && Shaped(fields, d) && StateOk(fields, st) && k < |fields|
    requires Plain(fields) && MsgOk(fields, m) && Short(fields, m) && Progress(fields, k, m, d, st)
    requires var f := fields[k]; var a := m.slots[f.at];
             f.htype.Repeated? && !Packable(f.ltype) && (FixedCount(f) || a.size > 0)
             && EncField(f, a).Some?
    ensures StateOk(fields, st') && Progress(fields, k + 1, m, d, st')
    ensures Loop(fields, EncField(fields[k], m.slots[fields[k].at]).value, st) == Drained(st')
    decreases fields, k, 2
  {
    var f := fields[k];
    assert FieldOk(f);
    var a := m.slots[f.at];
    assert SlotOk(f, a) && ShortSlot(f, a);
    assert FieldProgress(fields, k, k, m, d, st.msg);
    st' := EntriesTrip(fields, k, if FixedCount(f) then f.arraySize else a.size, a, st);
    DecodedProgress(fields, k, m, d, st, st'.msg.slots[f.at], st');
  }

  /** A field that is present in the encoding. */
  lemma {:induction false} FieldStep(fields: seq<Field>, k: nat, m: Msg, d: Msg, st: DecState) returns (st': DecState)
    requires Wf(fields) && Shaped(fields, m) && Shaped(fields, d) && StateOk(fields, st) && k < |fields|
    requires Plain(fields) && MsgOk(fields, m) && Short(fields, m) && Progress(fields, k, m, d, st)
    requires EncField(fields[k], m.slots[fields[k].at]).Some?
    requires |EncField(fields[k], m.slots[fields[k].at]).value| > 0
    ensures StateOk(fields, st') && Progress(fields, k + 1, m, d, st')
    ensures Loop(fields, EncField(fields[k], m.slots[fields[k].at]).value, st) == Drained(st')
    decreases fields, k, 3
  {
    var f := fields[k];
    assert FieldOk(f) && SlotOk(f, m.slots[f.at]);
    if !f.htype.Repeated? {
      st' := SingleStep(fields, k, m, d, st);
    } else if Packable(f.ltype) {
      st' := PackedStep(fields, k, m, d, st);
    } else {
      st' := UnpackedStep(fields, k, m, d, st);
    }
  }

  /** Decoding the first k fields into a defaulted struct leads to `st`. */
  predicate PrefixRead(fields: seq<Field>, k: nat, m: Msg, d: Msg, st: DecState)
    requires Wf(fields) && Shaped(fields, m) && Shaped(fields, d) && k <= |fields|
  {
    && StateOk(fields, st) && Progress(fields, k, m, d, st) && EncUpTo(fields, k, m).Some?
    && Loop(fields, EncUpTo(fields, k, m).value, Start(SetDefaults(fields, d))) == Drained(st)
  }

  lemma NothingRead(fields: seq<Field>, m: Msg, d: Msg)
    requires Wf(fields) && Shaped(fields, m) && Shaped(fields, d)
    ensures PrefixRead(fields, 0, m, d, Start(SetDefaults(fields, d)))
  {
    StartProgress(fields, m, d);
  }

  /** One more field after the first k were decoded. */
  lemma {:induction false} PrefixGoesOn(fields: seq<Field>, k: nat, m: Msg, d: Msg, mid: DecState) returns (st: DecState)
    requires Wf(fields) && Plain(fields) && Shaped(fields, m) && Shaped(fields, d) && MsgOk(fields, m) && k < |fields|
    requires EncUpTo(fields, k + 1, m).Some? && Short(fields, m) && PrefixRead(fields, k, m, d, mid)
    ensures PrefixRead(fields, k + 1, m, d, st)
    decreases fields, k, 4
  {
    var e := EncField(fields[k], m.slots[fields[k].at]).value;
    LoopConcat(fields, EncUpTo(fields, k, m).value, e, Start(SetDefaults(fields, d)));
    if e == [] {
      st := mid;
      SkippedProgress(fields, k, m, d, mid);
    } else {
      st := FieldStep(fields, k, m, d, mid);
    }
  }

  /** The first k fields, decoded one after the other into a defaulted struct. */
  lemma {:induction false} PrefixTrip(fields: seq<Field>, k: nat, m: Msg, d: Msg) returns (st: DecState)
    requires Wf(fields) && Plain(fields) && Shaped(fields, m) && Shaped(fields, d) && MsgOk(fields, m) && k <= |fields|
    requires EncUpTo(fields, k, m).Some? && Short(fields, m)
    ensures PrefixRead(fields, k, m, d, st)
    decreases fields, k, 4
  {
    if k == 0 {
      st := Start(SetDefaults(fields, d));
      NothingRead(fields, m, d);
    } else {
      var mid := PrefixTrip(fields, k - 1, m, d);
      st := PrefixGoesOn(fields, k - 1, m, d, mid);
    }
  }

  /**
    Round trip: for a valid struct m, pb_decode of its encoding into any destination d
    succeeds, leaves no bytes, and yields a struct that reads the same as m.
   */
  lemma {:induction false} MsgTrip(fields: seq<Field>, m: Msg, d: Msg)
    requires Wf(fields) && Plain(fields) && Shaped(fields, m) && Shaped(fields, d) && MsgOk(fields, m)
    requires Short(fields, m)
    ensures Enc(fields, m).Some?
    ensures var p := Decode(fields, Enc(fields, m).value, d);
            p.Ok? && p.rest == [] && SameMsg(fields, m, p.value, false)
    ensures Loop(fields, Enc(fields, m).value, Start(SetDefaults(fields, d))).Drained?
    decreases fields, |fields| + 1, 5
  {
    MsgEncodes(fields, m);
    var st := PrefixTrip(fields, |fields|, m, d);
    FinalProgress(fields, m, d, st);
  }

  // ---------------------------------------------------------------- short messages have short parts

  lemma {:induction false} ValueShort(f: Field, v: Value)
    requires FieldOk(f) && EncValue(f, v).Some? && |EncValue(f, v).value| < TWO32
    ensures ShortValue(f, v)
    decreases f, 0
  {
    if f.ltype.LSubmessage? {
      WholeShort(f.ptr.fields, AsMsg(f.ptr.fields, v));
    }
  }

  lemma {:induction false} EntriesShort(f: Field, items: seq<Value>, n: nat)
    requires FieldOk(f) && n <= |items| && EncEntries(f, items, n).Some? && |EncEntries(f, items, n).value| < TWO32
    ensures forall k :: 0 <= k < n ==> ShortValue(f, items[k])
    decreases f, 1, n
  {
    if n > 0 {
      EntriesShort(f, items, n - 1);
      ValueShort(f, items[n - 1]);
    }
  }

  lemma {:induction false} SlotShort(f: Field, slot: Slot)
    requires FieldOk(f) && |slot.items| == Cells(f)
    requires EncField(f, slot).Some? && |EncField(f, slot).value| < TWO32
    ensures ShortSlot(f, slot)
    decreases f, 2
  {
    if !f.htype.Repeated? {
      if EncField(f, slot) != Some([]) {
        ValueShort(f, slot.items[0]);
      }
    } else if 0 < Entries(f, slot) <= f.arraySize && !Packable(f.ltype) {
      EntriesShort(f, slot.items, Entries(f, slot));
    }
  }

  lemma {:induction false} PrefixShort(fields: seq<Field>, k: nat, m: Msg)
    requires Wf(fields) && Shaped(fields, m) && k <= |fields|
    requires EncUpTo(fields, k, m).Some? && |EncUpTo(fields, k, m).value| < TWO32
    ensures forall i :: 0 <= i < k ==> ShortSlot(fields[i], m.slots[fields[i].at])
    decreases fields, k
  {
    if k > 0 {
      PrefixShort(fields, k - 1, m);
      assert fields[k - 1] in fields;
      SlotShort(fields[k - 1], m.slots[fields[k - 1].at]);
    }
  }

  /** Every length in an encoding below 4 GiB is a 32-bit number. */
  lemma WholeShort(fields: seq<Field>, m: Msg)
    requires Wf(fields) && Shaped(fields, m) && Enc(fields, m).Some? && |Enc(fields, m).value| < TWO32
    ensures Short(fields, m)
    decreases fields, |fields| + 1
  {
    PrefixShort(fields, |fields|, m);
  }
}
