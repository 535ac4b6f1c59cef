/**
  When exactly prior contents of the destination show through pb_decode: when a fixed-count
  array has something to read behind the four bytes that setting defaults clears.
 */
module InitExact {
  import opened Prelude
  import opened Bits
  import opened Wire
  import opened Descriptor
  import opened DecodeSpec
  import opened EncodeSpec
  import opened EncodeSize
  import opened Observe
  import opened Merge
  import opened ValueTrip
  import opened RoundTrip
  import opened RequiredFields
  import opened InitDefaults
  import opened LeastMessage

  // ---------------------------------------------------------------- zeroed structs

  /** Clearing bytes of a struct changes nothing if it changes no member. */
  lemma {:induction false} SteadyUpTo(fields: seq<Field>, k: nat, m: Msg, w: nat)
    requires Wf(fields) && Shaped(fields, m) && k <= |fields|
    requires forall i :: 0 <= i < k ==> SteadySlot(fields[i], m.slots[fields[i].at], w)
    ensures WipeUpTo(fields, k, m, w) == m
    decreases k
  {
    if k > 0 {
      SteadyUpTo(fields, k - 1, m, w);
      var f := fields[k - 1];
      assert SteadySlot(f, m.slots[f.at], w);
      assert m.slots[f.at := m.slots[f.at]] == m.slots;
    }
  }

  predicate SteadySlot(f: Field, slot: Slot, w: nat)
    requires FieldOk(f)
  {
    WipeSlot(f, slot, slot, w) == slot
  }

  /** Clearing up to `w` bytes of a cell changes nothing. */
  predicate Steady(f: Field, v: Value, w: nat)
    requires FieldOk(f)
  {
    forall u :: 0 <= u <= w ==> WipeValue(f, v, u) == v
  }

  predicate SteadyMsg(fields: seq<Field>, m: Msg, w: nat)
    requires Wf(fields) && Shaped(fields, m)
  {
    forall u :: 0 <= u <= w ==> WipeMsg(fields, m, u) == m
  }

  lemma {:induction false} ZeroSteady(f: Field, u: nat)
    requires FieldOk(f)
    ensures WipeValue(f, ZeroValue(f), u) == ZeroValue(f)
    decreases f, 0
  {
    if f.ltype.LSubmessage? {
      ZeroMsgSteady(f.ptr.fields, u);
    } else if f.ltype.LString? || f.ltype.LFixedBytes? {
      assert ClearStart(Zeros(f.dataSize), u) == Zeros(f.dataSize);
    }
  }

  lemma {:induction false} ZeroSlotSteady(fields: seq<Field>, i: nat, u: nat)
    requires Wf(fields) && i < |fields|
    ensures SteadySlot(fields[i], Zero(fields).slots[fields[i].at], u)
    decreases fields, 0
  {
    var f := fields[i];
    var slot := Zero(fields).slots[f.at];
    assert FieldOk(f);
    ZeroAt(fields, |fields|, i);
    if !f.htype.Oneof? {
      var d := Reach(u, f.at);
      forall k | 0 <= k < Cells(f)
        ensures WipeValue(f, slot.items[k], CellReach(f, d, k)) == slot.items[k]
      {
        ZeroSteady(f, CellReach(f, d, k));
      }
      assert WipeItems(f, slot.items, d) == slot.items;
    }
  }

  lemma {:induction false} ZeroMsgSteady(fields: seq<Field>, u: nat)
    requires Wf(fields)
    ensures WipeMsg(fields, Zero(fields), u) == Zero(fields)
    decreases fields, 1
  {
    forall i | 0 <= i < |fields|
      ensures SteadySlot(fields[i], Zero(fields).slots[fields[i].at], u)
    {
      ZeroSlotSteady(fields, i, u);
    }
    SteadyUpTo(fields, |fields|, Zero(fields), u);
  }

  // ---------------------------------------------------------------- planting something to read

  /** 256^w, for at most four bytes. */
  function Above(w: nat): (n: nat)
    ensures n >= 1
  {
    if w == 0 then 1 else if w == 1 then 0x100 else if w == 2 then 0x1_0000 else if w == 3 then 0x100_0000 else TWO32
  }

  lemma AboveSteady(w: nat, u: nat)
    requires u <= w <= SIZE_WIDTH
    ensures ClearLow(Above(w), u) == Above(w)
  {
  }

  lemma BytesSteady(n: nat, w: nat, u: nat)
    requires u <= w < n
    ensures var b := Zeros(w) + [1] + Zeros(n - w - 1); |b| == n && ClearStart(b, u) == b && b != Zeros(n)
  {
    var b: Bytes := Zeros(w) + [1] + Zeros(n - w - 1);
    assert b[w] == 1 && Zeros(n)[w] == 0;
    assert forall i :: 0 <= i < n && i < u ==> b[i] == 0;
  }

  /** A number or a blob that reads differently from zero and whose first `w` bytes are clear. */
  lemma PlantScalar(f: Field, w: nat) returns (y: Value)
    requires FieldOk(f) && !f.ltype.LSubmessage? && Shows(f, w) && w <= SIZE_WIDTH
    ensures Steady(f, y, w) && !SameValue(f, ZeroValue(f), y, false)
  {
    if f.ltype.LString? || f.ltype.LFixedBytes? {
      var b: Bytes := Zeros(w) + [1] + Zeros(f.dataSize - w - 1);
      y := Blob(b);
      forall u | 0 <= u <= w ensures WipeValue(f, y, u) == y {
        BytesSteady(f.dataSize, w, u);
      }
      BytesSteady(f.dataSize, w, 0);
    } else if f.ltype.LBytes? {
      y := Blob(Zeros(Above(w)));
      forall u | 0 <= u <= w ensures WipeValue(f, y, u) == y {
        AboveSteady(w, u);
      }
    } else {
      y := Num(Above(w));
      forall u | 0 <= u <= w ensures WipeValue(f, y, u) == y {
        AboveSteady(w, u);
      }
    }
  }

  /** Zeroed cells, but for cell k. */
  function PlantedItems(f: Field, k: nat, y: Value): (r: seq<Value>)
    requires FieldOk(f)
    ensures |r| == Cells(f)
    ensures forall j :: 0 <= j < |r| ==> r[j] == if j == k then y else ZeroValue(f)
  {
    seq(Cells(f), j => if j == k then y else ZeroValue(f))
  }

  lemma ItemsSteady(f: Field, k: nat, y: Value, d: nat, e: nat)
    requires FieldOk(f) && e <= d && Steady(f, y, CellReach(f, d, k))
    ensures WipeItems(f, PlantedItems(f, k, y), e) == PlantedItems(f, k, y)
  {
    var items := PlantedItems(f, k, y);
    forall j | 0 <= j < |items|
      ensures WipeValue(f, items[j], CellReach(f, e, j)) == items[j]
    {
      if j == k {
        assert CellReach(f, e, k) <= CellReach(f, d, k);
      } else {
        ZeroSteady(f, CellReach(f, e, j));
      }
    }
  }

  /** A zeroed struct, but for the slot of field i. */
  function PlantedMsg(fields: seq<Field>, i: nat, slot: Slot): (m: Msg)
    requires Wf(fields) && i < |fields| && |slot.items| == Cells(fields[i])
    ensures Shaped(fields, m)
  {
    WithSlot(fields, Zero(fields), i, slot)
  }

  lemma PlantedSteady(fields: seq<Field>, i: nat, slot: Slot, u: nat)
    requires Wf(fields) && i < |fields| && |slot.items| == Cells(fields[i]) && SteadySlot(fields[i], slot, u)
    requires fields[i].htype.Oneof? ==> slot.size > MAX_TAG
    ensures WipeMsg(fields, PlantedMsg(fields, i, slot), u) == PlantedMsg(fields, i, slot)
  {
    var m := PlantedMsg(fields, i, slot);
    forall j | 0 <= j < |fields|
      ensures SteadySlot(fields[j], m.slots[fields[j].at], u)
    {
      if fields[j].at != fields[i].at {
        ZeroSlotSteady(fields, j, u);
      } else if j != i {
        assert fields[j].htype.Oneof? && FieldOk(fields[j]);
      }
    }
    SteadyUpTo(fields, |fields|, m, u);
  }

  /** A size member that cannot be a tag, all of its lower bytes clear. */
  lemma PlantSize(fields: seq<Field>, i: nat, w: nat) returns (slot: Slot)
    requires Wf(fields) && i < |fields| && fields[i].sizeOffset != 0 && !fields[i].htype.Required?
    requires SlotShows(fields[i], w) && w <= SIZE_WIDTH
    ensures |slot.items| == Cells(fields[i]) && (fields[i].htype.Oneof? ==> slot.size > MAX_TAG)
    ensures forall u :: 0 <= u <= w ==> SteadySlot(fields[i], slot, u)
    ensures !SameSlot(fields[i], Zero(fields).slots[fields[i].at], slot, false)
  {
    var f := fields[i];
    slot := Slot(TWO31, PlantedItems(f, 0, ZeroValue(f)));
    ZeroAt(fields, |fields|, i);
    forall u | 0 <= u <= w ensures SteadySlot(f, slot, u) {
      forall v: nat ensures WipeValue(f, ZeroValue(f), v) == ZeroValue(f) { ZeroSteady(f, v); }
      ItemsSteady(f, 0, ZeroValue(f), Reach(w, f.at), Reach(u, f.at));
      assert ClearLow(TWO31, Reach(u, SizeAt(f))) == TWO31;
    }
  }

  lemma PlantData(fields: seq<Field>, i: nat, k: nat, y: Value, w: nat) returns (slot: Slot)
    requires Wf(fields) && i < |fields| && fields[i].sizeOffset == 0 && k < Cells(fields[i])
    requires Steady(fields[i], y, CellReach(fields[i], Reach(w, fields[i].at), k))
    requires !SameValue(fields[i], ZeroValue(fields[i]), y, false)
    ensures slot == Slot(0, PlantedItems(fields[i], k, y))
    ensures forall u :: 0 <= u <= w ==> SteadySlot(fields[i], slot, u)
    ensures !SameSlot(fields[i], Zero(fields).slots[fields[i].at], slot, false)
  {
    var f := fields[i];
    assert FieldOk(f);
    slot := Slot(0, PlantedItems(f, k, y));
    ZeroAt(fields, |fields|, i);
    var zero := Zero(fields).slots[f.at];
    assert !SameValue(f, zero.items[k], slot.items[k], false);
    forall u | 0 <= u <= w ensures SteadySlot(f, slot, u) {
      ItemsSteady(f, k, y, Reach(w, f.at), Reach(u, f.at));
    }
  }

  lemma {:induction false} Plant(f: Field, w: nat) returns (y: Value)
    requires FieldOk(f) && Shows(f, w) && w <= SIZE_WIDTH
    ensures Steady(f, y, w) && !SameValue(f, ZeroValue(f), y, false)
    decreases f, 0
  {
    if f.ltype.LSubmessage? {
      var m := PlantMsg(f.ptr.fields, w);
      y := Sub(m);
    } else {
      y := PlantScalar(f, w);
    }
  }

  /** A struct that reads differently from a zeroed one and whose first `w` bytes are clear. */
  lemma {:induction false} PlantMsg(fields: seq<Field>, w: nat) returns (m: Msg)
    requires Wf(fields) && MsgShows(fields, w) && w <= SIZE_WIDTH
    ensures Shaped(fields, m) && SteadyMsg(fields, m, w) && !SameMsg(fields, Zero(fields), m, false)
    decreases fields, 1
  {
    var i :| 0 <= i < |fields| && SlotShows(fields[i], w);
    var f, slot := fields[i], Slot(0, []);
    var d := Reach(w, f.at);
    if f.sizeOffset != 0 {
      slot := PlantSize(fields, i, w);
    } else {
      var k := 0;
      if f.htype.Repeated? {
        assert SlotShows(f, w) && ArrayShows(f, d);
        k :| 0 <= k < f.arraySize && Shows(f, CellReach(f, d, k));
      }
      assert CellReach(f, d, 0) == d;
      var y := Plant(f, CellReach(f, d, k));
      slot := PlantData(fields, i, k, y, w);
    }
    m := PlantedMsg(fields, i, slot);
    forall u | 0 <= u <= w ensures WipeMsg(fields, m, u) == m {
      PlantedSteady(fields, i, slot, u);
    }
    assert !SameSlot(f, Zero(fields).slots[f.at], m.slots[f.at], false);
  }

  // ---------------------------------------------------------------- an array that does not arrive

  /** Decoding `s` into `a` and into `b` succeeds with results that read differently. */
  predicate Differs(fields: seq<Field>, s: Bytes, a: Msg, b: Msg)
    requires Wf(fields) && Shaped(fields, a) && Shaped(fields, b)
  {
    var p, q := Decode(fields, s, a), Decode(fields, s, b);
    p.Ok? && q.Ok? && !SameMsg(fields, p.value, q.value, false)
  }

  /** In any message: a fixed-count array that does not arrive keeps what is behind its first four bytes. */
  lemma AbsentArrayKeeps(fields: seq<Field>, i: nat, s: Bytes, x: Msg)
    requires Wf(fields) && Shaped(fields, x) && i < |fields| && FixedCount(fields[i])
    requires Decode(fields, s, x).Ok? && i !in Arrivals(fields, s, Start(SetDefaults(fields, x)))
    ensures Decode(fields, s, x).value.slots[fields[i].at].items
         == WipeItems(fields[i], x.slots[fields[i].at].items, SIZE_WIDTH)
  {
    DefaultsAt(fields, |fields|, x, i);
    AbsentKeeps(fields, i, s, Start(SetDefaults(fields, x)));
  }

  lemma LeastWithout(fields: seq<Field>, i: nat, x: Msg)
    requires Wf(fields) && Typical(fields) && Modest(fields) && Shaped(fields, x)
    requires i < |fields| && !fields[i].htype.Required?
    ensures Decode(fields, Least(fields, |fields|, Some(i)), x).Ok?
    ensures i !in Arrivals(fields, Least(fields, |fields|, Some(i)), Start(SetDefaults(fields, x)))
  {
    var st := LeastLoop(fields, |fields|, Some(i), Start(SetDefaults(fields, x)));
    assert AllRequiredSeen(fields, st.seen);
  }

  lemma LeakDirect(fields: seq<Field>, i: nat) returns (s: Bytes, m: Msg)
    requires Wf(fields) && Typical(fields) && Modest(fields)
    requires i < |fields| && FixedCount(fields[i]) && ArrayShows(fields[i], SIZE_WIDTH)
    ensures Shaped(fields, m) && SteadyMsg(fields, m, SIZE_WIDTH) && |s| <= MaxSize(fields)
    ensures Differs(fields, s, Zero(fields), m)
  {
    var f := fields[i];
    s := Least(fields, |fields|, Some(i));
    LeastBound(fields, |fields|, Some(i));
    var k :| 0 <= k < f.arraySize && Shows(f, CellReach(f, SIZE_WIDTH, k));
    var y := Plant(f, CellReach(f, SIZE_WIDTH, k));
    var slot := PlantData(fields, i, k, y, SIZE_WIDTH);
    m := PlantedMsg(fields, i, slot);
    forall u | 0 <= u <= SIZE_WIDTH ensures WipeMsg(fields, m, u) == m {
      PlantedSteady(fields, i, slot, u);
    }
    LeastWithout(fields, i, Zero(fields));
    LeastWithout(fields, i, m);
    AbsentArrayKeeps(fields, i, s, Zero(fields));
    AbsentArrayKeeps(fields, i, s, m);
    ItemsSteady(f, k, y, SIZE_WIDTH, SIZE_WIDTH);
    StillDiffers(fields, i, k, y, s, m);
  }

  lemma StillDiffers(fields: seq<Field>, i: nat, k: nat, y: Value, s: Bytes, m: Msg)
    requires Wf(fields) && Shaped(fields, m) && i < |fields| && FixedCount(fields[i]) && k < fields[i].arraySize
    requires var f := fields[i]; !SameValue(f, ZeroValue(f), y, false)
    requires var p := Decode(fields, s, Zero(fields));
             p.Ok? && p.value.slots[fields[i].at].items
                      == WipeItems(fields[i], Zero(fields).slots[fields[i].at].items, SIZE_WIDTH)
    requires var q := Decode(fields, s, m);
             q.Ok? && q.value.slots[fields[i].at].items == PlantedItems(fields[i], k, y)
    ensures Differs(fields, s, Zero(fields), m)
  {
    var f := fields[i];
    assert FieldOk(f);
    var a, b := Decode(fields, s, Zero(fields)).value.slots[f.at], Decode(fields, s, m).value.slots[f.at];
    ZeroAt(fields, |fields|, i);
    ZeroSteady(f, CellReach(f, SIZE_WIDTH, k));
    assert a.items[k] == ZeroValue(f) && b.items[k] == y;
    assert !SameSlot(f, a, b, false);
  }

  // ---------------------------------------------------------------- a submessage that lets contents through

  lemma EntryDecodes(f: Field, s: Bytes, prior: Value)
    requires FieldOk(f) && f.ltype.LSubmessage? && |s| < TWO32
    ensures var m := AsMsg(f.ptr.fields, prior);
            var r := if f.htype.Repeated? then Decode(f.ptr.fields, s, m) else DecodeNoinit(f.ptr.fields, s, m);
            r.Ok? ==> DecValue(f, EncSized(s), prior) == Ok(Sub(r.value), [])
  {
    SizedTrip(s, []);
    EmptyRight(s);
    EmptyRight(EncSized(s));
    TakeAll(s);
  }

  /** pb_decode of a submessage into what its cell held. */
  function SubResult(f: Field, s: Bytes, prior: Value): (p: Parse<Msg>)
    requires FieldOk(f) && f.ltype.LSubmessage?
  {
    Decode(f.ptr.fields, s, AsMsg(f.ptr.fields, prior))
  }

  /** The required fields but field i, then a submessage for field i. */
  function WithSub(fields: seq<Field>, i: nat, s: Bytes): Bytes
    requires Wf(fields) && i < |fields|
  {
    Least(fields, |fields|, Some(i)) + (KeyOf(fields[i]) + EncSized(s))
  }

  /** The loop on one submessage. */
  lemma SubPlaced(fields: seq<Field>, i: nat, s: Bytes, v: Value, st: DecState) returns (st': DecState)
    requires Wf(fields) && StateOk(fields, st)
    requires i < |fields| && FieldOk(fields[i])
    requires fields[i].ltype.LSubmessage? && !fields[i].htype.Oneof? && !FixedCount(fields[i])
    requires var slot := st.msg.slots[fields[i].at];
             (fields[i].htype.Repeated? ==> slot.size == 0) && DecValue(fields[i], EncSized(s), slot.items[0]) == Ok(v, [])
    ensures StateOk(fields, st') && st'.fixedField == st.fixedField && st'.fixedCount == st.fixedCount
    ensures st'.seen == if Tracked(fields, i) then st.seen + {RequiredBefore(fields, i)} else st.seen
    ensures var slot := st'.msg.slots[fields[i].at]; slot.items[0] == v && (fields[i].sizeOffset != 0 ==> slot.size == 1)
    ensures Loop(fields, KeyOf(fields[i]) + EncSized(s), st) == Drained(st')
  {
    var f := fields[i];
    assert FieldOk(f);
    var slot := st.msg.slots[f.at];
    var st1 := Enter(fields, i, st).value;
    var placed := if f.htype.Repeated? then Placed(Slot(1, slot.items[0 := v]), 1)
                  else Placed(Slot(if f.sizeOffset != 0 then 1 else slot.size, [v]), CountOf(f, st1, slot));
    OneField(fields, i, WT_STRING, EncSized(s), st, st1, placed);
    st' := After(fields, i, st, st1, placed);
  }

  /** A submessage that arrives once holds what decoding its bytes into its prior contents gives. */
  lemma SubArrives(fields: seq<Field>, i: nat, s: Bytes, x: Msg)
    requires Wf(fields) && Typical(fields) && Modest(fields) && Shaped(fields, x) && |s| < TWO32
    requires i < |fields| && FieldOk(fields[i])
    requires fields[i].ltype.LSubmessage? && !fields[i].htype.Oneof? && !FixedCount(fields[i])
    requires SubResult(fields[i], s, x.slots[fields[i].at].items[0]).Ok?
    ensures var f := fields[i]; var p := Decode(fields, WithSub(fields, i, s), x);
            && p.Ok?
            && var slot := p.value.slots[f.at];
            && slot.items[0] == Sub(SubResult(f, s, x.slots[f.at].items[0]).value)
            && (f.sizeOffset != 0 ==> slot.size == 1)
  {
    var f := fields[i];
    var start := Start(SetDefaults(fields, x));
    DefaultsAt(fields, |fields|, x, i);
    var st := LeastLoop(fields, |fields|, Some(i), start);
    EntryDecodes(f, s, st.msg.slots[f.at].items[0]);
    var st' := SubPlaced(fields, i, s, Sub(SubResult(f, s, x.slots[f.at].items[0]).value), st);
    LoopConcat(fields, Least(fields, |fields|, Some(i)), KeyOf(f) + EncSized(s), start);
    assert AllRequiredSeen(fields, st'.seen);
  }

  // ---------------------------------------------------------------- an array of such submessages

  function Copies(e: Bytes, n: nat): Bytes
    decreases n
  {
    if n == 0 then [] else Copies(e, n - 1) + e
  }

  /** The state after n entries of the array arrived. */
  predicate CopiesState(fields: seq<Field>, i: nat, s: Bytes, n: nat, st0: DecState, st: DecState)
    requires Wf(fields) && StateOk(fields, st0) && StateOk(fields, st)
    requires i < |fields| && fields[i].ltype.LSubmessage? && FixedCount(fields[i])
  {
    var f := fields[i];
    assert FieldOk(f);
    var was, now := st0.msg.slots[f.at].items, st.msg.slots[f.at].items;
    && st.seen == st0.seen
    && (if n == 0 then st.fixedField == None else st.fixedField == Some(i) && st.fixedCount == n)
    && (forall k :: n <= k < f.arraySize ==> now[k] == was[k])
    && (n > 0 ==>
          var p := SubResult(f, s, was[0]);
          p.Ok? && now[0] == Sub(p.value))
  }

  lemma CopyArrives(fields: seq<Field>, i: nat, s: Bytes, n: nat, st0: DecState, mid: DecState) returns (st: DecState)
    requires Wf(fields) && StateOk(fields, st0) && StateOk(fields, mid) && |s| < TWO32
    requires i < |fields| && fields[i].ltype.LSubmessage? && FixedCount(fields[i]) && 0 < n <= fields[i].arraySize
    requires SubResult(fields[i], s, st0.msg.slots[fields[i].at].items[n - 1]).Ok?
    requires CopiesState(fields, i, s, n - 1, st0, mid)
    ensures StateOk(fields, st) && CopiesState(fields, i, s, n, st0, st)
    ensures Loop(fields, KeyOf(fields[i]) + EncSized(s), mid) == Drained(st)
  {
    var f := fields[i];
    assert FieldOk(f);
    var slot := mid.msg.slots[f.at];
    EntryDecodes(f, s, slot.items[n - 1]);
    var v := Sub(SubResult(f, s, slot.items[n - 1]).value);
    var st1 := Enter(fields, i, mid).value;
    var placed := Placed(Slot(slot.size, slot.items[n - 1 := v]), n);
    OneField(fields, i, WT_STRING, EncSized(s), mid, st1, placed);
    st := After(fields, i, mid, st1, placed);
  }

  predicate AllDecode(f: Field, s: Bytes, items: seq<Value>)
    requires FieldOk(f) && f.ltype.LSubmessage?
  {
    forall k :: 0 <= k < |items| ==> SubResult(f, s, items[k]).Ok?
  }

  /** Reading n entries leads from `st0` to `st`. */
  predicate CopiesRead(fields: seq<Field>, i: nat, s: Bytes, n: nat, st0: DecState, st: DecState)
    requires Wf(fields) && StateOk(fields, st0)
    requires i < |fields| && fields[i].ltype.LSubmessage? && FixedCount(fields[i])
  {
    && StateOk(fields, st) && CopiesState(fields, i, s, n, st0, st)
    && Loop(fields, Copies(KeyOf(fields[i]) + EncSized(s), n), st0) == Drained(st)
  }

  lemma ThenCopy(fields: seq<Field>, i: nat, s: Bytes, n: nat, st0: DecState, mid: DecState) returns (st: DecState)
    requires Wf(fields) && StateOk(fields, st0) && |s| < TWO32
    requires i < |fields| && fields[i].ltype.LSubmessage? && FixedCount(fields[i]) && 0 < n <= fields[i].arraySize
    requires FieldOk(fields[i]) && AllDecode(fields[i], s, st0.msg.slots[fields[i].at].items)
    requires CopiesRead(fields, i, s, n - 1, st0, mid)
    ensures CopiesRead(fields, i, s, n, st0, st)
  {
    var e := KeyOf(fields[i]) + EncSized(s);
    st := CopyArrives(fields, i, s, n, st0, mid);
    LoopConcat(fields, Copies(e, n - 1), e, st0);
  }

  lemma {:induction false} CopiesArrive(fields: seq<Field>, i: nat, s: Bytes, n: nat, st0: DecState) returns (st: DecState)
    requires Wf(fields) && StateOk(fields, st0) && st0.fixedField.None? && |s| < TWO32
    requires i < |fields| && fields[i].ltype.LSubmessage? && FixedCount(fields[i]) && n <= fields[i].arraySize
    requires FieldOk(fields[i]) && AllDecode(fields[i], s, st0.msg.slots[fields[i].at].items)
    ensures CopiesRead(fields, i, s, n, st0, st)
    decreases n
  {
    if n == 0 {
      st := st0;
    } else {
      var mid := CopiesArrive(fields, i, s, n - 1, st0);
      st := ThenCopy(fields, i, s, n, st0, mid);
    }
  }

  /** The required fields, then every entry of the array of field i. */
  function WithArray(fields: seq<Field>, i: nat, s: Bytes): Bytes
    requires Wf(fields) && i < |fields|
  {
    Least(fields, |fields|, Some(i)) + Copies(KeyOf(fields[i]) + EncSized(s), fields[i].arraySize)
  }

  /** An array of submessages that arrives: its first entry was decoded into what it held. */
  lemma ArrayArrives(fields: seq<Field>, i: nat, s: Bytes, x: Msg)
    requires Wf(fields) && Typical(fields) && Modest(fields) && Shaped(fields, x) && |s| < TWO32
    requires i < |fields| && fields[i].ltype.LSubmessage? && FixedCount(fields[i])
    requires var items := x.slots[fields[i].at].items;
             WipeItems(fields[i], items, SIZE_WIDTH) == items && AllDecode(fields[i], s, items)
    ensures var f := fields[i]; var p := Decode(fields, WithArray(fields, i, s), x);
            p.Ok? && p.value.slots[f.at].items[0] == Sub(SubResult(f, s, x.slots[f.at].items[0]).value)
  {
    var f := fields[i];
    assert FieldOk(f);
    var start := Start(SetDefaults(fields, x));
    DefaultsAt(fields, |fields|, x, i);
    var st := LeastLoop(fields, |fields|, Some(i), start);
    assert st.msg.slots[f.at].items == x.slots[f.at].items;
    var st' := CopiesArrive(fields, i, s, f.arraySize, st);
    LoopConcat(fields, Least(fields, |fields|, Some(i)), Copies(KeyOf(f) + EncSized(s), f.arraySize), start);
    assert AllRequiredSeen(fields, st'.seen);
  }

  // ---------------------------------------------------------------- sizes

  lemma {:induction false} CopiesBound(f: Field, s: Bytes, n: nat)
    requires FieldOk(f) && f.ltype.LSubmessage? && |s| <= MaxSize(f.ptr.fields) < TWO32
    ensures |Copies(KeyOf(f) + EncSized(s), n)| <= n * (VARINT + MaxValue(f))
    decreases n
  {
    if n > 0 {
      CopiesBound(f, s, n - 1);
      KeyBound(f);
      SizedBound(s);
      MulNext(n, VARINT + MaxValue(f));
    }
  }

  lemma WitnessBound(fields: seq<Field>, i: nat, s: Bytes)
    requires Wf(fields) && Modest(fields) && i < |fields| && fields[i].ltype.LSubmessage?
    requires FieldOk(fields[i]) && |s| <= MaxSize(fields[i].ptr.fields) < TWO32
    ensures |WithSub(fields, i, s)| <= MaxSize(fields)
    ensures FixedCount(fields[i]) ==> |WithArray(fields, i, s)| <= MaxSize(fields)
  {
    var f := fields[i];
    LeastBound(fields, |fields|, Some(i));
    KeyBound(f);
    SizedBound(s);
    CopiesBound(f, s, f.arraySize);
  }

  // ---------------------------------------------------------------- the witness

  lemma {:induction false} LeakSub(fields: seq<Field>, i: nat, f: Field) returns (s: Bytes, m: Msg)
    requires Wf(fields) && Typical(fields) && Modest(fields) && i < |fields| && f == fields[i]
    requires FieldOk(f) && f.ltype.LSubmessage? && !f.htype.Oneof? && Leaky(f.ptr.fields)
    ensures Shaped(fields, m) && SteadyMsg(fields, m, SIZE_WIDTH) && |s| <= MaxSize(fields)
    ensures Differs(fields, s, Zero(fields), m)
    decreases f, 0
  {
    assert TypicalField(f);
    MaxUpToMonotone(fields, i, |fields|);
    var t, x := LeakShows(f.ptr.fields);
    m := Holding(fields, i, x);
    SubSteady(fields, i, x);
    WitnessBound(fields, i, t);
    HoldingZero(fields, i);
    if FixedCount(f) {
      s := WithArray(fields, i, t);
      ZeroMsgSteadies(f.ptr.fields);
      ArrayHolds(fields, i, t, Zero(f.ptr.fields));
      ArrayHolds(fields, i, t, x);
    } else {
      s := WithSub(fields, i, t);
      SingleHolds(fields, i, t, Zero(f.ptr.fields));
      SingleHolds(fields, i, t, x);
    }
    HoldersDiffer(fields, i, s, t, x);
  }

  /** A zeroed struct with a submessage in the first cell of field i. */
  function Holding(fields: seq<Field>, i: nat, x: Msg): (m: Msg)
    requires Wf(fields) && i < |fields| && FieldOk(fields[i])
    ensures Shaped(fields, m)
  {
    PlantedMsg(fields, i, Slot(0, PlantedItems(fields[i], 0, Sub(x))))
  }

  lemma HoldingZero(fields: seq<Field>, i: nat)
    requires Wf(fields) && i < |fields| && FieldOk(fields[i])
    requires fields[i].ltype.LSubmessage? && !fields[i].htype.Oneof?
    ensures Holding(fields, i, Zero(fields[i].ptr.fields)) == Zero(fields)
  {
    var f := fields[i];
    ZeroAt(fields, |fields|, i);
    var slot := Slot(0, PlantedItems(f, 0, ZeroValue(f)));
    assert Zero(fields).slots[f.at] == slot;
    assert Zero(fields).slots[f.at := slot] == Zero(fields).slots;
  }

  /** Decoding `s` succeeds and leaves the submessage that decoding `t` into `x` gives. */
  predicate Holds(fields: seq<Field>, i: nat, s: Bytes, t: Bytes, x: Msg)
    requires Wf(fields) && i < |fields| && FieldOk(fields[i]) && fields[i].ltype.LSubmessage?
    requires Shaped(fields[i].ptr.fields, x)
  {
    var f := fields[i];
    var p, q := Decode(fields, s, Holding(fields, i, x)), Decode(f.ptr.fields, t, x);
    && p.Ok? && q.Ok?
    && p.value.slots[f.at].items[0] == Sub(q.value)
    && (f.sizeOffset != 0 ==> p.value.slots[f.at].size == 1)
  }

  lemma SubSlotsDiffer(f: Field, a: Slot, b: Slot, x: Msg, y: Msg)
    requires FieldOk(f) && f.ltype.LSubmessage? && !f.htype.Oneof? && |a.items| == |b.items| == Cells(f)
    requires Shaped(f.ptr.fields, x) && Shaped(f.ptr.fields, y) && !SameMsg(f.ptr.fields, x, y, false)
    requires a.items[0] == Sub(x) && b.items[0] == Sub(y) && (f.sizeOffset != 0 ==> a.size == b.size == 1)
    ensures !SameSlot(f, a, b, false)
  {
    assert !SameValue(f, a.items[0], b.items[0], false);
  }

  lemma HoldersDiffer(fields: seq<Field>, i: nat, s: Bytes, t: Bytes, x: Msg)
    requires Wf(fields) && i < |fields| && FieldOk(fields[i])
    requires fields[i].ltype.LSubmessage? && !fields[i].htype.Oneof?
    requires Shaped(fields[i].ptr.fields, x) && Differs(fields[i].ptr.fields, t, Zero(fields[i].ptr.fields), x)
    requires Holding(fields, i, Zero(fields[i].ptr.fields)) == Zero(fields)
    requires Holds(fields, i, s, t, Zero(fields[i].ptr.fields)) && Holds(fields, i, s, t, x)
    ensures Differs(fields, s, Zero(fields), Holding(fields, i, x))
  {
    var f := fields[i];
    var z := Zero(f.ptr.fields);
    SubSlotsDiffer(f, Decode(fields, s, Zero(fields)).value.slots[f.at],
                   Decode(fields, s, Holding(fields, i, x)).value.slots[f.at],
                   Decode(f.ptr.fields, t, z).value, Decode(f.ptr.fields, t, x).value);
  }

  lemma SubSteady(fields: seq<Field>, i: nat, x: Msg)
    requires Wf(fields) && i < |fields| && FieldOk(fields[i]) && fields[i].ltype.LSubmessage? && !fields[i].htype.Oneof?
    requires Shaped(fields[i].ptr.fields, x) && SteadyMsg(fields[i].ptr.fields, x, SIZE_WIDTH)
    ensures SteadyMsg(fields, Holding(fields, i, x), SIZE_WIDTH)
    ensures WipeItems(fields[i], PlantedItems(fields[i], 0, Sub(x)), SIZE_WIDTH) == PlantedItems(fields[i], 0, Sub(x))
  {
    var f := fields[i];
    var slot := Slot(0, PlantedItems(f, 0, Sub(x)));
    assert CellReach(f, SIZE_WIDTH, 0) == SIZE_WIDTH;
    assert Steady(f, Sub(x), SIZE_WIDTH);
    ItemsSteady(f, 0, Sub(x), SIZE_WIDTH, SIZE_WIDTH);
    forall u | 0 <= u <= SIZE_WIDTH
      ensures WipeMsg(fields, Holding(fields, i, x), u) == Holding(fields, i, x)
    {
      ItemsSteady(f, 0, Sub(x), SIZE_WIDTH, Reach(u, f.at));
      PlantedSteady(fields, i, slot, u);
    }
  }

  lemma SingleHolds(fields: seq<Field>, i: nat, t: Bytes, x: Msg)
    requires Wf(fields) && Typical(fields) && Modest(fields) && i < |fields| && FieldOk(fields[i]) && |t| < TWO32
    requires fields[i].ltype.LSubmessage? && !fields[i].htype.Oneof? && !FixedCount(fields[i])
    requires Shaped(fields[i].ptr.fields, x) && Decode(fields[i].ptr.fields, t, x).Ok?
    ensures Holds(fields, i, WithSub(fields, i, t), t, x)
  {
    SubArrives(fields, i, t, Holding(fields, i, x));
  }

  lemma ArrayHolds(fields: seq<Field>, i: nat, t: Bytes, x: Msg)
    requires Wf(fields) && Typical(fields) && Modest(fields) && i < |fields| && FieldOk(fields[i]) && |t| < TWO32
    requires fields[i].ltype.LSubmessage? && FixedCount(fields[i])
    requires Shaped(fields[i].ptr.fields, x) && SteadyMsg(fields[i].ptr.fields, x, SIZE_WIDTH)
    requires Decode(fields[i].ptr.fields, t, x).Ok? && Decode(fields[i].ptr.fields, t, Zero(fields[i].ptr.fields)).Ok?
    ensures Holds(fields, i, WithArray(fields, i, t), t, x)
  {
    var f := fields[i];
    SubSteady(fields, i, x);
    assert AllDecode(f, t, PlantedItems(f, 0, Sub(x)));
    ArrayArrives(fields, i, t, Holding(fields, i, x));
  }

  lemma ZeroMsgSteadies(fields: seq<Field>)
    requires Wf(fields)
    ensures SteadyMsg(fields, Zero(fields), SIZE_WIDTH)
  {
    forall u | 0 <= u <= SIZE_WIDTH ensures WipeMsg(fields, Zero(fields), u) == Zero(fields) {
      ZeroMsgSteady(fields, u);
    }
  }

  /** Where something leaks, some message and two destinations show it. */
  lemma {:induction false} LeakShows(fields: seq<Field>) returns (s: Bytes, m: Msg)
    requires Wf(fields) && Typical(fields) && Modest(fields) && Leaky(fields)
    ensures Shaped(fields, m) && SteadyMsg(fields, m, SIZE_WIDTH) && |s| <= MaxSize(fields)
    ensures Differs(fields, s, Zero(fields), m)
    decreases fields, 1
  {
    var i :| 0 <= i < |fields| && LeakyField(fields[i]);
    if FixedCount(fields[i]) && ArrayShows(fields[i], SIZE_WIDTH) {
      s, m := LeakDirect(fields, i);
    } else {
      s, m := LeakSub(fields, i, fields[i]);
    }
  }

  /** Nothing the destination held before can be told from the outcome of pb_decode. */
  ghost predicate Forgets(fields: seq<Field>)
    requires Wf(fields)
  {
    forall s: Bytes, a: Msg, b: Msg :: Shaped(fields, a) && Shaped(fields, b) ==> SameOutcome(fields, s, a, b)
  }

  predicate SameOutcome(fields: seq<Field>, s: Bytes, a: Msg, b: Msg)
    requires Wf(fields) && Shaped(fields, a) && Shaped(fields, b)
  {
    var p, q := Decode(fields, s, a), Decode(fields, s, b);
    Alike(p, q) && (p.Ok? ==> SameMsg(fields, p.value, q.value, false))
  }

  /**
    Initialisation completeness, exactly: the outcome of pb_decode never depends on the prior
    contents of the destination if and only if no fixed-count array has contents to read
    behind its first four bytes, other than in submessages of unions.
   */
  lemma ForgetsUnlessLeaky(fields: seq<Field>)
    requires Wf(fields) && Typical(fields) && Modest(fields)
    ensures Forgets(fields) <==> !Leaky(fields)
  {
    if Leaky(fields) {
      var s, m := LeakShows(fields);
      assert !SameOutcome(fields, s, Zero(fields), m);
    } else {
      forall s: Bytes, a: Msg, b: Msg | Shaped(fields, a) && Shaped(fields, b)
        ensures SameOutcome(fields, s, a, b)
      {
        DecodeSame(fields, s, a, b);
        if Decode(fields, s, a).Ok? {
          SameMsgShallow(fields, Decode(fields, s, a).value, Decode(fields, s, b).value);
        }
      }
    }
  }

  /** A fixed-count array of two fixed32 numbers, the only member of a struct. */
  const TWO_NUMBERS := Field(1, LFixed32, Repeated, Static, 0, 0, 4, 2, Null, 0)

  lemma TwoNumbersKept(m: Msg, n: int)
    requires m == Msg(map[0 := Slot(0, [Num(0), Num(n)])])
    ensures Wf([TWO_NUMBERS]) && Shaped([TWO_NUMBERS], m) && Decode([TWO_NUMBERS], [], m) == Ok(m, [])
  {
    var f, slot := TWO_NUMBERS, m.slots[0];
    assert Cells(f) == 2 && Shaped([f], m);
    assert CellReach(f, SIZE_WIDTH, 0) == 4 && CellReach(f, SIZE_WIDTH, 1) == 0;
    assert WipeItems(f, slot.items, SIZE_WIDTH) == slot.items;
    DefaultsAt([f], 1, m, 0);
    assert SetDefaults([f], m).slots == m.slots;
  }

  /**
    An input that shows it: of an array of two numbers that does not arrive, the first four
    bytes are cleared, so the second number is still the one the destination held before.
   */
  lemma FixedCountKeepsPriorContents()
    ensures exists fields, a, b ::
              && Wf(fields) && Shaped(fields, a) && Shaped(fields, b)
              && Decode(fields, [], a).Ok? && Decode(fields, [], b).Ok?
              && !SameMsg(fields, Decode(fields, [], a).value, Decode(fields, [], b).value, false)
  {
    var a, b := Msg(map[0 := Slot(0, [Num(0), Num(7)])]), Msg(map[0 := Slot(0, [Num(0), Num(8)])]);
    TwoNumbersKept(a, 7);
    TwoNumbersKept(b, 8);
    assert !SameValue(TWO_NUMBERS, a.slots[0].items[1], b.slots[0].items[1], false);
    assert !SameSlot(TWO_NUMBERS, a.slots[0], b.slots[0], false);
    assert [TWO_NUMBERS][0] == TWO_NUMBERS && !SameMsg([TWO_NUMBERS], a, b, false);
  }
}
