/**
  Field descriptors (pb_field_t), the struct a descriptor array describes, and the default
  contents of such a struct.

  A struct is a map from the byte offset of each member to its slot. All members of a
  union share one offset, hence one slot. `size` is the cell pSize points at (has_, _count
  or which_; meaningless when the descriptor's size_offset is 0), `items` the cells pData
  points at: array_size of them for an array, otherwise one.
 */
module Descriptor {
  import opened Prelude
  import opened Bits

  /** pb_size_t is 32 bits wide: the project defines PB_FIELD_32BIT. */
  const PB_SIZE_MAX := 0xFFFF_FFFF
  const MAX_TAG := 0x1FFF_FFFF
  const MAX_REQUIRED_FIELDS := 64
  const POINTER_SIZE := 8
  /** offsetof(pb_bytes_array_t, bytes) */
  const BYTES_HEADER := 4

  datatype LType =
    | LBool | LVarint | LUVarint | LSVarint | LFixed32 | LFixed64
    | LBytes | LString | LSubmessage | LExtension | LFixedBytes

  datatype HType = Required | Optional | Repeated | Oneof

  datatype AType = Static | Pointer | Callback

  datatype Value = Num(n: int) | Blob(bytes: Bytes) | Sub(msg: Msg)

  datatype Slot = Slot(size: nat, items: seq<Value>)

  datatype Msg = Msg(slots: map<nat, Slot>)

  /** The `ptr` member of a descriptor. */
  datatype Ptr = Null | Default(value: Value) | Fields(fields: seq<Field>)

  /** One pb_field_t, and `at`, the true offset of the member it describes. */
  datatype Field = Field(
    tag: nat, ltype: LType, htype: HType, atype: AType,
    dataOffset: nat, sizeOffset: int, dataSize: nat, arraySize: nat,
    ptr: Ptr, at: nat)

  /** Not above PB_LTYPE_LAST_PACKABLE. */
  predicate Packable(l: LType) {
    l.LBool? || l.LVarint? || l.LUVarint? || l.LSVarint? || l.LFixed32? || l.LFixed64?
  }

  /** A repeated field without a count member. */
  predicate FixedCount(f: Field) {
    f.htype.Repeated? && f.sizeOffset == 0
  }

  /** How many item cells the member of a field has. */
  function Cells(f: Field): nat {
    if f.htype.Repeated? then f.arraySize else 1
  }

  /** How many of the first `k` fields are required. */
  function RequiredBefore(fields: seq<Field>, k: nat): (n: nat)
    requires k <= |fields|
    ensures n <= k
  {
    if k == 0 then 0
    else RequiredBefore(fields, k - 1) + if fields[k - 1].htype.Required? then 1 else 0
  }

  // ---------------------------------------------------------------- well-formed descriptors

  /** A statically allocated field as the PB_*_STATIC macros build it. */
  predicate FieldOk(f: Field)
    decreases f
  {
    && 1 <= f.tag <= MAX_TAG
    && f.atype.Static? && !f.ltype.LExtension?
    && (f.ltype.LSubmessage? <==> f.ptr.Fields?)
    && (f.ptr.Fields? ==> Wf(f.ptr.fields))
    && (f.htype.Required? ==> f.sizeOffset == 0)
    && (f.htype.Oneof? ==> f.sizeOffset != 0)
    && (f.htype.Repeated? ==> 1 <= f.arraySize)
    && f.dataSize <= PB_SIZE_MAX && f.arraySize <= PB_SIZE_MAX && f.at + f.sizeOffset >= 0
  }

  /** Distinct tags; only members of one union share an offset, and then a which_ member. */
  predicate Wf(fields: seq<Field>)
    decreases fields
  {
    && (forall i :: 0 <= i < |fields| ==> FieldOk(fields[i]))
    && (forall i, j :: 0 <= i < j < |fields| ==> fields[i].tag != fields[j].tag)
    && (forall i, j :: 0 <= i < j < |fields| && fields[i].at == fields[j].at ==>
          fields[i].htype.Oneof? && fields[j].htype.Oneof? && fields[i].sizeOffset == fields[j].sizeOffset)
  }

  /** A struct has a slot with the right number of cells for every field. */
  predicate Shaped(fields: seq<Field>, m: Msg) {
    forall i :: 0 <= i < |fields| ==>
      fields[i].at in m.slots && |m.slots[fields[i].at].items| == Cells(fields[i])
  }

  // ---------------------------------------------------------------- reading a cell as a type

  function AsNum(v: Value): int {
    if v.Num? then v.n else 0
  }

  function AsBlob(v: Value): Bytes {
    if v.Blob? then v.bytes else []
  }

  /** A char or byte buffer of exactly n bytes. */
  function AsBuffer(v: Value, n: nat): (b: Bytes)
    ensures |b| == n
  {
    if v.Blob? && |v.bytes| == n then v.bytes else Zeros(n)
  }

  function AsMsg(fields: seq<Field>, v: Value): (m: Msg)
    requires Wf(fields)
    ensures Shaped(fields, m)
  {
    if v.Sub? && Shaped(fields, v.msg) then v.msg else Zero(fields)
  }

  // ---------------------------------------------------------------- zeroed structs (memset)

  function ZeroValue(f: Field): Value
    requires FieldOk(f)
    decreases f, 0
  {
    match f.ltype
    case LSubmessage => Sub(Zero(f.ptr.fields))
    case LBytes => Blob([])
    case LString => Blob(Zeros(f.dataSize))
    case LFixedBytes => Blob(Zeros(f.dataSize))
    case _ => Num(0)
  }

  function ZeroUpTo(fields: seq<Field>, k: nat): (m: Msg)
    requires Wf(fields) && k <= |fields|
    ensures forall i :: 0 <= i < k ==>
              fields[i].at in m.slots && |m.slots[fields[i].at].items| == Cells(fields[i])
    decreases fields, k
  {
    if k == 0 then Msg(map[])
    else
      var f := fields[k - 1];
      var z := ZeroValue(f);
      Msg(ZeroUpTo(fields, k - 1).slots[f.at := Slot(0, seq(Cells(f), i => z))])
  }

  function Zero(fields: seq<Field>): (m: Msg)
    requires Wf(fields)
    ensures Shaped(fields, m)
    decreases fields, |fields| + 1
  {
    ZeroUpTo(fields, |fields|)
  }

  /** A zeroed struct, member by member; of a union only the selector is certain. */
  lemma {:induction false} ZeroAt(fields: seq<Field>, k: nat, i: nat)
    requires Wf(fields) && i < k <= |fields|
    ensures var f := fields[i]; var slot := ZeroUpTo(fields, k).slots[f.at];
            && slot.size == 0
            && (!f.htype.Oneof? ==> forall j :: 0 <= j < Cells(f) ==> slot.items[j] == ZeroValue(f))
    decreases k
  {
    if i < k - 1 {
      ZeroAt(fields, k - 1, i);
    }
  }

  // ---------------------------------------------------------------- clearing the first bytes of a member

  /** The first `w` bytes from some place on, seen from `at` bytes further. */
  function Reach(w: nat, at: int): (r: nat)
    requires at >= 0
    ensures r <= w
  {
    if at >= w then 0 else w - at
  }

  /** A little-endian number whose lowest `w` bytes are cleared, for at most four bytes. */
  function ClearLow(n: int, w: nat): (r: int)
    ensures n >= 0 ==> r >= 0
  {
    if w == 0 then n
    else if w == 1 then n - n % 0x100
    else if w == 2 then n - n % 0x1_0000
    else if w == 3 then n - n % 0x100_0000
    else n - n % TWO32
  }

  /** A cell whose first `w` bytes are cleared. */
  function WipeValue(f: Field, v: Value, w: nat): Value
    requires FieldOk(f)
    decreases f, 0
  {
    if w == 0 then v
    else
      match f.ltype
      case LSubmessage => Sub(WipeMsg(f.ptr.fields, AsMsg(f.ptr.fields, v), w))
      case LBytes => // the size member comes first
        Blob(if w >= BYTES_HEADER then [] else AsBlob(v)[..ClearedLength(|AsBlob(v)|, w)])
      case LString => Blob(ClearStart(AsBuffer(v, f.dataSize), w))
      case LFixedBytes => Blob(ClearStart(AsBuffer(v, f.dataSize), w))
      case _ => Num(if w >= f.dataSize then 0 else ClearLow(AsNum(v), w))
  }

  function ClearedLength(n: nat, w: nat): (r: nat)
    ensures r <= n
  {
    ClearLow(n, w)
  }

  function ClearStart(b: Bytes, w: nat): (r: Bytes)
    ensures |r| == |b|
  {
    if w >= |b| then Zeros(|b|) else Zeros(w) + b[w..]
  }

  /** How many of the first `w` bytes of an array fall on cell k. */
  function CellReach(f: Field, w: nat, k: nat): (r: nat)
    ensures r <= w
  {
    Reach(w, k * f.dataSize)
  }

  /** An array, or a single cell, whose first `w` bytes are cleared. */
  function WipeItems(f: Field, items: seq<Value>, w: nat): (r: seq<Value>)
    requires FieldOk(f)
    ensures |r| == |items|
    decreases f, 1
  {
    seq(|items|, k => if 0 <= k < |items| then WipeValue(f, items[k], CellReach(f, w, k)) else Num(0))
  }

  /** The offset of the member pSize points at. */
  function SizeAt(f: Field): int {
    f.at + f.sizeOffset
  }

  /** The size member of a field, in a struct whose first `w` bytes are cleared. */
  function WipeSize(f: Field, size: nat, w: nat): nat
    requires FieldOk(f)
  {
    var r := Reach(w, SizeAt(f));
    if f.sizeOffset == 0 || r == 0 then size
    else if f.htype.Optional? || r >= 4 then 0
    else ClearLow(size, r)
  }

  /** A slot in a struct whose first `w` bytes are cleared; of a union only the selected member. */
  function WipeSlot(f: Field, was: Slot, now: Slot, w: nat): (r: Slot)
    requires FieldOk(f)
    ensures |was.items| == |now.items| ==> |r.items| == |was.items|
    decreases f, 2
  {
    Slot(WipeSize(f, was.size, w),
         if f.htype.Oneof? && was.size != f.tag then now.items else WipeItems(f, was.items, Reach(w, f.at)))
  }

  function WipeUpTo(fields: seq<Field>, k: nat, m: Msg, w: nat): (r: Msg)
    requires Wf(fields) && Shaped(fields, m) && k <= |fields|
    ensures Shaped(fields, r) && r.slots.Keys == m.slots.Keys
    decreases fields, k
  {
    if k == 0 then m
    else
      var p := WipeUpTo(fields, k - 1, m, w);
      var f := fields[k - 1];
      Msg(p.slots[f.at := WipeSlot(f, m.slots[f.at], p.slots[f.at], w)])
  }

  /** A struct whose first `w` bytes are cleared. */
  function WipeMsg(fields: seq<Field>, m: Msg, w: nat): (r: Msg)
    requires Wf(fields) && Shaped(fields, m)
    ensures Shaped(fields, r)
    decreases fields, |fields| + 1
  {
    WipeUpTo(fields, |fields|, m, w)
  }

  lemma WipeItemsNothing(f: Field, items: seq<Value>)
    requires FieldOk(f)
    ensures WipeItems(f, items, 0) == items
  {
    assert forall k :: 0 <= k < |items| ==> CellReach(f, 0, k) == 0;
  }

  lemma {:induction false} WipeNothing(fields: seq<Field>, k: nat, m: Msg)
    requires Wf(fields) && Shaped(fields, m) && k <= |fields|
    ensures WipeUpTo(fields, k, m, 0) == m
    decreases k
  {
    if k > 0 {
      WipeNothing(fields, k - 1, m);
      var f := fields[k - 1];
      WipeItemsNothing(f, m.slots[f.at].items);
      assert WipeSlot(f, m.slots[f.at], m.slots[f.at], 0) == m.slots[f.at];
      assert m.slots[f.at := m.slots[f.at]] == m.slots;
    }
  }

  /** What clearing the first bytes of a struct does to each member that means something. */
  lemma {:induction false} WipeAt(fields: seq<Field>, k: nat, m: Msg, w: nat, i: nat)
    requires Wf(fields) && Shaped(fields, m) && i < k <= |fields|
    ensures var f := fields[i]; var was, r := m.slots[f.at], WipeUpTo(fields, k, m, w).slots[f.at];
            && r.size == WipeSize(f, was.size, w)
            && (!f.htype.Oneof? || was.size == f.tag ==> r.items == WipeItems(f, was.items, Reach(w, f.at)))
    decreases k
  {
    if i < k - 1 {
      WipeAt(fields, k - 1, m, w, i);
      assert fields[i].tag != fields[k - 1].tag;
    }
  }

  // ---------------------------------------------------------------- default contents

  /** sizeof(pb_size_t) */
  const SIZE_WIDTH := 4

  /** pb_field_set_to_default, the data of a field that is initialised. */
  function DefaultValue(f: Field, prior: Value): Value
    requires FieldOk(f)
    decreases f, 0
  {
    if f.ltype.LSubmessage? then Sub(SetDefaults(f.ptr.fields, AsMsg(f.ptr.fields, prior)))
    else if f.ptr.Default? then f.ptr.value
    else ZeroValue(f)
  }

  /**
    pb_field_set_to_default. An array keeps its contents and a union its data; only the
    count and the selector are reset. An array without a count member has its size pointer
    on its data, so the reset clears the first four bytes of the data.
   */
  function DefaultSlot(f: Field, slot: Slot): (r: Slot)
    requires FieldOk(f) && |slot.items| == Cells(f)
    ensures |r.items| == Cells(f)
    decreases f, 1
  {
    if f.htype.Repeated? then
      (if f.sizeOffset != 0 then Slot(0, slot.items) else Slot(slot.size, WipeItems(f, slot.items, SIZE_WIDTH)))
    else if f.htype.Oneof? then Slot(0, slot.items)
    else
      Slot(if f.htype.Optional? && f.sizeOffset != 0 then 0 else slot.size,
           [DefaultValue(f, slot.items[0])])
  }

  function DefaultsUpTo(fields: seq<Field>, k: nat, m: Msg): (r: Msg)
    requires Wf(fields) && Shaped(fields, m) && k <= |fields|
    ensures Shaped(fields, r)
    decreases fields, k
  {
    if k == 0 then m
    else
      var p := DefaultsUpTo(fields, k - 1, m);
      var f := fields[k - 1];
      Msg(p.slots[f.at := DefaultSlot(f, p.slots[f.at])])
  }

  /** pb_message_set_to_defaults. */
  function SetDefaults(fields: seq<Field>, m: Msg): (r: Msg)
    requires Wf(fields) && Shaped(fields, m)
    ensures Shaped(fields, r)
    decreases fields, |fields| + 1
  {
    DefaultsUpTo(fields, |fields|, m)
  }

  /** Setting one slot keeps a struct in shape. */
  function WithSlot(fields: seq<Field>, m: Msg, i: nat, slot: Slot): (r: Msg)
    requires Wf(fields) && Shaped(fields, m) && i < |fields| && |slot.items| == Cells(fields[i])
    ensures Shaped(fields, r)
  {
    Msg(m.slots[fields[i].at := slot])
  }

  /** What setting defaults does to each member, whatever order the fields are visited in. */
  lemma {:induction false} DefaultsAt(fields: seq<Field>, k: nat, m: Msg, i: nat)
    requires Wf(fields) && Shaped(fields, m) && k <= |fields| && i < |fields|
    ensures var r := DefaultsUpTo(fields, k, m); var f := fields[i];
            i < k ==> r.slots[f.at] == DefaultSlot(f, m.slots[f.at])
    ensures var r := DefaultsUpTo(fields, k, m); var f := fields[i];
            i >= k && !f.htype.Oneof? ==> r.slots[f.at] == m.slots[f.at]
    ensures var r := DefaultsUpTo(fields, k, m); var f := fields[i];
            i >= k && f.htype.Oneof? ==>
              r.slots[f.at] == m.slots[f.at] || r.slots[f.at] == DefaultSlot(f, m.slots[f.at])
    decreases k
  {
    if k > 0 {
      var f, g := fields[i], fields[k - 1];
      DefaultsAt(fields, k - 1, m, i);
      if f.at == g.at && i != k - 1 {
        assert f.htype.Oneof? && g.htype.Oneof?;
      }
    }
  }
}
