/**
  What a program can tell about a struct: two structs are the same when every member that
  means something reads the same. Entries beyond a count, bytes after a string's NUL and
  the data of a union member that is not selected mean nothing. The data behind a cleared
  has_ flag is compared only when `deep` is set: the decoder may still merge into it, while
  array entries and union members are initialised again when they arrive.
 */
module Observe {
  import opened Prelude
  import opened Descriptor

  /** The bytes before the first NUL, or all of them. */
  function CString(b: Bytes): (s: Bytes)
    ensures |s| <= |b| && s == b[..|s|]
    ensures forall i :: 0 <= i < |s| ==> s[i] != 0
    ensures |s| < |b| ==> b[|s|] == 0
  {
    if b == [] || b[0] == 0 then [] else [b[0]] + CString(b[1..])
  }

  /** The C string in a buffer is determined by its first NUL. */
  lemma {:induction false} CStringIs(b: Bytes, s: Bytes)
    requires |s| <= |b| && s == b[..|s|] && (forall i :: 0 <= i < |s| ==> s[i] != 0)
    requires |s| < |b| ==> b[|s|] == 0
    ensures CString(b) == s
    decreases |s|
  {
    if s != [] {
      assert b[0] == s[0];
      CStringIs(b[1..], s[1..]);
    }
  }

  /** What follows the NUL written after a string does not matter. */
  lemma StringPrefix(bs: Bytes, tail: Bytes)
    ensures CString(bs + [0] + tail) == CString(bs)
  {
    var b := bs + [0] + tail;
    var c := CString(bs);
    assert b[..|c|] == c;
    CStringIs(b, c);
  }

  predicate SameValue(f: Field, a: Value, b: Value, deep: bool)
    requires FieldOk(f)
    decreases f, 0
  {
    match f.ltype
    case LSubmessage => SameMsg(f.ptr.fields, AsMsg(f.ptr.fields, a), AsMsg(f.ptr.fields, b), deep)
    case LBytes => AsBlob(a) == AsBlob(b)
    case LString => CString(AsBuffer(a, f.dataSize)) == CString(AsBuffer(b, f.dataSize))
    case LFixedBytes => AsBuffer(a, f.dataSize) == AsBuffer(b, f.dataSize)
    case _ => AsNum(a) == AsNum(b)
  }

  /** How many entries of an array mean something. */
  function Live(f: Field, size: nat): (n: nat)
    ensures f.htype.Repeated? ==> n <= f.arraySize
  {
    if FixedCount(f) || size > f.arraySize then f.arraySize else size
  }

  predicate SameSlot(f: Field, a: Slot, b: Slot, deep: bool)
    requires FieldOk(f) && |a.items| == Cells(f) && |b.items| == Cells(f)
    decreases f, 1
  {
    match f.htype
    case Required => SameValue(f, a.items[0], b.items[0], deep)
    case Optional =>
      if f.sizeOffset == 0 then SameValue(f, a.items[0], b.items[0], deep)
      else (a.size != 0 <==> b.size != 0)
           && (deep || a.size != 0 ==> SameValue(f, a.items[0], b.items[0], deep))
    case Repeated =>
      (FixedCount(f) || a.size == b.size)
      && forall k :: 0 <= k < Live(f, a.size) ==> SameValue(f, a.items[k], b.items[k], false)
    case Oneof =>
      a.size == b.size && (a.size == f.tag ==> SameValue(f, a.items[0], b.items[0], false))
  }

  predicate SameMsg(fields: seq<Field>, a: Msg, b: Msg, deep: bool)
    requires Wf(fields) && Shaped(fields, a) && Shaped(fields, b)
    decreases fields
  {
    forall i :: 0 <= i < |fields| ==>
      SameSlot(fields[i], a.slots[fields[i].at], b.slots[fields[i].at], deep)
  }

  lemma {:induction false} SameShallow(f: Field, a: Value, b: Value)
    requires FieldOk(f) && SameValue(f, a, b, true)
    ensures SameValue(f, a, b, false)
    decreases f, 0
  {
    if f.ltype.LSubmessage? {
      SameMsgShallow(f.ptr.fields, AsMsg(f.ptr.fields, a), AsMsg(f.ptr.fields, b));
    }
  }

  /** The deeper comparison implies the other. */
  lemma {:induction false} SameMsgShallow(fields: seq<Field>, a: Msg, b: Msg)
    requires Wf(fields) && Shaped(fields, a) && Shaped(fields, b) && SameMsg(fields, a, b, true)
    ensures SameMsg(fields, a, b, false)
    decreases fields
  {
    forall i | 0 <= i < |fields|
      ensures SameSlot(fields[i], a.slots[fields[i].at], b.slots[fields[i].at], false)
    {
      var f := fields[i];
      var x, y := a.slots[f.at], b.slots[f.at];
      assert SameSlot(f, x, y, true);
      if f.htype.Required? || f.htype.Optional? {
        SameShallow(f, x.items[0], y.items[0]);
      }
    }
  }

  lemma {:induction false} SameRefl(f: Field, a: Value, deep: bool)
    requires FieldOk(f)
    ensures SameValue(f, a, a, deep)
    decreases f, 0
  {
    if f.ltype.LSubmessage? {
      SameMsgRefl(f.ptr.fields, AsMsg(f.ptr.fields, a), deep);
    }
  }

  lemma {:induction false} SameMsgRefl(fields: seq<Field>, a: Msg, deep: bool)
    requires Wf(fields) && Shaped(fields, a)
    ensures SameMsg(fields, a, a, deep)
    decreases fields
  {
    forall i | 0 <= i < |fields|
      ensures SameSlot(fields[i], a.slots[fields[i].at], a.slots[fields[i].at], deep)
    {
      var f := fields[i];
      forall k | 0 <= k < Cells(f)
        ensures SameValue(f, a.slots[f.at].items[k], a.slots[f.at].items[k], false)
        ensures SameValue(f, a.slots[f.at].items[k], a.slots[f.at].items[k], deep)
      {
        SameRefl(f, a.slots[f.at].items[k], false);
        SameRefl(f, a.slots[f.at].items[k], deep);
      }
    }
  }

  lemma {:induction false} SameCommon(f: Field, a: Value, b: Value, c: Value)
    requires FieldOk(f) && SameValue(f, a, c, false) && SameValue(f, b, c, false)
    ensures SameValue(f, a, b, false)
    decreases f, 0
  {
    if f.ltype.LSubmessage? {
      SameMsgCommon(f.ptr.fields, AsMsg(f.ptr.fields, a), AsMsg(f.ptr.fields, b), AsMsg(f.ptr.fields, c));
    }
  }

  lemma {:induction false} SameSlotCommon(f: Field, a: Slot, b: Slot, c: Slot)
    requires FieldOk(f) && |a.items| == |b.items| == |c.items| == Cells(f)
    requires SameSlot(f, a, c, false) && SameSlot(f, b, c, false)
    ensures SameSlot(f, a, b, false)
    decreases f, 1
  {
    forall k | 0 <= k < Cells(f) && SameValue(f, a.items[k], c.items[k], false) && SameValue(f, b.items[k], c.items[k], false)
      ensures SameValue(f, a.items[k], b.items[k], false)
    {
      SameCommon(f, a.items[k], b.items[k], c.items[k]);
    }
  }

  /** Structs that read the same as a third read the same. */
  lemma {:induction false} SameMsgCommon(fields: seq<Field>, a: Msg, b: Msg, c: Msg)
    requires Wf(fields) && Shaped(fields, a) && Shaped(fields, b) && Shaped(fields, c)
    requires SameMsg(fields, a, c, false) && SameMsg(fields, b, c, false)
    ensures SameMsg(fields, a, b, false)
    decreases fields
  {
    forall i | 0 <= i < |fields|
      ensures SameSlot(fields[i], a.slots[fields[i].at], b.slots[fields[i].at], false)
    {
      SameSlotCommon(fields[i], a.slots[fields[i].at], b.slots[fields[i].at], c.slots[fields[i].at]);
    }
  }

  /** After the same slot is set in two same structs, they are the same again. */
  lemma SameWithSlot(fields: seq<Field>, a: Msg, b: Msg, i: nat, x: Slot, y: Slot, deep: bool)
    requires Wf(fields) && Shaped(fields, a) && Shaped(fields, b) && i < |fields|
    requires |x.items| == Cells(fields[i]) && |y.items| == Cells(fields[i])
    requires SameMsg(fields, a, b, deep) && SameSlot(fields[i], x, y, deep)
    requires fields[i].htype.Oneof? ==> x.size == fields[i].tag
    ensures SameMsg(fields, WithSlot(fields, a, i, x), WithSlot(fields, b, i, y), deep)
  {
    var a', b' := WithSlot(fields, a, i, x), WithSlot(fields, b, i, y);
    forall j | 0 <= j < |fields|
      ensures SameSlot(fields[j], a'.slots[fields[j].at], b'.slots[fields[j].at], deep)
    {
      if fields[j].at != fields[i].at {
        assert SameSlot(fields[j], a.slots[fields[j].at], b.slots[fields[j].at], deep);
      } else if j != i {
        assert fields[j].tag != fields[i].tag;
      }
    }
  }
}
