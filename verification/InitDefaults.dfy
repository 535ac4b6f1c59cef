/**
  Initialisation completeness: pb_decode of any bytes has the same outcome whatever the
  destination held before, unless a fixed-count array lets prior contents through (Leaky).
 */
module InitDefaults {
  import opened Prelude
  import opened Wire
  import opened Descriptor
  import opened DecodeSpec
  import opened Observe

  // ---------------------------------------------------------------- what survives setting defaults

  /** A cell can be read in more than one way after its first `w` bytes were cleared. */
  predicate Shows(f: Field, w: nat)
    requires FieldOk(f)
    decreases f, 0
  {
    match f.ltype
    case LSubmessage => MsgShows(f.ptr.fields, w)
    case LBytes => w < BYTES_HEADER
    case LString => w == 0 && f.dataSize > 0
    case LFixedBytes => w < f.dataSize
    case _ => w == 0 || w < f.dataSize
  }

  predicate ArrayShows(f: Field, w: nat)
    requires FieldOk(f)
    decreases f, 1
  {
    exists k :: 0 <= k < f.arraySize && Shows(f, CellReach(f, w, k))
  }

  /** So can a member of a struct whose first `w` bytes were cleared. */
  predicate SlotShows(f: Field, w: nat)
    requires FieldOk(f)
    decreases f, 2
  {
    match f.htype
    case Required => Shows(f, Reach(w, f.at))
    case Optional => if f.sizeOffset == 0 then Shows(f, Reach(w, f.at)) else w <= SizeAt(f)
    case Repeated => if f.sizeOffset == 0 then ArrayShows(f, Reach(w, f.at)) else w < SizeAt(f) + SIZE_WIDTH
    case Oneof => w < SizeAt(f) + SIZE_WIDTH
  }

  predicate MsgShows(fields: seq<Field>, w: nat)
    requires Wf(fields)
    decreases fields
  {
    exists i :: 0 <= i < |fields| && SlotShows(fields[i], w)
  }

  predicate LeakyField(f: Field)
    requires FieldOk(f)
    decreases f, 3
  {
    || (FixedCount(f) && ArrayShows(f, SIZE_WIDTH))
    || (f.ltype.LSubmessage? && !f.htype.Oneof? && Leaky(f.ptr.fields))
  }

  /**
    Some fixed-count array has contents behind its first four bytes that can be read, and is
    reached without passing through a union, whose submessages are zeroed when they arrive.
   */
  predicate Leaky(fields: seq<Field>)
    requires Wf(fields)
    decreases fields
  {
    exists i :: 0 <= i < |fields| && LeakyField(fields[i])
  }

  // ---------------------------------------------------------------- clearing enough makes cells the same

  lemma ClearedString(a: Bytes, w: nat)
    requires w > 0
    ensures CString(ClearStart(a, w)) == []
  {
  }

  lemma {:induction false} WipeSame(f: Field, a: Value, b: Value, w: nat)
    requires FieldOk(f) && !Shows(f, w)
    ensures SameValue(f, WipeValue(f, a, w), WipeValue(f, b, w), false)
    decreases f, 0
  {
    if f.ltype.LSubmessage? {
      var x, y := AsMsg(f.ptr.fields, a), AsMsg(f.ptr.fields, b);
      WipeMsgSame(f.ptr.fields, x, y, w);
      WipeNothing(f.ptr.fields, |f.ptr.fields|, x);
      WipeNothing(f.ptr.fields, |f.ptr.fields|, y);
    } else if f.ltype.LString? && w > 0 {
      ClearedString(AsBuffer(a, f.dataSize), w);
      ClearedString(AsBuffer(b, f.dataSize), w);
    }
  }

  lemma {:induction false} WipeItemsSame(f: Field, a: seq<Value>, b: seq<Value>, w: nat)
    requires FieldOk(f) && |a| == |b| == f.arraySize && !ArrayShows(f, w)
    ensures forall k :: 0 <= k < |a| ==> SameValue(f, WipeItems(f, a, w)[k], WipeItems(f, b, w)[k], false)
    decreases f, 1
  {
    forall k | 0 <= k < |a|
      ensures SameValue(f, WipeItems(f, a, w)[k], WipeItems(f, b, w)[k], false)
    {
      assert !Shows(f, CellReach(f, w, k));
      WipeSame(f, a[k], b[k], CellReach(f, w, k));
    }
  }

  lemma {:induction false} WipeMsgSame(fields: seq<Field>, a: Msg, b: Msg, w: nat)
    requires Wf(fields) && Shaped(fields, a) && Shaped(fields, b) && !MsgShows(fields, w)
    ensures SameMsg(fields, WipeMsg(fields, a, w), WipeMsg(fields, b, w), false)
    decreases fields
  {
    forall i | 0 <= i < |fields|
      ensures SameSlot(fields[i], WipeMsg(fields, a, w).slots[fields[i].at],
                       WipeMsg(fields, b, w).slots[fields[i].at], false)
    {
      var f := fields[i];
      var d := Reach(w, f.at);
      var x, y := a.slots[f.at].items, b.slots[f.at].items;
      WipeAt(fields, |fields|, a, w, i);
      WipeAt(fields, |fields|, b, w, i);
      assert !SlotShows(f, w);
      if FixedCount(f) {
        WipeItemsSame(f, x, y, d);
      } else if f.htype.Required? || (f.htype.Optional? && f.sizeOffset == 0) {
        assert CellReach(f, d, 0) == d;
        WipeSame(f, x[0], y[0], d);
      }
    }
  }

  // ---------------------------------------------------------------- defaults forget the past

  lemma {:induction false} DefaultValuesSame(f: Field, a: Value, b: Value)
    requires FieldOk(f) && !LeakyField(f) && !f.htype.Oneof?
    ensures SameValue(f, DefaultValue(f, a), DefaultValue(f, b), true)
    decreases f, 0
  {
    if f.ltype.LSubmessage? {
      DefaultsSame(f.ptr.fields, AsMsg(f.ptr.fields, a), AsMsg(f.ptr.fields, b));
    }
  }

  /** Setting defaults makes any two structs the same, has_-hidden data included. */
  lemma {:induction false} DefaultsSame(fields: seq<Field>, a: Msg, b: Msg)
    requires Wf(fields) && !Leaky(fields) && Shaped(fields, a) && Shaped(fields, b)
    ensures SameMsg(fields, SetDefaults(fields, a), SetDefaults(fields, b), true)
    decreases fields
  {
    forall i | 0 <= i < |fields|
      ensures SameSlot(fields[i], SetDefaults(fields, a).slots[fields[i].at],
                       SetDefaults(fields, b).slots[fields[i].at], true)
    {
      var f := fields[i];
      DefaultsAt(fields, |fields|, a, i);
      DefaultsAt(fields, |fields|, b, i);
      assert !LeakyField(f);
      if FixedCount(f) {
        WipeItemsSame(f, a.slots[f.at].items, b.slots[f.at].items, SIZE_WIDTH);
      } else if f.htype.Required? || f.htype.Optional? {
        DefaultValuesSame(f, a.slots[f.at].items[0], b.slots[f.at].items[0]);
      }
    }
  }

  // ---------------------------------------------------------------- decoding keeps structs the same

  /** Two parses that both fail or both succeed at the same place. */
  predicate Alike<T>(p: Parse<T>, q: Parse<T>) {
    p.Ok? == q.Ok? && (p.Ok? ==> p.rest == q.rest)
  }

  /** Bytes do not depend on what their buffer held; strings only after the NUL. */
  lemma DecBlobSame(f: Field, s: Bytes, a: Value, b: Value)
    requires FieldOk(f) && (f.ltype.LBytes? || f.ltype.LString? || f.ltype.LFixedBytes?)
    ensures var p, q := DecBlob(f, s, a), DecBlob(f, s, b);
            Alike(p, q) && (p.Ok? ==> SameValue(f, p.value, q.value, true))
  {
    var l := DecVarint32(s);
    if f.ltype.LString? && l.Ok? && Fits(f, l.value) && l.value <= |l.rest| {
      BlobSame(f, l.rest[..l.value], a, b);
    }
  }

  lemma BlobSame(f: Field, bs: Bytes, a: Value, b: Value)
    requires FieldOk(f) && f.ltype.LString? && |bs| + 1 <= f.dataSize
    ensures SameValue(f, BlobOf(f, bs, a), BlobOf(f, bs, b), true)
  {
    StringTailIrrelevant(bs, AsBuffer(a, f.dataSize), AsBuffer(b, f.dataSize));
  }

  /** Two cells a submessage may be merged into with the same result. */
  predicate SamePrior(f: Field, a: Value, b: Value)
    requires FieldOk(f)
  {
    match f.htype
    case Oneof => a == b
    case Repeated => true
    case _ => SameValue(f, a, b, true)
  }

  lemma {:induction false} DecValueSame(f: Field, s: Bytes, a: Value, b: Value)
    requires FieldOk(f) && !LeakyField(f)
    requires f.ltype.LSubmessage? ==> SamePrior(f, a, b)
    ensures var p, q := DecValue(f, s, a), DecValue(f, s, b);
            Alike(p, q) && (p.Ok? ==> SameValue(f, p.value, q.value, true))
    decreases |s|, 1
  {
    if f.ltype.LSubmessage? {
      DecSubmessageSame(f, s, a, b);
    } else if !Packable(f.ltype) {
      DecBlobSame(f, s, a, b);
    }
  }

  lemma {:induction false} DecSubmessageSame(f: Field, s: Bytes, a: Value, b: Value)
    requires FieldOk(f) && !LeakyField(f) && f.ltype.LSubmessage? && SamePrior(f, a, b)
    ensures var p, q := DecSubmessage(f, s, a), DecSubmessage(f, s, b);
            Alike(p, q) && (p.Ok? ==> SameValue(f, p.value, q.value, true))
    decreases |s|, 0
  {
    var l := DecVarint32(s);
    if l.Ok? && l.value <= |l.rest| {
      var sub := l.rest[..l.value];
      var x, y := AsMsg(f.ptr.fields, a), AsMsg(f.ptr.fields, b);
      if f.htype.Oneof? {
        if DecSubmessage(f, s, a).Ok? {
          SameRefl(f, DecSubmessage(f, s, a).value, true);
        }
      } else if f.htype.Repeated? {
        DecodeSame(f.ptr.fields, sub, x, y);
      } else {
        DecodeNoinitSame(f.ptr.fields, sub, x, y);
      }
    }
  }

  lemma StringTailIrrelevant(bs: Bytes, x: Bytes, y: Bytes)
    requires |bs| + 1 <= |x| == |y|
    ensures CString(bs + [0] + x[|bs| + 1..]) == CString(bs + [0] + y[|bs| + 1..]) == CString(bs)
  {
    StringPrefix(bs, x[|bs| + 1..]);
    StringPrefix(bs, y[|bs| + 1..]);
  }

  /** A packed chunk fills cells the same; the first `live` cells were the same before. */
  lemma {:induction false} PackedLoopSame(f: Field, s: Bytes, x: seq<Value>, y: seq<Value>, count: nat, live: nat)
    requires FieldOk(f) && Packable(f.ltype) && |x| == |y| == f.arraySize
    requires forall k :: 0 <= k < f.arraySize && (k < live || k < count) ==> SameValue(f, x[k], y[k], false)
    ensures match PackedLoop(f, s, x, count)
            case PackedFail => PackedLoop(f, s, y, count).PackedFail?
            case PackedOk(x', n, rest) =>
              var r := PackedLoop(f, s, y, count);
              r.PackedOk? && r.count == n && r.rest == rest
              && forall k :: 0 <= k < f.arraySize && (k < live || k < n) ==> SameValue(f, x'[k], r.items[k], false)
    decreases |s|
  {
    if s != [] && count < f.arraySize {
      var p := DecNumber(f, s);
      if p.Ok? {
        PackedLoopSame(f, p.rest, x[count := p.value], y[count := p.value], count + 1, live);
      }
    }
  }

  lemma ArraySame(f: Field, wireType: nat, s: Bytes, a: Slot, b: Slot, count: nat)
    requires FieldOk(f) && !LeakyField(f) && f.htype.Repeated? && |a.items| == Cells(f) && |b.items| == Cells(f)
    requires SameSlot(f, a, b, true) && (!FixedCount(f) ==> count == a.size)
    ensures var p, q := DecField(f, wireType, s, a, count), DecField(f, wireType, s, b, count);
            Alike(p, q) && (p.Ok? ==> SameSlot(f, p.value.slot, q.value.slot, true) && p.value.count == q.value.count)
    decreases |s|, 2
  {
    if wireType == WT_STRING && Packable(f.ltype) {
      var l := DecVarint32(s);
      if l.Ok? && l.value <= |l.rest| {
        PackedLoopSame(f, l.rest[..l.value], a.items, b.items, count, Live(f, a.size));
      }
    } else if count < f.arraySize {
      DecValueSame(f, s, a.items[count], b.items[count]);
      var p, q := DecValue(f, s, a.items[count]), DecValue(f, s, b.items[count]);
      if p.Ok? {
        SameShallow(f, p.value, q.value);
      }
    }
  }

  lemma {:induction false} DecFieldSame(f: Field, wireType: nat, s: Bytes, a: Slot, b: Slot, m: nat, n: nat)
    requires FieldOk(f) && !LeakyField(f) && |a.items| == Cells(f) && |b.items| == Cells(f)
    requires SameSlot(f, a, b, true) && (f.htype.Repeated? ==> m == n && (!FixedCount(f) ==> m == a.size))
    ensures var p, q := DecField(f, wireType, s, a, m), DecField(f, wireType, s, b, n);
            Alike(p, q)
            && (p.Ok? ==> SameSlot(f, p.value.slot, q.value.slot, true)
                          && (f.htype.Repeated? ==> p.value.count == q.value.count))
    decreases |s|, 3
  {
    if f.htype.Repeated? {
      ArraySame(f, wireType, s, a, b, m);
    } else if f.htype.Oneof? {
      var z := Sub(if f.ltype.LSubmessage? then SetDefaults(f.ptr.fields, Zero(f.ptr.fields)) else Msg(map[]));
      var x, y := if f.ltype.LSubmessage? then z else a.items[0], if f.ltype.LSubmessage? then z else b.items[0];
      DecValueSame(f, s, x, y);
      if DecValue(f, s, x).Ok? {
        SameShallow(f, DecValue(f, s, x).value, DecValue(f, s, y).value);
      }
    } else {
      DecValueSame(f, s, a.items[0], b.items[0]);
    }
  }

  /** Two decoder states with the same struct and the same bookkeeping. */
  predicate SameState(fields: seq<Field>, a: DecState, b: DecState)
    requires Wf(fields) && StateOk(fields, a) && StateOk(fields, b)
  {
    SameMsg(fields, a.msg, b.msg, true) && a.seen == b.seen
    && a.fixedField == b.fixedField && a.fixedCount == b.fixedCount
  }

  lemma {:induction false} StepSame(fields: seq<Field>, tag: nat, wireType: nat, s: Bytes, a: DecState, b: DecState)
    requires Wf(fields) && !Leaky(fields) && StateOk(fields, a) && StateOk(fields, b)
    requires SameState(fields, a, b)
    ensures var p, q := Step(fields, tag, wireType, s, a), Step(fields, tag, wireType, s, b);
            Alike(p, q) && (p.Ok? ==> SameState(fields, p.value, q.value))
    decreases |s|, 5
  {
    match Find(fields, tag)
    case None =>
    case Some(i) => FoundSame(fields, i, wireType, s, a, b);
  }

  lemma {:induction false} FoundSame(fields: seq<Field>, i: nat, wireType: nat, s: Bytes, a: DecState, b: DecState)
    requires Wf(fields) && !Leaky(fields) && StateOk(fields, a) && StateOk(fields, b)
    requires SameState(fields, a, b) && i < |fields|
    ensures var p, q := StepFound(fields, i, wireType, s, a), StepFound(fields, i, wireType, s, b);
            Alike(p, q) && (p.Ok? ==> SameState(fields, p.value, q.value))
    decreases |s|, 4
  {
    var f := fields[i];
    var x, y := a.msg.slots[f.at], b.msg.slots[f.at];
    assert SameSlot(f, x, y, true) && !LeakyField(f);
    if Enter(fields, i, a).Some? {
      var m, n := CountOf(f, Enter(fields, i, a).value, x), CountOf(f, Enter(fields, i, b).value, y);
      DecFieldSame(f, wireType, s, x, y, m, n);
      var p, q := DecField(f, wireType, s, x, m), DecField(f, wireType, s, y, n);
      if p.Ok? {
        SameWithSlot(fields, a.msg, b.msg, i, p.value.slot, q.value.slot, true);
      }
    }
  }

  lemma {:induction false} LoopSame(fields: seq<Field>, s: Bytes, a: DecState, b: DecState)
    requires Wf(fields) && !Leaky(fields) && StateOk(fields, a) && StateOk(fields, b)
    requires SameState(fields, a, b)
    ensures match Loop(fields, s, a)
            case Failed => Loop(fields, s, b).Failed?
            case Drained(a') => Loop(fields, s, b).Drained? && SameState(fields, a', Loop(fields, s, b).st)
            case Stopped(a', rest) =>
              var r := Loop(fields, s, b);
              r.Stopped? && r.rest == rest && SameState(fields, a', r.st)
    decreases |s|, 6
  {
    if s != [] && DecTag(s).Tagged? {
      var t := DecTag(s);
      StepSame(fields, t.tag, t.wireType, t.rest, a, b);
      var p := Step(fields, t.tag, t.wireType, t.rest, a);
      if p.Ok? {
        LoopSame(fields, p.rest, p.value, Step(fields, t.tag, t.wireType, t.rest, b).value);
      }
    }
  }

  lemma {:induction false} DecodeNoinitSame(fields: seq<Field>, s: Bytes, a: Msg, b: Msg)
    requires Wf(fields) && !Leaky(fields) && Shaped(fields, a) && Shaped(fields, b)
    requires SameMsg(fields, a, b, true)
    ensures var p, q := DecodeNoinit(fields, s, a), DecodeNoinit(fields, s, b);
            Alike(p, q) && (p.Ok? ==> SameMsg(fields, p.value, q.value, true))
    decreases |s|, 7
  {
    LoopSame(fields, s, Start(a), Start(b));
  }

  /**
    pb_decode succeeds or fails, stops at the same byte and leaves the same struct whatever
    the destination held before.
   */
  lemma {:induction false} DecodeSame(fields: seq<Field>, s: Bytes, a: Msg, b: Msg)
    requires Wf(fields) && !Leaky(fields) && Shaped(fields, a) && Shaped(fields, b)
    ensures var p, q := Decode(fields, s, a), Decode(fields, s, b);
            Alike(p, q) && (p.Ok? ==> SameMsg(fields, p.value, q.value, true))
    decreases |s|, 8
  {
    DefaultsSame(fields, a, b);
    DecodeNoinitSame(fields, s, SetDefaults(fields, a), SetDefaults(fields, b));
  }
}
