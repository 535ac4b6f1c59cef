/**
  Last one wins: of a singular field that arrives more than once, the last arrival counts,
  whatever the member held before and whatever wire type the keys name.
 */
module LastWins {
  import opened Prelude
  import opened Bits
  import opened Wire
  import opened Descriptor
  import opened DecodeSpec
  import opened EncodeSpec
  import opened Observe
  import opened ValueTrip
  import opened RoundTrip

  /** A member that holds one value that is no submessage. */
  predicate Scalar(f: Field) {
    !f.ltype.LSubmessage? && !f.htype.Repeated?
  }

  /** The member reads as `v`, and its has_ flag or its selector says that it is there. */
  predicate Holds(f: Field, v: Value, slot: Slot)
    requires FieldOk(f)
  {
    && |slot.items| == 1 && SameValue(f, v, slot.items[0], false)
    && (f.htype.Optional? && f.sizeOffset != 0 ==> slot.size == 1)
    && (f.htype.Oneof? ==> slot.size == f.tag)
  }

  lemma ScalarTrip(f: Field, v: Value, t: Bytes, prior: Value)
    requires FieldOk(f) && !f.ltype.LSubmessage? && ValueOk(f, v)
    ensures EncValue(f, v).Some?
    ensures var p := DecValue(f, EncValue(f, v).value + t, prior);
            p.Ok? && p.rest == t && SameValue(f, v, p.value, false)
  {
    if Packable(f.ltype) {
      PackableTrip(f, v, t);
    } else if f.ltype.LString? {
      StringTrip(f, v, t, prior);
    } else {
      BytesTrip(f, v, t, prior);
    }
  }

  lemma FieldReplaces(f: Field, wireType: nat, v: Value, slot: Slot, count: nat) returns (placed: Placed)
    requires FieldOk(f) && Scalar(f) && ValueOk(f, v) && |slot.items| == 1
    ensures EncValue(f, v).Some?
    ensures DecField(f, wireType, EncValue(f, v).value, slot, count) == Ok(placed, [])
    ensures Holds(f, v, placed.slot) && placed.count == count
  {
    ScalarTrip(f, v, [], slot.items[0]);
    var e := EncValue(f, v).value;
    EmptyRight(e);
    var x := DecValue(f, e, slot.items[0]).value;
    var size := if f.htype.Oneof? then f.tag else if f.htype.Optional? && f.sizeOffset != 0 then 1 else slot.size;
    placed := Placed(Slot(size, [x]), count);
  }

  /** Only the member of field k has changed, and perhaps what was seen. */
  predicate OnlyMember(fields: seq<Field>, k: nat, a: DecState, b: DecState)
    requires Wf(fields) && StateOk(fields, a) && StateOk(fields, b) && k < |fields|
  {
    && b.msg == WithSlot(fields, a.msg, k, b.msg.slots[fields[k].at])
    && b.fixedField == a.fixedField && b.fixedCount == a.fixedCount
  }

  /** What the loop makes of one singular field. */
  lemma MemberPlaced(fields: seq<Field>, k: nat, wireType: nat, payload: Bytes, st: DecState, placed: Placed)
    returns (st': DecState)
    requires Wf(fields) && StateOk(fields, st) && k < |fields| && !fields[k].htype.Repeated? && wireType < 8
    requires |placed.slot.items| == 1 && FieldOk(fields[k])
    requires var slot := st.msg.slots[fields[k].at];
             DecField(fields[k], wireType, payload, slot, slot.size) == Ok(placed, [])
    ensures StateOk(fields, st') && OnlyMember(fields, k, st, st') && st'.msg.slots[fields[k].at] == placed.slot
    ensures Loop(fields, EncVarint(8 * fields[k].tag + wireType) + payload, st) == Drained(st')
  {
    var st1 := Enter(fields, k, st).value;
    OneField(fields, k, wireType, payload, st, st1, placed);
    st' := After(fields, k, st, st1, placed);
    assert EncTag(wireType, fields[k].tag) == EncVarint(8 * fields[k].tag + wireType);
  }

  /**
    In any state of the loop, an arrival of a valid value under a key of any wire type
    replaces the member, whatever it held, and changes no other one.
   */
  lemma ArrivalReplaces(fields: seq<Field>, k: nat, wireType: nat, v: Value, st: DecState) returns (st': DecState)
    requires Wf(fields) && StateOk(fields, st) && k < |fields| && Scalar(fields[k]) && wireType < 8
    requires FieldOk(fields[k]) && ValueOk(fields[k], v)
    ensures EncValue(fields[k], v).Some? && StateOk(fields, st')
    ensures Loop(fields, EncVarint(8 * fields[k].tag + wireType) + EncValue(fields[k], v).value, st) == Drained(st')
    ensures Holds(fields[k], v, st'.msg.slots[fields[k].at]) && OnlyMember(fields, k, st, st')
  {
    var f := fields[k];
    var slot := st.msg.slots[f.at];
    var placed := FieldReplaces(f, wireType, v, slot, slot.size);
    st' := MemberPlaced(fields, k, wireType, EncValue(f, v).value, st, placed);
  }

  // ---------------------------------------------------------------- whole messages

  /** An arrival: the position of the field, and the value that its payload spells. */
  datatype Arrived = Arrived(k: nat, value: Value)

  /** The last arrival of a field whose member is at an offset: of a union, any of its fields. */
  function LastAt(fields: seq<Field>, s: Bytes, st: DecState, at: nat): (r: Option<Arrived>)
    requires Wf(fields) && StateOk(fields, st)
    ensures r.Some? ==> r.value.k < |fields| && fields[r.value.k].at == at
    decreases |s|
  {
    if s == [] || !DecTag(s).Tagged? then None
    else
      var t := DecTag(s);
      match Step(fields, t.tag, t.wireType, t.rest, st)
      case Fail => None
      case Ok(st', rest) =>
        var later := LastAt(fields, rest, st', at);
        if later.Some? then later
        else
          match Find(fields, t.tag)
          case None => None
          case Some(k) =>
            if fields[k].at != at then None
            else Some(Arrived(k, Spelling(fields[k], t.rest)))
  }

  /** The value a payload spells, whatever the cell it is read into. */
  function Spelling(f: Field, s: Bytes): Value
    requires FieldOk(f)
  {
    match DecValue(f, s, ZeroValue(f))
    case Ok(v, _) => v
    case Fail => ZeroValue(f)
  }

  /** A string reads the same in any buffer it is read into. */
  lemma StringSpelling(f: Field, bs: Bytes, a: Value, b: Value)
    requires FieldOk(f) && f.ltype.LString? && |bs| + 1 <= f.dataSize
    ensures SameValue(f, BlobOf(f, bs, a), BlobOf(f, bs, b), false)
  {
    StringPrefix(bs, AsBuffer(a, f.dataSize)[|bs| + 1..]);
    StringPrefix(bs, AsBuffer(b, f.dataSize)[|bs| + 1..]);
  }

  lemma SpellingSame(f: Field, s: Bytes, prior: Value)
    requires FieldOk(f) && !f.ltype.LSubmessage? && DecValue(f, s, prior).Ok?
    ensures SameValue(f, Spelling(f, s), DecValue(f, s, prior).value, false)
  {
    if f.ltype.LString? {
      var l := DecVarint32(s);
      StringSpelling(f, Take(l.rest, l.value).value, ZeroValue(f), prior);
    } else {
      SameRefl(f, DecValue(f, s, prior).value, false);
    }
  }

  lemma FieldHolds(f: Field, wireType: nat, s: Bytes, slot: Slot, count: nat)
    requires FieldOk(f) && Scalar(f) && |slot.items| == 1 && DecField(f, wireType, s, slot, count).Ok?
    ensures Holds(f, Spelling(f, s), DecField(f, wireType, s, slot, count).value.slot)
  {
    SpellingSame(f, s, slot.items[0]);
  }

  /** The member at the offset is as its last arrival left it, or as it was. */
  predicate LastHolds(fields: seq<Field>, last: Option<Arrived>, before: Slot, after: Slot)
    requires Wf(fields) && (last.Some? ==> last.value.k < |fields|)
  {
    match last
    case None => after == before
    case Some(a) => Scalar(fields[a.k]) ==> Holds(fields[a.k], a.value, after)
  }

  lemma StepLast(fields: seq<Field>, i: nat, tag: nat, wireType: nat, s: Bytes, st: DecState)
    requires Wf(fields) && StateOk(fields, st) && i < |fields| && !fields[i].htype.Repeated?
    requires Step(fields, tag, wireType, s, st).Ok?
    ensures var at := fields[i].at;
            var before, after := st.msg.slots[at], Step(fields, tag, wireType, s, st).value.msg.slots[at];
            match Find(fields, tag)
            case None => after == before
            case Some(k) =>
              if fields[k].at != at then after == before
              else Scalar(fields[k]) ==> Holds(fields[k], Spelling(fields[k], s), after)
  {
    match Find(fields, tag)
    case None =>
    case Some(k) =>
      var f := fields[k];
      if f.at == fields[i].at && Scalar(f) {
        assert FieldOk(f);
        FieldHolds(f, wireType, s, st.msg.slots[f.at], CountOf(f, Enter(fields, k, st).value, st.msg.slots[f.at]));
      }
  }

  /**
    Over a whole message, any bytes: a singular member reads as the last arrival of its field,
    or of its union, and is untouched if there was none.
   */
  lemma {:induction false} LastOneWins(fields: seq<Field>, i: nat, s: Bytes, st: DecState)
    requires Wf(fields) && StateOk(fields, st) && i < |fields| && !fields[i].htype.Repeated?
    requires !Loop(fields, s, st).Failed?
    ensures LastHolds(fields, LastAt(fields, s, st, fields[i].at),
                      st.msg.slots[fields[i].at], Loop(fields, s, st).st.msg.slots[fields[i].at])
    decreases |s|
  {
    if s != [] && DecTag(s).Tagged? {
      var t := DecTag(s);
      var p := Step(fields, t.tag, t.wireType, t.rest, st);
      StepLast(fields, i, t.tag, t.wireType, t.rest, st);
      LastOneWins(fields, i, p.rest, p.value);
    }
  }
}
