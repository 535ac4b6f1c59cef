/**
  What a member holds that did not arrive: the value its descriptor declares, at every depth;
  and so what every singular member holds after pb_decode.
 */
module DeclaredDefaults {
  import opened Prelude
  import opened Wire
  import opened Descriptor
  import opened DecodeSpec
  import opened RequiredFields
  import opened LastWins

  /** The declared initial value of a field: zero where none is declared. */
  predicate DeclaredValue(f: Field, v: Value)
    requires FieldOk(f)
    decreases f, 0
  {
    match f.ltype
    case LSubmessage => v.Sub? && Shaped(f.ptr.fields, v.msg) && DeclaredMsg(f.ptr.fields, v.msg)
    case LBytes => v == if f.ptr.Default? then f.ptr.value else Blob([])
    case LString => v == if f.ptr.Default? then f.ptr.value else Blob(Zeros(f.dataSize))
    case LFixedBytes => v == if f.ptr.Default? then f.ptr.value else Blob(Zeros(f.dataSize))
    case _ => v == if f.ptr.Default? then f.ptr.value else Num(0)
  }

  /** No presence, no entries, no selection, and the declared value. */
  predicate DeclaredSlot(f: Field, slot: Slot)
    requires FieldOk(f) && |slot.items| == Cells(f)
    decreases f, 1
  {
    match f.htype
    case Required => DeclaredValue(f, slot.items[0])
    case Optional => (f.sizeOffset != 0 ==> slot.size == 0) && DeclaredValue(f, slot.items[0])
    case Repeated => !FixedCount(f) ==> slot.size == 0
    case Oneof => slot.size == 0
  }

  predicate DeclaredMsg(fields: seq<Field>, m: Msg)
    requires Wf(fields) && Shaped(fields, m)
    decreases fields
  {
    forall i :: 0 <= i < |fields| ==> DeclaredSlot(fields[i], m.slots[fields[i].at])
  }

  lemma {:induction false} ValueDeclared(f: Field, prior: Value)
    requires FieldOk(f)
    ensures DeclaredValue(f, DefaultValue(f, prior))
    decreases f, 0
  {
    if f.ltype.LSubmessage? {
      DefaultsDeclared(f.ptr.fields, AsMsg(f.ptr.fields, prior));
    }
  }

  lemma {:induction false} SlotDeclared(f: Field, slot: Slot)
    requires FieldOk(f) && |slot.items| == Cells(f)
    ensures DeclaredSlot(f, DefaultSlot(f, slot))
    decreases f, 1
  {
    if f.htype.Required? || f.htype.Optional? {
      ValueDeclared(f, slot.items[0]);
    }
  }

  /** Setting defaults gives every member its declared value, in submessages too. */
  lemma {:induction false} DefaultsDeclared(fields: seq<Field>, m: Msg)
    requires Wf(fields) && Shaped(fields, m)
    ensures DeclaredMsg(fields, SetDefaults(fields, m))
    decreases fields
  {
    forall i | 0 <= i < |fields|
      ensures DeclaredSlot(fields[i], SetDefaults(fields, m).slots[fields[i].at])
    {
      assert FieldOk(fields[i]);
      DefaultsAt(fields, |fields|, m, i);
      SlotDeclared(fields[i], m.slots[fields[i].at]);
    }
  }

  /** A field that is absent from a message that decodes holds what its descriptor declares. */
  lemma AbsentIsDeclared(fields: seq<Field>, i: nat, s: Bytes, d: Msg)
    requires Wf(fields) && Shaped(fields, d) && i < |fields| && Decode(fields, s, d).Ok?
    requires !fields[i].htype.Oneof? && i !in Arrivals(fields, s, Start(SetDefaults(fields, d)))
    ensures DeclaredSlot(fields[i], Decode(fields, s, d).value.slots[fields[i].at])
  {
    DefaultsDeclared(fields, d);
    AbsentKeeps(fields, i, s, Start(SetDefaults(fields, d)));
  }

  /**
    After pb_decode of any bytes into any destination a singular member holds the value of the
    last arrival of its field, or of its union, and else the declared one.
   */
  lemma DecodedMember(fields: seq<Field>, i: nat, s: Bytes, d: Msg)
    requires Wf(fields) && Shaped(fields, d) && i < |fields| && Decode(fields, s, d).Ok?
    requires !fields[i].htype.Repeated?
    ensures var f, slot := fields[i], Decode(fields, s, d).value.slots[fields[i].at];
            var last := LastAt(fields, s, Start(SetDefaults(fields, d)), f.at);
            && (last.None? ==> DeclaredSlot(f, slot))
            && (last.Some? && Scalar(fields[last.value.k]) ==> Holds(fields[last.value.k], last.value.value, slot))
  {
    DefaultsDeclared(fields, d);
    LastOneWins(fields, i, s, Start(SetDefaults(fields, d)));
  }
}
