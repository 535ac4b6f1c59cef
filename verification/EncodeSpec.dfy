/**
  The encoder of pb_encode.c as functions from a struct to bytes; None is a failure that
  does not depend on the room in the output stream.
 */
module EncodeSpec {
  import opened Prelude
  import opened Bits
  import opened Wire
  import opened Scalars
  import opened Descriptor

  /** The wire type pb_encode_tag_for_field gives a field. */
  function WireTypeOf(l: LType): (w: nat)
    ensures w < 8
  {
    match l
    case LFixed32 => WT_32BIT
    case LFixed64 => WT_64BIT
    case LBytes => WT_STRING
    case LString => WT_STRING
    case LSubmessage => WT_STRING
    case LFixedBytes => WT_STRING
    case _ => WT_VARINT
  }

  /** The length pb_enc_string finds: up to the first NUL, at most `max` bytes. */
  function StrnLen(b: Bytes, max: nat): (n: nat)
    ensures n <= |b| && n <= max
    decreases max
  {
    if max == 0 || b == [] || b[0] == 0 then 0 else 1 + StrnLen(b[1..], max - 1)
  }

  // ---------------------------------------------------------------- field encoders

  function ToU64(n: int): (v: nat)
    ensures v < TWO64
  {
    CastUnsigned(n, 8)
  }

  /** The encoders of the packable types. */
  function EncNumber(f: Field, n: int): Option<Bytes>
    requires Packable(f.ltype)
  {
    match f.ltype
    case LBool => Some(EncVarint(if n != 0 then 1 else 0))
    case LFixed32 => Some(ToLE(CastUnsigned(n, 4), 4))
    case LFixed64 => Some(ToLE(CastUnsigned(n, 8), 8))
    case LSVarint => if IntSize(f.dataSize) then Some(EncVarint(ZigZag(CastSigned(n, 8)))) else None
    case _ => if IntSize(f.dataSize) then Some(EncVarint(ToU64(n))) else None
  }

  /** pb_enc_bytes, pb_enc_string and pb_enc_fixed_length_bytes. */
  function EncBlob(f: Field, v: Value): Option<Bytes>
    requires f.ltype.LBytes? || f.ltype.LString? || f.ltype.LFixedBytes?
  {
    var b := AsBuffer(v, f.dataSize);
    if f.ltype.LBytes? then
      if BYTES_HEADER + |AsBlob(v)| > f.dataSize then None else Some(EncSized(AsBlob(v)))
    else if f.ltype.LString? then Some(EncSized(b[..StrnLen(b, f.dataSize)]))
    else Some(EncSized(b))
  }

  /** The PB_ENCODERS entry of a field, applied to one cell. */
  function EncValue(f: Field, v: Value): Option<Bytes>
    requires FieldOk(f)
    decreases f, 0
  {
    if Packable(f.ltype) then EncNumber(f, AsNum(v))
    else if f.ltype.LSubmessage? then
      match Enc(f.ptr.fields, AsMsg(f.ptr.fields, v))
      case None => None
      case Some(bs) => Some(EncSized(bs))
    else EncBlob(f, v)
  }

  /** pb_encode_tag_for_field. */
  function KeyOf(f: Field): Bytes {
    EncTag(WireTypeOf(f.ltype), f.tag)
  }

  function EncTagged(f: Field, v: Value): Option<Bytes>
    requires FieldOk(f)
    decreases f, 1
  {
    Append(Some(KeyOf(f)), EncValue(f, v))
  }

  /** The first `n` entries of an array, one after the other, without tags. */
  function EncItems(f: Field, items: seq<Value>, n: nat): Option<Bytes>
    requires FieldOk(f) && n <= |items|
    decreases f, 1, n
  {
    if n == 0 then Some([]) else Append(EncItems(f, items, n - 1), EncValue(f, items[n - 1]))
  }

  /** The first `n` entries of an array, each with its tag. */
  function EncEntries(f: Field, items: seq<Value>, n: nat): Option<Bytes>
    requires FieldOk(f) && n <= |items|
    decreases f, 2, n
  {
    if n == 0 then Some([]) else Append(EncEntries(f, items, n - 1), EncTagged(f, items[n - 1]))
  }

  /** encode_array. */
  function EncArray(f: Field, items: seq<Value>, count: nat): Option<Bytes>
    requires FieldOk(f) && |items| == f.arraySize
    decreases f, 3
  {
    if count == 0 then Some([])
    else if count > f.arraySize then None
    else if Packable(f.ltype) then
      match EncItems(f, items, count)
      case None => None
      case Some(bs) => Some(EncTag(WT_STRING, f.tag) + EncSized(bs))
    else EncEntries(f, items, count)
  }

  // ---------------------------------------------------------------- the proto3 zero check

  /** pb_check_proto3_default_value. */
  predicate IsDefault(f: Field, slot: Slot)
    requires FieldOk(f) && |slot.items| == Cells(f)
    decreases f, 1
  {
    match f.htype
    case Required => false
    case Repeated => f.sizeOffset != 0 && slot.size == 0
    case Oneof => slot.size == 0
    case Optional => if f.sizeOffset != 0 then slot.size == 0 else IsZero(f, slot.items[0])
  }

  /** The part of the check that looks at the data of a proto3 singular field. */
  predicate IsZero(f: Field, v: Value)
    requires FieldOk(f)
    decreases f, 0
  {
    match f.ltype
    case LBytes => AsBlob(v) == []
    case LString => f.dataSize == 0 || AsBuffer(v, f.dataSize)[0] == 0
    case LFixedBytes => f.dataSize == 0
    case LSubmessage => AllDefault(f.ptr.fields, AsMsg(f.ptr.fields, v))
    case _ => ZeroBytes(AsNum(v), f.dataSize)
  }

  predicate AllDefault(fields: seq<Field>, m: Msg)
    requires Wf(fields) && Shaped(fields, m)
    decreases fields
  {
    forall i :: 0 <= i < |fields| ==> IsDefault(fields[i], m.slots[fields[i].at])
  }

  // ---------------------------------------------------------------- whole messages

  /** encode_basic_field. */
  function EncField(f: Field, slot: Slot): Option<Bytes>
    requires FieldOk(f) && |slot.items| == Cells(f)
    decreases f, 4
  {
    match f.htype
    case Required => EncTagged(f, slot.items[0])
    case Optional =>
      var has := if f.sizeOffset != 0 then slot.size != 0 else !IsDefault(f, slot);
      if has then EncTagged(f, slot.items[0]) else Some([])
    case Repeated =>
      EncArray(f, slot.items, if f.sizeOffset != 0 then slot.size else f.arraySize)
    case Oneof => if slot.size == f.tag then EncTagged(f, slot.items[0]) else Some([])
  }

  function EncUpTo(fields: seq<Field>, k: nat, m: Msg): Option<Bytes>
    requires Wf(fields) && Shaped(fields, m) && k <= |fields|
    decreases fields, k
  {
    if k == 0 then Some([])
    else
      assert fields[k - 1] in fields;
      Append(EncUpTo(fields, k - 1, m), EncField(fields[k - 1], m.slots[fields[k - 1].at]))
  }

  /** pb_encode. */
  function Enc(fields: seq<Field>, m: Msg): Option<Bytes>
    requires Wf(fields) && Shaped(fields, m)
    decreases fields, |fields| + 1
  {
    EncUpTo(fields, |fields|, m)
  }

  /** pb_encode_delimited, and the payload of a submessage field. */
  function EncDelimited(fields: seq<Field>, m: Msg): Option<Bytes>
    requires Wf(fields) && Shaped(fields, m)
  {
    match Enc(fields, m)
    case None => None
    case Some(bs) => Some(EncSized(bs))
  }

  // ---------------------------------------------------------------- structs worth encoding

  /** A cell holds a value its field can represent. */
  predicate ValueOk(f: Field, v: Value)
    requires FieldOk(f)
    decreases f, 0
  {
    match f.ltype
    case LBool => f.dataSize == 1 && (v == Num(0) || v == Num(1))
    case LVarint => IntSize(f.dataSize) && v.Num? && FitsSigned(v.n, f.dataSize)
    case LUVarint => IntSize(f.dataSize) && v.Num? && FitsUnsigned(v.n, f.dataSize)
    case LSVarint => IntSize(f.dataSize) && v.Num? && FitsSigned(v.n, f.dataSize)
    case LFixed32 => f.dataSize == 4 && v.Num? && FitsUnsigned(v.n, 4)
    case LFixed64 => f.dataSize == 8 && v.Num? && FitsUnsigned(v.n, 8)
    case LBytes => v.Blob? && BYTES_HEADER + |v.bytes| <= f.dataSize
    case LString => v.Blob? && |v.bytes| == f.dataSize && 0 in v.bytes
    case LFixedBytes => v.Blob? && |v.bytes| == f.dataSize
    case LSubmessage => v.Sub? && Shaped(f.ptr.fields, v.msg) && MsgOk(f.ptr.fields, v.msg)
    case LExtension => false
  }

  /** A member holds meaningful values wherever they can be observed. */
  predicate SlotOk(f: Field, slot: Slot)
    requires FieldOk(f) && |slot.items| == Cells(f)
    decreases f, 1
  {
    match f.htype
    case Required => ValueOk(f, slot.items[0])
    case Optional => (f.sizeOffset != 0 && slot.size == 0) || ValueOk(f, slot.items[0])
    case Repeated =>
      (FixedCount(f) || slot.size <= f.arraySize)
      && forall k :: 0 <= k < f.arraySize && (FixedCount(f) || k < slot.size) ==> ValueOk(f, slot.items[k])
    case Oneof => slot.size == f.tag ==> ValueOk(f, slot.items[0])
  }

  /** A struct whose observable members are valid and whose unions select a member or none. */
  predicate MsgOk(fields: seq<Field>, m: Msg)
    requires Wf(fields) && Shaped(fields, m)
    decreases fields
  {
    && (forall i :: 0 <= i < |fields| ==> SlotOk(fields[i], m.slots[fields[i].at]))
    && (forall i :: 0 <= i < |fields| && fields[i].htype.Oneof? ==>
          SelectorOk(fields, fields[i].at, m.slots[fields[i].at].size))
  }

  /** A which_ value is 0 or the tag of a member of that union. */
  predicate SelectorOk(fields: seq<Field>, at: nat, which: nat) {
    which == 0 || exists j :: 0 <= j < |fields| && fields[j].at == at && fields[j].tag == which
  }
}
