/**
  pb_encode.c: the field encoders and the message encoders, each proved to write exactly
  what the function of the same purpose in EncodeSpec says, into a buffer or a count, or to
  fail when there is nothing to write or no room for it.
 */
module Encoder {
  import opened Prelude
  import opened Bits
  import opened Wire
  import opened Scalars
  import opened Descriptor
  import opened FieldIterator
  import opened OutputStream
  import opened EncodeSize
  import Spec = EncodeSpec

  lemma EmittedStop(a: Out, b: Out, e: Bytes)
    requires Emitted(a, b, Some(e), true)
    ensures Emitted(a, b, None, false)
  {
    EmitTouched(a, e);
  }

  lemma EmitNothing(a: Out)
    requires OutOk(a)
    ensures Emitted(a, a, Some([]), true)
  {
  }

  /** Wherever `f` can be written, so can `e`. */
  predicate Within(e: Option<Bytes>, f: Option<Bytes>) {
    f.Some? ==> e.Some? && |e.value| <= |f.value|
  }

  lemma EmittedShort(a: Out, b: Out, e: Option<Bytes>, f: Option<Bytes>)
    requires Emitted(a, b, e, false) && Within(e, f)
    ensures Emitted(a, b, f, false)
  {
  }

  lemma {:induction false} ItemsGrow(f: Field, items: seq<Value>, i: nat, n: nat)
    requires FieldOk(f) && i <= n <= |items|
    ensures Within(Spec.EncItems(f, items, i), Spec.EncItems(f, items, n))
    decreases n
  {
    if i < n {
      ItemsGrow(f, items, i, n - 1);
    }
  }

  lemma {:induction false} EntriesGrow(f: Field, items: seq<Value>, i: nat, n: nat)
    requires FieldOk(f) && i <= n <= |items|
    ensures Within(Spec.EncEntries(f, items, i), Spec.EncEntries(f, items, n))
    decreases n
  {
    if i < n {
      EntriesGrow(f, items, i, n - 1);
    }
  }

  lemma {:induction false} UpToGrow(fields: seq<Field>, m: Msg, i: nat, n: nat)
    requires Wf(fields) && Shaped(fields, m) && i <= n <= |fields|
    ensures Within(Spec.EncUpTo(fields, i, m), Spec.EncUpTo(fields, n, m))
    decreases n
  {
    if i < n {
      UpToGrow(fields, m, i, n - 1);
    }
  }

  /** encode_array computes the size of a packed array of fixed-width numbers. */
  lemma {:induction false} FixedItemsSize(f: Field, items: seq<Value>, n: nat)
    requires FieldOk(f) && n <= |items| && (f.ltype.LFixed32? || f.ltype.LFixed64?)
    ensures Spec.EncItems(f, items, n).Some?
    ensures |Spec.EncItems(f, items, n).value| == n * if f.ltype.LFixed32? then 4 else 8
  {
    if n > 0 {
      FixedItemsSize(f, items, n - 1);
    }
  }

  // ---------------------------------------------------------------- the proto3 zero check

  /** pb_check_proto3_default_value */
  method CheckDefault(f: Field, slot: Slot) returns (isDefault: bool)
    requires FieldOk(f) && BuiltField(f) && |slot.items| == Cells(f)
    ensures isDefault <==> Spec.IsDefault(f, slot)
    decreases f, 1
  {
    if f.htype.Required? {
      return false;
    } else if f.htype.Repeated? {
      return f.sizeOffset != 0 && slot.size == 0;
    } else if f.htype.Oneof? {
      return slot.size == 0;
    } else if f.sizeOffset != 0 {
      return slot.size == 0;
    }
    var v := slot.items[0];
    if f.ltype.LBytes? {
      isDefault := |AsBlob(v)| == 0;
    } else if f.ltype.LString? {
      isDefault := f.dataSize == 0 || AsBuffer(v, f.dataSize)[0] == 0;
    } else if f.ltype.LFixedBytes? {
      isDefault := f.dataSize == 0;
    } else if f.ltype.LSubmessage? {
      isDefault := CheckAllDefault(f.ptr.fields, AsMsg(f.ptr.fields, v));
    } else {
      isDefault := CompareZero(AsNum(v), f.dataSize);
    }
  }

  /** The byte-by-byte comparison with zero, over the bytes of a little-endian number. */
  method CompareZero(n: int, size: nat) returns (isZero: bool)
    ensures isZero <==> ZeroBytes(n, size)
  {
    var p := n;
    for i := 0 to size
      invariant ZeroBytes(n, size) <==> ZeroBytes(p, size - i)
    {
      if p % 256 != 0 {
        return false;
      }
      p := p / 256;
    }
    isZero := true;
  }

  /** The check of every field of a submessage: padding in the struct does not count. */
  method CheckAllDefault(fields: seq<Field>, m: Msg) returns (allDefault: bool)
    requires Built(fields) && Shaped(fields, m)
    ensures allDefault <==> Spec.AllDefault(fields, m)
    decreases fields, 0
  {
    var iter := new FieldIter(fields);
    var more := iter.Begin();
    if !more {
      return true;
    }
    ghost var k: nat := 0;
    while true
      invariant iter.Valid() && iter.fields == fields && fresh(iter) && k < |fields| && iter.pos == k
      invariant forall i :: 0 <= i < k ==> Spec.IsDefault(fields[i], m.slots[fields[i].at])
      decreases |fields| - k
    {
      var f := fields[iter.pos];
      assert BuiltField(f);
      var isDefault := CheckDefault(f, m.slots[iter.pData]);
      if !isDefault {
        return false;
      }
      more := iter.Next();
      k := k + 1;
      if !more {
        return true;
      }
    }
  }

  // ---------------------------------------------------------------- field encoders

  /** pb_enc_bool, pb_enc_varint, pb_enc_uvarint, pb_enc_svarint, pb_enc_fixed32, pb_enc_fixed64 */
  method EncodeNumber(stream: OStream, f: Field, n: int) returns (ok: bool)
    requires Packable(f.ltype) && stream.Valid()
    modifies stream, stream.buf
    ensures stream.Valid() && Emitted(old(stream.Snap()), stream.Snap(), Spec.EncNumber(f, n), ok)
  {
    if f.ltype.LBool? {
      ok := stream.EncodeVarint(if n != 0 then 1 else 0);
    } else if f.ltype.LFixed32? {
      ok := stream.EncodeFixed32(CastUnsigned(n, 4));
    } else if f.ltype.LFixed64? {
      ok := stream.EncodeFixed64(CastUnsigned(n, 8));
    } else if !IntSize(f.dataSize) {
      ok := false;
    } else if f.ltype.LSVarint? {
      ok := stream.EncodeSvarint(CastSigned(n, 8));
    } else {
      ok := stream.EncodeVarint(CastUnsigned(n, 8));
    }
  }

  lemma DropOne(b: Bytes, i: nat)
    requires i < |b|
    ensures b[i..][0] == b[i] && b[i..][1..] == b[i + 1..]
  {
  }

  /** The loop pb_enc_string has in place of strnlen. */
  method StringLength(b: Bytes) returns (size: nat)
    ensures size <= |b| && size == Spec.StrnLen(b, |b|)
  {
    size := 0;
    while size < |b| && b[size] != 0
      invariant size <= |b| && Spec.StrnLen(b, |b|) == size + Spec.StrnLen(b[size..], |b| - size)
    {
      DropOne(b, size);
      size := size + 1;
    }
    if size < |b| {
      DropOne(b, size);
    }
  }

  /** pb_enc_bytes, pb_enc_string and pb_enc_fixed_length_bytes */
  method EncodeBlob(stream: OStream, f: Field, v: Value) returns (ok: bool)
    requires FieldOk(f) && (f.ltype.LBytes? || f.ltype.LString? || f.ltype.LFixedBytes?) && stream.Valid()
    modifies stream, stream.buf
    ensures stream.Valid() && Emitted(old(stream.Snap()), stream.Snap(), Spec.EncBlob(f, v), ok)
  {
    if f.ltype.LBytes? {
      var bytes := AsBlob(v);
      if BYTES_HEADER + |bytes| > f.dataSize {
        return false;
      }
      ok := stream.EncodeString(bytes);
    } else {
      var b := AsBuffer(v, f.dataSize);
      if f.ltype.LString? {
        var size := StringLength(b);
        ok := stream.EncodeString(b[..size]);
      } else {
        ok := stream.EncodeString(b);
      }
    }
  }

  /** The substream of a submessage, written and folded back into the stream. */
  method EncodeWithin(stream: OStream, fields: seq<Field>, m: Msg, size: nat) returns (ok: bool)
    requires Built(fields) && Shaped(fields, m) && Sizeable(fields) && stream.Valid() && stream.buf != null
    requires Spec.Enc(fields, m).Some? && |Spec.Enc(fields, m).value| == size
    modifies stream, stream.buf
    ensures stream.Valid() && Emitted(old(stream.Snap()), stream.Snap(), Spec.Enc(fields, m), ok)
    decreases fields, |fields| + 2
  {
    if stream.written + size > stream.maxSize {
      return false;
    }
    var sub := new OStream.Limited(stream, size);
    var status := Encode(sub, fields, m);
    stream.written := stream.written + sub.written;
    stream.at := sub.at;
    // 'submsg size changed' cannot happen: both passes write the same bytes
    assert sub.written == size;
    if sub.written != size {
      return false;
    }
    ok := status;
  }

  /** pb_encode_submessage: a sizing pass, the length, then the message itself. */
  method EncodeSubmessage(stream: OStream, fields: seq<Field>, m: Msg) returns (ok: bool)
    requires Built(fields) && Shaped(fields, m) && Sizeable(fields) && stream.Valid()
    modifies stream, stream.buf
    ensures stream.Valid() && Emitted(old(stream.Snap()), stream.Snap(), Spec.EncDelimited(fields, m), ok)
    decreases fields, |fields| + 3
  {
    ghost var a, e := stream.Snap(), Spec.Enc(fields, m);
    var sizing := new OStream.SizingStream();
    ok := Encode(sizing, fields, m);
    if !ok {
      return;
    }
    var size := sizing.written;
    SizeBound(fields, m);
    ok := stream.EncodeVarint(size);
    ghost var b := stream.Snap();
    if !ok {
      EmittedNot(a, b, Some(EncVarint(size)), e);
      return;
    }
    if stream.buf == null {
      ok := stream.Count(size);
    } else {
      ok := EncodeWithin(stream, fields, m, size);
    }
    EmittedThen(a, b, stream.Snap(), EncVarint(size), e, ok);
  }

  /** The PB_ENCODERS table. */
  method EncodeValue(stream: OStream, f: Field, v: Value) returns (ok: bool)
    requires FieldOk(f) && BuiltField(f) && MaxField(f) < TWO64 && stream.Valid()
    modifies stream, stream.buf
    ensures stream.Valid() && Emitted(old(stream.Snap()), stream.Snap(), Spec.EncValue(f, v), ok)
    decreases f, 0
  {
    if Packable(f.ltype) {
      ok := EncodeNumber(stream, f, AsNum(v));
    } else if f.ltype.LSubmessage? {
      ok := EncodeSubmessage(stream, f.ptr.fields, AsMsg(f.ptr.fields, v));
    } else {
      ok := EncodeBlob(stream, f, v);
    }
  }

  /** pb_encode_tag_for_field and the encoder of the field. */
  method EncodeTagged(stream: OStream, f: Field, v: Value) returns (ok: bool)
    requires FieldOk(f) && BuiltField(f) && MaxField(f) < TWO64 && stream.Valid()
    modifies stream, stream.buf
    ensures stream.Valid() && Emitted(old(stream.Snap()), stream.Snap(), Spec.EncTagged(f, v), ok)
    decreases f, 1
  {
    ghost var a, e := stream.Snap(), Spec.EncValue(f, v);
    ok := stream.EncodeTag(Spec.WireTypeOf(f.ltype), f.tag);
    ghost var b := stream.Snap();
    if !ok {
      EmittedNot(a, b, Some(Spec.KeyOf(f)), e);
      return;
    }
    ok := EncodeValue(stream, f, v);
    EmittedThen(a, b, stream.Snap(), Spec.KeyOf(f), e, ok);
  }

  // ---------------------------------------------------------------- arrays

  /** The loop over the entries of a packed array. */
  method EncodeItems(stream: OStream, f: Field, items: seq<Value>, count: nat) returns (ok: bool)
    requires FieldOk(f) && BuiltField(f) && MaxField(f) < TWO64 && stream.Valid() && count <= |items|
    modifies stream, stream.buf
    ensures stream.Valid() && Emitted(old(stream.Snap()), stream.Snap(), Spec.EncItems(f, items, count), ok)
    decreases f, 1
  {
    ghost var a := stream.Snap();
    EmitNothing(a);
    var i := 0;
    while i < count
      invariant i <= count && stream.Valid()
      invariant Emitted(a, stream.Snap(), Spec.EncItems(f, items, i), true)
    {
      ghost var b, e := stream.Snap(), Spec.EncItems(f, items, i).value;
      ok := EncodeValue(stream, f, items[i]);
      EmittedThen(a, b, stream.Snap(), e, Spec.EncValue(f, items[i]), ok);
      i := i + 1;
      if !ok {
        ItemsGrow(f, items, i, count);
        EmittedShort(a, stream.Snap(), Spec.EncItems(f, items, i), Spec.EncItems(f, items, count));
        return;
      }
    }
    ok := true;
  }

  /** The loop over the entries of an array that is not packed. */
  method EncodeEntries(stream: OStream, f: Field, items: seq<Value>, count: nat) returns (ok: bool)
    requires FieldOk(f) && BuiltField(f) && MaxField(f) < TWO64 && stream.Valid() && count <= |items|
    modifies stream, stream.buf
    ensures stream.Valid() && Emitted(old(stream.Snap()), stream.Snap(), Spec.EncEntries(f, items, count), ok)
    decreases f, 2
  {
    ghost var a := stream.Snap();
    EmitNothing(a);
    var i := 0;
    while i < count
      invariant i <= count && stream.Valid()
      invariant Emitted(a, stream.Snap(), Spec.EncEntries(f, items, i), true)
    {
      ghost var b, e := stream.Snap(), Spec.EncEntries(f, items, i).value;
      ok := EncodeTagged(stream, f, items[i]);
      EmittedThen(a, b, stream.Snap(), e, Spec.EncTagged(f, items[i]), ok);
      i := i + 1;
      if !ok {
        EntriesGrow(f, items, i, count);
        EmittedShort(a, stream.Snap(), Spec.EncEntries(f, items, i), Spec.EncEntries(f, items, count));
        return;
      }
    }
    ok := true;
  }

  /** The size of a packed array, computed or found by a sizing pass. */
  method PackedSize(f: Field, items: seq<Value>, count: nat) returns (ok: bool, size: nat)
    requires FieldOk(f) && BuiltField(f) && MaxField(f) < TWO64 && count <= |items|
    ensures ok <==> Spec.EncItems(f, items, count).Some?
    ensures ok ==> size == |Spec.EncItems(f, items, count).value|
    decreases f, 2
  {
    if f.ltype.LFixed32? {
      FixedItemsSize(f, items, count);
      ok, size := true, 4 * count;
    } else if f.ltype.LFixed64? {
      FixedItemsSize(f, items, count);
      ok, size := true, 8 * count;
    } else {
      var sizing := new OStream.SizingStream();
      ok := EncodeItems(sizing, f, items, count);
      size := sizing.written;
    }
  }

  /** The length and the entries of a packed array, or only their size. */
  method EncodePackedBody(stream: OStream, f: Field, items: seq<Value>, count: nat, size: nat) returns (ok: bool)
    requires FieldOk(f) && BuiltField(f) && MaxField(f) < TWO64 && stream.Valid() && count <= |items|
    requires Spec.EncItems(f, items, count).Some? && |Spec.EncItems(f, items, count).value| == size < TWO64
    modifies stream, stream.buf
    ensures stream.Valid()
    ensures Emitted(old(stream.Snap()), stream.Snap(), Some(EncSized(Spec.EncItems(f, items, count).value)), ok)
    decreases f, 2
  {
    ghost var a, e := stream.Snap(), Spec.EncItems(f, items, count);
    ok := stream.EncodeVarint(size);
    ghost var b := stream.Snap();
    if !ok {
      EmittedNot(a, b, Some(EncVarint(size)), e);
      return;
    }
    if stream.buf == null {
      ok := stream.Count(size);
    } else {
      ok := EncodeItems(stream, f, items, count);
    }
    EmittedThen(a, b, stream.Snap(), EncVarint(size), e, ok);
  }

  /** encode_array for the packable types. */
  method EncodePacked(stream: OStream, f: Field, items: seq<Value>, count: nat) returns (ok: bool)
    requires FieldOk(f) && BuiltField(f) && MaxField(f) < TWO64 && stream.Valid()
    requires f.htype.Repeated? && Packable(f.ltype) && 0 < count <= f.arraySize == |items|
    modifies stream, stream.buf
    ensures stream.Valid() && Emitted(old(stream.Snap()), stream.Snap(), Spec.EncArray(f, items, count), ok)
    decreases f, 3
  {
    ghost var a, key := stream.Snap(), EncTag(WT_STRING, f.tag);
    ok := stream.EncodeTag(WT_STRING, f.tag);
    ghost var b := stream.Snap();
    if !ok {
      ghost var e := Spec.EncItems(f, items, count);
      EmittedNot(a, b, Some(key), if e.None? then None else Some(EncSized(e.value)));
      return;
    }
    var size: nat;
    ok, size := PackedSize(f, items, count);
    if !ok {
      EmittedStop(a, b, key);
      return;
    }
    PackedBound(f, items, count);
    ghost var body := EncSized(Spec.EncItems(f, items, count).value);
    ok := EncodePackedBody(stream, f, items, count, size);
    EmittedThen(a, b, stream.Snap(), key, Some(body), ok);
  }

  /** encode_array */
  method EncodeArray(stream: OStream, f: Field, items: seq<Value>, count: nat) returns (ok: bool)
    requires FieldOk(f) && BuiltField(f) && MaxField(f) < TWO64 && stream.Valid()
    requires f.htype.Repeated? && |items| == f.arraySize
    modifies stream, stream.buf
    ensures stream.Valid() && Emitted(old(stream.Snap()), stream.Snap(), Spec.EncArray(f, items, count), ok)
    decreases f, 4
  {
    if count == 0 {
      EmitNothing(stream.Snap());
      ok := true;
    } else if count > f.arraySize {
      ok := false;
    } else if Packable(f.ltype) {
      ok := EncodePacked(stream, f, items, count);
    } else {
      ok := EncodeEntries(stream, f, items, count);
    }
  }

  // ---------------------------------------------------------------- fields and messages

  /** encode_basic_field */
  method EncodeField(stream: OStream, f: Field, slot: Slot) returns (ok: bool)
    requires FieldOk(f) && BuiltField(f) && MaxField(f) < TWO64 && stream.Valid() && |slot.items| == Cells(f)
    modifies stream, stream.buf
    ensures stream.Valid() && Emitted(old(stream.Snap()), stream.Snap(), Spec.EncField(f, slot), ok)
    decreases f, 5
  {
    EmitNothing(stream.Snap());
    var implicitHas := true;
    if f.sizeOffset == 0 && f.htype.Optional? {
      var isDefault := CheckDefault(f, slot);
      implicitHas := !isDefault;
    }
    match f.htype {
      case Required =>
        ok := EncodeTagged(stream, f, slot.items[0]);
      case Optional =>
        ok := true;
        if (if f.sizeOffset != 0 then slot.size != 0 else implicitHas) {
          ok := EncodeTagged(stream, f, slot.items[0]);
        }
      case Repeated =>
        ok := EncodeArray(stream, f, slot.items, if f.sizeOffset != 0 then slot.size else f.arraySize);
      case Oneof =>
        ok := true;
        if slot.size == f.tag {
          ok := EncodeTagged(stream, f, slot.items[0]);
        }
    }
  }

  /** Writing one more field after the first `k`. */
  lemma FieldThen(a: Out, b: Out, c: Out, fields: seq<Field>, m: Msg, k: nat, ok: bool)
    requires Wf(fields) && Shaped(fields, m) && k < |fields|
    requires Emitted(a, b, Spec.EncUpTo(fields, k, m), true)
    requires Emitted(b, c, Spec.EncField(fields[k], m.slots[fields[k].at]), ok)
    ensures ok ==> Emitted(a, c, Spec.EncUpTo(fields, k + 1, m), true)
    ensures !ok ==> Emitted(a, c, Spec.Enc(fields, m), false)
  {
    EmittedThen(a, b, c, Spec.EncUpTo(fields, k, m).value, Spec.EncField(fields[k], m.slots[fields[k].at]), ok);
    if !ok {
      UpToGrow(fields, m, k + 1, |fields|);
      EmittedShort(a, c, Spec.EncUpTo(fields, k + 1, m), Spec.Enc(fields, m));
    }
  }

  /** encode_field for field `i`, after the fields before it were written from `a` on. */
  method EncodeNth(stream: OStream, fields: seq<Field>, m: Msg, i: nat, slot: Slot, ghost a: Out) returns (ok: bool)
    requires Built(fields) && Shaped(fields, m) && Sizeable(fields) && stream.Valid() && i < |fields|
    requires slot == m.slots[fields[i].at]
    requires Emitted(a, stream.Snap(), Spec.EncUpTo(fields, i, m), true)
    modifies stream, stream.buf
    ensures stream.Valid()
    ensures ok ==> Emitted(a, stream.Snap(), Spec.EncUpTo(fields, i + 1, m), true)
    ensures !ok ==> Emitted(a, stream.Snap(), Spec.Enc(fields, m), false)
    decreases fields, |fields|
  {
    var f := fields[i];
    assert BuiltField(f);
    MaxUpToMonotone(fields, i, |fields|);
    ghost var b := stream.Snap();
    ok := EncodeField(stream, f, slot);
    FieldThen(a, b, stream.Snap(), fields, m, i, ok);
  }

  /** pb_encode */
  method Encode(stream: OStream, fields: seq<Field>, m: Msg) returns (ok: bool)
    requires Built(fields) && Shaped(fields, m) && Sizeable(fields) && stream.Valid()
    modifies stream, stream.buf
    ensures stream.Valid() && Emitted(old(stream.Snap()), stream.Snap(), Spec.Enc(fields, m), ok)
    decreases fields, |fields| + 1
  {
    ghost var a := stream.Snap();
    EmitNothing(a);
    var iter := new FieldIter(fields);
    var more := iter.Begin();
    if !more {
      return true;
    }
    while true
      invariant iter.Valid() && iter.fields == fields && fresh(iter)
      invariant stream.Valid() && Emitted(a, stream.Snap(), Spec.EncUpTo(fields, iter.pos, m), true)
      decreases |fields| - iter.pos
    {
      ok := EncodeNth(stream, fields, m, iter.pos, m.slots[iter.pData], a);
      if !ok {
        return;
      }
      more := iter.Next();
      if !more {
        return true;
      }
    }
  }

  /** pb_encode_delimited */
  method EncodeDelimited(stream: OStream, fields: seq<Field>, m: Msg) returns (ok: bool)
    requires Built(fields) && Shaped(fields, m) && Sizeable(fields) && stream.Valid()
    modifies stream, stream.buf
    ensures stream.Valid() && Emitted(old(stream.Snap()), stream.Snap(), Spec.EncDelimited(fields, m), ok)
  {
    ok := EncodeSubmessage(stream, fields, m);
  }

  /** pb_encode_nullterminated */
  method EncodeNullTerminated(stream: OStream, fields: seq<Field>, m: Msg) returns (ok: bool)
    requires Built(fields) && Shaped(fields, m) && Sizeable(fields) && stream.Valid()
    modifies stream, stream.buf
    ensures stream.Valid() && Emitted(old(stream.Snap()), stream.Snap(), Append(Spec.Enc(fields, m), Some([0])), ok)
  {
    ghost var a, e := stream.Snap(), Spec.Enc(fields, m);
    ok := Encode(stream, fields, m);
    ghost var b := stream.Snap();
    if !ok {
      EmittedNot(a, b, e, Some([0]));
      return;
    }
    ok := stream.Write([0]);
    EmittedThen(a, b, stream.Snap(), e.value, Some([0]), ok);
  }

  /** pb_get_encoded_size */
  method GetEncodedSize(fields: seq<Field>, m: Msg) returns (ok: bool, size: nat)
    requires Built(fields) && Shaped(fields, m) && Sizeable(fields)
    ensures ok <==> Spec.Enc(fields, m).Some?
    ensures ok ==> size == |Spec.Enc(fields, m).value|
  {
    var stream := new OStream.SizingStream();
    ok := Encode(stream, fields, m);
    size := stream.written;
  }
}
