/**
  pb_decode.c: the field decoders, decode_static_field and the message decoders, each
  proved to do what the function of the same purpose in DecodeSpec says. A struct is passed
  in and handed back as a value; the stream and the iterator are updated in place.

  A call that fails leaves the stream valid; where it stopped is not specified.
 */
module Decoder {
  import opened Prelude
  import opened Bits
  import opened Wire
  import opened Scalars
  import opened Descriptor
  import opened FieldIterator
  import opened InputStream
  import opened RequiredFields
  import Spec = DecodeSpec

  // ---------------------------------------------------------------- default contents

  /** pb_field_set_to_default for a statically allocated field. */
  method FieldSetToDefault(f: Field, slot: Slot) returns (r: Slot)
    requires FieldOk(f) && BuiltField(f) && |slot.items| == Cells(f)
    ensures r == DefaultSlot(f, slot)
    decreases f, 0
  {
    r := slot;
    var initData := true;
    if f.htype.Optional? && f.sizeOffset != 0 {
      r := Slot(0, r.items);
    } else if f.htype.Repeated? || f.htype.Oneof? {
      if f.sizeOffset != 0 {
        r := Slot(0, r.items);
      } else {
        // the size pointer is the data pointer
        r := Slot(r.size, WipeItems(f, r.items, SIZE_WIDTH));
      }
      initData := false;
    }
    if initData {
      if f.ltype.LSubmessage? {
        var m := SetToDefaults(f.ptr.fields, AsMsg(f.ptr.fields, r.items[0]));
        r := Slot(r.size, [Sub(m)]);
      } else if f.ptr.Default? {
        r := Slot(r.size, [f.ptr.value]);
      } else {
        r := Slot(r.size, [ZeroValue(f)]);
      }
    }
  }

  /** pb_message_set_to_defaults */
  method SetToDefaults(fields: seq<Field>, m: Msg) returns (r: Msg)
    requires Built(fields) && Shaped(fields, m)
    ensures r == SetDefaults(fields, m)
    decreases fields, 1
  {
    r := m;
    var iter := new FieldIter(fields);
    var more := iter.Begin();
    if !more {
      return;
    }
    ghost var k: nat := 0;
    while true
      invariant iter.Valid() && iter.fields == fields && fresh(iter) && k < |fields| && iter.pos == k
      invariant r == DefaultsUpTo(fields, k, m)
      decreases |fields| - k
    {
      var f := fields[iter.pos];
      assert BuiltField(f);
      var slot := FieldSetToDefault(f, r.slots[iter.pData]);
      r := Msg(r.slots[iter.pData := slot]);
      more := iter.Next();
      k := k + 1;
      if !more {
        break;
      }
    }
  }

  // ---------------------------------------------------------------- field decoders

  /** pb_dec_bool, pb_dec_varint, pb_dec_uvarint, pb_dec_svarint, pb_dec_fixed32, pb_dec_fixed64 */
  method DecodeNumber(stream: IStream, f: Field) returns (ok: bool, v: Value)
    requires Packable(f.ltype) && stream.Valid()
    modifies stream
    ensures stream.Valid() && stream.End() <= old(stream.End()) && (ok ==> stream.End() == old(stream.End()))
    ensures ok <==> Spec.DecNumber(f, old(stream.Rem())).Ok?
    ensures ok ==> Ok(v, stream.Rem()) == Spec.DecNumber(f, old(stream.Rem()))
  {
    ok, v := false, Num(0);
    if f.ltype.LBool? {
      var read, value, _ := stream.DecodeVarint32();
      ok, v := read, Num(if value != 0 then 1 else 0);
    } else if f.ltype.LFixed32? || f.ltype.LFixed64? {
      var read, bs := stream.Read(if f.ltype.LFixed32? then 4 else 8);
      ok, v := read, Num(FromLE(bs));
    } else {
      var read, value := stream.DecodeVarint();
      if !read {
        return false, v;
      }
      var stored := if f.ltype.LVarint? then StoreSigned(value, f.dataSize)
                    else if f.ltype.LUVarint? then StoreUnsigned(value, f.dataSize)
                    else StoreZigZag(value, f.dataSize);
      if stored.Some? {
        ok, v := true, Num(stored.value);
      }
    }
  }

  /** The size check before a blob is read, with the room for the size member or the NUL. */
  method CheckRoom(f: Field, size: nat) returns (ok: bool)
    requires size < TWO32 && f.dataSize <= PB_SIZE_MAX
    ensures ok <==> Spec.Fits(f, size)
  {
    if f.ltype.LBytes? {
      ok := size + BYTES_HEADER <= f.dataSize;
    } else if f.ltype.LString? {
      // 32-bit arithmetic: the terminator wraps the largest size to zero
      var allocSize := if size + 1 == TWO32 then 0 else size + 1;
      ok := allocSize >= size && allocSize <= f.dataSize;
    } else {
      ok := size == f.dataSize;
    }
  }

  /** pb_dec_bytes, pb_dec_string and pb_dec_fixed_length_bytes */
  method DecodeBlob(stream: IStream, f: Field, prior: Value) returns (ok: bool, v: Value)
    requires FieldOk(f) && (f.ltype.LBytes? || f.ltype.LString? || f.ltype.LFixedBytes?) && stream.Valid()
    modifies stream
    ensures stream.Valid() && stream.End() <= old(stream.End()) && (ok ==> stream.End() == old(stream.End()))
    ensures ok <==> Spec.DecBlob(f, old(stream.Rem()), prior).Ok?
    ensures ok ==> Ok(v, stream.Rem()) == Spec.DecBlob(f, old(stream.Rem()), prior)
  {
    v := prior;
    var read, size, _ := stream.DecodeVarint32();
    if !read {
      return false, v;
    }
    if f.ltype.LFixedBytes? && size == 0 {
      return true, Blob(Zeros(f.dataSize));
    }
    var fits := CheckRoom(f, size);
    if !fits {
      return false, v;
    }
    var bs: Bytes;
    ok, bs := stream.Read(size);
    if ok {
      v := Spec.BlobOf(f, bs, prior);
    }
  }

  /** The choice pb_dec_submessage makes: array entries are initialised first. */
  method DecodeInto(sub: IStream, f: Field, m: Msg) returns (ok: bool, r: Msg)
    requires FieldOk(f) && BuiltField(f) && f.ltype.LSubmessage? && sub.Valid() && Shaped(f.ptr.fields, m)
    modifies sub
    ensures sub.Valid() && sub.End() <= old(sub.End()) && (ok ==> sub.End() == old(sub.End()))
    ensures var p := if f.htype.Repeated? then Spec.Decode(f.ptr.fields, old(sub.Rem()), m)
                     else Spec.DecodeNoinit(f.ptr.fields, old(sub.Rem()), m);
            (ok <==> p.Ok?) && (ok ==> r == p.value)
    decreases sub.bytesLeft, 9
  {
    if f.htype.Repeated? {
      ok, r := Decode(sub, f.ptr.fields, m);
    } else {
      ok, r := DecodeNoinit(sub, f.ptr.fields, m);
    }
  }

  /** pb_dec_submessage */
  method DecodeSubmessage(stream: IStream, f: Field, prior: Value) returns (ok: bool, v: Value)
    requires FieldOk(f) && BuiltField(f) && f.ltype.LSubmessage? && stream.Valid()
    modifies stream
    ensures stream.Valid() && stream.End() <= old(stream.End()) && (ok ==> stream.End() == old(stream.End()))
    ensures ok <==> Spec.DecSubmessage(f, old(stream.Rem()), prior).Ok?
    ensures ok ==> Ok(v, stream.Rem()) == Spec.DecSubmessage(f, old(stream.Rem()), prior)
    decreases stream.bytesLeft, 1
  {
    v := prior;
    var made, sub := stream.MakeSubstream();
    if !made {
      return false, v;
    }
    ghost var rest := stream.After(sub.End());
    var m: Msg;
    ok, m := DecodeInto(sub, f, AsMsg(f.ptr.fields, prior));
    assert ok ==> stream.After(sub.End()) == rest;
    var closed := stream.CloseSubstream(sub);
    v := Sub(m);
  }

  /** The PB_DECODERS table. */
  method DecodeValue(stream: IStream, f: Field, prior: Value) returns (ok: bool, v: Value)
    requires FieldOk(f) && BuiltField(f) && stream.Valid()
    modifies stream
    ensures stream.Valid() && stream.End() <= old(stream.End()) && (ok ==> stream.End() == old(stream.End()))
    ensures ok <==> Spec.DecValue(f, old(stream.Rem()), prior).Ok?
    ensures ok ==> Ok(v, stream.Rem()) == Spec.DecValue(f, old(stream.Rem()), prior)
    decreases stream.bytesLeft, 2
  {
    if Packable(f.ltype) {
      ok, v := DecodeNumber(stream, f);
    } else if f.ltype.LSubmessage? {
      ok, v := DecodeSubmessage(stream, f, prior);
    } else {
      ok, v := DecodeBlob(stream, f, prior);
    }
  }

  // ---------------------------------------------------------------- one field

  /** The loop over the substream of a packed array. */
  method FillPacked(sub: IStream, f: Field, items0: seq<Value>, count0: nat)
    returns (status: bool, items: seq<Value>, count: nat)
    requires Packable(f.ltype) && sub.Valid() && |items0| == f.arraySize
    modifies sub
    ensures sub.Valid() && sub.End() <= old(sub.End()) && (status ==> sub.End() == old(sub.End()))
    ensures |items| == f.arraySize
    ensures match Spec.PackedLoop(f, old(sub.Rem()), items0, count0)
            case PackedFail => !status
            case PackedOk(x, n, left) => status && items == x && count == n && sub.Rem() == left
  {
    status, items, count := true, items0, count0;
    ghost var goal := Spec.PackedLoop(f, sub.Rem(), items, count);
    while sub.bytesLeft > 0 && count < f.arraySize
      invariant sub.Valid() && sub.End() == old(sub.End()) && |items| == f.arraySize
      invariant Spec.PackedLoop(f, sub.Rem(), items, count) == goal
      decreases sub.bytesLeft
    {
      var read, v := DecodeNumber(sub, f);
      if !read {
        return false, items, count;
      }
      items := items[count := v];
      count := count + 1;
    }
  }

  /** The packed branch of decode_static_field. */
  method DecodePacked(stream: IStream, f: Field, items0: seq<Value>, count0: nat)
    returns (ok: bool, items: seq<Value>, count: nat)
    requires Packable(f.ltype) && stream.Valid()
    requires |items0| == f.arraySize
    modifies stream
    ensures stream.Valid() && stream.End() <= old(stream.End()) && (ok ==> stream.End() == old(stream.End()))
    ensures |items| == f.arraySize
    ensures var l := DecVarint32(old(stream.Rem()));
            if !l.Ok? || l.value > |l.rest| then !ok
            else
              var r := Spec.PackedLoop(f, l.rest[..l.value], items0, count0);
              && (ok <==> r.PackedOk? && r.rest == [])
              && (ok ==> items == r.items && count == r.count && stream.Rem() == l.rest[l.value..])
  {
    ok, items, count := false, items0, count0;
    var made, sub := stream.MakeSubstream();
    if !made {
      return;
    }
    ghost var rest := stream.After(sub.End());
    var status: bool;
    status, items, count := FillPacked(sub, f, items, count);
    if sub.bytesLeft != 0 {
      return;
    }
    assert status ==> stream.After(sub.End()) == rest;
    var closed := stream.CloseSubstream(sub);
    ok := status;
  }

  /**
    decode_static_field. `count` is the entry count of an array, from the struct or from
    the decoder's fixed-count counter.
   */
  method DecodeStaticField(stream: IStream, f: Field, wireType: nat, slot: Slot, count: nat)
    returns (ok: bool, r: Slot, n: nat)
    requires FieldOk(f) && BuiltField(f) && |slot.items| == Cells(f) && stream.Valid()
    modifies stream
    ensures stream.Valid() && stream.End() <= old(stream.End()) && (ok ==> stream.End() == old(stream.End()))
    ensures ok <==> Spec.DecField(f, wireType, old(stream.Rem()), slot, count).Ok?
    ensures ok ==> Ok(Spec.Placed(r, n), stream.Rem()) == Spec.DecField(f, wireType, old(stream.Rem()), slot, count)
    decreases stream.bytesLeft, 3
  {
    r, n := slot, count;
    var v: Value;
    match f.htype {
      case Required =>
        ok, v := DecodeValue(stream, f, slot.items[0]);
        r := Slot(r.size, [v]);
      case Optional =>
        if f.sizeOffset != 0 {
          r := Slot(1, r.items);
        }
        ok, v := DecodeValue(stream, f, slot.items[0]);
        r := Slot(r.size, [v]);
      case Oneof =>
        r := Slot(f.tag, r.items);
        var prior := slot.items[0];
        if f.ltype.LSubmessage? {
          var m := SetToDefaults(f.ptr.fields, Zero(f.ptr.fields));
          prior := Sub(m);
        }
        ok, v := DecodeValue(stream, f, prior);
        r := Slot(r.size, [v]);
      case Repeated =>
        if wireType == WT_STRING && Packable(f.ltype) {
          var items: seq<Value>;
          ok, items, n := DecodePacked(stream, f, slot.items, count);
          r := Slot(if FixedCount(f) then r.size else n, items);
        } else {
          n := count + 1;
          if count >= f.arraySize {
            return false, r, n;
          }
          ok, v := DecodeValue(stream, f, slot.items[count]);
          r := Slot(if FixedCount(f) then r.size else n, slot.items[count := v]);
        }
    }
  }

  // ---------------------------------------------------------------- the message decoder

  /** The locals of pb_decode_noinit agree with a state of the specification. */
  ghost predicate Matching(fields: seq<Field>, iter: FieldIter, r: Msg, words: seq<nat>,
                           fixedField: Option<nat>, fixedCount: nat, st: Spec.DecState)
    requires Wf(fields) && Spec.StateOk(fields, st)
    reads iter
  {
    && iter.fields == fields && iter.Valid()
    && (iter.SizeInStruct() || st.fixedField == Some(iter.pos))
    && r == st.msg && fixedField == st.fixedField && fixedCount == st.fixedCount
    && BitmapOf(words, st.seen)
    && (forall k :: k in st.seen ==> k < MAX_REQUIRED_FIELDS && k < RequiredBefore(fields, |fields|))
  }

  /**
    What pb_decode_noinit does with a field it found before decoding it: it picks the entry
    counter of a fixed-count array and marks a required field as seen.
   */
  method EnterField(fields: seq<Field>, iter: FieldIter, words: seq<nat>,
                    fixedField: Option<nat>, fixedCount: nat, ghost st: Spec.DecState)
    returns (ok: bool, words': seq<nat>, fixedField': Option<nat>, fixedCount': nat)
    requires Built(fields) && fields != [] && Spec.StateOk(fields, st)
    requires Matching(fields, iter, st.msg, words, fixedField, fixedCount, st)
    modifies iter`pSize
    ensures ok <==> Spec.Enter(fields, iter.pos, st).Some?
    ensures ok ==> Matching(fields, iter, st.msg, words', fixedField', fixedCount', Spec.Enter(fields, iter.pos, st).value)
    ensures ok ==> (iter.pSize == FixedCounter <==> FixedCount(fields[iter.pos]))
  {
    var f := fields[iter.pos];
    words', fixedField', fixedCount' := words, fixedField, fixedCount;
    if f.htype.Repeated? && iter.pSize == InStruct(iter.pData) {
      if fixedField != Some(iter.pos) {
        if fixedField.Some? && fixedCount != fields[fixedField.value].arraySize {
          return false, words', fixedField', fixedCount';
        }
        fixedField' := Some(iter.pos);
        fixedCount' := 0;
      }
      iter.pSize := FixedCounter;
    }
    if f.htype.Required? && iter.requiredIndex < MAX_REQUIRED_FIELDS {
      RequiredMonotone(fields, iter.pos, |fields|);
      words' := Mark(words, iter.requiredIndex, st.seen);
    }
    ok := true;
  }

  /** The body of the loop in pb_decode_noinit once the iterator stands on the field. */
  method DecodeFound(stream: IStream, fields: seq<Field>, iter: FieldIter, wireType: nat,
                     m: Msg, words: seq<nat>, fixedField: Option<nat>, fixedCount: nat, ghost st: Spec.DecState)
    returns (ok: bool, m': Msg, words': seq<nat>, fixedField': Option<nat>, fixedCount': nat, ghost st': Spec.DecState)
    requires Built(fields) && fields != [] && stream.Valid() && Spec.StateOk(fields, st)
    requires Matching(fields, iter, m, words, fixedField, fixedCount, st)
    modifies stream, iter`pSize
    ensures stream.Valid() && stream.End() <= old(stream.End()) && (ok ==> stream.End() == old(stream.End()))
    ensures ok <==> Spec.StepFound(fields, iter.pos, wireType, old(stream.Rem()), st).Ok?
    ensures ok ==> Spec.StateOk(fields, st') && Matching(fields, iter, m', words', fixedField', fixedCount', st')
                   && Ok(st', stream.Rem()) == Spec.StepFound(fields, iter.pos, wireType, old(stream.Rem()), st)
    decreases stream.bytesLeft, 4
  {
    var f := fields[iter.pos];
    assert BuiltField(f) && FieldOk(f);
    m', st' := m, st;
    ok, words', fixedField', fixedCount' := EnterField(fields, iter, words, fixedField, fixedCount, st);
    if !ok {
      return;
    }
    ghost var st1 := Spec.Enter(fields, iter.pos, st).value;
    var slot := m.slots[iter.pData];
    var local := iter.pSize == FixedCounter;
    var placed, n := slot, 0;
    ok, placed, n := DecodeStaticField(stream, f, wireType, slot, if local then fixedCount' else slot.size);
    if !ok {
      return;
    }
    m' := Msg(m.slots[iter.pData := placed]);
    if local {
      fixedCount' := n;
    }
    st' := st1.(msg := m', fixedCount := fixedCount');
  }

  // ---------------------------------------------------------------- after the loop

  /** Having seen every tracked index is having seen every tracked field. */
  lemma SeenAll(fields: seq<Field>, seen: set<nat>, count: nat)
    requires count == (if RequiredBefore(fields, |fields|) > MAX_REQUIRED_FIELDS then MAX_REQUIRED_FIELDS
                       else RequiredBefore(fields, |fields|))
    ensures RangeSeen(seen, 0, count) <==> Spec.AllRequiredSeen(fields, seen)
  {
    if RangeSeen(seen, 0, count) {
      forall i | 0 <= i < |fields| && Spec.Tracked(fields, i)
        ensures RequiredBefore(fields, i) in seen
      {
        RequiredMonotone(fields, i, |fields|);
      }
    }
    if Spec.AllRequiredSeen(fields, seen) {
      forall k: nat | 0 <= k < count
        ensures k in seen
      {
        var i := RequiredOnto(fields, |fields|, k);
        assert Spec.Tracked(fields, i);
      }
    }
  }

  /**
    The number of required fields, found by walking the iterator to the end of the
    descriptor; the last field is added if it is required itself.
   */
  method CountRequiredFields(iter: FieldIter) returns (count: nat)
    requires Laid(iter.fields) && iter.Valid()
    modifies iter
    ensures count == RequiredBefore(iter.fields, |iter.fields|)
  {
    var fields := iter.fields;
    var last := Required;
    var n := iter.requiredIndex;
    while true
      invariant iter.Valid() && iter.fields == fields
      decreases |fields| - iter.pos
    {
      n := iter.requiredIndex;
      ghost var at := iter.pos;
      last := if fields == [] then Required else fields[iter.pos].htype;
      var more := iter.Next();
      if !more {
        assert fields != [] ==> at == |fields| - 1;
        break;
      }
    }
    count := n;
    if last.Required? && fields != [] {
      count := count + 1;
    }
  }

  /** The checks of pb_decode_noinit after its loop. */
  method CheckComplete(fields: seq<Field>, iter: FieldIter, words: seq<nat>,
                       fixedField: Option<nat>, fixedCount: nat, ghost st: Spec.DecState) returns (ok: bool)
    requires Built(fields) && Spec.StateOk(fields, st) && iter.fields == fields && iter.Valid()
    requires fixedField == st.fixedField && fixedCount == st.fixedCount
    requires BitmapOf(words, st.seen)
    requires forall k :: k in st.seen ==> k < MAX_REQUIRED_FIELDS && k < RequiredBefore(fields, |fields|)
    modifies iter
    ensures ok <==> Spec.FixedComplete(fields, st) && Spec.AllRequiredSeen(fields, st.seen)
  {
    if fixedField.Some? && fixedCount != fields[fixedField.value].arraySize {
      return false;
    }
    var count := CountRequiredFields(iter);
    if count > MAX_REQUIRED_FIELDS {
      count := MAX_REQUIRED_FIELDS;
    }
    SeenAll(fields, st.seen, count);
    ok := AllSeen(words, count, st.seen);
  }

  // ---------------------------------------------------------------- whole messages

  /** pb_decode_noinit of a message without fields: the terminator entry answers to tag 0. */
  method DecodeEmpty(stream: IStream, m: Msg) returns (ok: bool)
    requires stream.Valid()
    modifies stream
    ensures stream.Valid() && stream.End() <= old(stream.End()) && (ok ==> stream.End() == old(stream.End()))
    ensures ok <==> Spec.DecodeNoinit([], old(stream.Rem()), m).Ok?
    ensures ok ==> Ok(m, stream.Rem()) == Spec.DecodeNoinit([], old(stream.Rem()), m)
  {
    var iter := new FieldIter([]);
    ghost var st := Spec.Start(m);
    ghost var goal := Spec.Loop([], stream.Rem(), st);
    while stream.bytesLeft > 0
      invariant stream.Valid() && stream.End() == old(stream.End())
      invariant iter.Valid() && iter.fields == [] && fresh(iter)
      invariant Spec.Loop([], stream.Rem(), st) == goal
      decreases stream.bytesLeft
    {
      var tagged, eof, wireType, tag := stream.DecodeTag();
      if !tagged {
        return eof;
      }
      var found := iter.FindTag(tag);
      if found {
        // PB_LAST_FIELD reads as a required bool
        var read, _, _ := stream.DecodeVarint32();
        if !read {
          return false;
        }
      } else {
        var skipped := stream.SkipField(wireType);
        if !skipped {
          return false;
        }
      }
    }
    return true;
  }

  lemma FindUnique(fields: seq<Field>, i: nat, tag: nat)
    requires Wf(fields) && i < |fields| && fields[i].tag == tag
    ensures Spec.Find(fields, tag) == Some(i)
  {
    assert forall j :: 0 <= j < |fields| && j != i ==> fields[j].tag != tag;
  }

  lemma FindNone(fields: seq<Field>, tag: nat)
    requires Wf(fields) && forall i :: 0 <= i < |fields| ==> !Matches(fields[i], tag)
    ensures Spec.Find(fields, tag).None?
  {
    forall i | 0 <= i < |fields|
      ensures fields[i].tag != tag
    {
      assert FieldOk(fields[i]);
    }
  }

  /** One turn of the loop in pb_decode_noinit; `ended` is the break at a zero tag. */
  method DecodeNext(stream: IStream, fields: seq<Field>, iter: FieldIter,
                    m: Msg, words: seq<nat>, fixedField: Option<nat>, fixedCount: nat, ghost st: Spec.DecState)
    returns (ok: bool, ended: bool, m': Msg, words': seq<nat>, fixedField': Option<nat>, fixedCount': nat,
             ghost st': Spec.DecState)
    requires Built(fields) && fields != [] && stream.Valid() && stream.bytesLeft > 0 && Spec.StateOk(fields, st)
    requires Matching(fields, iter, m, words, fixedField, fixedCount, st)
    modifies stream, iter
    ensures stream.Valid() && stream.End() <= old(stream.End()) && (ok ==> stream.End() == old(stream.End()))
    ensures ok ==> Spec.StateOk(fields, st') && Matching(fields, iter, m', words', fixedField', fixedCount', st')
    ensures match DecTag(old(stream.Rem()))
            case TagFail => !ok
            case TagEnd(rest) => ok && ended && st' == st && stream.Rem() == rest
            case Tagged(tag, wireType, rest) =>
              var p := Spec.Step(fields, tag, wireType, rest, st);
              (ok <==> p.Ok?) && (ok ==> !ended && Ok(st', stream.Rem()) == p)
    decreases stream.bytesLeft, 5
  {
    ok, ended := true, false;
    m', words', fixedField', fixedCount', st' := m, words, fixedField, fixedCount, st;
    var tagged, eof, wireType, tag := stream.DecodeTag();
    if !tagged {
      ok, ended := eof, true;
      return;
    }
    var found := iter.FindTag(tag);
    if !found {
      FindNone(fields, tag);
      ok := stream.SkipField(wireType);
    } else {
      FindUnique(fields, iter.pos, tag);
      ok, m', words', fixedField', fixedCount', st' :=
        DecodeFound(stream, fields, iter, wireType, m, words, fixedField, fixedCount, st);
    }
  }

  /** pb_decode_noinit of a message with fields. */
  method DecodeFields(stream: IStream, fields: seq<Field>, m: Msg) returns (ok: bool, r: Msg)
    requires Built(fields) && fields != [] && Shaped(fields, m) && stream.Valid()
    modifies stream
    ensures stream.Valid() && stream.End() <= old(stream.End()) && (ok ==> stream.End() == old(stream.End()))
    ensures ok <==> Spec.DecodeNoinit(fields, old(stream.Rem()), m).Ok?
    ensures ok ==> Ok(r, stream.Rem()) == Spec.DecodeNoinit(fields, old(stream.Rem()), m)
    decreases stream.bytesLeft, 6
  {
    r := m;
    var words: seq<nat> := [0, 0];
    var fixedField: Option<nat>, fixedCount: nat := None, 0;
    var iter := new FieldIter(fields);
    ghost var st := Spec.Start(m);
    ghost var goal := Spec.Loop(fields, stream.Rem(), st);
    EmptyBitmap();
    var ended := false;
    while stream.bytesLeft > 0 && !ended
      invariant stream.Valid() && stream.End() == old(stream.End())
      invariant stream.bytesLeft <= old(stream.bytesLeft)
      invariant fresh(iter) && Spec.StateOk(fields, st)
      invariant Matching(fields, iter, r, words, fixedField, fixedCount, st)
      invariant if ended then goal == Spec.Stopped(st, stream.Rem())
                else Spec.Loop(fields, stream.Rem(), st) == goal
      decreases stream.bytesLeft, !ended
    {
      var next: bool;
      next, ended, r, words, fixedField, fixedCount, st :=
        DecodeNext(stream, fields, iter, r, words, fixedField, fixedCount, st);
      if !next {
        return false, r;
      }
    }
    ok := CheckComplete(fields, iter, words, fixedField, fixedCount, st);
  }

  /** pb_decode_noinit */
  method DecodeNoinit(stream: IStream, fields: seq<Field>, m: Msg) returns (ok: bool, r: Msg)
    requires Built(fields) && Shaped(fields, m) && stream.Valid()
    modifies stream
    ensures stream.Valid() && stream.End() <= old(stream.End()) && (ok ==> stream.End() == old(stream.End()))
    ensures ok <==> Spec.DecodeNoinit(fields, old(stream.Rem()), m).Ok?
    ensures ok ==> Ok(r, stream.Rem()) == Spec.DecodeNoinit(fields, old(stream.Rem()), m)
    decreases stream.bytesLeft, 7
  {
    if fields == [] {
      r := m;
      ok := DecodeEmpty(stream, m);
    } else {
      ok, r := DecodeFields(stream, fields, m);
    }
  }

  /** pb_decode */
  method Decode(stream: IStream, fields: seq<Field>, m: Msg) returns (ok: bool, r: Msg)
    requires Built(fields) && Shaped(fields, m) && stream.Valid()
    modifies stream
    ensures stream.Valid() && stream.End() <= old(stream.End()) && (ok ==> stream.End() == old(stream.End()))
    ensures ok <==> Spec.Decode(fields, old(stream.Rem()), m).Ok?
    ensures ok ==> Ok(r, stream.Rem()) == Spec.Decode(fields, old(stream.Rem()), m)
    decreases stream.bytesLeft, 8
  {
    r := SetToDefaults(fields, m);
    ok, r := DecodeNoinit(stream, fields, r);
  }

  /** pb_decode_delimited */
  method DecodeDelimited(stream: IStream, fields: seq<Field>, m: Msg) returns (ok: bool, r: Msg)
    requires Built(fields) && Shaped(fields, m) && stream.Valid()
    modifies stream
    ensures stream.Valid() && stream.End() <= old(stream.End()) && (ok ==> stream.End() == old(stream.End()))
    ensures ok <==> Spec.DecodeDelimited(fields, old(stream.Rem()), m).Ok?
    ensures ok ==> Ok(r, stream.Rem()) == Spec.DecodeDelimited(fields, old(stream.Rem()), m)
  {
    r := m;
    var made, sub := stream.MakeSubstream();
    if !made {
      return false, r;
    }
    ghost var rest := stream.After(sub.End());
    ok, r := Decode(sub, fields, m);
    assert ok ==> stream.After(sub.End()) == rest;
    var closed := stream.CloseSubstream(sub);
  }
}
