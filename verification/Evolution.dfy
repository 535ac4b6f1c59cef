/**
  Messages between versions of a schema: a reader skips exactly what the encoder wrote for a
  field the reader does not have, and a field the sender does not have reads as absent.
 */
module Evolution {
  import opened Prelude
  import opened Bits
  import opened Wire
  import Scalars
  import opened Descriptor
  import opened DecodeSpec
  import opened EncodeSpec
  import opened Observe
  import opened Merge
  import opened ValueTrip
  import opened RoundTrip
  import opened Framing

  lemma {:induction false} SkipsVarint(v: nat, t: Bytes)
    ensures SkipVarint(EncVarint(v) + t) == Some(t)
    decreases v
  {
    EncVarintHead(v, t);
    if v >= 128 {
      SkipsVarint(v / 128, t);
    }
  }

  lemma SkipsSized(bs: Bytes, t: Bytes)
    requires |bs| < TWO32
    ensures SkipString(EncSized(bs) + t) == Some(t)
  {
    SizedTrip(bs, t);
    SplitAt(bs, t);
  }

  /** pb_skip_field skips exactly what the encoder writes for a value of any type. */
  lemma SkipsValue(f: Field, v: Value, t: Bytes)
    requires FieldOk(f) && EncValue(f, v).Some? && ShortValue(f, v)
    ensures Skip(WireTypeOf(f.ltype), EncValue(f, v).value + t) == Some(t)
  {
    var e := EncValue(f, v).value;
    if f.ltype.LFixed32? || f.ltype.LFixed64? {
      SplitAt(e, t);
    } else if Packable(f.ltype) {
      var n := AsNum(v);
      SkipsVarint(if f.ltype.LBool? then (if n != 0 then 1 else 0)
                  else if f.ltype.LSVarint? then Scalars.ZigZag(Scalars.CastSigned(n, 8)) else ToU64(n), t);
    } else if f.ltype.LSubmessage? {
      SkipsSized(Enc(f.ptr.fields, AsMsg(f.ptr.fields, v)).value, t);
    } else if f.ltype.LBytes? {
      SkipsSized(AsBlob(v), t);
    } else {
      var b := AsBuffer(v, f.dataSize);
      SkipsSized(if f.ltype.LString? then b[..StrnLen(b, f.dataSize)] else b, t);
    }
  }

  predicate Unknown(fields: seq<Field>, tag: nat) {
    1 <= tag <= MAX_TAG && forall i :: 0 <= i < |fields| ==> fields[i].tag != tag
  }

  lemma SkipsOne(fields: seq<Field>, wireType: nat, tag: nat, payload: Bytes, st: DecState)
    requires Wf(fields) && StateOk(fields, st) && Unknown(fields, tag)
    requires wireType < 8 && Skip(wireType, payload + []) == Some([])
    ensures Loop(fields, EncTag(wireType, tag) + payload, st) == Drained(st)
  {
    EmptyRight(payload);
    TagRoundTrip(wireType, tag, payload);
    assert Step(fields, tag, wireType, payload, st) == Ok(st, []);
    assert Loop(fields, [], st) == Drained(st);
  }

  lemma {:induction false} SkipsEntries(fields: seq<Field>, g: Field, items: seq<Value>, n: nat, st: DecState)
    requires Wf(fields) && StateOk(fields, st) && FieldOk(g) && Unknown(fields, g.tag) && n <= |items|
    requires EncEntries(g, items, n).Some? && forall k :: 0 <= k < n ==> ShortValue(g, items[k])
    ensures Loop(fields, EncEntries(g, items, n).value, st) == Drained(st)
    decreases n
  {
    if n > 0 {
      var a, e := EncEntries(g, items, n - 1).value, EncTagged(g, items[n - 1]).value;
      SkipsEntries(fields, g, items, n - 1, st);
      SkipsValue(g, items[n - 1], []);
      SkipsOne(fields, WireTypeOf(g.ltype), g.tag, EncValue(g, items[n - 1]).value, st);
      LoopConcat(fields, a, e, st);
    }
  }

  /** Whatever the encoder writes for a field, a reader without the field passes over it. */
  lemma SkipsField(fields: seq<Field>, g: Field, slot: Slot, st: DecState)
    requires Wf(fields) && StateOk(fields, st) && FieldOk(g) && Unknown(fields, g.tag) && |slot.items| == Cells(g)
    requires EncField(g, slot).Some? && ShortSlot(g, slot)
    ensures Loop(fields, EncField(g, slot).value, st) == Drained(st)
  {
    var bs := EncField(g, slot).value;
    if bs == [] {
    } else if !g.htype.Repeated? {
      SkipsValue(g, slot.items[0], []);
      SkipsOne(fields, WireTypeOf(g.ltype), g.tag, EncValue(g, slot.items[0]).value, st);
    } else {
      var count := if g.sizeOffset != 0 then slot.size else g.arraySize;
      if Packable(g.ltype) {
        var e := EncItems(g, slot.items, count).value;
        SkipsSized(e, []);
        SkipsOne(fields, WT_STRING, g.tag, EncSized(e), st);
      } else {
        SkipsEntries(fields, g, slot.items, count, st);
      }
    }
  }

  // ---------------------------------------------------------------- two versions of a schema

  /**
    Walking both descriptors from the end: a field is either in both, or only the writer has
    it, or only the reader. So either side may have further fields, anywhere.
   */
  predicate Aligned(reader: seq<Field>, j: nat, writer: seq<Field>, k: nat)
    requires j <= |reader| && k <= |writer|
    decreases j + k
  {
    if j > 0 && k > 0 && reader[j - 1].tag == writer[k - 1].tag then Aligned(reader, j - 1, writer, k - 1)
    else if k > 0 && Unknown(reader, writer[k - 1].tag) then Aligned(reader, j, writer, k - 1)
    else if j > 0 then Unknown(writer, reader[j - 1].tag) && Aligned(reader, j - 1, writer, k)
    else k == 0
  }

  /** The same field in both versions: its type is kept, but a submessage may have changed inside. */
  predicate SameField(f: Field, g: Field)
    decreases g
  {
    && f.tag == g.tag && f.ltype == g.ltype && f.htype == g.htype && f.arraySize == g.arraySize
    && (f.sizeOffset == 0 <==> g.sizeOffset == 0)
    && if f.ltype.LSubmessage? then f.ptr.Fields? && g.ptr.Fields? && Versions(f.ptr.fields, g.ptr.fields)
       else f.dataSize == g.dataSize
  }

  /** A field found in both versions is the same field. */
  predicate Kept(reader: seq<Field>, j: nat, writer: seq<Field>, k: nat)
    requires j < |reader| && k < |writer|
    decreases writer, 0
  {
    reader[j].tag == writer[k].tag ==> SameField(reader[j], writer[k])
  }

  /** Two versions of a message, which may differ in fields at any depth, and in layout. */
  predicate Versions(reader: seq<Field>, writer: seq<Field>)
    decreases writer, 1
  {
    && Aligned(reader, |reader|, writer, |writer|)
    && (forall j, k :: 0 <= j < |reader| && 0 <= k < |writer| ==> Kept(reader, j, writer, k))
  }

  // ---------------------------------------------------------------- one struct in both versions

  predicate CarriesValue(f: Field, x: Value, g: Field, y: Value)
    requires FieldOk(f) && FieldOk(g) && SameField(f, g)
    decreases g, 0
  {
    if f.ltype.LSubmessage? then Carries(f.ptr.fields, AsMsg(f.ptr.fields, x), g.ptr.fields, AsMsg(g.ptr.fields, y))
    else x == y
  }

  predicate CarriesSlot(f: Field, a: Slot, g: Field, b: Slot)
    requires FieldOk(f) && FieldOk(g) && SameField(f, g) && |a.items| == |b.items| == Cells(f)
    decreases g, 1
  {
    match f.htype
    case Required => CarriesValue(f, a.items[0], g, b.items[0])
    case Optional =>
      if f.sizeOffset == 0 then CarriesValue(f, a.items[0], g, b.items[0])
      else (a.size != 0 <==> b.size != 0) && (a.size != 0 ==> CarriesValue(f, a.items[0], g, b.items[0]))
    case Repeated =>
      (FixedCount(f) || a.size == b.size)
      && forall k :: 0 <= k < Live(f, a.size) ==> CarriesValue(f, a.items[k], g, b.items[k])
    case Oneof =>
      (a.size == f.tag <==> b.size == f.tag) && (a.size == f.tag ==> CarriesValue(f, a.items[0], g, b.items[0]))
  }

  /** A field found in both versions holds the same in both structs. */
  predicate CarriesField(reader: seq<Field>, j: nat, m: Msg, writer: seq<Field>, k: nat, w: Msg)
    requires Wf(reader) && Wf(writer) && Shaped(reader, m) && Shaped(writer, w)
    requires j < |reader| && k < |writer| && Kept(reader, j, writer, k)
    decreases writer, 0
  {
    reader[j].tag == writer[k].tag ==>
      CarriesSlot(reader[j], m.slots[reader[j].at], writer[k], w.slots[writer[k].at])
  }

  /** `m`, in the reader's version, is what `w` in the writer's says: what `w` lacks is absent. */
  predicate Carries(reader: seq<Field>, m: Msg, writer: seq<Field>, w: Msg)
    requires Wf(reader) && Wf(writer) && Versions(reader, writer) && Shaped(reader, m) && Shaped(writer, w)
    decreases writer, 1
  {
    && (forall j, k :: 0 <= j < |reader| && 0 <= k < |writer| && Kept(reader, j, writer, k) ==>
          CarriesField(reader, j, m, writer, k, w))
    && (forall j :: 0 <= j < |reader| && Unknown(writer, reader[j].tag) ==>
          EncField(reader[j], m.slots[reader[j].at]) == Some([]))
  }

  // ---------------------------------------------------------------- fields that are no submessages

  lemma EncValueKept(f: Field, g: Field, v: Value)
    requires FieldOk(f) && FieldOk(g) && SameField(f, g) && !f.ltype.LSubmessage?
    ensures EncValue(f, v) == EncValue(g, v) && IsZero(f, v) == IsZero(g, v) && KeyOf(f) == KeyOf(g)
  {
  }

  lemma {:induction false} EncItemsKept(f: Field, a: seq<Value>, g: Field, b: seq<Value>, n: nat)
    requires FieldOk(f) && FieldOk(g) && SameField(f, g) && !f.ltype.LSubmessage? && n <= |a| == |b|
    requires forall k :: 0 <= k < n ==> a[k] == b[k]
    ensures EncItems(f, a, n) == EncItems(g, b, n) && EncEntries(f, a, n) == EncEntries(g, b, n)
    decreases n
  {
    if n > 0 {
      EncItemsKept(f, a, g, b, n - 1);
      EncValueKept(f, g, a[n - 1]);
    }
  }

  lemma EncFieldKept(f: Field, a: Slot, g: Field, b: Slot)
    requires FieldOk(f) && FieldOk(g) && SameField(f, g) && |a.items| == |b.items| == Cells(f)
    requires !f.ltype.LSubmessage? && CarriesSlot(f, a, g, b)
    ensures EncField(f, a) == EncField(g, b)
  {
    if f.htype.Repeated? {
      if Entries(f, a) <= f.arraySize {
        EncItemsKept(f, a.items, g, b.items, Entries(f, a));
      }
    } else {
      EncValueKept(f, g, a.items[0]);
    }
  }

  // ---------------------------------------------------------------- one submessage for another

  lemma DefaultFieldIsEmpty(f: Field, slot: Slot)
    requires FieldOk(f) && |slot.items| == Cells(f) && IsDefault(f, slot)
    ensures EncField(f, slot) == Some([])
  {
  }

  lemma {:induction false} DefaultIsEmpty(fields: seq<Field>, k: nat, m: Msg)
    requires Wf(fields) && Shaped(fields, m) && AllDefault(fields, m) && k <= |fields|
    ensures EncUpTo(fields, k, m) == Some([])
    decreases k
  {
    if k > 0 {
      DefaultIsEmpty(fields, k - 1, m);
      assert IsDefault(fields[k - 1], m.slots[fields[k - 1].at]);
      DefaultFieldIsEmpty(fields[k - 1], m.slots[fields[k - 1].at]);
    }
  }

  /** The reader's loop ends alike on two payloads of one field that are decoded alike. */
  lemma SwapPayload(fields: seq<Field>, i: nat, wireType: nat, p: Bytes, q: Bytes, st: DecState)
    requires Wf(fields) && StateOk(fields, st) && i < |fields| && FieldOk(fields[i]) && wireType < 8
    requires Enter(fields, i, st).Some? ==>
               var slot := st.msg.slots[fields[i].at];
               var count := CountOf(fields[i], Enter(fields, i, st).value, slot);
               && DecField(fields[i], wireType, p, slot, count) == DecField(fields[i], wireType, q, slot, count)
    ensures Loop(fields, EncTag(wireType, fields[i].tag) + p, st) == Loop(fields, EncTag(wireType, fields[i].tag) + q, st)
  {
    TagRoundTrip(wireType, fields[i].tag, p);
    TagRoundTrip(wireType, fields[i].tag, q);
    FindDistinct(fields, i);
    assert Step(fields, fields[i].tag, wireType, p, st) == Step(fields, fields[i].tag, wireType, q, st);
  }

  /** Two payloads the decoder of a submessage treats alike, starting from defaults. */
  predicate Alike(fields: seq<Field>, x: Bytes, y: Bytes, d: Msg)
    requires Wf(fields) && Shaped(fields, d)
  {
    && |x| < TWO32 && |y| < TWO32
    && Loop(fields, x, Start(SetDefaults(fields, d))) == Loop(fields, y, Start(SetDefaults(fields, d)))
  }

  /** What one submessage on its own decodes to. */
  function SubResult(f: Field, x: Bytes, prior: Value): Parse<Value>
    requires FieldOk(f) && f.ltype.LSubmessage?
  {
    var m := AsMsg(f.ptr.fields, prior);
    match if f.htype.Repeated? then Decode(f.ptr.fields, x, m) else DecodeNoinit(f.ptr.fields, x, m)
    case Fail => Fail
    case Ok(m', _) => Ok(Sub(m'), [])
  }

  lemma SubDecodes(f: Field, x: Bytes, prior: Value)
    requires FieldOk(f) && f.ltype.LSubmessage? && |x| < TWO32
    ensures DecValue(f, EncSized(x), prior) == SubResult(f, x, prior)
  {
    SizedTrip(x, []);
    EmptyRight(EncSized(x));
    EmptyRight(x);
    TakeAll(x);
  }

  lemma AlikeDecodes(f: Field, x: Bytes, y: Bytes, d: Msg, prior: Value)
    requires FieldOk(f) && f.ltype.LSubmessage? && Shaped(f.ptr.fields, d) && Alike(f.ptr.fields, x, y, d)
    requires if f.htype.Repeated? then AsMsg(f.ptr.fields, prior) == d
             else prior == Sub(SetDefaults(f.ptr.fields, d))
    ensures DecValue(f, EncSized(x), prior) == DecValue(f, EncSized(y), prior)
  {
    SubDecodes(f, x, prior);
    SubDecodes(f, y, prior);
    assert DecodeNoinit(f.ptr.fields, x, SetDefaults(f.ptr.fields, d))
        == DecodeNoinit(f.ptr.fields, y, SetDefaults(f.ptr.fields, d));
  }

  // ---------------------------------------------------------------- the induction

  /** A member in both versions that the round trip holds for. */
  predicate Pair(f: Field, a: Slot, g: Field, b: Slot)
    decreases g
  {
    && FieldOk(f) && FieldOk(g) && SameField(f, g) && PlainField(f)
    && |a.items| == |b.items| == Cells(f) && CarriesSlot(f, a, g, b)
    && SlotOk(f, a) && ShortSlot(f, a) && ShortSlot(g, b) && EncField(f, a).Some? && EncField(g, b).Some?
  }

  /** A submessage of the writer is decoded like the reader's version of it. */
  lemma {:induction false} SubAlike(f: Field, x: Value, g: Field, y: Value, d: Msg)
    requires FieldOk(f) && FieldOk(g) && SameField(f, g) && PlainField(f) && f.ltype.LSubmessage?
    requires ValueOk(f, x) && ShortValue(f, x) && ShortValue(g, y) && EncValue(g, y).Some?
    requires CarriesValue(f, x, g, y) && Shaped(f.ptr.fields, d)
    ensures Enc(f.ptr.fields, x.msg).Some? && Enc(g.ptr.fields, AsMsg(g.ptr.fields, y)).Some?
    ensures Alike(f.ptr.fields, Enc(g.ptr.fields, AsMsg(g.ptr.fields, y)).value, Enc(f.ptr.fields, x.msg).value, d)
    decreases g, 0
  {
    MessageAlike(f.ptr.fields, x.msg, g.ptr.fields, AsMsg(g.ptr.fields, y), d);
  }

  /** A singular submessage that has not arrived yet holds its defaults. */
  lemma Defaulted(reader: seq<Field>, j: nat, m: Msg, d: Msg, st: DecState)
    requires Wf(reader) && Shaped(reader, m) && Shaped(reader, d) && StateOk(reader, st) && j < |reader|
    requires Progress(reader, j, m, d, st) && FieldOk(reader[j])
    requires reader[j].ltype.LSubmessage? && (reader[j].htype.Required? || reader[j].htype.Optional?)
    ensures var f := reader[j];
            st.msg.slots[f.at].items == [Sub(SetDefaults(f.ptr.fields, AsMsg(f.ptr.fields, d.slots[f.at].items[0])))]
  {
    var f := reader[j];
    assert FieldProgress(reader, j, j, m, d, st.msg);
    assert st.msg.slots[f.at] == DefaultSlot(f, d.slots[f.at]);
    assert DefaultSlot(f, d.slots[f.at]).items == [DefaultValue(f, d.slots[f.at].items[0])];
  }

  /** A singular submessage that both versions of the struct hold. */
  lemma {:induction false} SingleAlike(reader: seq<Field>, j: nat, m: Msg, g: Field, b: Slot, d: Msg, st: DecState)
    requires Wf(reader) && Shaped(reader, m) && Shaped(reader, d) && StateOk(reader, st) && j < |reader|
    requires Progress(reader, j, m, d, st) && Pair(reader[j], m.slots[reader[j].at], g, b)
    requires reader[j].ltype.LSubmessage? && !reader[j].htype.Repeated?
    requires EncField(reader[j], m.slots[reader[j].at]) != Some([]) && EncField(g, b) != Some([])
    ensures Loop(reader, EncField(g, b).value, st) == Loop(reader, EncField(reader[j], m.slots[reader[j].at]).value, st)
    decreases g, 1
  {
    var f := reader[j];
    var a, slot := m.slots[f.at], st.msg.slots[f.at];
    var fs := f.ptr.fields;
    if !f.htype.Oneof? {
      Defaulted(reader, j, m, d, st);
    }
    var y := if f.htype.Oneof? then Zero(fs) else AsMsg(fs, d.slots[f.at].items[0]);
    var prior := Sub(SetDefaults(fs, y));
    SubAlike(f, a.items[0], g, b.items[0], y);
    var p, q := EncValue(g, b.items[0]).value, EncValue(f, a.items[0]).value;
    AlikeDecodes(f, Enc(g.ptr.fields, AsMsg(g.ptr.fields, b.items[0])).value, Enc(fs, a.items[0].msg).value, y, prior);
    SwapPayload(reader, j, WireTypeOf(f.ltype), p, q, st);
  }

  lemma NothingDecodes(f: Field, x: Bytes, y: Msg)
    requires FieldOk(f) && f.ltype.LSubmessage? && !f.htype.Repeated? && |x| < TWO32 && Shaped(f.ptr.fields, y)
    requires Loop(f.ptr.fields, x, Start(SetDefaults(f.ptr.fields, y))) == Drained(Start(SetDefaults(f.ptr.fields, y)))
    requires AllRequiredSeen(f.ptr.fields, {})
    ensures var prior := Sub(SetDefaults(f.ptr.fields, y));
            DecValue(f, EncSized(x), prior) == Ok(prior, [])
  {
    SubDecodes(f, x, Sub(SetDefaults(f.ptr.fields, y)));
  }

  lemma NothingChanges(fields: seq<Field>, j: nat, st: DecState)
    requires Wf(fields) && StateOk(fields, st) && j < |fields| && fields[j].htype.Optional?
    ensures var slot := st.msg.slots[fields[j].at];
            && Enter(fields, j, st) == Some(st)
            && After(fields, j, st, st, Placed(slot, CountOf(fields[j], st, slot))) == st
  {
    assert st.msg.slots[fields[j].at := st.msg.slots[fields[j].at]] == st.msg.slots;
  }

  /** A submessage from which nothing is read leaves a defaulted member as it is. */
  lemma NothingInside(reader: seq<Field>, j: nat, m: Msg, d: Msg, x: Bytes, st: DecState)
    requires Wf(reader) && Shaped(reader, m) && Shaped(reader, d) && StateOk(reader, st) && j < |reader|
    requires Progress(reader, j, m, d, st) && FieldOk(reader[j]) && |x| < TWO32
    requires reader[j].ltype.LSubmessage? && reader[j].htype.Optional? && reader[j].sizeOffset == 0
    requires var fs, y := reader[j].ptr.fields, AsMsg(reader[j].ptr.fields, d.slots[reader[j].at].items[0]);
             Loop(fs, x, Start(SetDefaults(fs, y))) == Drained(Start(SetDefaults(fs, y)))
             && AllRequiredSeen(fs, {})
    ensures Loop(reader, KeyOf(reader[j]) + EncSized(x), st) == Drained(st)
  {
    var f := reader[j];
    var slot := st.msg.slots[f.at];
    Defaulted(reader, j, m, d, st);
    NothingDecodes(f, x, AsMsg(f.ptr.fields, d.slots[f.at].items[0]));
    NothingChanges(reader, j, st);
    OneField(reader, j, WireTypeOf(f.ltype), EncSized(x), st, st, Placed(slot, CountOf(f, st, slot)));
  }

  /** A proto3 singular field is left out only if it is zero. */
  lemma LeftOut(f: Field, slot: Slot)
    requires FieldOk(f) && f.htype.Optional? && f.sizeOffset == 0 && |slot.items| == 1
    ensures EncField(f, slot) == Some([]) ==> IsZero(f, slot.items[0])
    ensures EncField(f, slot) != Some([]) ==> EncField(f, slot) == EncTagged(f, slot.items[0])
  {
    assert |KeyOf(f)| >= 1 && EncTagged(f, slot.items[0]) != Some([]);
    assert EncField(f, slot) == if IsDefault(f, slot) then Some([]) else EncTagged(f, slot.items[0]);
    assert IsDefault(f, slot) == IsZero(f, slot.items[0]);
  }

  /** A proto3 singular submessage that one of the two encoders leaves out. */
  lemma {:induction false} UnevenAlike(reader: seq<Field>, j: nat, m: Msg, g: Field, b: Slot, d: Msg, st: DecState)
    requires Wf(reader) && Shaped(reader, m) && Shaped(reader, d) && StateOk(reader, st) && j < |reader|
    requires Progress(reader, j, m, d, st) && Pair(reader[j], m.slots[reader[j].at], g, b)
    requires reader[j].ltype.LSubmessage? && reader[j].htype.Optional? && reader[j].sizeOffset == 0
    requires EncField(reader[j], m.slots[reader[j].at]) == Some([]) || EncField(g, b) == Some([])
    ensures Loop(reader, EncField(g, b).value, st) == Loop(reader, EncField(reader[j], m.slots[reader[j].at]).value, st)
    decreases g, 1
  {
    var f := reader[j];
    var x, y := m.slots[f.at].items[0], b.items[0];
    var fs, gs := f.ptr.fields, g.ptr.fields;
    var v, w, dd := AsMsg(fs, x), AsMsg(gs, y), AsMsg(fs, d.slots[f.at].items[0]);
    LeftOut(f, m.slots[f.at]);
    LeftOut(g, b);
    if EncField(g, b) != Some([]) {
      DefaultIsEmpty(fs, |fs|, v);
      WholeShort(fs, v);
      SubAlike(f, x, g, y, dd);
      MsgTrip(fs, v, dd);
      NothingInside(reader, j, m, d, Enc(gs, w).value, st);
    } else if EncField(f, m.slots[f.at]) != Some([]) {
      DefaultIsEmpty(gs, |gs|, w);
      WholeShort(gs, w);
      SubAlike(f, x, g, y, dd);
      MsgTrip(fs, v, dd);
      NothingInside(reader, j, m, d, Enc(fs, v).value, st);
    }
  }

  /** Entries in both versions of an array of submessages. */
  predicate PairItems(f: Field, a: seq<Value>, g: Field, b: seq<Value>, n: nat)
    decreases g
  {
    && FieldOk(f) && FieldOk(g) && SameField(f, g) && PlainField(f)
    && f.htype.Repeated? && f.ltype.LSubmessage? && |a| == |b| == f.arraySize && n <= f.arraySize
    && (forall k :: 0 <= k < n ==>
          ValueOk(f, a[k]) && ShortValue(f, a[k]) && ShortValue(g, b[k]) && CarriesValue(f, a[k], g, b[k]))
    && EncEntries(f, a, n).Some? && EncEntries(g, b, n).Some?
  }

  lemma {:induction false} EntryAlike(reader: seq<Field>, j: nat, a: seq<Value>, g: Field, b: seq<Value>, n: nat, st: DecState)
    requires Wf(reader) && StateOk(reader, st) && j < |reader| && n > 0 && PairItems(reader[j], a, g, b, n)
    ensures Loop(reader, EncTagged(g, b[n - 1]).value, st) == Loop(reader, EncTagged(reader[j], a[n - 1]).value, st)
    decreases g, 1
  {
    var f := reader[j];
    var fs, gs := f.ptr.fields, g.ptr.fields;
    var x, y := a[n - 1], b[n - 1];
    assert EncEntries(f, a, n) == Append(EncEntries(f, a, n - 1), EncTagged(f, x));
    assert EncEntries(g, b, n) == Append(EncEntries(g, b, n - 1), EncTagged(g, y));
    if Enter(reader, j, st).Some? {
      var slot := st.msg.slots[f.at];
      var count := CountOf(f, Enter(reader, j, st).value, slot);
      if count < f.arraySize {
        var d := AsMsg(fs, slot.items[count]);
        SubAlike(f, x, g, y, d);
        AlikeDecodes(f, Enc(gs, AsMsg(gs, y)).value, Enc(fs, x.msg).value, d, slot.items[count]);
      }
    }
    SwapPayload(reader, j, WireTypeOf(f.ltype), EncValue(g, y).value, EncValue(f, x).value, st);
  }

  lemma PairItemsInit(f: Field, a: seq<Value>, g: Field, b: seq<Value>, n: nat)
    requires n > 0 && PairItems(f, a, g, b, n)
    ensures PairItems(f, a, g, b, n - 1)
    ensures EncEntries(f, a, n) == Some(EncEntries(f, a, n - 1).value + EncTagged(f, a[n - 1]).value)
    ensures EncEntries(g, b, n) == Some(EncEntries(g, b, n - 1).value + EncTagged(g, b[n - 1]).value)
  {
  }

  /** Two beginnings that lead to one state, and two ends the loop does the same with. */
  lemma SameEnd(fields: seq<Field>, x: Bytes, y: Bytes, u: Bytes, v: Bytes, st: DecState)
    requires Wf(fields) && StateOk(fields, st) && Loop(fields, x, st).Drained?
    requires Loop(fields, x, st) == Loop(fields, y, st)
    requires Loop(fields, u, Loop(fields, x, st).st) == Loop(fields, v, Loop(fields, x, st).st)
    ensures Loop(fields, x + u, st) == Loop(fields, y + v, st)
  {
    LoopConcat(fields, x, u, st);
    LoopConcat(fields, y, v, st);
  }

  lemma {:induction false} EntriesAlike(reader: seq<Field>, j: nat, a: Slot, g: Field, b: Slot, n: nat, st0: DecState)
    requires Wf(reader) && Plain(reader) && StateOk(reader, st0) && j < |reader|
    requires PairItems(reader[j], a.items, g, b.items, n)
    requires FixedComplete(reader, st0) && st0.fixedField != Some(j)
    requires !FixedCount(reader[j]) ==> st0.msg.slots[reader[j].at].size == 0
    ensures Loop(reader, EncEntries(g, b.items, n).value, st0) == Loop(reader, EncEntries(reader[j], a.items, n).value, st0)
    decreases g, 2, n
  {
    if n > 0 {
      var f := reader[j];
      PairItemsInit(f, a.items, g, b.items, n);
      EntriesAlike(reader, j, a, g, b, n - 1, st0);
      var mid := EntriesTrip(reader, j, n - 1, a, st0);
      EntryAlike(reader, j, a.items, g, b.items, n, mid);
      SameEnd(reader, EncEntries(g, b.items, n - 1).value, EncEntries(f, a.items, n - 1).value,
              EncTagged(g, b.items[n - 1]).value, EncTagged(f, a.items[n - 1]).value, st0);
    }
  }

  lemma PairArray(f: Field, a: Slot, g: Field, b: Slot)
    requires Pair(f, a, g, b) && f.htype.Repeated? && f.ltype.LSubmessage? && Entries(f, a) > 0
    ensures PairItems(f, a.items, g, b.items, Entries(f, a))
    ensures EncField(f, a) == EncEntries(f, a.items, Entries(f, a))
    ensures EncField(g, b) == EncEntries(g, b.items, Entries(f, a))
  {
    assert EncField(f, a) == EncArray(f, a.items, Entries(f, a));
    assert EncField(g, b) == EncArray(g, b.items, Entries(f, a));
  }

  /** The reader does the same with a field from either encoder. */
  lemma {:induction false} FieldAlike(reader: seq<Field>, j: nat, m: Msg, g: Field, b: Slot, d: Msg, st: DecState)
    requires Sendable(reader, m) && Shaped(reader, d) && StateOk(reader, st) && j < |reader|
    requires Progress(reader, j, m, d, st) && Pair(reader[j], m.slots[reader[j].at], g, b)
    ensures Loop(reader, EncField(g, b).value, st) == Loop(reader, EncField(reader[j], m.slots[reader[j].at]).value, st)
    decreases g, 3
  {
    var f := reader[j];
    var a := m.slots[f.at];
    if !f.ltype.LSubmessage? {
      EncFieldKept(f, a, g, b);
    } else if f.htype.Repeated? {
      assert FieldProgress(reader, j, j, m, d, st.msg);
      if Entries(f, a) > 0 {
        PairArray(f, a, g, b);
        EntriesAlike(reader, j, a, g, b, Entries(f, a), st);
      }
    } else if EncField(f, a) != Some([]) && EncField(g, b) != Some([]) {
      SingleAlike(reader, j, m, g, b, d, st);
    } else if f.htype.Optional? && f.sizeOffset == 0 {
      UnevenAlike(reader, j, m, g, b, d, st);
    }
  }

  /** What the writer's encoder needs. */
  predicate Writable(writer: seq<Field>, w: Msg) {
    Wf(writer) && Shaped(writer, w) && Short(writer, w) && Enc(writer, w).Some?
  }

  /** Both versions of a struct, and what the induction asks of them. */
  predicate Both(reader: seq<Field>, m: Msg, writer: seq<Field>, w: Msg) {
    && Sendable(reader, m) && Writable(writer, w) && Versions(reader, writer) && Carries(reader, m, writer, w)
  }

  lemma BothPair(reader: seq<Field>, j: nat, m: Msg, writer: seq<Field>, k: nat, w: Msg)
    requires Both(reader, m, writer, w) && j < |reader| && k < |writer| && reader[j].tag == writer[k].tag
    requires EncField(writer[k], w.slots[writer[k].at]).Some?
    ensures Pair(reader[j], m.slots[reader[j].at], writer[k], w.slots[writer[k].at])
  {
    assert Kept(reader, j, writer, k) && CarriesField(reader, j, m, writer, k, w);
    assert PlainField(reader[j]);
    FieldEncodes(reader[j], m.slots[reader[j].at]);
  }

  /** The reader is in the same state after its own first j fields and the writer's first k. */
  predicate ReadAlike(reader: seq<Field>, j: nat, m: Msg, writer: seq<Field>, k: nat, w: Msg, d: Msg, st: DecState)
    requires Wf(reader) && Shaped(reader, m) && Shaped(reader, d) && j <= |reader|
    requires Wf(writer) && Shaped(writer, w) && k <= |writer|
  {
    && PrefixRead(reader, j, m, d, st) && EncUpTo(writer, k, w).Some?
    && Loop(reader, EncUpTo(writer, k, w).value, Start(SetDefaults(reader, d))) == Drained(st)
  }

  lemma NothingAlike(reader: seq<Field>, m: Msg, writer: seq<Field>, w: Msg, d: Msg) returns (st: DecState)
    requires Wf(reader) && Shaped(reader, m) && Shaped(reader, d) && Wf(writer) && Shaped(writer, w)
    ensures ReadAlike(reader, 0, m, writer, 0, w, d, st)
  {
    st := Start(SetDefaults(reader, d));
    NothingRead(reader, m, d);
  }

  lemma {:induction false} PartWritten(writer: seq<Field>, k: nat, w: Msg)
    requires Writable(writer, w) && k <= |writer|
    ensures EncUpTo(writer, k, w).Some?
    decreases |writer| - k
  {
    if k < |writer| {
      PartWritten(writer, k + 1, w);
    }
  }

  lemma {:induction false} BothGoOn(reader: seq<Field>, j: nat, m: Msg, writer: seq<Field>, k: nat, w: Msg, d: Msg)
    returns (st: DecState)
    requires Both(reader, m, writer, w) && Shaped(reader, d) && j < |reader| && k < |writer|
    requires reader[j].tag == writer[k].tag
    requires Aligned(reader, j, writer, k)
    ensures ReadAlike(reader, j + 1, m, writer, k + 1, w, d, st)
    decreases writer, 1, j + k + 1, 0
  {
    var f, g := reader[j], writer[k];
    var mid := UpToAlike(reader, j, m, writer, k, w, d);
    var start := Start(SetDefaults(reader, d));
    assert g in writer;
    PrefixEncodes(reader, j + 1, m);
    PartWritten(writer, k + 1, w);
    st := PrefixGoesOn(reader, j, m, d, mid);
    BothPair(reader, j, m, writer, k, w);
    FieldAlike(reader, j, m, g, w.slots[g.at], d, mid);
    LoopConcat(reader, EncUpTo(writer, k, w).value, EncField(g, w.slots[g.at]).value, start);
    LoopConcat(reader, EncUpTo(reader, j, m).value, EncField(f, m.slots[f.at]).value, start);
  }

  lemma {:induction false} WriterGoesOn(reader: seq<Field>, j: nat, m: Msg, writer: seq<Field>, k: nat, w: Msg, d: Msg)
    returns (st: DecState)
    requires Both(reader, m, writer, w) && Shaped(reader, d) && j <= |reader| && k < |writer|
    requires Unknown(reader, writer[k].tag)
    requires Aligned(reader, j, writer, k)
    ensures ReadAlike(reader, j, m, writer, k + 1, w, d, st)
    decreases writer, 1, j + k + 1, 0
  {
    var g := writer[k];
    PartWritten(writer, k + 1, w);
    st := UpToAlike(reader, j, m, writer, k, w, d);
    SkipsField(reader, g, w.slots[g.at], st);
    LoopConcat(reader, EncUpTo(writer, k, w).value, EncField(g, w.slots[g.at]).value, Start(SetDefaults(reader, d)));
  }

  lemma {:induction false} ReaderGoesOn(reader: seq<Field>, j: nat, m: Msg, writer: seq<Field>, k: nat, w: Msg, d: Msg)
    returns (st: DecState)
    requires Both(reader, m, writer, w) && Shaped(reader, d) && j < |reader| && k <= |writer|
    requires Unknown(writer, reader[j].tag)
    requires Aligned(reader, j, writer, k)
    ensures ReadAlike(reader, j + 1, m, writer, k, w, d, st)
    decreases writer, 1, j + k + 1, 0
  {
    var mid := UpToAlike(reader, j, m, writer, k, w, d);
    assert EncField(reader[j], m.slots[reader[j].at]) == Some([]);
    PrefixEncodes(reader, j + 1, m);
    st := PrefixGoesOn(reader, j, m, d, mid);
    EmptyRight(EncUpTo(reader, j, m).value);
  }

  lemma {:induction false} UpToAlike(reader: seq<Field>, j: nat, m: Msg, writer: seq<Field>, k: nat, w: Msg, d: Msg)
    returns (st: DecState)
    requires Both(reader, m, writer, w) && Shaped(reader, d) && j <= |reader| && k <= |writer|
    requires Aligned(reader, j, writer, k)
    ensures ReadAlike(reader, j, m, writer, k, w, d, st)
    decreases writer, 1, j + k, 1
  {
    if j > 0 && k > 0 && reader[j - 1].tag == writer[k - 1].tag {
      st := BothGoOn(reader, j - 1, m, writer, k - 1, w, d);
    } else if k > 0 && Unknown(reader, writer[k - 1].tag) {
      st := WriterGoesOn(reader, j, m, writer, k - 1, w, d);
    } else if j > 0 {
      st := ReaderGoesOn(reader, j - 1, m, writer, k, w, d);
    } else {
      st := NothingAlike(reader, m, writer, w, d);
    }
  }

  /** To the reader the writer's message is its own version of it. */
  lemma {:induction false} MessageAlike(reader: seq<Field>, m: Msg, writer: seq<Field>, w: Msg, d: Msg)
    requires Both(reader, m, writer, w) && Shaped(reader, d)
    ensures Enc(reader, m).Some?
    ensures Loop(reader, Enc(writer, w).value, Start(SetDefaults(reader, d)))
         == Loop(reader, Enc(reader, m).value, Start(SetDefaults(reader, d)))
    decreases writer, 2
  {
    var st := UpToAlike(reader, |reader|, m, writer, |writer|, w, d);
  }

  // ---------------------------------------------------------------- reading another version

  /**
    Whichever fields either version has more, at any depth: the reader decodes what the
    writer encoded, uses all of it, and reads the writer's values in the fields they share
    and nothing in those the writer does not have.
   */
  lemma ReadsOtherVersion(reader: seq<Field>, m: Msg, writer: seq<Field>, w: Msg, d: Msg)
    requires Both(reader, m, writer, w) && Shaped(reader, d)
    ensures var p := Decode(reader, Enc(writer, w).value, d);
            p.Ok? && p.rest == [] && SameMsg(reader, m, p.value, false)
  {
    MessageAlike(reader, m, writer, w, d);
    MsgTrip(reader, m, d);
  }

  // ---------------------------------------------------------------- a field more at the top

  lemma {:induction false} SameFieldRefl(f: Field)
    requires FieldOk(f)
    ensures SameField(f, f)
    decreases f
  {
    if f.ltype.LSubmessage? {
      VersionsRefl(f.ptr.fields);
    }
  }

  lemma {:induction false} AlignedBelow(a: seq<Field>, b: seq<Field>, k: nat)
    requires k <= |a| && k <= |b| && forall j :: 0 <= j < k ==> a[j].tag == b[j].tag
    ensures Aligned(a, k, b, k)
    decreases k
  {
    if k > 0 {
      AlignedBelow(a, b, k - 1);
    }
  }

  lemma {:induction false} VersionsRefl(fields: seq<Field>)
    requires Wf(fields)
    ensures Versions(fields, fields)
    decreases fields
  {
    AlignedBelow(fields, fields, |fields|);
    forall j, k | 0 <= j < |fields| && 0 <= k < |fields|
      ensures Kept(fields, j, fields, k)
    {
      SameFieldRefl(fields[j]);
    }
  }

  lemma {:induction false} CarriesValueRefl(f: Field, x: Value)
    requires FieldOk(f) && SameField(f, f)
    ensures CarriesValue(f, x, f, x)
    decreases f, 0
  {
    if f.ltype.LSubmessage? {
      CarriesRefl(f.ptr.fields, AsMsg(f.ptr.fields, x));
    }
  }

  lemma {:induction false} CarriesSlotRefl(f: Field, a: Slot)
    requires FieldOk(f) && SameField(f, f) && |a.items| == Cells(f)
    ensures CarriesSlot(f, a, f, a)
    decreases f, 1
  {
    forall k | 0 <= k < |a.items|
      ensures CarriesValue(f, a.items[k], f, a.items[k])
    {
      CarriesValueRefl(f, a.items[k]);
    }
  }

  lemma {:induction false} CarriesRefl(fields: seq<Field>, m: Msg)
    requires Wf(fields) && Versions(fields, fields) && Shaped(fields, m)
    ensures Carries(fields, m, fields, m)
    decreases fields
  {
    forall j, k | 0 <= j < |fields| && 0 <= k < |fields| && Kept(fields, j, fields, k)
      ensures CarriesField(fields, j, m, fields, k, m)
    {
      assert Kept(fields, j, fields, j);
      CarriesSlotRefl(fields[j], m.slots[fields[j].at]);
    }
  }

  /** The descriptor with a further field at position i. */
  function Inserted(fields: seq<Field>, i: nat, g: Field): (r: seq<Field>)
    requires i <= |fields|
    ensures |r| == |fields| + 1 && r[i] == g
    ensures forall j :: 0 <= j < i ==> r[j] == fields[j]
    ensures forall j :: i <= j < |fields| ==> r[j + 1] == fields[j]
  {
    fields[..i] + [g] + fields[i..]
  }

  /** Both descriptors are well formed and describe the struct. */
  predicate Grown(fields: seq<Field>, i: nat, g: Field, m: Msg) {
    && i <= |fields| && Wf(fields) && Wf(Inserted(fields, i, g)) && FieldOk(g)
    && Shaped(fields, m) && Shaped(Inserted(fields, i, g), m)
    && g.at in m.slots && |m.slots[g.at].items| == Cells(g)
  }

  /** Where a field of the larger descriptor stands in the smaller one. */
  lemma InsertedAt(fields: seq<Field>, i: nat, g: Field, k: nat)
    requires i <= |fields| && k <= |fields|
    ensures Inserted(fields, i, g)[k] == if k == i then g else fields[if k < i then k else k - 1]
  {
    if k > i {
      var j := k - 1;
      assert Inserted(fields, i, g)[j + 1] == fields[j];
    }
  }

  lemma UnknownIn(fields: seq<Field>, i: nat, g: Field)
    requires i <= |fields| && Wf(Inserted(fields, i, g)) && FieldOk(g)
    ensures Unknown(fields, g.tag)
  {
    var newer := Inserted(fields, i, g);
    forall j | 0 <= j < |fields|
      ensures fields[j].tag != g.tag
    {
      assert newer[i] == g && newer[if j < i then j else j + 1] == fields[j];
    }
  }

  lemma {:induction false} AlignedInserted(fields: seq<Field>, i: nat, g: Field, k: nat)
    requires i <= k <= |fields| && Unknown(fields, g.tag)
    ensures Aligned(fields, k, Inserted(fields, i, g), k + 1)
    ensures Aligned(Inserted(fields, i, g), k + 1, fields, k)
    decreases k
  {
    var newer := Inserted(fields, i, g);
    InsertedAt(fields, i, g, k);
    if k > i {
      AlignedInserted(fields, i, g, k - 1);
    } else {
      AlignedBelow(fields, newer, k);
      AlignedBelow(newer, fields, k);
      assert k > 0 ==> newer[k - 1] == fields[k - 1] && fields[k - 1].tag != g.tag;
    }
  }

  /** Tags are distinct, so a tag in both descriptors is the tag of one field. */
  lemma SharedField(fields: seq<Field>, i: nat, g: Field, j: nat, k: nat)
    requires i <= |fields| && Unknown(fields, g.tag)
    requires forall x, y :: 0 <= x < y < |fields| ==> fields[x].tag != fields[y].tag
    requires j < |fields| && k <= |fields| && fields[j].tag == Inserted(fields, i, g)[k].tag
    ensures fields[j] == Inserted(fields, i, g)[k]
  {
    InsertedAt(fields, i, g, k);
  }

  /** A descriptor and the same with a field more are two versions. */
  lemma GrownVersions(fields: seq<Field>, i: nat, g: Field)
    requires i <= |fields| && Wf(fields) && Wf(Inserted(fields, i, g)) && FieldOk(g)
    ensures Versions(fields, Inserted(fields, i, g)) && Versions(Inserted(fields, i, g), fields)
  {
    var newer := Inserted(fields, i, g);
    UnknownIn(fields, i, g);
    AlignedInserted(fields, i, g, |fields|);
    forall j, k | 0 <= j < |fields| && 0 <= k < |newer|
      ensures Kept(fields, j, newer, k) && Kept(newer, k, fields, j)
    {
      if fields[j].tag == newer[k].tag {
        SharedField(fields, i, g, j, k);
        SameFieldRefl(fields[j]);
      }
    }
  }

  lemma SharedCarried(fields: seq<Field>, i: nat, g: Field, m: Msg, j: nat, k: nat)
    requires Grown(fields, i, g, m)
    requires j < |fields| && k <= |fields| && fields[j].tag == Inserted(fields, i, g)[k].tag
    ensures fields[j] == Inserted(fields, i, g)[k] && FieldOk(fields[j]) && SameField(fields[j], fields[j])
    ensures CarriesSlot(fields[j], m.slots[fields[j].at], fields[j], m.slots[fields[j].at])
  {
    UnknownIn(fields, i, g);
    SharedField(fields, i, g, j, k);
    SameFieldRefl(fields[j]);
    CarriesSlotRefl(fields[j], m.slots[fields[j].at]);
  }

  /** And one struct serves both. */
  lemma GrownCarries(fields: seq<Field>, i: nat, g: Field, m: Msg)
    requires Grown(fields, i, g, m) && Versions(fields, Inserted(fields, i, g)) && Versions(Inserted(fields, i, g), fields)
    ensures Carries(fields, m, Inserted(fields, i, g), m)
    ensures EncField(g, m.slots[g.at]) == Some([]) ==> Carries(Inserted(fields, i, g), m, fields, m)
  {
    var newer := Inserted(fields, i, g);
    forall j, k | 0 <= j < |fields| && 0 <= k < |newer| && Kept(fields, j, newer, k) && Kept(newer, k, fields, j)
      ensures CarriesField(fields, j, m, newer, k, m) && CarriesField(newer, k, m, fields, j, m)
    {
      if fields[j].tag == newer[k].tag {
        SharedCarried(fields, i, g, m, j, k);
      }
    }
    forall j | 0 <= j < |fields| ensures !Unknown(newer, fields[j].tag) {
      assert newer[if j < i then j else j + 1] == fields[j];
    }
    forall k | 0 <= k < |newer| && Unknown(fields, newer[k].tag) ensures newer[k] == g {
      InsertedAt(fields, i, g, k);
    }
  }

  lemma {:induction false} AllEncode(fields: seq<Field>, k: nat, m: Msg)
    requires Wf(fields) && Shaped(fields, m) && k <= |fields|
    requires forall i :: 0 <= i < k ==> EncField(fields[i], m.slots[fields[i].at]).Some?
    ensures EncUpTo(fields, k, m).Some?
    decreases k
  {
    if k > 0 {
      AllEncode(fields, k - 1, m);
      assert fields[k - 1] in fields;
    }
  }

  /** If one of the two encodings exists and has short parts, so does the other. */
  lemma GrownWritable(fields: seq<Field>, i: nat, g: Field, m: Msg)
    requires Grown(fields, i, g, m) && EncField(g, m.slots[g.at]).Some? && ShortSlot(g, m.slots[g.at])
    ensures MsgOk(fields, m) && Short(fields, m) ==> Writable(Inserted(fields, i, g), m)
    ensures MsgOk(Inserted(fields, i, g), m) && Short(Inserted(fields, i, g), m) ==> Writable(fields, m)
  {
    var newer := Inserted(fields, i, g);
    forall k | 0 <= k < |newer|
      ensures newer[k] == if k == i then g else fields[if k < i then k else k - 1]
    {
      InsertedAt(fields, i, g, k);
    }
    if MsgOk(fields, m) && Short(fields, m) {
      forall k | 0 <= k < |newer|
        ensures EncField(newer[k], m.slots[newer[k].at]).Some? && ShortSlot(newer[k], m.slots[newer[k].at])
      {
        if k != i {
          var f := fields[if k < i then k else k - 1];
          FieldEncodes(f, m.slots[f.at]);
        }
      }
      AllEncode(newer, |newer|, m);
    }
    if MsgOk(newer, m) && Short(newer, m) {
      forall j | 0 <= j < |fields|
        ensures EncField(fields[j], m.slots[fields[j].at]).Some? && ShortSlot(fields[j], m.slots[fields[j].at])
      {
        assert newer[if j < i then j else j + 1] == fields[j];
        FieldEncodes(fields[j], m.slots[fields[j].at]);
      }
      AllEncode(fields, |fields|, m);
    }
  }

  /**
    A reader that does not know a new field yet, wherever it stands in the descriptor: it
    decodes what a newer encoder wrote, uses all of it, and its own members read the same.
   */
  lemma OlderReader(fields: seq<Field>, i: nat, g: Field, m: Msg, d: Msg)
    requires Grown(fields, i, g, m) && Sendable(fields, m) && Shaped(fields, d)
    requires EncField(g, m.slots[g.at]).Some? && ShortSlot(g, m.slots[g.at])
    ensures Enc(Inserted(fields, i, g), m).Some?
    ensures var p := Decode(fields, Enc(Inserted(fields, i, g), m).value, d);
            p.Ok? && p.rest == [] && SameMsg(fields, m, p.value, false)
  {
    GrownVersions(fields, i, g);
    GrownCarries(fields, i, g, m);
    GrownWritable(fields, i, g, m);
    ReadsOtherVersion(fields, m, Inserted(fields, i, g), m, d);
  }

  /** A reader that knows a field the sender does not have finds it absent. */
  lemma NewerReader(fields: seq<Field>, i: nat, g: Field, m: Msg, d: Msg)
    requires Grown(fields, i, g, m) && Sendable(Inserted(fields, i, g), m) && Shaped(Inserted(fields, i, g), d)
    requires EncField(g, m.slots[g.at]) == Some([])
    ensures Enc(fields, m).Some?
    ensures var p := Decode(Inserted(fields, i, g), Enc(fields, m).value, d);
            p.Ok? && p.rest == [] && SameMsg(Inserted(fields, i, g), m, p.value, false)
  {
    GrownVersions(fields, i, g);
    GrownCarries(fields, i, g, m);
    assert Inserted(fields, i, g)[i] == g;
    GrownWritable(fields, i, g, m);
    ReadsOtherVersion(Inserted(fields, i, g), m, fields, m, d);
  }
}
