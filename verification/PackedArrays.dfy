/**
  Packed and unpacked arrays are interchangeable: however a list of packable entries is
  cut into packed chunks and single entries, and whatever other fields lie in between, the
  decoder appends the same list. Arrays without a count member are counted in a local of
  the decoder.
 */
module PackedArrays {
  import opened Prelude
  import opened Bits
  import opened Wire
  import opened Descriptor
  import opened DecodeSpec
  import opened EncodeSpec
  import opened Merge
  import opened ValueTrip
  import opened RoundTrip
  import opened RequiredFields

  /** A stretch of a message: a packed chunk, a single tagged entry, or other fields. */
  datatype Delivery = Chunk(vals: seq<Value>) | Single(val: Value) | Other(bytes: Bytes)

  function Sent(d: Delivery): seq<Value> {
    match d
    case Chunk(vals) => vals
    case Single(v) => [v]
    case Other(_) => []
  }

  function AllSent(ds: seq<Delivery>): seq<Value> {
    if ds == [] then [] else Sent(ds[0]) + AllSent(ds[1..])
  }

  predicate DeliveryOk(f: Field, d: Delivery)
    requires FieldOk(f)
  {
    && (forall k :: 0 <= k < |Sent(d)| ==> ValueOk(f, Sent(d)[k]))
    && (d.Chunk? && EncItems(f, d.vals, |d.vals|).Some? ==> |EncItems(f, d.vals, |d.vals|).value| < TWO32)
  }

  function WireOf(f: Field, d: Delivery): Bytes
    requires FieldOk(f)
  {
    match d
    case Chunk(vals) =>
      (match EncItems(f, vals, |vals|)
       case Some(bs) => EncTag(WT_STRING, f.tag) + EncSized(bs)
       case None => [])
    case Single(v) =>
      (match EncValue(f, v)
       case Some(bs) => KeyOf(f) + bs
       case None => [])
    case Other(bs) => bs
  }

  function WireOfAll(f: Field, ds: seq<Delivery>): Bytes
    requires FieldOk(f)
  {
    if ds == [] then [] else WireOf(f, ds[0]) + WireOfAll(f, ds[1..])
  }

  predicate PackedArray(fields: seq<Field>, k: nat) {
    k < |fields| && fields[k].htype.Repeated? && Packable(fields[k].ltype)
  }

  /** How many entries array k holds: its count member, or the decoder's counter. */
  function Held(fields: seq<Field>, k: nat, st: DecState): nat
    requires StateOk(fields, st) && PackedArray(fields, k)
  {
    if !FixedCount(fields[k]) then st.msg.slots[fields[k].at].size
    else if st.fixedField == Some(k) then st.fixedCount
    else 0
  }

  /** Array k may go on: no other fixed-count array is incomplete. */
  predicate MayGoOn(fields: seq<Field>, k: nat, st: DecState)
    requires StateOk(fields, st) && PackedArray(fields, k)
  {
    FixedCount(fields[k]) ==> st.fixedField == Some(k) || FixedComplete(fields, st)
  }

  /** The state after `vals` were appended to array k. */
  function Filled(fields: seq<Field>, k: nat, st: DecState, vals: seq<Value>): (r: DecState)
    requires Wf(fields) && StateOk(fields, st) && PackedArray(fields, k) && MayGoOn(fields, k, st)
    requires Held(fields, k, st) + |vals| <= fields[k].arraySize
    ensures StateOk(fields, r)
  {
    var slot := st.msg.slots[fields[k].at];
    After(fields, k, st, Enter(fields, k, st).value, Appended(fields[k], slot, Held(fields, k, st), vals))
  }

  // ---------------------------------------------------------------- one delivery that fits

  lemma OverlayOne(items: seq<Value>, at: nat, v: Value)
    requires at < |items|
    ensures items[at := v] == Overlay(items, at, [v])
  {
  }

  lemma SingleField(f: Field, v: Value, slot: Slot, count: nat)
    requires FieldOk(f) && f.htype.Repeated? && Packable(f.ltype)
    requires |slot.items| == f.arraySize && count < f.arraySize && ValueOk(f, v)
    ensures EncValue(f, v).Some?
    ensures DecField(f, WireTypeOf(f.ltype), EncValue(f, v).value, slot, count) == Ok(Appended(f, slot, count, [v]), [])
  {
    PackableTrip(f, v, []);
    EmptyRight(EncValue(f, v).value);
    OverlayOne(slot.items, count, v);
  }

  lemma DeliveryFits(fields: seq<Field>, k: nat, d: Delivery, st: DecState)
    requires Wf(fields) && StateOk(fields, st) && PackedArray(fields, k) && DeliveryOk(fields[k], d) && !d.Other?
    requires MayGoOn(fields, k, st) && Held(fields, k, st) + |Sent(d)| <= fields[k].arraySize
    ensures Loop(fields, WireOf(fields[k], d), st) == Drained(Filled(fields, k, st, Sent(d)))
  {
    var f := fields[k];
    assert FieldOk(f);
    var slot, count := st.msg.slots[f.at], Held(fields, k, st);
    var st1 := Enter(fields, k, st).value;
    if d.Chunk? {
      PackedField(f, d.vals, slot, count);
      OneField(fields, k, WT_STRING, EncSized(EncItems(f, d.vals, |d.vals|).value), st, st1, Appended(f, slot, count, d.vals));
    } else {
      assert Sent(d)[0] == d.val;
      SingleField(f, d.val, slot, count);
      OneField(fields, k, WireTypeOf(f.ltype), EncValue(f, d.val).value, st, st1, Appended(f, slot, count, [d.val]));
    }
  }

  // ---------------------------------------------------------------- one delivery that overflows

  lemma PackableNotEmpty(f: Field, v: Value)
    requires FieldOk(f) && Packable(f.ltype) && EncValue(f, v).Some?
    ensures |EncValue(f, v).value| >= 1
  {
  }

  /** The entries after the first r of a packed chunk take at least a byte each. */
  lemma {:induction false} ItemsSplit(f: Field, vals: seq<Value>, r: nat, n: nat) returns (b: Bytes)
    requires FieldOk(f) && Packable(f.ltype) && r <= n <= |vals| && EncItems(f, vals, n).Some?
    ensures EncItems(f, vals, r).Some?
    ensures EncItems(f, vals, n).value == EncItems(f, vals, r).value + b && |b| >= n - r
    decreases n
  {
    if r == n {
      b := [];
    } else {
      var c := ItemsSplit(f, vals, r, n - 1);
      PackableNotEmpty(f, vals[n - 1]);
      var a, e := EncItems(f, vals, r).value, EncValue(f, vals[n - 1]).value;
      b := c + e;
      Assoc(a, c, e);
    }
  }

  /** The loop fails at a field that cannot be placed. */
  lemma OneFieldFails(fields: seq<Field>, k: nat, wireType: nat, payload: Bytes, st: DecState)
    requires Wf(fields) && StateOk(fields, st) && PackedArray(fields, k) && wireType < 8
    requires DecField(fields[k], wireType, payload, st.msg.slots[fields[k].at], Held(fields, k, st)).Fail?
    ensures Loop(fields, EncTag(wireType, fields[k].tag) + payload, st).Failed?
  {
    var f := fields[k];
    assert FieldOk(f);
    TagRoundTrip(wireType, f.tag, payload);
    FindDistinct(fields, k);
    assert StepFound(fields, k, wireType, payload, st).Fail?;
  }

  /** A packed chunk with more entries than the array has room for. */
  lemma ChunkTooLong(f: Field, vals: seq<Value>, slot: Slot, count: nat, t: Bytes)
    requires FieldOk(f) && f.htype.Repeated? && Packable(f.ltype) && |slot.items| == f.arraySize
    requires count <= f.arraySize < count + |vals| && EncItems(f, vals, |vals|).Some?
    requires forall k :: 0 <= k < |vals| ==> ValueOk(f, vals[k])
    requires |EncItems(f, vals, |vals|).value| < TWO32
    ensures DecField(f, WT_STRING, EncSized(EncItems(f, vals, |vals|).value) + t, slot, count).Fail?
  {
    var r := f.arraySize - count;
    var b := ItemsSplit(f, vals, r, |vals|);
    PackedTrip(f, vals, r, slot.items, count);
    PackedConcat(f, EncItems(f, vals, r).value, b, slot.items, count);
    var bs := EncItems(f, vals, |vals|).value;
    SizedTrip(bs, t);
    SplitAt(bs, t);
  }

  lemma DeliveryOverflows(fields: seq<Field>, k: nat, d: Delivery, st: DecState, t: Bytes)
    requires Wf(fields) && StateOk(fields, st) && PackedArray(fields, k) && DeliveryOk(fields[k], d)
    requires Held(fields, k, st) <= fields[k].arraySize < Held(fields, k, st) + |Sent(d)|
    ensures Loop(fields, WireOf(fields[k], d) + t, st).Failed?
  {
    var f := fields[k];
    assert FieldOk(f);
    if d.Chunk? {
      ArrayEncodes(f, d.vals, |d.vals|);
      var bs := EncItems(f, d.vals, |d.vals|).value;
      ChunkTooLong(f, d.vals, st.msg.slots[f.at], Held(fields, k, st), t);
      OneFieldFails(fields, k, WT_STRING, EncSized(bs) + t, st);
      Assoc(EncTag(WT_STRING, f.tag), EncSized(bs), t);
    } else {
      assert Sent(d)[0] == d.val;
      ValueEncodes(f, d.val);
      var e := EncValue(f, d.val).value;
      OneFieldFails(fields, k, WireTypeOf(f.ltype), e + t, st);
      Assoc(KeyOf(f), e, t);
    }
  }

  // ---------------------------------------------------------------- other fields in between

  /**
    Other fields that decode. Between the entries of a fixed-count array no other one may
    start: the decoder would take the first for complete, or fail.
   */
  predicate Passes(fields: seq<Field>, k: nat, bs: Bytes, st: DecState)
    requires Wf(fields) && StateOk(fields, st) && PackedArray(fields, k)
  {
    && Loop(fields, bs, st).Drained?
    && k !in Arrivals(fields, bs, st)
    && (FixedCount(fields[k]) ==>
          forall j :: 0 <= j < |fields| && FixedCount(fields[j]) ==> j !in Arrivals(fields, bs, st))
  }

  /** Array k is as it was. */
  predicate SameArray(fields: seq<Field>, k: nat, a: DecState, b: DecState)
    requires StateOk(fields, a) && StateOk(fields, b) && PackedArray(fields, k)
  {
    && b.msg.slots[fields[k].at] == a.msg.slots[fields[k].at]
    && (FixedCount(fields[k]) ==> b.fixedField == a.fixedField && b.fixedCount == a.fixedCount)
  }

  lemma StepPasses(fields: seq<Field>, k: nat, tag: nat, wireType: nat, s: Bytes, st: DecState)
    requires Wf(fields) && StateOk(fields, st) && PackedArray(fields, k) && Step(fields, tag, wireType, s, st).Ok?
    requires var i := Find(fields, tag);
             i.Some? ==> i.value != k && (FixedCount(fields[k]) ==> !FixedCount(fields[i.value]))
    ensures SameArray(fields, k, st, Step(fields, tag, wireType, s, st).value)
  {
    match Find(fields, tag)
    case None =>
    case Some(i) => assert fields[i].at != fields[k].at;
  }

  lemma {:induction false} PassesKeeps(fields: seq<Field>, k: nat, bs: Bytes, st: DecState)
    requires Wf(fields) && StateOk(fields, st) && PackedArray(fields, k) && Passes(fields, k, bs, st)
    ensures SameArray(fields, k, st, Loop(fields, bs, st).st)
    decreases |bs|
  {
    if bs != [] {
      var t := DecTag(bs);
      var p := Step(fields, t.tag, t.wireType, t.rest, st);
      assert Arrivals(fields, bs, st) == Arrival(fields, t.tag) + Arrivals(fields, p.rest, p.value);
      if Find(fields, t.tag).Some? {
        assert Find(fields, t.tag).value in Arrival(fields, t.tag);
      }
      StepPasses(fields, k, t.tag, t.wireType, t.rest, st);
      PassesKeeps(fields, k, p.rest, p.value);
    }
  }

  // ---------------------------------------------------------------- any mix

  /** The other fields in a mix decode where they stand, as far as the array has room. */
  predicate OthersPass(fields: seq<Field>, k: nat, ds: seq<Delivery>, st: DecState)
    requires Wf(fields) && StateOk(fields, st) && PackedArray(fields, k)
    decreases |ds|
  {
    ds == []
    || var r := Loop(fields, WireOf(fields[k], ds[0]), st);
       && (ds[0].Other? ==> Passes(fields, k, ds[0].bytes, st))
       && (r.Drained? ==> OthersPass(fields, k, ds[1..], r.st))
  }

  predicate MixOk(fields: seq<Field>, k: nat, ds: seq<Delivery>, st: DecState)
    requires Wf(fields) && StateOk(fields, st) && PackedArray(fields, k)
  {
    && (forall i :: 0 <= i < |ds| ==> DeliveryOk(fields[k], ds[i]))
    && MayGoOn(fields, k, st) && OthersPass(fields, k, ds, st)
  }

  /** The array of `b` is the array of `a` followed by `vals`. */
  predicate Grown(fields: seq<Field>, k: nat, a: DecState, b: DecState, vals: seq<Value>)
    requires StateOk(fields, a) && StateOk(fields, b) && PackedArray(fields, k)
  {
    var x, y := a.msg.slots[fields[k].at], b.msg.slots[fields[k].at];
    && Held(fields, k, b) == Held(fields, k, a) + |vals| <= |x.items|
    && y.items == Overlay(x.items, Held(fields, k, a), vals)
    && MayGoOn(fields, k, b)
  }

  /** Nothing but array k and its counter has changed. */
  predicate OnlyArray(fields: seq<Field>, k: nat, a: DecState, b: DecState)
    requires Wf(fields) && StateOk(fields, a) && StateOk(fields, b) && PackedArray(fields, k)
  {
    b.msg == WithSlot(fields, a.msg, k, b.msg.slots[fields[k].at])
    && b.seen == a.seen && (!FixedCount(fields[k]) ==> b.fixedField == a.fixedField && b.fixedCount == a.fixedCount)
  }

  lemma DeliveryGrows(fields: seq<Field>, k: nat, d: Delivery, st: DecState)
    requires Wf(fields) && StateOk(fields, st) && PackedArray(fields, k) && DeliveryOk(fields[k], d)
    requires MayGoOn(fields, k, st) && Held(fields, k, st) + |Sent(d)| <= fields[k].arraySize
    requires d.Other? ==> Passes(fields, k, d.bytes, st)
    ensures var r := Loop(fields, WireOf(fields[k], d), st);
            r.Drained? && Grown(fields, k, st, r.st, Sent(d)) && (!d.Other? ==> OnlyArray(fields, k, st, r.st))
  {
    if d.Other? {
      PassesKeeps(fields, k, d.bytes, st);
      var x := st.msg.slots[fields[k].at];
      assert Overlay(x.items, Held(fields, k, st), []) == x.items;
    } else {
      DeliveryFits(fields, k, d, st);
    }
  }

  lemma GrownTwice(fields: seq<Field>, k: nat, a: DecState, b: DecState, c: DecState, u: seq<Value>, v: seq<Value>)
    requires StateOk(fields, a) && StateOk(fields, b) && StateOk(fields, c) && PackedArray(fields, k)
    requires Grown(fields, k, a, b, u) && Grown(fields, k, b, c, v)
    ensures Grown(fields, k, a, c, u + v)
  {
    var x, n := a.msg.slots[fields[k].at].items, Held(fields, k, a);
    assert Overlay(Overlay(x, n, u), n + |u|, v) == Overlay(x, n, u + v);
  }

  lemma OnlyArrayTwice(fields: seq<Field>, k: nat, a: DecState, b: DecState, c: DecState)
    requires Wf(fields) && StateOk(fields, a) && StateOk(fields, b) && StateOk(fields, c) && PackedArray(fields, k)
    requires OnlyArray(fields, k, a, b) && OnlyArray(fields, k, b, c)
    ensures OnlyArray(fields, k, a, c)
  {
    TwiceSet(fields, k, a.msg, b.msg, b.msg.slots[fields[k].at], c.msg.slots[fields[k].at]);
  }

  predicate NoOthers(ds: seq<Delivery>) {
    forall i :: 0 <= i < |ds| ==> !ds[i].Other?
  }

  /**
    Whatever mix of packed chunks and single entries a list is sent in, and whatever other
    fields lie in between, the array becomes its old contents followed by the list, in
    order, when that fits array_size; without other fields nothing else changes.
   */
  lemma {:induction false} MixAppends(fields: seq<Field>, k: nat, ds: seq<Delivery>, st: DecState)
    requires Wf(fields) && StateOk(fields, st) && PackedArray(fields, k) && MixOk(fields, k, ds, st)
    requires Held(fields, k, st) + |AllSent(ds)| <= fields[k].arraySize
    ensures var r := Loop(fields, WireOfAll(fields[k], ds), st);
            r.Drained? && Grown(fields, k, st, r.st, AllSent(ds)) && (NoOthers(ds) ==> OnlyArray(fields, k, st, r.st))
    decreases |ds|
  {
    if ds == [] {
      var x := st.msg.slots[fields[k].at];
      assert Overlay(x.items, Held(fields, k, st), []) == x.items;
      assert st.msg.slots[fields[k].at := x] == st.msg.slots;
    } else {
      var a, b := WireOf(fields[k], ds[0]), WireOfAll(fields[k], ds[1..]);
      DeliveryGrows(fields, k, ds[0], st);
      var mid := Loop(fields, a, st).st;
      MixAppends(fields, k, ds[1..], mid);
      var end := Loop(fields, b, mid).st;
      LoopConcat(fields, a, b, st);
      GrownTwice(fields, k, st, mid, end, Sent(ds[0]), AllSent(ds[1..]));
      if NoOthers(ds) {
        OnlyArrayTwice(fields, k, st, mid, end);
      }
    }
  }

  /** When the list does not fit, decoding fails, whatever comes after it. */
  lemma {:induction false} MixOverflows(fields: seq<Field>, k: nat, ds: seq<Delivery>, st: DecState, t: Bytes)
    requires Wf(fields) && StateOk(fields, st) && PackedArray(fields, k) && MixOk(fields, k, ds, st)
    requires Held(fields, k, st) <= fields[k].arraySize < Held(fields, k, st) + |AllSent(ds)|
    ensures Loop(fields, WireOfAll(fields[k], ds) + t, st).Failed?
    decreases |ds|
  {
    var f := fields[k];
    var rest := WireOfAll(f, ds[1..]) + t;
    Assoc(WireOf(f, ds[0]), WireOfAll(f, ds[1..]), t);
    if Held(fields, k, st) + |Sent(ds[0])| <= f.arraySize {
      DeliveryGrows(fields, k, ds[0], st);
      MixOverflows(fields, k, ds[1..], Loop(fields, WireOf(f, ds[0]), st).st, t);
      LoopConcat(fields, WireOf(f, ds[0]), rest, st);
    } else {
      DeliveryOverflows(fields, k, ds[0], st, rest);
    }
  }

  /**
    A message with one chunk of a fixed-count array in it decodes only if the chunk has exactly
    array_size entries, and then unless a required field is missing.
   */
  lemma ChunkComplete(fields: seq<Field>, k: nat, vals: seq<Value>, m: Msg)
    requires Wf(fields) && Shaped(fields, m) && PackedArray(fields, k) && FixedCount(fields[k])
    requires DeliveryOk(fields[k], Chunk(vals))
    ensures DecodeNoinit(fields, WireOf(fields[k], Chunk(vals)), m).Ok?
            <==> |vals| == fields[k].arraySize && AllRequiredSeen(fields, {})
  {
    if |vals| <= fields[k].arraySize {
      DeliveryFits(fields, k, Chunk(vals), Start(m));
    } else {
      DeliveryOverflows(fields, k, Chunk(vals), Start(m), []);
      EmptyRight(WireOf(fields[k], Chunk(vals)));
    }
  }
}
