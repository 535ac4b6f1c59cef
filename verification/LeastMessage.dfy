/**
  The shortest message with every required field: what a sender must at least write for
  pb_decode to succeed. It shows that only the first 64 required fields must arrive.
 */
module LeastMessage {
  import opened Prelude
  import opened Bits
  import opened Wire
  import opened Scalars
  import opened Descriptor
  import opened DecodeSpec
  import opened EncodeSpec
  import opened EncodeSize
  import opened Merge
  import opened ValueTrip
  import opened RoundTrip
  import opened RequiredFields

  predicate TypicalField(f: Field)
    requires FieldOk(f)
    decreases f
  {
    && (f.ltype.LVarint? || f.ltype.LUVarint? || f.ltype.LSVarint? ==> IntSize(f.dataSize))
    && (f.ltype.LString? ==> f.dataSize >= 1)
    && (f.ltype.LBytes? ==> f.dataSize >= BYTES_HEADER)
    && (f.ltype.LSubmessage? ==> Typical(f.ptr.fields))
  }

  /** Members have sizes their decoders accept at all, as the macros compute them with sizeof. */
  predicate Typical(fields: seq<Field>)
    requires Wf(fields)
    decreases fields
  {
    forall i :: 0 <= i < |fields| ==> TypicalField(fields[i])
  }

  /** No struct of the type takes 4 GiB on the wire. */
  predicate Modest(fields: seq<Field>)
    requires Wf(fields)
  {
    MaxSize(fields) < TWO32
  }

  // ---------------------------------------------------------------- the message

  /** A zero, no bytes, or a submessage with nothing but its required fields. */
  function LeastPayload(f: Field): Bytes
    requires FieldOk(f)
    decreases f
  {
    match f.ltype
    case LFixed32 => Zeros(4)
    case LFixed64 => Zeros(8)
    case LSubmessage => EncSized(Least(f.ptr.fields, |f.ptr.fields|, None))
    case _ => [0]
  }

  /** The required ones of the first k fields, except perhaps one. */
  function Least(fields: seq<Field>, k: nat, skip: Option<nat>): Bytes
    requires Wf(fields) && k <= |fields|
    decreases fields, k
  {
    if k == 0 then []
    else
      assert fields[k - 1] in fields;
      Least(fields, k - 1, skip)
      + if fields[k - 1].htype.Required? && skip != Some(k - 1) then KeyOf(fields[k - 1]) + LeastPayload(fields[k - 1])
        else []
  }

  lemma KeyBound(f: Field)
    requires FieldOk(f)
    ensures |KeyOf(f)| <= VARINT
  {
    VarintAtMostTen(f.tag * 8 + WireTypeOf(f.ltype));
  }

  lemma {:induction false} PayloadBound(f: Field)
    requires FieldOk(f) && MaxValue(f) < TWO32
    ensures |LeastPayload(f)| <= MaxValue(f)
    decreases f, 0
  {
    if f.ltype.LSubmessage? {
      LeastBound(f.ptr.fields, |f.ptr.fields|, None);
      SizedBound(Least(f.ptr.fields, |f.ptr.fields|, None));
    }
  }

  /** The message stays below the bound of its descriptor, with room for the field left out. */
  lemma {:induction false} LeastBound(fields: seq<Field>, k: nat, skip: Option<nat>)
    requires Wf(fields) && k <= |fields| && MaxUpTo(fields, k) < TWO32
    ensures |Least(fields, k, skip)| + (if skip.Some? && skip.value < k then MaxField(fields[skip.value]) else 0)
         <= MaxUpTo(fields, k)
    decreases fields, k
  {
    if k > 0 {
      LeastBound(fields, k - 1, skip);
      assert fields[k - 1] in fields;
      KeyBound(fields[k - 1]);
      PayloadBound(fields[k - 1]);
    }
  }

  // ---------------------------------------------------------------- it decodes

  /** The payload is accepted whatever the cell held before. */
  lemma {:induction false} PayloadDecodes(f: Field, prior: Value)
    requires FieldOk(f) && TypicalField(f) && MaxValue(f) < TWO32 && !f.htype.Repeated?
    ensures DecValue(f, LeastPayload(f), prior).Ok? && DecValue(f, LeastPayload(f), prior).rest == []
    decreases f, 0
  {
    var bs := LeastPayload(f);
    if f.ltype.LSubmessage? {
      var fs := f.ptr.fields;
      var s := Least(fs, |fs|, None);
      LeastBound(fs, |fs|, None);
      SizedTrip(s, []);
      EmptyRight(bs);
      LeastDecodes(fs, AsMsg(fs, prior));
    } else if f.ltype.LFixed32? || f.ltype.LFixed64? {
    } else {
      ZeroVarint();
    }
  }

  lemma ZeroVarint()
    ensures DecVarint([0]) == Ok(0, []) && DecVarint32([0]) == Ok(0, [])
  {
    assert [0][1..] == [];
  }

  /** What the loop over the message leaves. */
  predicate LeastState(fields: seq<Field>, k: nat, skip: Option<nat>, st0: DecState, st: DecState)
    requires Wf(fields) && k <= |fields| && StateOk(fields, st0) && StateOk(fields, st)
  {
    && st.fixedField == st0.fixedField && st.fixedCount == st0.fixedCount && st0.seen <= st.seen
    && (forall j :: 0 <= j < |fields| && (!fields[j].htype.Required? || skip == Some(j)) ==>
          st.msg.slots[fields[j].at] == st0.msg.slots[fields[j].at])
    && (forall j :: 0 <= j < k && Tracked(fields, j) && skip != Some(j) ==> RequiredBefore(fields, j) in st.seen)
  }

  /** What one required field of the message leaves. */
  predicate StepState(fields: seq<Field>, k: nat, mid: DecState, st: DecState)
    requires Wf(fields) && StateOk(fields, mid) && StateOk(fields, st)
  {
    && st.fixedField == mid.fixedField && st.fixedCount == mid.fixedCount
    && st.seen == (if Tracked(fields, k) then mid.seen + {RequiredBefore(fields, k)} else mid.seen)
    && forall j :: 0 <= j < |fields| && j != k ==> st.msg.slots[fields[j].at] == mid.msg.slots[fields[j].at]
  }

  lemma {:induction false} LeastStep(fields: seq<Field>, k: nat, mid: DecState) returns (st: DecState)
    requires Wf(fields) && StateOk(fields, mid) && k < |fields| && fields[k].htype.Required?
    requires TypicalField(fields[k]) && MaxValue(fields[k]) < TWO32
    ensures StateOk(fields, st) && StepState(fields, k, mid, st)
    ensures Loop(fields, KeyOf(fields[k]) + LeastPayload(fields[k]), mid) == Drained(st)
    ensures Arrivals(fields, KeyOf(fields[k]) + LeastPayload(fields[k]), mid) == {k}
    decreases fields, k, 0
  {
    var f := fields[k];
    assert f in fields;
    var slot := mid.msg.slots[f.at];
    var st1 := Enter(fields, k, mid).value;
    PayloadDecodes(f, slot.items[0]);
    var v := DecValue(f, LeastPayload(f), slot.items[0]).value;
    var placed := Placed(Slot(slot.size, [v]), CountOf(f, st1, slot));
    OneField(fields, k, WireTypeOf(f.ltype), LeastPayload(f), mid, st1, placed);
    st := After(fields, k, mid, st1, placed);
    OneArrival(fields, k, WireTypeOf(f.ltype), LeastPayload(f), mid);
    forall j | 0 <= j < |fields| && j != k
      ensures st.msg.slots[fields[j].at] == mid.msg.slots[fields[j].at]
    {
      assert fields[j].at != f.at;
    }
  }

  /** Exactly field k arrives when the loop reads nothing but its key and payload. */
  lemma OneArrival(fields: seq<Field>, k: nat, wireType: nat, payload: Bytes, st: DecState)
    requires Wf(fields) && StateOk(fields, st) && k < |fields| && wireType < 8
    requires var p := StepFound(fields, k, wireType, payload, st); p.Ok? && p.rest == []
    ensures Arrivals(fields, EncTag(wireType, fields[k].tag) + payload, st) == {k}
  {
    assert FieldOk(fields[k]);
    TagRoundTrip(wireType, fields[k].tag, payload);
    FindDistinct(fields, k);
    var st' := StepFound(fields, k, wireType, payload, st).value;
    assert Arrivals(fields, [], st') == {};
  }

  /** One more field after a message that was read to its end. */
  lemma ThenField(fields: seq<Field>, a: Bytes, b: Bytes, st0: DecState, st: DecState, k: nat)
    requires Wf(fields) && StateOk(fields, st0) && StateOk(fields, st) && Loop(fields, a, st0).Drained?
    requires Loop(fields, b, Loop(fields, a, st0).st) == Drained(st)
    requires Arrivals(fields, b, Loop(fields, a, st0).st) == {k}
    ensures Loop(fields, a + b, st0) == Drained(st)
    ensures Arrivals(fields, a + b, st0) == Arrivals(fields, a, st0) + {k}
  {
    LoopConcat(fields, a, b, st0);
    ArrivalsConcat(fields, a, b, st0);
  }

  lemma LeastNext(fields: seq<Field>, k: nat, skip: Option<nat>, st0: DecState, mid: DecState, st: DecState)
    requires Wf(fields) && StateOk(fields, st0) && StateOk(fields, mid) && StateOk(fields, st) && k < |fields|
    requires LeastState(fields, k, skip, st0, mid)
    requires if fields[k].htype.Required? && skip != Some(k) then StepState(fields, k, mid, st) else st == mid
    ensures LeastState(fields, k + 1, skip, st0, st)
  {
  }

  /** The message with k + 1 fields, after the one with k fields was read. */
  lemma {:induction false} LeastGoesOn(fields: seq<Field>, k: nat, skip: Option<nat>, st0: DecState, mid: DecState)
    returns (st: DecState)
    requires Wf(fields) && StateOk(fields, st0) && StateOk(fields, mid) && k < |fields|
    requires TypicalField(fields[k]) && MaxValue(fields[k]) < TWO32
    requires LeastState(fields, k, skip, st0, mid) && Loop(fields, Least(fields, k, skip), st0) == Drained(mid)
    requires skip.Some? ==> skip.value !in Arrivals(fields, Least(fields, k, skip), st0)
    ensures StateOk(fields, st) && LeastState(fields, k + 1, skip, st0, st)
    ensures Loop(fields, Least(fields, k + 1, skip), st0) == Drained(st)
    ensures skip.Some? ==> skip.value !in Arrivals(fields, Least(fields, k + 1, skip), st0)
    decreases fields, k, 1
  {
    var f, a := fields[k], Least(fields, k, skip);
    if f.htype.Required? && skip != Some(k) {
      st := LeastStep(fields, k, mid);
      ThenField(fields, a, KeyOf(f) + LeastPayload(f), st0, st, k);
    } else {
      st := mid;
      EmptyRight(a);
    }
    LeastNext(fields, k, skip, st0, mid, st);
  }

  lemma {:induction false} LeastLoop(fields: seq<Field>, k: nat, skip: Option<nat>, st0: DecState) returns (st: DecState)
    requires Wf(fields) && Typical(fields) && Modest(fields) && StateOk(fields, st0) && k <= |fields|
    ensures StateOk(fields, st) && LeastState(fields, k, skip, st0, st)
    ensures Loop(fields, Least(fields, k, skip), st0) == Drained(st)
    ensures skip.Some? ==> skip.value !in Arrivals(fields, Least(fields, k, skip), st0)
    decreases fields, k
  {
    if k == 0 {
      st := st0;
    } else {
      var mid := LeastLoop(fields, k - 1, skip, st0);
      MaxUpToMonotone(fields, k - 1, |fields|);
      st := LeastGoesOn(fields, k - 1, skip, st0, mid);
    }
  }

  /** The message decodes, into any struct. */
  lemma {:induction false} LeastDecodes(fields: seq<Field>, m: Msg)
    requires Wf(fields) && Typical(fields) && Modest(fields) && Shaped(fields, m)
    ensures DecodeNoinit(fields, Least(fields, |fields|, None), m).Ok?
    decreases fields, |fields| + 1
  {
    var st := LeastLoop(fields, |fields|, None, Start(m));
  }

  // ---------------------------------------------------------------- beyond 64 required fields

  lemma TrackedArrives(fields: seq<Field>, s: Bytes, d: Msg, i: nat)
    requires Wf(fields) && Shaped(fields, d) && Tracked(fields, i) && Decode(fields, s, d).Ok?
    ensures i in Arrivals(fields, s, Start(SetDefaults(fields, d)))
  {
    var r := Loop(fields, s, Start(SetDefaults(fields, d)));
    assert !r.Failed? && FixedComplete(fields, r.st);
    MissingIsReported(fields, s, SetDefaults(fields, d));
  }

  lemma BeyondMayBeMissing(fields: seq<Field>, i: nat, d: Msg)
    requires Wf(fields) && Typical(fields) && Modest(fields) && Shaped(fields, d)
    requires i < |fields| && RequiredBefore(fields, i) >= MAX_REQUIRED_FIELDS
    ensures var s := Least(fields, |fields|, Some(i));
            Decode(fields, s, d).Ok? && i !in Arrivals(fields, s, Start(SetDefaults(fields, d)))
  {
    var st := LeastLoop(fields, |fields|, Some(i), Start(SetDefaults(fields, d)));
    assert AllRequiredSeen(fields, st.seen) && FixedComplete(fields, st);
  }

  /**
    A required field can be missing from a message that decodes exactly when 64 or more
    required fields come before it.
   */
  lemma UncheckedIffBeyond64(fields: seq<Field>, i: nat, d: Msg)
    requires Wf(fields) && Typical(fields) && Modest(fields) && Shaped(fields, d)
    requires i < |fields| && fields[i].htype.Required?
    ensures (exists s :: Decode(fields, s, d).Ok? && i !in Arrivals(fields, s, Start(SetDefaults(fields, d))))
            <==> RequiredBefore(fields, i) >= 64
  {
    if RequiredBefore(fields, i) >= MAX_REQUIRED_FIELDS {
      BeyondMayBeMissing(fields, i, d);
    } else {
      forall s | Decode(fields, s, d).Ok?
        ensures i in Arrivals(fields, s, Start(SetDefaults(fields, d)))
      {
        TrackedArrives(fields, s, d, i);
      }
    }
  }
}
