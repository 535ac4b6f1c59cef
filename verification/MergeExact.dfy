/**
  When decoding two messages one after the other is the same as decoding their
  concatenation. Only the local entry counter of a fixed-count array can tell the
  difference.
 */
module MergeExact {
  import opened Prelude
  import opened Wire
  import opened Descriptor
  import opened DecodeSpec
  import opened Merge

  // ---------------------------------------------------------------- scanning a message for its arrays

  /** The bytes after the payload of a field, as its type reads it. */
  function Payload(f: Field, wireType: nat, s: Bytes): (r: Option<Bytes>)
    ensures r.Some? ==> Consumed(s, r.value)
  {
    if Packable(f.ltype) && !(f.htype.Repeated? && wireType == WT_STRING) then
      match DecNumber(f, s)
      case Fail => None
      case Ok(_, rest) => Some(rest)
    else SkipString(s)
  }

  /** The bytes after the field with the given tag. */
  function Following(fields: seq<Field>, tag: nat, wireType: nat, s: Bytes): (r: Option<Bytes>)
    ensures r.Some? ==> Consumed(s, r.value)
  {
    match Find(fields, tag)
    case Some(i) => Payload(fields[i], wireType, s)
    case None =>
      if fields == [] && tag == 0 then
        match DecVarint32(s)
        case Fail => None
        case Ok(_, rest) => Some(rest)
      else Skip(wireType, s)
  }

  /** The fixed-count array with the given tag. */
  function FixedArray(fields: seq<Field>, tag: nat): Option<nat> {
    match Find(fields, tag)
    case Some(i) => if FixedCount(fields[i]) then Some(i) else None
    case None => None
  }

  /** The first fixed-count array whose tag is in the message. */
  function FirstFixed(fields: seq<Field>, s: Bytes): Option<nat>
    decreases |s|
  {
    if s == [] || !DecTag(s).Tagged? then None
    else
      var t := DecTag(s);
      var found := FixedArray(fields, t.tag);
      var next := Following(fields, t.tag, t.wireType, t.rest);
      if found.Some? then found
      else if next.Some? then FirstFixed(fields, next.value)
      else None
  }

  /** The last one. */
  function LastFixed(fields: seq<Field>, s: Bytes): Option<nat>
    decreases |s|
  {
    if s == [] || !DecTag(s).Tagged? then None
    else
      var t := DecTag(s);
      var next := Following(fields, t.tag, t.wireType, t.rest);
      var later := if next.Some? then LastFixed(fields, next.value) else None;
      if later.Some? then later else FixedArray(fields, t.tag)
  }

  lemma FollowingStep(fields: seq<Field>, tag: nat, wireType: nat, s: Bytes, st: DecState)
    requires Wf(fields) && StateOk(fields, st) && Step(fields, tag, wireType, s, st).Ok?
    ensures Following(fields, tag, wireType, s) == Some(Step(fields, tag, wireType, s, st).rest)
    ensures Step(fields, tag, wireType, s, st).value.fixedField
         == if FixedArray(fields, tag).Some? then FixedArray(fields, tag) else st.fixedField
  {
    match Find(fields, tag)
    case None =>
    case Some(i) =>
      var st1 := Enter(fields, i, st).value;
      var slot := st.msg.slots[fields[i].at];
      PayloadField(fields[i], wireType, s, slot, CountOf(fields[i], st1, slot));
  }

  lemma PayloadField(f: Field, wireType: nat, s: Bytes, slot: Slot, count: nat)
    requires FieldOk(f) && |slot.items| == Cells(f) && DecField(f, wireType, s, slot, count).Ok?
    ensures Payload(f, wireType, s) == Some(DecField(f, wireType, s, slot, count).rest)
  {
    if f.htype.Repeated? {
      if !(wireType == WT_STRING && Packable(f.ltype)) {
        PayloadValue(f, s, slot.items[count]);
      }
    } else if f.htype.Oneof? && f.ltype.LSubmessage? {
      PayloadValue(f, s, Sub(SetDefaults(f.ptr.fields, Zero(f.ptr.fields))));
    } else {
      PayloadValue(f, s, slot.items[0]);
    }
  }

  lemma PayloadValue(f: Field, s: Bytes, prior: Value)
    requires FieldOk(f) && DecValue(f, s, prior).Ok?
    ensures Packable(f.ltype) ==> DecNumber(f, s).Ok? && DecNumber(f, s).rest == DecValue(f, s, prior).rest
    ensures !Packable(f.ltype) ==> SkipString(s) == Some(DecValue(f, s, prior).rest)
  {
    if !Packable(f.ltype) && DecVarint32(s).Ok? && DecVarint32(s).value == 0 {
      assert DecVarint32(s).rest[0..] == DecVarint32(s).rest;
    }
  }

  lemma {:induction false} LastIsScanned(fields: seq<Field>, s: Bytes, st: DecState)
    requires Wf(fields) && StateOk(fields, st) && !Loop(fields, s, st).Failed?
    ensures Loop(fields, s, st).st.fixedField
         == if LastFixed(fields, s).Some? then LastFixed(fields, s) else st.fixedField
    decreases |s|
  {
    if s != [] && DecTag(s).Tagged? {
      var t := DecTag(s);
      FollowingStep(fields, t.tag, t.wireType, t.rest, st);
      var p := Step(fields, t.tag, t.wireType, t.rest, st);
      LastIsScanned(fields, p.rest, p.value);
    }
  }

  /** The same struct, with nothing in progress in `b` and a finished array, or none, in `a`. */
  predicate Fresher(fields: seq<Field>, a: DecState, b: DecState, extra: set<nat>)
    requires StateOk(fields, a)
  {
    a.msg == b.msg && a.seen == b.seen + extra && b.fixedField.None? && FixedComplete(fields, a)
  }

  /** The same end of the loop, as far as what comes after it can tell. */
  predicate SameEnd(fields: seq<Field>, p: Run, q: Run, extra: set<nat>)
    requires !p.Failed? ==> StateOk(fields, p.st)
    requires !q.Failed? ==> StateOk(fields, q.st)
  {
    && p.Failed? == q.Failed? && p.Drained? == q.Drained?
    && (p.Stopped? ==> p.rest == q.rest)
    && (!p.Failed? ==>
          p.st.msg == q.st.msg && p.st.seen == q.st.seen + extra
          && FixedComplete(fields, p.st) == FixedComplete(fields, q.st))
  }

  /** One turn that does not enter the array `a` has finished. */
  lemma StepFresher(fields: seq<Field>, tag: nat, wireType: nat, s: Bytes, a: DecState, b: DecState, extra: set<nat>)
    requires Wf(fields) && StateOk(fields, a) && StateOk(fields, b) && Fresher(fields, a, b, extra)
    requires var i := Find(fields, tag); i.Some? && FixedCount(fields[i.value]) ==> i != a.fixedField
    ensures var p, q := Step(fields, tag, wireType, s, a), Step(fields, tag, wireType, s, b);
            && p.Ok? == q.Ok?
            && (p.Ok? ==>
                  p.rest == q.rest
                  && if Find(fields, tag).Some? && FixedCount(fields[Find(fields, tag).value])
                     then SeesMore(p.value, q.value, extra)
                     else Fresher(fields, p.value, q.value, extra))
  {
  }

  lemma {:induction false} FresherRuns(fields: seq<Field>, s: Bytes, a: DecState, b: DecState, extra: set<nat>)
    requires Wf(fields) && StateOk(fields, a) && StateOk(fields, b) && Fresher(fields, a, b, extra)
    requires FirstFixed(fields, s).Some? ==> FirstFixed(fields, s) != a.fixedField
    ensures SameEnd(fields, Loop(fields, s, a), Loop(fields, s, b), extra)
    decreases |s|
  {
    if s != [] && DecTag(s).Tagged? {
      var t := DecTag(s);
      var q := Step(fields, t.tag, t.wireType, t.rest, b);
      var found := Find(fields, t.tag);
      StepFresher(fields, t.tag, t.wireType, t.rest, a, b, extra);
      if q.Ok? {
        var p := Step(fields, t.tag, t.wireType, t.rest, a);
        FollowingStep(fields, t.tag, t.wireType, t.rest, b);
        if found.Some? && FixedCount(fields[found.value]) {
          SeenIsPassive(fields, q.rest, p.value, q.value, extra);
        } else {
          FresherRuns(fields, q.rest, p.value, q.value, extra);
        }
      }
    }
  }

  /** Only an empty packed chunk is accepted by a fixed-count array that is full. */
  lemma FullField(f: Field, wireType: nat, s: Bytes, slot: Slot)
    requires FieldOk(f) && FixedCount(f) && |slot.items| == f.arraySize
    ensures var p := DecField(f, wireType, s, slot, f.arraySize);
            p.Ok? ==> p.value == Placed(slot, f.arraySize)
                      && DecField(f, wireType, s, slot, 0) == Ok(Placed(slot, 0), p.rest)
  {
    if wireType == WT_STRING && Packable(f.ltype) && DecVarint32(s).Ok? {
      assert PackedLoop(f, [], slot.items, 0) == PackedOk(slot.items, 0, []);
    }
  }

  /** A field that does not decode from a fresh counter does not from a full one either. */
  lemma EnterFinished(fields: seq<Field>, tag: nat, wireType: nat, s: Bytes, a: DecState, b: DecState)
    requires Wf(fields) && StateOk(fields, a) && StateOk(fields, b)
    requires a.msg == b.msg && b.fixedField.None? && FixedComplete(fields, a)
    requires Find(fields, tag).Some? && Find(fields, tag) == a.fixedField
    ensures var p := Step(fields, tag, wireType, s, a); var q := Step(fields, tag, wireType, s, b);
            && (q.Fail? ==> p.Fail?)
            && (p.Ok? ==> p.rest == q.rest && Stuck(fields, p.value, q.value))
  {
    var f := fields[a.fixedField.value];
    assert FieldOk(f);
    FullField(f, wireType, s, a.msg.slots[f.at]);
  }

  /** Both are in the same array, `a` at its end and `b` at its beginning. */
  predicate Stuck(fields: seq<Field>, a: DecState, b: DecState)
    requires Wf(fields) && StateOk(fields, a)
  {
    && a.msg == b.msg && a.fixedField == b.fixedField && a.fixedField.Some?
    && FixedComplete(fields, a) && b.fixedCount == 0
  }

  lemma StepStuck(fields: seq<Field>, tag: nat, wireType: nat, s: Bytes, a: DecState, b: DecState)
    requires Wf(fields) && StateOk(fields, a) && StateOk(fields, b) && Stuck(fields, a, b)
    ensures var p := Step(fields, tag, wireType, s, a); var q := Step(fields, tag, wireType, s, b);
            p.Ok? && q.Ok? ==> p.rest == q.rest && Stuck(fields, p.value, q.value)
  {
    var f := fields[a.fixedField.value];
    assert FieldOk(f);
    FullField(f, wireType, s, a.msg.slots[f.at]);
  }

  /** From there no bytes let `a` go on and `b` finish the array. */
  lemma {:induction false} StuckRuns(fields: seq<Field>, s: Bytes, a: DecState, b: DecState)
    requires Wf(fields) && StateOk(fields, a) && StateOk(fields, b) && Stuck(fields, a, b)
    ensures var q := Loop(fields, s, b);
            Loop(fields, s, a).Failed? || q.Failed? || !FixedComplete(fields, q.st)
    decreases |s|
  {
    assert FieldOk(fields[a.fixedField.value]);
    if s != [] && DecTag(s).Tagged? {
      var t := DecTag(s);
      StepStuck(fields, t.tag, t.wireType, t.rest, a, b);
      var p := Step(fields, t.tag, t.wireType, t.rest, a);
      var q := Step(fields, t.tag, t.wireType, t.rest, b);
      if p.Ok? && q.Ok? {
        StuckRuns(fields, p.rest, p.value, q.value);
      }
    }
  }

  /** Entering the finished array again first means that one of the two runs fails. */
  lemma {:induction false} ReentryFails(fields: seq<Field>, s: Bytes, a: DecState, b: DecState, extra: set<nat>)
    requires Wf(fields) && StateOk(fields, a) && StateOk(fields, b) && Fresher(fields, a, b, extra)
    requires FirstFixed(fields, s).Some? && FirstFixed(fields, s) == a.fixedField
    ensures var q := Loop(fields, s, b);
            Loop(fields, s, a).Failed? || q.Failed? || !FixedComplete(fields, q.st)
    decreases |s|
  {
    var t := DecTag(s);
    var found := Find(fields, t.tag);
    var p := Step(fields, t.tag, t.wireType, t.rest, a);
    var q := Step(fields, t.tag, t.wireType, t.rest, b);
    if found.Some? && FixedCount(fields[found.value]) {
      EnterFinished(fields, t.tag, t.wireType, t.rest, a, b);
      if p.Ok? {
        StuckRuns(fields, p.rest, p.value, q.value);
      }
    } else {
      StepFresher(fields, t.tag, t.wireType, t.rest, a, b, extra);
      if q.Ok? {
        FollowingStep(fields, t.tag, t.wireType, t.rest, b);
        ReentryFails(fields, q.rest, p.value, q.value, extra);
      }
    }
  }

  /**
    Merging, exactly. Let decoding s1 into d succeed without meeting a zero tag, and
    decoding s2 into the result succeed. Decoding s1 followed by s2 into d gives the same
    struct and leaves the same bytes if and only if the first fixed-count array in s2 is not
    the last one in s1; otherwise it fails. Which arrays these are is read off the tags.
   */
  lemma MergeLaw(fields: seq<Field>, s1: Bytes, s2: Bytes, d: Msg)
    requires Wf(fields) && Shaped(fields, d)
    requires Unterminated(fields, s1, d) && DecodeNoinit(fields, s1, d).Ok?
    requires DecodeNoinit(fields, s2, DecodeNoinit(fields, s1, d).value).Ok?
    ensures var merged := DecodeNoinit(fields, s1 + s2, d);
            var d1 := DecodeNoinit(fields, s1, d).value;
            var first, last := FirstFixed(fields, s2), LastFixed(fields, s1);
            && (merged == DecodeNoinit(fields, s2, d1) <==> first.None? || first != last)
            && (merged.Ok? ==> merged == DecodeNoinit(fields, s2, d1))
  {
    var st1 := Loop(fields, s1, Start(d)).st;
    LoopConcat(fields, s1, s2, Start(d));
    LastIsScanned(fields, s1, Start(d));
    if FirstFixed(fields, s2).Some? && FirstFixed(fields, s2) == st1.fixedField {
      ReentryFails(fields, s2, st1, Start(st1.msg), st1.seen);
    } else {
      FresherRuns(fields, s2, st1, Start(st1.msg), st1.seen);
    }
  }

  /** A descriptor without fixed-count arrays at its top level. */
  predicate NoFixedCount(fields: seq<Field>) {
    forall i :: 0 <= i < |fields| ==> !FixedCount(fields[i])
  }

  lemma {:induction false} NeverFixed(fields: seq<Field>, s: Bytes)
    requires NoFixedCount(fields)
    ensures FirstFixed(fields, s).None?
    decreases |s|
  {
    if s != [] && DecTag(s).Tagged? {
      var t := DecTag(s);
      var next := Following(fields, t.tag, t.wireType, t.rest);
      if next.Some? {
        NeverFixed(fields, next.value);
      }
    }
  }

  /** Without fixed-count arrays decoding always merges. */
  lemma MergeWithoutFixedCount(fields: seq<Field>, s1: Bytes, s2: Bytes, d: Msg)
    requires Wf(fields) && Shaped(fields, d) && NoFixedCount(fields)
    requires Unterminated(fields, s1, d) && DecodeNoinit(fields, s1, d).Ok?
    requires DecodeNoinit(fields, s2, DecodeNoinit(fields, s1, d).value).Ok?
    ensures DecodeNoinit(fields, s1 + s2, d) == DecodeNoinit(fields, s2, DecodeNoinit(fields, s1, d).value)
  {
    MergeLaw(fields, s1, s2, d);
    NeverFixed(fields, s2);
  }
}
