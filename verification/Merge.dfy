/**
  The concatenation law of the field loop, and what follows from it: decoding two messages
  one after the other merges them, and unknown fields change nothing.
 */
module Merge {
  import opened Prelude
  import opened Wire
  import opened Descriptor
  import opened DecodeSpec

  // ---------------------------------------------------------------- locality of one field

  lemma DecNumberLocal(f: Field, s: Bytes, t: Bytes)
    requires Packable(f.ltype) && DecNumber(f, s).Ok?
    ensures DecNumber(f, s + t) == Ok(DecNumber(f, s).value, DecNumber(f, s).rest + t)
  {
    if f.ltype.LBool? {
      DecVarint32Local(s, t);
    } else if f.ltype.LFixed32? || f.ltype.LFixed64? {
      TakeLocal(s, t, if f.ltype.LFixed32? then 4 else 8);
    } else {
      DecVarintLocal(s, t);
    }
  }

  /** A length and the bytes it announces. */
  lemma SizedLocal(s: Bytes, t: Bytes)
    requires DecVarint32(s).Ok?
    ensures DecVarint32(s + t) == Ok(DecVarint32(s).value, DecVarint32(s).rest + t)
    ensures var p := DecVarint32(s);
            p.value <= |p.rest| ==> Take(p.rest + t, p.value) == Ok(Take(p.rest, p.value).value, Take(p.rest, p.value).rest + t)
  {
    DecVarint32Local(s, t);
    var p := DecVarint32(s);
    if p.value <= |p.rest| {
      TakeLocal(p.rest, t, p.value);
    }
  }

  /** A submessage is decoded from exactly the bytes its length announces. */
  lemma DecSubmessageLocal(f: Field, s: Bytes, t: Bytes, prior: Value)
    requires FieldOk(f) && f.ltype.LSubmessage? && DecSubmessage(f, s, prior).Ok?
    ensures DecSubmessage(f, s + t, prior) == Ok(DecSubmessage(f, s, prior).value, DecSubmessage(f, s, prior).rest + t)
  {
    SizedLocal(s, t);
    var p, q := DecVarint32(s), DecVarint32(s + t);
    assert q.rest[..q.value] == p.rest[..p.value];
    assert q.rest[q.value..] == p.rest[p.value..] + t;
  }

  lemma DecValueLocal(f: Field, s: Bytes, t: Bytes, prior: Value)
    requires FieldOk(f) && DecValue(f, s, prior).Ok?
    ensures DecValue(f, s + t, prior) == Ok(DecValue(f, s, prior).value, DecValue(f, s, prior).rest + t)
  {
    if Packable(f.ltype) {
      DecNumberLocal(f, s, t);
    } else if f.ltype.LSubmessage? {
      DecSubmessageLocal(f, s, t, prior);
    } else {
      SizedLocal(s, t);
    }
  }

  lemma DecFieldLocal(f: Field, wireType: nat, s: Bytes, t: Bytes, slot: Slot, count: nat)
    requires FieldOk(f) && |slot.items| == Cells(f) && DecField(f, wireType, s, slot, count).Ok?
    ensures var p := DecField(f, wireType, s, slot, count);
            DecField(f, wireType, s + t, slot, count) == Ok(p.value, p.rest + t)
  {
    if f.htype.Repeated? {
      if wireType == WT_STRING && Packable(f.ltype) {
        SizedLocal(s, t);
      } else {
        DecValueLocal(f, s, t, slot.items[count]);
      }
    } else if f.htype.Oneof? && f.ltype.LSubmessage? {
      DecValueLocal(f, s, t, Sub(SetDefaults(f.ptr.fields, Zero(f.ptr.fields))));
    } else {
      DecValueLocal(f, s, t, slot.items[0]);
    }
  }

  lemma StepLocal(fields: seq<Field>, tag: nat, wireType: nat, s: Bytes, t: Bytes, st: DecState)
    requires Wf(fields) && StateOk(fields, st) && Step(fields, tag, wireType, s, st).Ok?
    ensures var p := Step(fields, tag, wireType, s, st);
            Step(fields, tag, wireType, s + t, st) == Ok(p.value, p.rest + t)
  {
    match Find(fields, tag)
    case Some(i) =>
      var st1 := Enter(fields, i, st).value;
      var f := fields[i];
      var slot := st.msg.slots[f.at];
      DecFieldLocal(f, wireType, s, t, slot, CountOf(f, st1, slot));
    case None =>
      if fields == [] && tag == 0 {
        DecVarint32Local(s, t);
      } else {
        SkipLocal(wireType, s, t);
      }
  }

  // ---------------------------------------------------------------- the concatenation law

  /**
    When the loop uses up s1, running it on s1 followed by s2 is running it on s2 from the
    state s1 leaves. When it stops inside s1, s2 is left untouched.
   */
  lemma {:induction false} LoopConcat(fields: seq<Field>, s1: Bytes, s2: Bytes, st: DecState)
    requires Wf(fields) && StateOk(fields, st)
    ensures match Loop(fields, s1, st)
            case Drained(st1) => Loop(fields, s1 + s2, st) == Loop(fields, s2, st1)
            case Stopped(st1, rest) => Loop(fields, s1 + s2, st) == Stopped(st1, rest + s2)
            case Failed => true
    decreases |s1|
  {
    if s1 == [] {
      assert s1 + s2 == s2;
    } else if !Loop(fields, s1, st).Failed? {
      DecTagLocal(s1, s2);
      match DecTag(s1) {
        case TagFail =>
        case TagEnd(rest) =>
        case Tagged(tag, wireType, rest) =>
          StepLocal(fields, tag, wireType, rest, s2, st);
          var p := Step(fields, tag, wireType, rest, st);
          LoopConcat(fields, p.rest, s2, p.value);
      }
    }
  }

  // ---------------------------------------------------------------- what the seen set influences

  /** `a` is `b` with the required-field indices `extra` seen as well. */
  predicate SeesMore(a: DecState, b: DecState, extra: set<nat>) {
    a.msg == b.msg && a.fixedField == b.fixedField && a.fixedCount == b.fixedCount
    && a.seen == b.seen + extra
  }

  lemma EnterPassive(fields: seq<Field>, i: nat, a: DecState, b: DecState, extra: set<nat>)
    requires StateOk(fields, a) && StateOk(fields, b) && SeesMore(a, b, extra) && i < |fields|
    ensures var p, q := Enter(fields, i, a), Enter(fields, i, b);
            p.Some? == q.Some? && (p.Some? ==> SeesMore(p.value, q.value, extra))
  {
  }

  lemma StepPassive(fields: seq<Field>, tag: nat, wireType: nat, s: Bytes, a: DecState, b: DecState, extra: set<nat>)
    requires Wf(fields) && StateOk(fields, a) && StateOk(fields, b) && SeesMore(a, b, extra)
    ensures var p, q := Step(fields, tag, wireType, s, a), Step(fields, tag, wireType, s, b);
            && p.Ok? == q.Ok?
            && (p.Ok? ==> p.rest == q.rest && SeesMore(p.value, q.value, extra))
  {
    match Find(fields, tag)
    case None =>
    case Some(i) => EnterPassive(fields, i, a, b, extra);
  }

  /** The seen set is only written: the loop behaves the same whatever it holds. */
  lemma {:induction false} SeenIsPassive(fields: seq<Field>, s: Bytes, a: DecState, b: DecState, extra: set<nat>)
    requires Wf(fields) && StateOk(fields, a) && StateOk(fields, b) && SeesMore(a, b, extra)
    ensures match Loop(fields, s, a)
            case Failed => Loop(fields, s, b).Failed?
            case Drained(a') => Loop(fields, s, b).Drained? && SeesMore(a', Loop(fields, s, b).st, extra)
            case Stopped(a', rest) =>
              var r := Loop(fields, s, b);
              r.Stopped? && r.rest == rest && SeesMore(a', r.st, extra)
    decreases |s|
  {
    if s != [] && DecTag(s).Tagged? {
      var t := DecTag(s);
      StepPassive(fields, t.tag, t.wireType, t.rest, a, b, extra);
      var p := Step(fields, t.tag, t.wireType, t.rest, a);
      if p.Ok? {
        SeenIsPassive(fields, p.rest, p.value, Step(fields, t.tag, t.wireType, t.rest, b).value, extra);
      }
    }
  }

  /** The bytes of s are used up without meeting a zero tag. */
  predicate Unterminated(fields: seq<Field>, s: Bytes, m: Msg)
    requires Wf(fields) && Shaped(fields, m)
  {
    Loop(fields, s, Start(m)).Drained?
  }

  /** A fixed-count array of one bool, the only member of a struct. */
  const ONE_BOOL := Field(1, LBool, Repeated, Static, 0, 0, 1, 1, Null, 0)

  function OneBoolStruct(n: int): Msg {
    Msg(map[0 := Slot(0, [Num(n)])])
  }

  lemma OneBoolDecodes(n: int)
    ensures Shaped([ONE_BOOL], OneBoolStruct(n))
    ensures Loop([ONE_BOOL], [8, 1], Start(OneBoolStruct(n))) == Drained(DecState(OneBoolStruct(1), {}, Some(0), 1))
  {
    var d := OneBoolStruct(n);
    var st1 := DecState(OneBoolStruct(1), {}, Some(0), 1);
    assert DecTag([8, 1]) == Tagged(1, WT_VARINT, [1]);
    assert DecVarint32([1]) == Ok(1, []);
    assert [Num(n)][0 := Num(1)] == [Num(1)];
    assert DecField(ONE_BOOL, WT_VARINT, [1], Slot(0, [Num(n)]), 0) == Ok(Placed(Slot(0, [Num(1)]), 1), []);
    assert d.slots[0 := Slot(0, [Num(1)])] == OneBoolStruct(1).slots;
    assert Step([ONE_BOOL], 1, WT_VARINT, [1], Start(d)) == Ok(st1, []);
    assert Loop([ONE_BOOL], [], st1) == Drained(st1);
  }

  /**
    Fixed-count arrays break the law, because their entry counter is a local of the decoder:
    the same full array decodes twice in a row, but its two copies in one message do not.
   */
  lemma FixedCountDoesNotMerge()
    ensures exists fields, s: Bytes, d ::
              && Wf(fields) && Shaped(fields, d) && Unterminated(fields, s, d)
              && DecodeNoinit(fields, s, d).Ok?
              && DecodeNoinit(fields, s, DecodeNoinit(fields, s, d).value).Ok?
              && DecodeNoinit(fields, s + s, d).Fail?
  {
    var fields, s, d := [ONE_BOOL], [8, 1], OneBoolStruct(0);
    var st1 := DecState(OneBoolStruct(1), {}, Some(0), 1);
    OneBoolDecodes(0);
    OneBoolDecodes(1);
    assert DecodeNoinit(fields, s, d) == Ok(OneBoolStruct(1), []);
    LoopConcat(fields, s, s, Start(d));
    assert DecTag(s) == Tagged(1, WT_VARINT, [1]);
    assert Step(fields, 1, WT_VARINT, [1], st1).Fail?;
    assert Loop(fields, s + s, Start(d)).Failed?;
  }

  // ---------------------------------------------------------------- unknown fields

  /** The bytes of one field whose tag is not in the descriptor. */
  predicate UnknownField(fields: seq<Field>, u: Bytes) {
    && u != [] && DecTag(u).Tagged? && DecTag(u).tag >= 1
    && Find(fields, DecTag(u).tag).None?
    && Skip(DecTag(u).wireType, DecTag(u).rest) == Some([])
  }

  /**
    Inserting an unknown field where the decoder is between two fields changes neither
    the outcome nor the struct nor the bytes left.
   */
  lemma UnknownFieldIsTransparent(fields: seq<Field>, s1: Bytes, u: Bytes, s2: Bytes, m: Msg)
    requires Wf(fields) && Shaped(fields, m)
    requires Unterminated(fields, s1, m) && UnknownField(fields, u)
    ensures DecodeNoinit(fields, s1 + u + s2, m) == DecodeNoinit(fields, s1 + s2, m)
  {
    var st := Loop(fields, s1, Start(m)).st;
    assert Loop(fields, [], st) == Drained(st);
    assert Loop(fields, u, st) == Drained(st);
    LoopConcat(fields, s1, u + s2, Start(m));
    LoopConcat(fields, s1, s2, Start(m));
    LoopConcat(fields, u, s2, st);
    assert s1 + u + s2 == s1 + (u + s2);
  }
}
