/**
  The decoder of pb_decode.c as functions of the bytes left in the stream. The methods of
  the Decoder module are proved against these functions.
 */
module DecodeSpec {
  import opened Prelude
  import opened Bits
  import opened Wire
  import opened Scalars
  import opened Descriptor

  /**
    The locals of pb_decode_noinit that survive an iteration: the struct, the required
    fields seen (by required-field index), and the fixed-count array in progress.
   */
  datatype DecState = DecState(msg: Msg, seen: set<nat>, fixedField: Option<nat>, fixedCount: nat)

  /** How the field loop ends: a failure, all bytes used, or a zero tag met. */
  datatype Run = Failed | Drained(st: DecState) | Stopped(st: DecState, rest: Bytes)

  predicate StateOk(fields: seq<Field>, st: DecState) {
    && Shaped(fields, st.msg)
    && (st.fixedField.Some? ==> st.fixedField.value < |fields| && FixedCount(fields[st.fixedField.value]))
  }

  function Start(m: Msg): DecState {
    DecState(m, {}, None, 0)
  }

  // ---------------------------------------------------------------- descriptor lookups

  function FindFrom(fields: seq<Field>, tag: nat, k: nat): (r: Option<nat>)
    requires k <= |fields|
    ensures r.Some? ==> k <= r.value < |fields| && fields[r.value].tag == tag
    ensures r.None? <==> forall i :: k <= i < |fields| ==> fields[i].tag != tag
    decreases |fields| - k
  {
    if k == |fields| then None
    else if fields[k].tag == tag then Some(k)
    else FindFrom(fields, tag, k + 1)
  }

  /** pb_field_iter_find on a message without extension fields. */
  function Find(fields: seq<Field>, tag: nat): (r: Option<nat>)
    ensures r.Some? ==> r.value < |fields| && fields[r.value].tag == tag
    ensures r.None? <==> forall i :: 0 <= i < |fields| ==> fields[i].tag != tag
  {
    FindFrom(fields, tag, 0)
  }

  /** The fields whose presence the bitmap of pb_decode_noinit tracks. */
  predicate Tracked(fields: seq<Field>, i: nat) {
    i < |fields| && fields[i].htype.Required? && RequiredBefore(fields, i) < MAX_REQUIRED_FIELDS
  }

  predicate AllRequiredSeen(fields: seq<Field>, seen: set<nat>) {
    forall i :: 0 <= i < |fields| && Tracked(fields, i) ==> RequiredBefore(fields, i) in seen
  }

  predicate FixedComplete(fields: seq<Field>, st: DecState)
    requires StateOk(fields, st)
  {
    st.fixedField.Some? ==> st.fixedCount == fields[st.fixedField.value].arraySize
  }

  // ---------------------------------------------------------------- field decoders

  function Stored(v: Option<int>, rest: Bytes): Parse<Value> {
    match v
    case None => Fail
    case Some(n) => Ok(Num(n), rest)
  }

  /** The decoders of the packable types. */
  function DecNumber(f: Field, s: Bytes): (p: Parse<Value>)
    requires Packable(f.ltype)
    ensures p.Ok? ==> Consumed(s, p.rest)
  {
    if f.ltype.LBool? then
      match DecVarint32(s)
      case Fail => Fail
      case Ok(v, rest) => Ok(Num(if v != 0 then 1 else 0), rest)
    else if f.ltype.LFixed32? || f.ltype.LFixed64? then
      match Take(s, if f.ltype.LFixed32? then 4 else 8)
      case Fail => Fail
      case Ok(bs, rest) => Ok(Num(FromLE(bs)), rest)
    else
      match DecVarint(s)
      case Fail => Fail
      case Ok(v, rest) =>
        Stored(if f.ltype.LVarint? then StoreSigned(v, f.dataSize)
               else if f.ltype.LUVarint? then StoreUnsigned(v, f.dataSize)
               else StoreZigZag(v, f.dataSize), rest)
  }

  /** Whether `n` bytes fit the buffer of a bytes or string field. */
  predicate Fits(f: Field, n: nat) {
    match f.ltype
    case LBytes => n + BYTES_HEADER <= f.dataSize
    case LString => n + 1 < TWO32 && n + 1 <= f.dataSize
    case _ => n == f.dataSize
  }

  /** What a buffer that held `prior` holds after `bs` was read into it. */
  function BlobOf(f: Field, bs: Bytes, prior: Value): Value
    requires f.ltype.LString? ==> |bs| + 1 <= f.dataSize
  {
    Blob(if f.ltype.LString? then bs + [0] + AsBuffer(prior, f.dataSize)[|bs| + 1..] else bs)
  }

  /** pb_dec_bytes, pb_dec_string and pb_dec_fixed_length_bytes (where no bytes mean all zeros). */
  function DecBlob(f: Field, s: Bytes, prior: Value): (p: Parse<Value>)
    requires f.ltype.LBytes? || f.ltype.LString? || f.ltype.LFixedBytes?
    ensures p.Ok? ==> Consumed(s, p.rest)
  {
    match DecVarint32(s)
    case Fail => Fail
    case Ok(n, rest) =>
      if f.ltype.LFixedBytes? && n == 0 then Ok(Blob(Zeros(f.dataSize)), rest)
      else if !Fits(f, n) then Fail
      else
        match Take(rest, n)
        case Fail => Fail
        case Ok(bs, rest') => Ok(BlobOf(f, bs, prior), rest')
  }

  /** pb_dec_submessage: an array entry is initialised first, anything else is merged into. */
  function DecSubmessage(f: Field, s: Bytes, prior: Value): (p: Parse<Value>)
    requires FieldOk(f) && f.ltype.LSubmessage?
    ensures p.Ok? ==> Consumed(s, p.rest)
    decreases |s|, 0
  {
    match DecVarint32(s)
    case Fail => Fail
    case Ok(n, rest) =>
      if n > |rest| then Fail
      else
        var m := AsMsg(f.ptr.fields, prior);
        var r := if f.htype.Repeated? then Decode(f.ptr.fields, rest[..n], m)
                 else DecodeNoinit(f.ptr.fields, rest[..n], m);
        match r
        case Fail => Fail
        case Ok(m', _) => Ok(Sub(m'), rest[n..])
  }

  /** The PB_DECODERS entry of a field: reads one value into a cell holding `prior`. */
  function DecValue(f: Field, s: Bytes, prior: Value): (p: Parse<Value>)
    requires FieldOk(f)
    ensures p.Ok? ==> Consumed(s, p.rest)
    decreases |s|, 1
  {
    if Packable(f.ltype) then DecNumber(f, s)
    else if f.ltype.LSubmessage? then DecSubmessage(f, s, prior)
    else DecBlob(f, s, prior)
  }

  /** The items and the count a packed chunk leaves, and the bytes it could not use. */
  datatype Packed = PackedFail | PackedOk(items: seq<Value>, count: nat, rest: Bytes)

  /** The loop over the substream of a packed array. */
  function PackedLoop(f: Field, s: Bytes, items: seq<Value>, count: nat): (r: Packed)
    requires Packable(f.ltype) && |items| == f.arraySize
    ensures r.PackedOk? ==> |r.items| == |items| && |r.rest| <= |s|
    decreases |s|
  {
    if s == [] || count >= f.arraySize then PackedOk(items, count, s)
    else
      match DecNumber(f, s)
      case Fail => PackedFail
      case Ok(v, rest) => PackedLoop(f, rest, items[count := v], count + 1)
  }

  /** What decode_static_field leaves: the slot and the entry count. */
  datatype Placed = Placed(slot: Slot, count: nat)

  /**
    decode_static_field. `count` is the number of array entries so far: the struct's count
    member, or the local counter for a fixed-count array.
   */
  function DecField(f: Field, wireType: nat, s: Bytes, slot: Slot, count: nat): (p: Parse<Placed>)
    requires FieldOk(f) && |slot.items| == Cells(f)
    ensures p.Ok? ==> Consumed(s, p.rest) && |p.value.slot.items| == Cells(f)
    decreases |s|, 3
  {
    match f.htype
    case Required =>
      (match DecValue(f, s, slot.items[0])
       case Fail => Fail
       case Ok(v, rest) => Ok(Placed(Slot(slot.size, [v]), count), rest))
    case Optional =>
      (match DecValue(f, s, slot.items[0])
       case Fail => Fail
       case Ok(v, rest) =>
         Ok(Placed(Slot(if f.sizeOffset != 0 then 1 else slot.size, [v]), count), rest))
    case Oneof =>
      (var prior := if f.ltype.LSubmessage? then Sub(SetDefaults(f.ptr.fields, Zero(f.ptr.fields)))
                    else slot.items[0];
       match DecValue(f, s, prior)
       case Fail => Fail
       case Ok(v, rest) => Ok(Placed(Slot(f.tag, [v]), count), rest))
    case Repeated =>
      if wireType == WT_STRING && Packable(f.ltype) then
        match DecVarint32(s)
        case Fail => Fail
        case Ok(n, rest) =>
          if n > |rest| then Fail
          else
            match PackedLoop(f, rest[..n], slot.items, count)
            case PackedFail => Fail
            case PackedOk(items, c, left) =>
              if left != [] then Fail
              else Ok(Placed(Slot(if FixedCount(f) then slot.size else c, items), c), rest[n..])
      else if count >= f.arraySize then Fail
      else
        match DecValue(f, s, slot.items[count])
        case Fail => Fail
        case Ok(v, rest) =>
          Ok(Placed(Slot(if FixedCount(f) then slot.size else count + 1, slot.items[count := v]), count + 1), rest)
  }

  // ---------------------------------------------------------------- the field loop

  /** The bookkeeping for field `i` before its payload is read; None is a wrong fixed count. */
  function Enter(fields: seq<Field>, i: nat, st: DecState): (r: Option<DecState>)
    requires StateOk(fields, st) && i < |fields|
    ensures r.Some? ==> StateOk(fields, r.value) && r.value.msg == st.msg
  {
    var f := fields[i];
    var seen := if Tracked(fields, i) then st.seen + {RequiredBefore(fields, i)} else st.seen;
    if FixedCount(f) && st.fixedField != Some(i) then
      if !FixedComplete(fields, st) then None
      else Some(DecState(st.msg, seen, Some(i), 0))
    else Some(st.(seen := seen))
  }

  /** The entry count a field starts from. */
  function CountOf(f: Field, st: DecState, slot: Slot): nat {
    if FixedCount(f) then st.fixedCount else slot.size
  }

  /** The body of the field loop once field `i` has been found. */
  function StepFound(fields: seq<Field>, i: nat, wireType: nat, s: Bytes, st: DecState): (p: Parse<DecState>)
    requires Wf(fields) && StateOk(fields, st) && i < |fields|
    ensures p.Ok? ==> Consumed(s, p.rest) && StateOk(fields, p.value)
    decreases |s|, 4
  {
    var f := fields[i];
    match Enter(fields, i, st)
    case None => Fail
    case Some(st1) =>
      var slot := st.msg.slots[f.at];
      match DecField(f, wireType, s, slot, CountOf(f, st1, slot))
      case Fail => Fail
      case Ok(placed, rest) =>
        Ok(st1.(msg := WithSlot(fields, st.msg, i, placed.slot),
                fixedCount := if FixedCount(f) then placed.count else st1.fixedCount), rest)
  }

  /**
    The body of the field loop after the tag. An unknown field is skipped; in a message
    without fields, tag 0 names the terminator entry, which is read as a bool.
   */
  function Step(fields: seq<Field>, tag: nat, wireType: nat, s: Bytes, st: DecState): (p: Parse<DecState>)
    requires Wf(fields) && StateOk(fields, st)
    ensures p.Ok? ==> Consumed(s, p.rest) && StateOk(fields, p.value)
    decreases |s|, 5
  {
    match Find(fields, tag)
    case Some(i) => StepFound(fields, i, wireType, s, st)
    case None =>
      if fields == [] && tag == 0 then
        match DecVarint32(s)
        case Fail => Fail
        case Ok(_, rest) => Ok(st, rest)
      else
        match Skip(wireType, s)
        case None => Fail
        case Some(rest) => Ok(st, rest)
  }

  /** The while loop of pb_decode_noinit. */
  function Loop(fields: seq<Field>, s: Bytes, st: DecState): (r: Run)
    requires Wf(fields) && StateOk(fields, st)
    ensures !r.Failed? ==> StateOk(fields, r.st)
    ensures r.Stopped? ==> Consumed(s, r.rest)
    decreases |s|, 6
  {
    if s == [] then Drained(st)
    else
      match DecTag(s)
      case TagFail => Failed
      case TagEnd(rest) => Stopped(st, rest)
      case Tagged(tag, wireType, rest) =>
        match Step(fields, tag, wireType, rest, st)
        case Fail => Failed
        case Ok(st', rest') => Loop(fields, rest', st')
  }

  /** The checks of pb_decode_noinit after its loop. */
  function Finish(fields: seq<Field>, st: DecState, rest: Bytes): (p: Parse<Msg>)
    requires StateOk(fields, st)
  {
    if FixedComplete(fields, st) && AllRequiredSeen(fields, st.seen) then Ok(st.msg, rest) else Fail
  }

  /** pb_decode_noinit. */
  function DecodeNoinit(fields: seq<Field>, s: Bytes, m: Msg): (p: Parse<Msg>)
    requires Wf(fields) && Shaped(fields, m)
    ensures p.Ok? ==> Shaped(fields, p.value) && |p.rest| <= |s|
    decreases |s|, 7
  {
    match Loop(fields, s, Start(m))
    case Failed => Fail
    case Drained(st) => Finish(fields, st, [])
    case Stopped(st, rest) => Finish(fields, st, rest)
  }

  /** pb_decode. */
  function Decode(fields: seq<Field>, s: Bytes, m: Msg): (p: Parse<Msg>)
    requires Wf(fields) && Shaped(fields, m)
    ensures p.Ok? ==> Shaped(fields, p.value) && |p.rest| <= |s|
    decreases |s|, 8
  {
    DecodeNoinit(fields, s, SetDefaults(fields, m))
  }

  /** pb_decode_delimited: a length and a message in a substream that is then closed. */
  function DecodeDelimited(fields: seq<Field>, s: Bytes, m: Msg): (p: Parse<Msg>)
    requires Wf(fields) && Shaped(fields, m)
    ensures p.Ok? ==> Shaped(fields, p.value) && Consumed(s, p.rest)
  {
    match DecVarint32(s)
    case Fail => Fail
    case Ok(n, rest) =>
      if n > |rest| then Fail
      else
        match Decode(fields, rest[..n], m)
        case Fail => Fail
        case Ok(m', _) => Ok(m', rest[n..])
  }
}
