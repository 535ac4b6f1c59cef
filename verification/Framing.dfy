/** Several messages in one stream: delimited and null-terminated framing. */
module Framing {
  import opened Prelude
  import opened Bits
  import opened Wire
  import opened Descriptor
  import opened DecodeSpec
  import opened EncodeSpec
  import opened Observe
  import opened Merge
  import opened ValueTrip
  import opened RoundTrip

  /** A descriptor and a struct the round trip holds for. */
  predicate Sendable(fields: seq<Field>, m: Msg) {
    Wf(fields) && Plain(fields) && Shaped(fields, m) && MsgOk(fields, m) && Short(fields, m)
  }

  /** And one whose own length can be sent, too. */
  predicate Delimitable(fields: seq<Field>, m: Msg) {
    Sendable(fields, m) && (Enc(fields, m).Some? ==> |Enc(fields, m).value| < TWO32)
  }

  /** One delimited message is read back, and the reader stops where it ends. */
  lemma DelimitedTrip(fields: seq<Field>, m: Msg, d: Msg, t: Bytes)
    requires Delimitable(fields, m) && Shaped(fields, d)
    ensures EncDelimited(fields, m).Some?
    ensures var p := DecodeDelimited(fields, EncDelimited(fields, m).value + t, d);
            p.Ok? && p.rest == t && SameMsg(fields, m, p.value, false)
  {
    MsgTrip(fields, m, d);
    var bs := Enc(fields, m).value;
    SizedTrip(bs, t);
    SplitAt(bs, t);
  }

  predicate AllDelimitable(fields: seq<Field>, ms: seq<Msg>) {
    forall i :: 0 <= i < |ms| ==> Delimitable(fields, ms[i])
  }

  predicate AllShaped(fields: seq<Field>, ds: seq<Msg>) {
    forall i :: 0 <= i < |ds| ==> Shaped(fields, ds[i])
  }

  /** The messages from number i on, written one after the other by pb_encode_delimited. */
  function EncStream(fields: seq<Field>, ms: seq<Msg>, i: nat): Option<Bytes>
    requires Wf(fields) && AllShaped(fields, ms) && i <= |ms|
    decreases |ms| - i
  {
    if i == |ms| then Some([]) else Append(EncDelimited(fields, ms[i]), EncStream(fields, ms, i + 1))
  }

  /**
    Calling pb_decode_delimited on `s` for the destinations from number i on succeeds each
    time, yields structs that read the same as those of `ms`, and leaves `t`.
   */
  predicate ReadsBack(fields: seq<Field>, s: Bytes, ms: seq<Msg>, ds: seq<Msg>, i: nat, t: Bytes)
    requires Wf(fields) && AllShaped(fields, ms) && AllShaped(fields, ds) && i <= |ms| == |ds|
    decreases |ms| - i
  {
    if i == |ms| then s == t
    else
      var p := DecodeDelimited(fields, s, ds[i]);
      p.Ok? && SameMsg(fields, ms[i], p.value, false) && ReadsBack(fields, p.rest, ms, ds, i + 1, t)
  }

  /** k delimited messages are read back in order by k calls, which leave what follows. */
  lemma {:induction false} StreamTrip(fields: seq<Field>, ms: seq<Msg>, ds: seq<Msg>, i: nat, t: Bytes)
    requires Wf(fields) && AllShaped(fields, ms) && AllDelimitable(fields, ms) && AllShaped(fields, ds) && i <= |ms| == |ds|
    ensures EncStream(fields, ms, i).Some?
    ensures ReadsBack(fields, EncStream(fields, ms, i).value + t, ms, ds, i, t)
    decreases |ms| - i
  {
    if i == |ms| {
      assert [] + t == t;
    } else {
      StreamTrip(fields, ms, ds, i + 1, t);
      var b := EncStream(fields, ms, i + 1).value;
      DelimitedTrip(fields, ms[i], ds[i], b + t);
      var a := EncDelimited(fields, ms[i]).value;
      Assoc(a, b, t);
    }
  }

  /**
    A message written by pb_encode_nullterminated and followed by arbitrary bytes is read
    back by pb_decode, which leaves exactly those bytes.
   */
  lemma NullTerminatedTrip(fields: seq<Field>, m: Msg, d: Msg, t: Bytes)
    requires Sendable(fields, m) && Shaped(fields, d)
    ensures Enc(fields, m).Some?
    ensures var p := Decode(fields, Enc(fields, m).value + [0] + t, d);
            p.Ok? && p.rest == t && SameMsg(fields, m, p.value, false)
  {
    MsgTrip(fields, m, d);
    var bs := Enc(fields, m).value;
    var start := Start(SetDefaults(fields, d));
    var st := Loop(fields, bs, start).st;
    LoopConcat(fields, bs, [0] + t, start);
    Assoc(bs, [0], t);
    SplitAt([0], t);
    assert DecTag([0] + t) == TagEnd(t);
    assert Loop(fields, [0] + t, st) == Stopped(st, t);
  }

  // ---------------------------------------------------------------- messages cut short

  lemma {:induction false} CutVarint(v: nat, n: nat)
    requires n < |EncVarint(v)|
    ensures forall i :: 0 <= i < n ==> EncVarint(v)[i] >= 128
    decreases n
  {
    if n > 0 {
      CutVarint(v / 128, n - 1);
      assert EncVarint(v) == [v % 128 + 128] + EncVarint(v / 128);
    }
  }

  lemma {:induction false} NoEnd(s: Bytes, bitpos: nat, result: nat)
    requires result < TWO32 && forall i :: 0 <= i < |s| ==> s[i] >= 128
    ensures Dec32Tail(s, bitpos, result).Fail?
    decreases |s|
  {
    if s != [] && !(bitpos >= 32 && BadHighGroup(s[0], bitpos, result)) {
      NoEnd(s[1..], (bitpos + 7) % 256, Or32(result, s[0], bitpos));
    }
  }

  /** A delimited message that is cut anywhere, in its length or in its body, is refused. */
  lemma CutIsRefused(fields: seq<Field>, bs: Bytes, n: nat, d: Msg)
    requires Wf(fields) && Shaped(fields, d) && |bs| < TWO32 && n < |EncSized(bs)|
    ensures DecodeDelimited(fields, EncSized(bs)[..n], d).Fail?
  {
    var e := EncVarint(|bs|);
    var s := EncSized(bs)[..n];
    if n < |e| {
      CutVarint(|bs|, n);
      assert forall i :: 0 <= i < n ==> s[i] == e[i];
      if s != [] {
        NoEnd(s[1..], 7, Low7(s[0]));
      }
    } else {
      assert s == e + bs[..n - |e|];
      Varint32RoundTrip(|bs|, bs[..n - |e|]);
    }
  }
}
