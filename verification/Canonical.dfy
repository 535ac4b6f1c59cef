/**
  The encoder looks only at what a program can tell about a struct. So decoding arbitrary
  bytes and encoding the result gives a canonical encoding: one that decodes to the same
  struct again, and encodes to the same bytes.
 */
module Canonical {
  import opened Prelude
  import opened Bits
  import opened Wire
  import opened Descriptor
  import opened DecodeSpec
  import opened EncodeSpec
  import opened Observe
  import opened ValueTrip
  import opened RoundTrip
  import opened DecodedValid

  // ---------------------------------------------------------------- structs that read the same encode the same

  lemma EmptyString(b: Bytes)
    ensures (CString(b) == [] <==> b == [] || b[0] == 0)
  {
  }

  lemma {:induction false} EncValueSame(f: Field, a: Value, b: Value)
    requires FieldOk(f) && SameValue(f, a, b, false)
    ensures EncValue(f, a) == EncValue(f, b)
    ensures IsZero(f, a) == IsZero(f, b)
    decreases f, 0
  {
    if f.ltype.LSubmessage? {
      EncSame(f.ptr.fields, AsMsg(f.ptr.fields, a), AsMsg(f.ptr.fields, b));
    } else if f.ltype.LString? {
      var x, y := AsBuffer(a, f.dataSize), AsBuffer(b, f.dataSize);
      StrnLenIsCString(x);
      StrnLenIsCString(y);
      EmptyString(x);
      EmptyString(y);
    }
  }

  lemma {:induction false} EncItemsSame(f: Field, a: seq<Value>, b: seq<Value>, n: nat)
    requires FieldOk(f) && n <= |a| == |b|
    requires forall k :: 0 <= k < n ==> SameValue(f, a[k], b[k], false)
    ensures EncItems(f, a, n) == EncItems(f, b, n) && EncEntries(f, a, n) == EncEntries(f, b, n)
    decreases f, 1, n
  {
    if n > 0 {
      EncItemsSame(f, a, b, n - 1);
      EncValueSame(f, a[n - 1], b[n - 1]);
    }
  }

  lemma {:induction false} EncFieldSame(f: Field, a: Slot, b: Slot)
    requires FieldOk(f) && |a.items| == |b.items| == Cells(f) && SameSlot(f, a, b, false)
    ensures EncField(f, a) == EncField(f, b) && IsDefault(f, a) == IsDefault(f, b)
    decreases f, 2
  {
    if f.htype.Repeated? {
      if Entries(f, a) <= f.arraySize {
        EncItemsSame(f, a.items, b.items, Entries(f, a));
      }
    } else if SameValue(f, a.items[0], b.items[0], false) {
      EncValueSame(f, a.items[0], b.items[0]);
    }
  }

  lemma {:induction false} EncUpToSame(fields: seq<Field>, k: nat, a: Msg, b: Msg)
    requires Wf(fields) && Shaped(fields, a) && Shaped(fields, b) && SameMsg(fields, a, b, false) && k <= |fields|
    ensures EncUpTo(fields, k, a) == EncUpTo(fields, k, b)
    decreases fields, k
  {
    if k > 0 {
      assert fields[k - 1] in fields;
      EncUpToSame(fields, k - 1, a, b);
      EncFieldSame(fields[k - 1], a.slots[fields[k - 1].at], b.slots[fields[k - 1].at]);
    }
  }

  /** Structs that read the same, valid or not, are encoded to the same bytes or both refused. */
  lemma {:induction false} EncSame(fields: seq<Field>, a: Msg, b: Msg)
    requires Wf(fields) && Shaped(fields, a) && Shaped(fields, b) && SameMsg(fields, a, b, false)
    ensures Enc(fields, a) == Enc(fields, b) && AllDefault(fields, a) == AllDefault(fields, b)
    decreases fields, |fields| + 1
  {
    EncUpToSame(fields, |fields|, a, b);
    forall i | 0 <= i < |fields|
      ensures IsDefault(fields[i], a.slots[fields[i].at]) == IsDefault(fields[i], b.slots[fields[i].at])
    {
      EncFieldSame(fields[i], a.slots[fields[i].at], b.slots[fields[i].at]);
    }
  }

  // ---------------------------------------------------------------- decoding and encoding again

  /**
    For any bytes the decoder accepts: the result can be encoded, and below 4 GiB that
    encoding is read back as the same struct, wherever it is decoded to, and encoded to
    itself.
   */
  lemma DecodedReencodes(fields: seq<Field>, s: Bytes, d: Msg, x: Msg)
    requires Wf(fields) && Sound(fields) && Plain(fields) && Shaped(fields, d) && Shaped(fields, x)
    requires Counted(fields) || TidyMsg(fields, d, false)
    requires Decode(fields, s, d).Ok?
    ensures var e := Enc(fields, Decode(fields, s, d).value);
            e.Some? && (|e.value| < TWO32 ==>
                          var p := Decode(fields, e.value, x);
                          && p.Ok? && p.rest == []
                          && SameMsg(fields, Decode(fields, s, d).value, p.value, false)
                          && Enc(fields, p.value) == e)
  {
    var m := Decode(fields, s, d).value;
    DecodedIsValid(fields, s, d);
    MsgEncodes(fields, m);
    var e := Enc(fields, m).value;
    if |e| < TWO32 {
      WholeShort(fields, m);
      MsgTrip(fields, m, x);
      EncSame(fields, m, Decode(fields, e, x).value);
    }
  }

  /** Two valid structs have the same encoding exactly when they read the same. */
  lemma EncodingsTellApart(fields: seq<Field>, a: Msg, b: Msg)
    requires Wf(fields) && Plain(fields) && Shaped(fields, a) && Shaped(fields, b)
    requires MsgOk(fields, a) && Short(fields, a) && MsgOk(fields, b) && Short(fields, b)
    ensures Enc(fields, a) == Enc(fields, b) <==> SameMsg(fields, a, b, false)
  {
    if Enc(fields, a) == Enc(fields, b) {
      MsgTrip(fields, a, a);
      MsgTrip(fields, b, a);
      SameMsgCommon(fields, a, b, Decode(fields, Enc(fields, a).value, a).value);
    } else if SameMsg(fields, a, b, false) {
      EncSame(fields, a, b);
    }
  }
}
