/** A message through a buffer: the sizing pass, the encoder and the decoder put together. */
module Transfer {
  import opened Prelude
  import opened Wire
  import opened Descriptor
  import opened FieldIterator
  import opened Observe
  import opened RoundTrip
  import opened Framing
  import opened EncodeSize
  import opened OutputStream
  import InputStream
  import EncodeSpec
  import DecodeSpec
  import Encoder
  import Decoder

  /** What an encoder that started on an empty buffer leaves in it. */
  lemma WrittenFromStart(all: Bytes, end: Out, e: Option<Bytes>, ok: bool)
    requires Emitted(Buffer([], all, |all|, 0), end, e, ok)
    ensures ok <==> e.Some? && |e.value| <= |all|
    ensures ok ==> end == Buffer(e.value, all[|e.value|..], |all| - |e.value|, |e.value|)
  {
    if ok {
      assert [] + e.value == e.value;
    }
  }

  /** The encoder on a whole buffer. */
  method Send(fields: seq<Field>, m: Msg, buf: array<byte>) returns (sent: bool, written: nat)
    requires Built(fields) && Sizeable(fields) && Shaped(fields, m)
    modifies buf
    ensures sent <==> EncodeSpec.Enc(fields, m).Some? && |EncodeSpec.Enc(fields, m).value| <= buf.Length
    ensures sent ==> written == |EncodeSpec.Enc(fields, m).value| && buf[..written] == EncodeSpec.Enc(fields, m).value
                     && buf[written..] == old(buf[written..])
  {
    ghost var all := buf[..];
    var output := new OStream(buf, buf.Length);
    sent := Encoder.Encode(output, fields, m);
    WrittenFromStart(all, output.Snap(), EncodeSpec.Enc(fields, m), sent);
    written := output.written;
  }

  /** The decoder on the beginning of a buffer. */
  method Receive(fields: seq<Field>, d: Msg, buf: array<byte>, size: nat) returns (ok: bool, r: Msg)
    requires Built(fields) && Shaped(fields, d) && size <= buf.Length
    ensures ok <==> DecodeSpec.Decode(fields, buf[..size], d).Ok?
    ensures ok ==> r == DecodeSpec.Decode(fields, buf[..size], d).value
  {
    var input := new InputStream.IStream(buf, size);
    ok, r := Decoder.Decode(input, fields, d);
  }

  /**
    A valid struct is encoded exactly when the size the sizing pass reports fits the buffer;
    then the bytes behind it are untouched, and decoding the written bytes into any struct
    succeeds and yields a struct that reads the same.
   */
  method SendAndReceive(fields: seq<Field>, m: Msg, d: Msg, buf: array<byte>)
    returns (size: nat, sent: bool, received: bool, r: Msg)
    requires Built(fields) && Sizeable(fields) && Sendable(fields, m) && Shaped(fields, d)
    modifies buf
    ensures sent <==> size <= buf.Length
    ensures sent ==> buf[size..] == old(buf[size..])
    ensures sent ==> received && Shaped(fields, r) && SameMsg(fields, m, r, false)
  {
    MsgTrip(fields, m, d);
    var sized: bool;
    sized, size := Encoder.GetEncodedSize(fields, m);
    var written: nat;
    sent, written := Send(fields, m, buf);
    received, r := false, d;
    if sent {
      received, r := Receive(fields, d, buf, written);
    }
  }
}
