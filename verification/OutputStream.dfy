/**
  pb_ostream_t: a stream that writes into a bounded buffer, or, without a callback, only
  counts (PB_OSTREAM_SIZING), with the primitive writers of pb_encode.c.
 */
module OutputStream {
  import opened Prelude
  import opened Bits
  import opened Wire
  import opened Scalars

  // ---------------------------------------------------------------- what a writer does to a stream

  /**
    The state of a stream: the buffer before and after the cursor, how many more bytes may
    be written, and bytes_written.
   */
  datatype Out =
    | Sizing(written: nat)
    | Buffer(before: Bytes, after: Bytes, room: nat, written: nat)

  predicate OutOk(o: Out) {
    o.Buffer? ==> o.room <= |o.after|
  }

  predicate Fits(o: Out, e: Bytes) {
    o.Buffer? ==> |e| <= o.room
  }

  /** The stream after `e` has been written to it. */
  function Emit(o: Out, e: Bytes): (r: Out)
    requires OutOk(o) && Fits(o, e)
    ensures OutOk(r) && r.written == o.written + |e|
  {
    match o
    case Sizing(n) => Sizing(n + |e|)
    case Buffer(before, after, room, n) => Buffer(before + e, after[|e|..], room - |e|, n + |e|)
  }

  /** From `a` to `b` nothing was written but bytes at the cursor, within the room of `a`. */
  predicate Touched(a: Out, b: Out)
    requires OutOk(a)
  {
    match a
    case Sizing(n) => b.Sizing? && n <= b.written
    case Buffer(before, after, room, n) =>
      && b.Buffer? && OutOk(b) && b.room <= room
      && b.written + b.room == n + room
      && |b.before| + b.room == |before| + room
      && before <= b.before
      && b.after[b.room..] == after[room..]
  }

  /**
    The contract of every writer whose output is `e`: it succeeds exactly when there is an
    output and it fits, and then exactly `e` was written; otherwise at most bytes within
    the room were spoilt.
   */
  predicate Emitted(a: Out, b: Out, e: Option<Bytes>, ok: bool) {
    && OutOk(a)
    && (ok <==> e.Some? && Fits(a, e.value))
    && (ok ==> b == Emit(a, e.value))
    && (!ok ==> Touched(a, b))
  }

  lemma DropDrop(s: Bytes, i: nat, j: nat)
    requires i + j <= |s|
    ensures s[i..][j..] == s[i + j..]
  {
  }

  lemma EmitTouched(a: Out, e: Bytes)
    requires OutOk(a) && Fits(a, e)
    ensures Touched(a, Emit(a, e))
  {
    if a.Buffer? {
      DropDrop(a.after, |e|, a.room - |e|);
    }
  }

  /** Writing two outputs one after the other is writing their concatenation. */
  lemma EmitConcat(a: Out, e: Bytes, f: Bytes)
    requires OutOk(a) && Fits(a, e)
    ensures Fits(Emit(a, e), f) <==> Fits(a, e + f)
    ensures Fits(a, e + f) ==> Emit(Emit(a, e), f) == Emit(a, e + f)
  {
    if a.Buffer? && Fits(a, e + f) {
      DropDrop(a.after, |e|, |f|);
      Assoc(a.before, e, f);
    }
  }

  lemma TouchedTwice(a: Out, b: Out, c: Out)
    requires OutOk(a) && Touched(a, b) && OutOk(b) && Touched(b, c)
    ensures Touched(a, c)
  {
  }

  /** Two writers in a row are one writer. */
  lemma EmittedThen(a: Out, b: Out, c: Out, e: Bytes, f: Option<Bytes>, ok: bool)
    requires Emitted(a, b, Some(e), true) && Emitted(b, c, f, ok)
    ensures Emitted(a, c, Append(Some(e), f), ok)
  {
    EmitTouched(a, e);
    if f.Some? {
      EmitConcat(a, e, f.value);
    }
    if !ok {
      TouchedTwice(a, b, c);
    }
  }

  /** When the first writer fails, nothing follows. */
  lemma EmittedNot(a: Out, b: Out, e: Option<Bytes>, f: Option<Bytes>)
    requires Emitted(a, b, e, false)
    ensures Emitted(a, b, Append(e, f), false)
  {
  }

  /**
    Exact capacity. If a sizing run reports n bytes, a run into a buffer succeeds if and
    only if n bytes fit; it then writes exactly n bytes, and never past the room it has.
   */
  lemma ExactCapacity(n: nat, sized: Out, sizedOk: bool, start: Out, end: Out, ok: bool, e: Option<Bytes>)
    requires Emitted(Sizing(n), sized, e, sizedOk) && Emitted(start, end, e, ok) && start.Buffer?
    ensures ok <==> sizedOk && sized.written - n <= start.room
    ensures ok ==> end.written - start.written == |end.before| - |start.before| == sized.written - n
    ensures end.Buffer? && start.before <= end.before && OutOk(end)
    ensures |end.before| + |end.after| == |start.before| + |start.after|
    ensures end.after[end.room..] == start.after[start.room..]
  {
    if ok {
      EmitTouched(start, e.value);
    }
    if end.Buffer? && OutOk(end) {
      assert |end.after[end.room..]| == |end.after| - end.room;
    }
  }

  // ---------------------------------------------------------------- bytes of a word

  lemma MulAssoc(p: nat, b: nat, r: nat, a: nat)
    ensures (p * b + r) * a == p * (a * b) + r * a
  {
    assert (p * b + r) * a == p * b * a + r * a;
    assert p * b * a == p * (a * b);
  }

  lemma MulBound(r: nat, b: nat, a: nat)
    requires r < b
    ensures r * a + a <= a * b
  {
    assert (b - 1 - r) * a >= 0;
    assert (b - 1 - r) * a == b * a - a - r * a;
  }

  lemma DivDiv(x: nat, a: nat, b: nat)
    requires a >= 1 && b >= 1
    ensures a * b >= 1 && x / a / b == x / (a * b)
  {
    var q, r := x / a, x / a % b;
    MulAssoc(q / b, b, r, a);
    MulBound(r, b, a);
    DivModUnique(x, q / b, r * a + x % a, a * b);
  }

  lemma LEFour(v: nat, k: nat)
    ensures ToLE(v, 4 + k) == [v % 256, v / 0x100 % 256, v / 0x1_0000 % 256, v / 0x100_0000 % 256] + ToLE(v / TWO32, k)
  {
    DivDiv(v, 0x100, 0x100);
    DivDiv(v, 0x1_0000, 0x100);
    DivDiv(v, 0x100_0000, 0x100);
    assert ToLE(v, 4 + k) == [v % 256] + ToLE(v / 0x100, 3 + k);
    assert ToLE(v / 0x100, 3 + k) == [v / 0x100 % 256] + ToLE(v / 0x1_0000, 2 + k);
    assert ToLE(v / 0x1_0000, 2 + k) == [v / 0x1_0000 % 256] + ToLE(v / 0x100_0000, 1 + k);
    assert ToLE(v / 0x100_0000, 1 + k) == [v / 0x100_0000 % 256] + ToLE(v / TWO32, k);
  }

  /** The bytes pb_encode_fixed32 shifts out are the little-endian form. */
  lemma LEBytes4(v: nat, n: nat)
    requires n == 4
    ensures ToLE(v, n) == [v % 256, v / 0x100 % 256, v / 0x1_0000 % 256, v / 0x100_0000 % 256]
  {
    LEFour(v, n - 4);
  }

  /** The bytes pb_encode_fixed64 shifts out are the little-endian form. */
  lemma LEBytes8(v: nat, n: nat)
    requires n == 8
    ensures ToLE(v, n) == [v % 256, v / 0x100 % 256, v / 0x1_0000 % 256, v / 0x100_0000 % 256,
                           v / TWO32 % 256, v / 0x100_0000_0000 % 256,
                           v / 0x1_0000_0000_0000 % 256, v / 0x100_0000_0000_0000 % 256]
  {
    LEFour(v, n - 4);
    LEBytes4(v / TWO32, n - 4);
    DivDiv(v, TWO32, 0x100);
    DivDiv(v, TWO32, 0x1_0000);
    DivDiv(v, TWO32, 0x100_0000);
  }

  // ---------------------------------------------------------------- the loop of pb_encode_varint

  /** What the loop of pb_encode_varint has stored when `rest` is still to be shifted out. */
  predicate Shifted(value: nat, stored: Bytes, rest: nat) {
    if rest > 0 then EncVarint(value) == stored + EncVarint(rest)
    else stored != [] && stored[|stored| - 1] >= 128
         && EncVarint(value) == stored[..|stored| - 1] + [stored[|stored| - 1] - 128]
  }

  lemma ShiftedStep(value: nat, stored: Bytes, rest: nat)
    requires rest > 0 && Shifted(value, stored, rest)
    ensures Shifted(value, stored + [rest % 128 + 128], rest / 128)
    ensures |EncVarint(value)| > |stored|
  {
    var b: byte := rest % 128 + 128;
    SplitAt(stored, [b]);
    if rest >= 128 {
      Assoc(stored, [b], EncVarint(rest / 128));
    }
  }

  /**
    The loop of pb_encode_varint: an unsigned 64-bit word needs at most the ten bytes of
    its local buffer.
   */
  method ShiftOut(value: nat) returns (buffer: array<byte>, n: nat)
    requires 0 < value < TWO64
    ensures fresh(buffer) && n <= buffer.Length && buffer[..n] == EncVarint(value)
  {
    buffer := new byte[10];
    n := 0;
    var v := value;
    VarintAtMostTen(value);
    while v > 0
      invariant n <= buffer.Length == 10 && Shifted(value, buffer[..n], v)
    {
      ghost var stored := buffer[..n];
      ShiftedStep(value, stored, v);
      buffer[n] := v % 128 + 128;
      v := v / 128;
      n := n + 1;
      assert buffer[..n] == stored + [buffer[n - 1]];
    }
    ghost var stored := buffer[..n];
    buffer[n - 1] := Low7(buffer[n - 1]);
    assert buffer[..n] == stored[..n - 1] + [buffer[n - 1]];
  }

  // ---------------------------------------------------------------- the stream

  class OStream {
    /** Null when the stream has no callback: it only counts. */
    const buf: array?<byte>
    const maxSize: nat
    var at: nat
    var written: nat

    ghost predicate Valid()
      reads this
    {
      buf != null ==> written <= maxSize && at + (maxSize - written) <= buf.Length
    }

    ghost function Snap(): (o: Out)
      requires Valid()
      reads this, buf
      ensures OutOk(o) && o.written == written && (o.Sizing? <==> buf == null)
    {
      if buf == null then Sizing(written)
      else Buffer(buf[..at], buf[at..], maxSize - written, written)
    }

    /** pb_ostream_from_buffer */
    constructor (buf: array<byte>, size: nat)
      requires size <= buf.Length
      ensures Valid() && this.buf == buf && Snap() == Buffer([], buf[..], size, 0)
    {
      this.buf := buf;
      maxSize, at, written := size, 0, 0;
    }

    /** PB_OSTREAM_SIZING */
    constructor SizingStream()
      ensures Valid() && buf == null && Snap() == Sizing(0)
    {
      buf := null;
      maxSize, at, written := 0, 0, 0;
    }

    /** The substream of pb_encode_submessage: the same buffer, a limit of its own. */
    constructor Limited(parent: OStream, size: nat)
      requires parent.Valid() && parent.buf != null && parent.written + size <= parent.maxSize
      ensures Valid() && buf == parent.buf && at == parent.at && written == 0 && maxSize == size
    {
      buf := parent.buf;
      maxSize, at, written := size, parent.at, 0;
    }

    /** buf_write */
    method BufWrite(bs: Bytes)
      requires buf != null && at + |bs| <= buf.Length
      modifies this`at, buf
      ensures at == old(at) + |bs|
      ensures buf[..at] == old(buf[..at]) + bs && buf[at..] == old(buf[at..])[|bs|..]
    {
      var dest := at;
      at := dest + |bs|;
      for i := 0 to |bs|
        invariant at == dest + |bs|
        invariant forall k :: 0 <= k < dest || dest + i <= k < buf.Length ==> buf[k] == old(buf[k])
        invariant forall k :: 0 <= k < i ==> buf[dest + k] == bs[k]
      {
        buf[dest + i] := bs[i];
      }
    }

    /** pb_write */
    method Write(bs: Bytes) returns (ok: bool)
      requires Valid()
      modifies this, buf
      ensures Valid() && Emitted(old(Snap()), Snap(), Some(bs), ok)
    {
      if |bs| > 0 && buf != null {
        if written + |bs| > maxSize {
          return false;
        }
        BufWrite(bs);
      }
      written := written + |bs|;
      ok := true;
    }

    /** pb_write without data, as the encoders call it on a sizing stream. */
    method Count(size: nat) returns (ok: bool)
      requires Valid() && buf == null
      modifies this
      ensures Valid() && ok && Snap() == Sizing(old(written) + size)
    {
      written := written + size;
      ok := true;
    }

    /** pb_encode_varint; the value is an unsigned 64-bit word, so ten bytes suffice. */
    method EncodeVarint(value: nat) returns (ok: bool)
      requires Valid() && value < TWO64
      modifies this, buf
      ensures Valid() && Emitted(old(Snap()), Snap(), Some(EncVarint(value)), ok)
    {
      if value <= 0x7F {
        ok := Write([value]);
        return;
      }
      var buffer, n := ShiftOut(value);
      ok := Write(buffer[..n]);
    }

    /** pb_encode_svarint */
    method EncodeSvarint(value: int) returns (ok: bool)
      requires Valid() && FitsSigned(value, 8)
      modifies this, buf
      ensures Valid() && Emitted(old(Snap()), Snap(), Some(EncVarint(ZigZag(value))), ok)
    {
      var doubled := CastUnsigned(2 * CastUnsigned(value, 8), 8);
      var zigzagged := doubled;
      if value < 0 {
        zigzagged := TWO64 - 1 - doubled;
      }
      ok := EncodeVarint(zigzagged);
    }

    /** pb_encode_fixed32 */
    method EncodeFixed32(value: nat) returns (ok: bool)
      requires Valid()
      modifies this, buf
      ensures Valid() && Emitted(old(Snap()), Snap(), Some(ToLE(value, 4)), ok)
    {
      var bytes: Bytes := [value % 256, value / 0x100 % 256, value / 0x1_0000 % 256, value / 0x100_0000 % 256];
      LEBytes4(value, 4);
      ok := Write(bytes);
    }

    /** pb_encode_fixed64 */
    method EncodeFixed64(value: nat) returns (ok: bool)
      requires Valid()
      modifies this, buf
      ensures Valid() && Emitted(old(Snap()), Snap(), Some(ToLE(value, 8)), ok)
    {
      var bytes: Bytes := [value % 256, value / 0x100 % 256, value / 0x1_0000 % 256, value / 0x100_0000 % 256,
                           value / TWO32 % 256, value / 0x100_0000_0000 % 256,
                           value / 0x1_0000_0000_0000 % 256, value / 0x100_0000_0000_0000 % 256];
      LEBytes8(value, 8);
      ok := Write(bytes);
    }

    /** pb_encode_tag */
    method EncodeTag(wireType: nat, tag: nat) returns (ok: bool)
      requires Valid() && wireType < 8 && tag < TWO32
      modifies this, buf
      ensures Valid() && Emitted(old(Snap()), Snap(), Some(EncTag(wireType, tag)), ok)
    {
      assert Pow2(3) == 8;
      OrDisjoint(wireType, tag, 3);
      ok := EncodeVarint(Or(wireType, tag * 8));
    }

    /** pb_encode_string */
    method EncodeString(bs: Bytes) returns (ok: bool)
      requires Valid() && |bs| < TWO64
      modifies this, buf
      ensures Valid() && Emitted(old(Snap()), Snap(), Some(EncSized(bs)), ok)
    {
      ghost var a := Snap();
      ok := EncodeVarint(|bs|);
      ghost var b := Snap();
      if !ok {
        EmittedNot(a, b, Some(EncVarint(|bs|)), Some(bs));
        return;
      }
      ok := Write(bs);
      EmittedThen(a, b, Snap(), EncVarint(|bs|), Some(bs), ok);
    }
  }
}
