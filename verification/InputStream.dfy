/**
  pb_istream_t over a memory buffer: a cursor and a count of the bytes that may still be
  read, with the primitive readers of pb_decode.c.
 */
module InputStream {
  import opened Prelude
  import opened Bits
  import opened Wire

  // ---------------------------------------------------------------- or-ing a group into a 64-bit word

  function Cut64(x: nat): (r: nat)
    ensures r < TWO64
  {
    if x < TWO64 then x else x % TWO64
  }

  /** What group `k` adds to a 64-bit word; the tenth keeps one bit. */
  function Group64(b: byte, k: nat): (g: nat)
    requires k <= 9
  {
    if k == 9 then b % 2 else Low7(b)
  }

  lemma ShiftedGroup64(b: byte, k: nat)
    requires k <= 9
    ensures Cut64(Low7(b) * Weight(k)) == Scaled(k, Group64(b, k))
  {
    if k == 9 {
      var g := Low7(b);
      assert g == 2 * (g / 2) + g % 2 && g % 2 == b % 2;
      DivModUnique(g * 0x8000_0000_0000_0000, g / 2, 0x8000_0000_0000_0000 * (g % 2), TWO64);
    }
  }

  /** result |= (uint64_t)(byte & 0x7F) << (7 * k), when result holds k groups. */
  lemma OrGroup64(result: nat, b: byte, k: nat)
    requires k <= 9 && result < Weight(k)
    ensures Or(result, Cut64(Low7(b) * Pow2(7 * k))) == result + Scaled(k, Group64(b, k))
    ensures result + Scaled(k, Group64(b, k)) < Weight(k + 1)
  {
    WeightIsPow2(k);
    ShiftedGroup64(b, k);
    OrDisjoint(result, Group64(b, k), 7 * k);
    assert Scaled(k, Group64(b, k)) == Group64(b, k) * Weight(k);
  }

  /** The value of a parse whose first k groups are already in `result`. */
  function Resume(p: Parse<nat>, k: nat, result: nat): Parse<nat>
    requires k <= 10
  {
    match p
    case Fail => Fail
    case Ok(v, rest) => Ok(result + Scaled(k, v), rest)
  }

  lemma ResumeStep(s: Bytes, k: nat, result: nat)
    requires k <= 9 && s != []
    ensures var r := result + Scaled(k, Group64(s[0], k));
            Resume(DecGroups(s, k), k, result)
            == if s[0] >= 128 then Resume(DecGroups(s[1..], k + 1), k + 1, r) else Ok(r, s[1..])
  {
    if s[0] >= 128 && DecGroups(s[1..], k + 1).Ok? {
      ScaledGroup(k, Group64(s[0], k), DecGroups(s[1..], k + 1).value);
    }
  }

  /** The loop of pb_decode_varint in machine operations. */
  function VarintLoop(s: Bytes, bitpos: nat, result: nat): Parse<nat>
    decreases |s|
  {
    if bitpos >= 64 || s == [] then Fail
    else
      var r := Or(result, Cut64(Low7(s[0]) * Pow2(bitpos)));
      if s[0] >= 128 then VarintLoop(s[1..], bitpos + 7, r) else Ok(r, s[1..])
  }

  /** The machine loop computes the number its groups spell. */
  lemma {:induction false} VarintLoopValue(s: Bytes, k: nat, result: nat)
    requires k <= 10 && result < Weight(k)
    ensures VarintLoop(s, 7 * k, result) == Resume(DecGroups(s, k), k, result)
    decreases |s|
  {
    if k < 10 && s != [] {
      OrGroup64(result, s[0], k);
      ResumeStep(s, k, result);
      if s[0] >= 128 {
        VarintLoopValue(s[1..], k + 1, result + Scaled(k, Group64(s[0], k)));
      }
    }
  }

  // ---------------------------------------------------------------- the stream

  class IStream {
    const buf: array<byte>
    var state: nat
    var bytesLeft: nat

    ghost predicate Valid()
      reads this
    {
      state + bytesLeft <= buf.Length
    }

    /** Where the stream ends in the buffer: constant while bytes are read. */
    ghost function End(): nat
      reads this
    {
      state + bytesLeft
    }

    /** The bytes that may still be read. */
    ghost function Rem(): (s: Bytes)
      requires Valid()
      reads this, buf
      ensures |s| == bytesLeft
    {
      buf[state..state + bytesLeft]
    }

    /** pb_istream_from_buffer */
    constructor (buf: array<byte>, size: nat)
      requires size <= buf.Length
      ensures Valid() && this.buf == buf && state == 0 && bytesLeft == size
      ensures Rem() == buf[..size]
    {
      this.buf := buf;
      state, bytesLeft := 0, size;
    }

    /** A copy of a stream, limited to `size` bytes. */
    constructor Limited(parent: IStream, size: nat)
      requires parent.Valid() && size <= parent.bytesLeft
      ensures Valid() && buf == parent.buf && state == parent.state && bytesLeft == size
      ensures Rem() == parent.Rem()[..size]
    {
      buf := parent.buf;
      state, bytesLeft := parent.state, size;
    }

    /** pb_readbyte */
    method ReadByte() returns (ok: bool, b: byte)
      requires Valid()
      modifies this
      ensures Valid() && End() == old(End())
      ensures ok <==> old(bytesLeft) > 0
      ensures ok ==> old(Rem()) == [b] + Rem() && bytesLeft == old(bytesLeft) - 1
      ensures !ok ==> Rem() == old(Rem())
    {
      if bytesLeft == 0 {
        return false, 0;
      }
      b := buf[state];
      state := state + 1;
      bytesLeft := bytesLeft - 1;
      ok := true;
    }

    /** pb_read with a destination: copies `count` bytes. */
    method Read(count: nat) returns (ok: bool, bs: Bytes)
      requires Valid()
      modifies this
      ensures Valid() && End() == old(End())
      ensures ok <==> Take(old(Rem()), count).Ok?
      ensures ok ==> bs == Take(old(Rem()), count).value && Rem() == Take(old(Rem()), count).rest
      ensures !ok ==> Rem() == old(Rem())
    {
      bs := [];
      if count == 0 {
        return true, [];
      }
      if bytesLeft < count {
        return false, [];
      }
      var source := state;
      state := state + count;
      for i := 0 to count
        invariant bs == buf[source..source + i]
      {
        bs := bs + [buf[source + i]];
      }
      bytesLeft := bytesLeft - count;
      ok := true;
    }

    /** pb_read without a destination: the cursor moves, nothing is copied. */
    method SkipBytes(count: nat) returns (ok: bool)
      requires Valid()
      modifies this
      ensures Valid() && End() == old(End())
      ensures ok <==> count <= |old(Rem())|
      ensures ok ==> Rem() == old(Rem())[count..]
      ensures !ok ==> Rem() == old(Rem())
    {
      if count == 0 {
        return true;
      }
      if bytesLeft < count {
        return false;
      }
      state := state + count;
      bytesLeft := bytesLeft - count;
      ok := true;
    }

    /** pb_decode_varint */
    method DecodeVarint() returns (ok: bool, value: nat)
      requires Valid()
      modifies this
      ensures Valid() && End() == old(End())
      ensures ok <==> DecVarint(old(Rem())).Ok?
      ensures ok ==> Ok(value, Rem()) == DecVarint(old(Rem()))
    {
      ghost var s := Rem();
      VarintLoopValue(s, 0, 0);
      var bitpos: nat := 0;
      var result: nat := 0;
      value := 0;
      while true
        invariant Valid() && End() == old(End())
        invariant VarintLoop(s, 0, 0) == VarintLoop(Rem(), bitpos, result)
        decreases bytesLeft
      {
        if bitpos >= 64 {
          return false, 0;
        }
        ghost var before := Rem();
        var read, b := ReadByte();
        if !read {
          return false, 0;
        }
        assert before[0] == b && before[1..] == Rem();
        result := Or(result, Cut64(Low7(b) * Pow2(bitpos)));
        bitpos := bitpos + 7;
        if b < 128 {
          return true, result;
        }
      }
    }

    /**
      pb_decode_varint32_eof: `eof` is raised when not even one byte could be read.
     */
    method DecodeVarint32() returns (ok: bool, value: nat, eof: bool)
      requires Valid()
      modifies this
      ensures Valid() && End() == old(End())
      ensures ok <==> DecVarint32(old(Rem())).Ok?
      ensures ok ==> Ok(value, Rem()) == DecVarint32(old(Rem()))
      ensures eof <==> old(Rem()) == []
      ensures eof ==> Rem() == []
      ensures value < TWO32
    {
      ghost var s := Rem();
      var read, b := ReadByte();
      if !read {
        return false, 0, bytesLeft == 0;
      }
      assert s[0] == b && s[1..] == Rem();
      if b < 128 {
        return true, b, false;
      }
      var bitpos: nat := 7;
      var result: nat := Low7(b);
      while true
        invariant Valid() && End() == old(End())
        invariant result < TWO32 && DecVarint32(s) == Dec32Tail(Rem(), bitpos, result)
        invariant s != []
        decreases bytesLeft
      {
        ghost var before := Rem();
        read, b := ReadByte();
        if !read {
          return false, 0, false;
        }
        assert before[0] == b && before[1..] == Rem();
        if bitpos >= 32 {
          if BadHighGroup(b, bitpos, result) {
            return false, 0, false;
          }
        } else {
          result := Or32(result, b, bitpos);
        }
        bitpos := (bitpos + 7) % 256;
        if b < 128 {
          break;
        }
      }
      if bitpos == 35 && b >= 16 {
        return false, 0, false;
      }
      return true, result, false;
    }

    /** pb_decode_tag: (ok, eof, wire type, tag). */
    method DecodeTag() returns (ok: bool, eof: bool, wireType: nat, tag: nat)
      requires Valid()
      modifies this
      ensures Valid() && End() == old(End())
      ensures match DecTag(old(Rem()))
              case TagFail => !ok && !eof
              case TagEnd(rest) => !ok && eof && Rem() == rest
              case Tagged(t, w, rest) => ok && tag == t && wireType == w && Rem() == rest
    {
      var read, temp, none := DecodeVarint32();
      if !read {
        return false, none, 0, 0;
      }
      if temp == 0 {
        return false, true, 0, 0;
      }
      return true, false, temp % 8, temp / 8;
    }

    /** pb_skip_varint */
    method SkipVarintBytes() returns (ok: bool)
      requires Valid()
      modifies this
      ensures Valid() && End() == old(End())
      ensures ok <==> SkipVarint(old(Rem())).Some?
      ensures ok ==> Some(Rem()) == SkipVarint(old(Rem()))
    {
      ghost var s := Rem();
      while true
        invariant Valid() && End() == old(End())
        invariant SkipVarint(s) == SkipVarint(Rem())
        decreases bytesLeft
      {
        ghost var before := Rem();
        var read, b := ReadByte();
        if !read {
          return false;
        }
        assert before[0] == b && before[1..] == Rem();
        if b < 128 {
          return true;
        }
      }
    }

    /** pb_skip_field */
    method SkipField(wireType: nat) returns (ok: bool)
      requires Valid()
      modifies this
      ensures Valid() && End() == old(End())
      ensures ok <==> Skip(wireType, old(Rem())).Some?
      ensures ok ==> Some(Rem()) == Skip(wireType, old(Rem()))
    {
      if wireType == WT_VARINT {
        ok := SkipVarintBytes();
      } else if wireType == WT_64BIT {
        ok := SkipBytes(8);
      } else if wireType == WT_STRING {
        var read, length, _ := DecodeVarint32();
        if !read {
          return false;
        }
        ok := SkipBytes(length);
      } else if wireType == WT_32BIT {
        ok := SkipBytes(4);
      } else {
        ok := false;
      }
    }

    /** The bytes this stream goes on with once a substream that ends at `end` is closed. */
    ghost function After(end: nat): (s: Bytes)
      requires end + bytesLeft <= buf.Length
      reads this, buf
    {
      buf[end..end + bytesLeft]
    }

    /** The second half of pb_make_string_substream: the next `size` bytes go to a substream. */
    method SplitOff(size: nat) returns (sub: IStream)
      requires Valid() && size <= bytesLeft
      modifies this`bytesLeft
      ensures sub.buf == buf && fresh(sub) && sub.Valid() && Valid() && End() <= old(End())
      ensures sub.Rem() == old(Rem())[..size] && sub.End() + bytesLeft == old(End())
      ensures After(sub.End()) == old(Rem())[size..]
    {
      CutSlice(buf[..], state, state + bytesLeft, size);
      sub := new IStream.Limited(this, size);
      bytesLeft := bytesLeft - size;
    }

    /**
      pb_make_string_substream: reads a length and splits the stream there. The substream
      covers exactly the announced bytes; this stream is left with the bytes after them to
      read, but its cursor still stands at the announced bytes until the substream is closed.
     */
    method MakeSubstream() returns (ok: bool, sub: IStream)
      requires Valid()
      modifies this
      ensures sub.buf == buf && fresh(sub) && sub.Valid() && Valid() && End() <= old(End())
      ensures var p := DecVarint32(old(Rem()));
              && (ok <==> p.Ok? && p.value <= |p.rest|)
              && (ok ==> sub.Rem() == p.rest[..p.value]
                         && sub.End() + bytesLeft == old(End())
                         && After(sub.End()) == p.rest[p.value..])
    {
      var read, size, _ := DecodeVarint32();
      if !read || bytesLeft < size {
        sub := SplitOff(0);
        return false, sub;
      }
      sub := SplitOff(size);
      ok := true;
    }

    /**
      pb_close_string_substream: whatever the substream left unread is skipped, so this
      stream goes on right after the announced bytes however much of them was read.
     */
    method CloseSubstream(sub: IStream) returns (ok: bool)
      requires sub != this && sub.buf == buf && sub.Valid() && sub.End() + bytesLeft <= buf.Length
      modifies this, sub
      ensures ok && Valid() && state == old(sub.End()) && bytesLeft == old(bytesLeft)
      ensures Rem() == old(After(sub.End()))
    {
      if sub.bytesLeft != 0 {
        var skipped := sub.SkipBytes(sub.bytesLeft);
        if !skipped {
          return false;
        }
      }
      state := sub.state;
      ok := true;
    }
  }
}
