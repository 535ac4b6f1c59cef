/**
  The field iterator of pb_common.c. It walks a descriptor array cyclically and finds each
  member's offset by adding the deltas that the PB_DATAOFFSET macros stored.
 */
module FieldIterator {
  import opened Descriptor

  // ---------------------------------------------------------------- struct layout

  /** pb_membersize of the member a field describes. */
  function MemberSize(f: Field): nat {
    if f.atype.Pointer? then POINTER_SIZE
    else if f.atype.Static? && f.htype.Repeated? then f.dataSize * f.arraySize
    else f.dataSize
  }

  predicate SameUnion(f: Field, g: Field) {
    f.htype.Oneof? && g.htype.Oneof? && f.at == g.at
  }

  /** The PB_DATAOFFSET_FIRST, _UNION and _OTHER macros. */
  function DataOffset(fields: seq<Field>, i: nat): int
    requires i < |fields|
  {
    if i == 0 then fields[0].at
    else if SameUnion(fields[i - 1], fields[i]) then PB_SIZE_MAX
    else fields[i].at - fields[i - 1].at - MemberSize(fields[i - 1])
  }

  /**
    A descriptor as the PB_FIELD macros build it: a nonzero tag, the offset stored as a
    delta, one which_ member for a union, and no gap between two unions that would read as
    the union marker.
   */
  predicate FieldLaid(fields: seq<Field>, i: nat)
    requires i < |fields|
  {
    && fields[i].tag != 0 && fields[i].dataOffset == DataOffset(fields, i)
    && (i >= 1 ==>
          var prev, f := fields[i - 1], fields[i];
          && (SameUnion(prev, f) ==> prev.sizeOffset == f.sizeOffset)
          && (prev.htype.Oneof? && f.htype.Oneof? && f.dataOffset == PB_SIZE_MAX ==> SameUnion(prev, f)))
  }

  predicate Laid(fields: seq<Field>) {
    forall i :: 0 <= i < |fields| ==> FieldLaid(fields, i)
  }

  /** A descriptor tree as the macros build it, statically allocated throughout. */
  predicate Built(fields: seq<Field>)
    decreases fields
  {
    Wf(fields) && Laid(fields) && forall i :: 0 <= i < |fields| ==> BuiltField(fields[i])
  }

  predicate BuiltField(f: Field)
    decreases f
  {
    f.ptr.Fields? ==> Built(f.ptr.fields)
  }

  /** Where pSize points: into the struct, or at the decoder's local fixed-count counter. */
  datatype SizePtr = InStruct(offset: int) | FixedCounter

  // ---------------------------------------------------------------- the cycle

  function NextPos(n: nat, pos: nat): nat {
    if pos + 1 >= n then 0 else pos + 1
  }

  /** The position after `steps` calls of pb_field_iter_next. */
  function PosAfter(n: nat, start: nat, steps: nat): (pos: nat)
    requires start < n
    ensures pos < n
  {
    if steps == 0 then start else NextPos(n, PosAfter(n, start, steps - 1))
  }

  lemma {:induction false} PosAfterIs(n: nat, start: nat, steps: nat)
    requires start < n && steps <= n
    ensures PosAfter(n, start, steps) == if start + steps < n then start + steps else start + steps - n
    decreases steps
  {
    if steps > 0 {
      PosAfterIs(n, start, steps - 1);
    }
  }

  /** A full cycle from any start meets every field exactly once and ends where it began. */
  lemma CycleVisitsOnce(n: nat, start: nat, i: nat)
    requires start < n && i < n
    ensures exists k :: 0 <= k < n && PosAfter(n, start, k) == i
    ensures forall j, k :: 0 <= j < n && 0 <= k < n && PosAfter(n, start, j) == PosAfter(n, start, k) ==> j == k
    ensures PosAfter(n, start, n) == start
  {
    PosAfterIs(n, start, n);
    var k := if i >= start then i - start else i + n - start;
    PosAfterIs(n, start, k);
    forall j, k | 0 <= j < n && 0 <= k < n && PosAfter(n, start, j) == PosAfter(n, start, k)
      ensures j == k
    {
      PosAfterIs(n, start, j);
      PosAfterIs(n, start, k);
    }
  }

  /** A field that pb_field_iter_find may stop at. */
  predicate Matches(f: Field, tag: nat) {
    f.tag == tag && !f.ltype.LExtension?
  }

  /** What the stored delta of field i says about two neighbouring members. */
  lemma Delta(fields: seq<Field>, i: nat)
    requires Laid(fields) && 1 <= i < |fields|
    ensures var prev, f := fields[i - 1], fields[i];
            if prev.htype.Oneof? && f.htype.Oneof? && f.dataOffset == PB_SIZE_MAX
            then f.at == prev.at && f.sizeOffset == prev.sizeOffset
            else f.at == prev.at + MemberSize(prev) + f.dataOffset
  {
    assert FieldLaid(fields, i);
  }

  // ---------------------------------------------------------------- the iterator

  class FieldIter {
    const fields: seq<Field>
    var pos: nat
    var requiredIndex: nat
    var pData: nat
    var pSize: SizePtr

    /** In a message without fields, pos stays at the terminator. */
    ghost predicate Valid()
      reads this
    {
      && (fields == [] ==> pos == 0 && requiredIndex == 0)
      && (fields != [] ==> pos < |fields| && requiredIndex == RequiredBefore(fields, pos) && pData == fields[pos].at)
      && (fields != [] && pSize != InStruct(pData + fields[pos].sizeOffset) ==>
            pSize == FixedCounter && FixedCount(fields[pos]))
    }

    ghost predicate SizeInStruct()
      requires Valid()
      reads this
    {
      fields != [] ==> pSize == InStruct(pData + fields[pos].sizeOffset)
    }

    /** pb_field_iter_begin on a new iterator. */
    constructor (fields: seq<Field>)
      requires Laid(fields)
      ensures Valid() && this.fields == fields && pos == 0 && SizeInStruct()
    {
      assert fields != [] ==> FieldLaid(fields, 0);
      this.fields := fields;
      pos, requiredIndex := 0, 0;
      pData := if fields == [] then 0 else fields[0].dataOffset;
      pSize := InStruct(if fields == [] then 0 else fields[0].dataOffset + fields[0].sizeOffset);
    }

    /** pb_field_iter_begin: false for a message without fields. */
    method Begin() returns (any: bool)
      requires Laid(fields)
      modifies this
      ensures Valid() && pos == 0 && SizeInStruct()
      ensures any <==> fields != []
    {
      pos, requiredIndex := 0, 0;
      if fields == [] {
        return false;
      }
      assert FieldLaid(fields, 0);
      pData := fields[0].dataOffset;
      pSize := InStruct(pData + fields[0].sizeOffset);
      return true;
    }

    /** pb_field_iter_next: false when it wraps around to the first field. */
    method Next() returns (more: bool)
      requires Laid(fields) && Valid()
      modifies this
      ensures Valid() && pos == NextPos(|fields|, old(pos)) && SizeInStruct()
      ensures more <==> old(pos) + 1 < |fields|
    {
      if fields == [] {
        return false;
      }
      var prev := fields[pos];
      if pos + 1 == |fields| {
        var _ := Begin();
        return false;
      }
      pos := pos + 1;
      var f := fields[pos];
      Delta(fields, pos);
      if prev.htype.Oneof? && f.htype.Oneof? && f.dataOffset == PB_SIZE_MAX {
        // inside a union the pointers stay
        return true;
      }
      var prevSize := prev.dataSize;
      if prev.atype.Static? && prev.htype.Repeated? {
        prevSize := prevSize * prev.arraySize;
      } else if prev.atype.Pointer? {
        prevSize := POINTER_SIZE;
      }
      assert prevSize == MemberSize(prev);
      if prev.htype.Required? {
        requiredIndex := requiredIndex + 1;
      }
      pData := pData + prevSize + f.dataOffset;
      pSize := InStruct(pData + f.sizeOffset);
      return true;
    }

    /**
      pb_field_iter_find, from any position: true exactly when some non-extension field has
      the tag, with the iterator on such a field; otherwise it is back where it started. In
      a message without fields the terminator matches tag 0. pSize is recomputed unless the
      iterator did not move.
     */
    method FindTag(tag: nat) returns (found: bool)
      requires Laid(fields) && Valid()
      modifies this
      ensures Valid()
      ensures fields == [] ==> (found <==> tag == 0)
      ensures fields != [] ==> (found <==> exists i :: 0 <= i < |fields| && Matches(fields[i], tag))
      ensures fields != [] ==> if found then Matches(fields[pos], tag) else pos == old(pos)
      ensures SizeInStruct() || (pos == old(pos) && pSize == old(pSize))
    {
      if fields == [] {
        return tag == 0;
      }
      var start := pos;
      ghost var n := |fields|;
      ghost var steps: nat := 0;
      while true
        invariant Valid() && steps < n && pos == if start + steps < n then start + steps else start + steps - n
        invariant forall i :: start <= i < start + steps && i < n ==> !Matches(fields[i], tag)
        invariant forall i :: 0 <= i < start + steps - n ==> !Matches(fields[i], tag)
        invariant SizeInStruct() || (pos == old(pos) && pSize == old(pSize))
        decreases n - steps
      {
        if fields[pos].tag == tag && !fields[pos].ltype.LExtension? {
          return true;
        }
        var _ := Next();
        steps := steps + 1;
        if pos == start {
          return false;
        }
      }
    }
  }
}
