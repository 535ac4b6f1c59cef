/**
  Required fields: which of them the decoder insists on, and the two-word bitmap with which
  pb_decode_noinit keeps track of them.
 */
module RequiredFields {
  import opened Prelude
  import opened Bits
  import opened Wire
  import opened Descriptor
  import opened DecodeSpec
  import opened Merge

  /** The positions of the fields the loop finds in `s`. */
  function Arrivals(fields: seq<Field>, s: Bytes, st: DecState): set<nat>
    requires Wf(fields) && StateOk(fields, st)
    decreases |s|
  {
    if s == [] || !DecTag(s).Tagged? then {}
    else
      var t := DecTag(s);
      match Step(fields, t.tag, t.wireType, t.rest, st)
      case Fail => {}
      case Ok(st', rest) =>
        Arrival(fields, t.tag) + Arrivals(fields, rest, st')
  }

  /** The required-field indices of the tracked fields among `positions`. */
  function Indices(fields: seq<Field>, positions: set<nat>): set<nat> {
    set i | i in positions && Tracked(fields, i) :: RequiredBefore(fields, i)
  }

  lemma {:induction false} RequiredMonotone(fields: seq<Field>, i: nat, j: nat)
    requires i < j <= |fields| && fields[i].htype.Required?
    ensures RequiredBefore(fields, i) < RequiredBefore(fields, j)
    decreases j
  {
    if i < j - 1 {
      RequiredMonotone(fields, i, j - 1);
    }
  }

  /** Two required fields never share an index. */
  lemma RequiredInjective(fields: seq<Field>, i: nat, j: nat)
    requires i < |fields| && j < |fields| && fields[i].htype.Required? && fields[j].htype.Required?
    requires RequiredBefore(fields, i) == RequiredBefore(fields, j)
    ensures i == j
  {
    if i < j {
      RequiredMonotone(fields, i, j);
    } else if j < i {
      RequiredMonotone(fields, j, i);
    }
  }

  /** Every index below the number of required fields belongs to a required field. */
  lemma {:induction false} RequiredOnto(fields: seq<Field>, k: nat, n: nat) returns (i: nat)
    requires k <= |fields| && n < RequiredBefore(fields, k)
    ensures i < k && fields[i].htype.Required? && RequiredBefore(fields, i) == n
    decreases k
  {
    if n < RequiredBefore(fields, k - 1) {
      i := RequiredOnto(fields, k - 1, n);
    } else {
      i := k - 1;
    }
  }

  /** What one turn of the loop adds to the arrivals. */
  function Arrival(fields: seq<Field>, tag: nat): set<nat> {
    match Find(fields, tag) case Some(i) => {i} case None => {}
  }

  lemma StepSeen(fields: seq<Field>, tag: nat, wireType: nat, s: Bytes, st: DecState)
    requires Wf(fields) && StateOk(fields, st) && Step(fields, tag, wireType, s, st).Ok?
    ensures Step(fields, tag, wireType, s, st).value.seen == st.seen + Indices(fields, Arrival(fields, tag))
  {
    match Find(fields, tag)
    case None =>
    case Some(i) =>
      assert Indices(fields, {i}) == if Tracked(fields, i) then {RequiredBefore(fields, i)} else {};
  }

  lemma IndicesUnion(fields: seq<Field>, a: set<nat>, b: set<nat>)
    ensures Indices(fields, a + b) == Indices(fields, a) + Indices(fields, b)
  {
  }

  lemma {:induction false} SeenIsArrivals(fields: seq<Field>, s: Bytes, st: DecState)
    requires Wf(fields) && StateOk(fields, st) && !Loop(fields, s, st).Failed?
    ensures Loop(fields, s, st).st.seen == st.seen + Indices(fields, Arrivals(fields, s, st))
    decreases |s|
  {
    if s == [] || !DecTag(s).Tagged? {
      assert Indices(fields, {}) == {};
    } else {
      var t := DecTag(s);
      var p := Step(fields, t.tag, t.wireType, t.rest, st);
      StepSeen(fields, t.tag, t.wireType, t.rest, st);
      SeenIsArrivals(fields, p.rest, p.value);
      IndicesUnion(fields, Arrival(fields, t.tag), Arrivals(fields, p.rest, p.value));
    }
  }

  lemma OtherStepKeeps(fields: seq<Field>, i: nat, tag: nat, wireType: nat, s: Bytes, st: DecState)
    requires Wf(fields) && StateOk(fields, st) && i < |fields| && !fields[i].htype.Oneof?
    requires Step(fields, tag, wireType, s, st).Ok? && i !in Arrival(fields, tag)
    ensures Step(fields, tag, wireType, s, st).value.msg.slots[fields[i].at] == st.msg.slots[fields[i].at]
  {
    match Find(fields, tag)
    case None =>
    case Some(j) => assert j in Arrival(fields, tag) && fields[j].at != fields[i].at;
  }

  /** A member outside of unions that does not arrive is left as it was. */
  lemma {:induction false} AbsentKeeps(fields: seq<Field>, i: nat, s: Bytes, st: DecState)
    requires Wf(fields) && StateOk(fields, st) && i < |fields| && !fields[i].htype.Oneof?
    requires !Loop(fields, s, st).Failed? && i !in Arrivals(fields, s, st)
    ensures Loop(fields, s, st).st.msg.slots[fields[i].at] == st.msg.slots[fields[i].at]
    decreases |s|
  {
    if s != [] && DecTag(s).Tagged? {
      var t := DecTag(s);
      var p := Step(fields, t.tag, t.wireType, t.rest, st);
      assert Arrivals(fields, s, st) == Arrival(fields, t.tag) + Arrivals(fields, p.rest, p.value);
      OtherStepKeeps(fields, i, t.tag, t.wireType, t.rest, st);
      AbsentKeeps(fields, i, p.rest, p.value);
    }
  }

  /** What arrives in a concatenation arrives in one of its parts. */
  lemma {:induction false} ArrivalsConcat(fields: seq<Field>, s1: Bytes, s2: Bytes, st: DecState)
    requires Wf(fields) && StateOk(fields, st) && Loop(fields, s1, st).Drained?
    ensures Arrivals(fields, s1 + s2, st) == Arrivals(fields, s1, st) + Arrivals(fields, s2, Loop(fields, s1, st).st)
    decreases |s1|
  {
    if s1 == [] {
      assert s1 + s2 == s2;
    } else {
      DecTagLocal(s1, s2);
      var t := DecTag(s1);
      StepLocal(fields, t.tag, t.wireType, t.rest, s2, st);
      var p := Step(fields, t.tag, t.wireType, t.rest, st);
      ArrivalsConcat(fields, p.rest, s2, p.value);
    }
  }

  /** One of the first 64 required fields that did not arrive. */
  predicate Missing(fields: seq<Field>, arrived: set<nat>) {
    exists i :: 0 <= i < |fields| && Tracked(fields, i) && i !in arrived
  }

  /**
    When all fields decode and no fixed-count array is short, pb_decode_noinit fails
    exactly when one of the first 64 required fields never arrived.
   */
  lemma MissingIsReported(fields: seq<Field>, s: Bytes, m: Msg)
    requires Wf(fields) && Shaped(fields, m)
    requires var r := Loop(fields, s, Start(m)); !r.Failed? && FixedComplete(fields, r.st)
    ensures DecodeNoinit(fields, s, m).Fail? <==> Missing(fields, Arrivals(fields, s, Start(m)))
  {
    SeenIsArrivals(fields, s, Start(m));
    var arrived := Arrivals(fields, s, Start(m));
    var seen := Loop(fields, s, Start(m)).st.seen;
    assert seen == Indices(fields, arrived);
    forall i | 0 <= i < |fields| && Tracked(fields, i)
      ensures RequiredBefore(fields, i) in seen <==> i in arrived
    {
      if RequiredBefore(fields, i) in seen {
        var j :| j in arrived && Tracked(fields, j) && RequiredBefore(fields, j) == RequiredBefore(fields, i);
        RequiredInjective(fields, i, j);
      }
    }
  }

  // ---------------------------------------------------------------- the bitmap

  /** fields_seen: two 32-bit words whose bits are the indices seen. */
  predicate BitmapOf(words: seq<nat>, seen: set<nat>) {
    && |words| == 2 && words[0] < TWO32 && words[1] < TWO32
    && forall k: nat :: k < 64 ==> (Bit(words[k / 32], k % 32) <==> k in seen)
  }

  lemma EmptyBitmap()
    ensures BitmapOf([0, 0], {})
  {
    forall k: nat | k < 64
      ensures !Bit([0, 0][k / 32], k % 32)
    {
      BitZero(k % 32);
    }
  }

  /** Every index from lo up to hi was seen. */
  predicate RangeSeen(seen: set<nat>, lo: nat, hi: nat) {
    forall k: nat :: lo <= k < hi ==> k in seen
  }

  /** fields_seen[index >> 5] |= 1 << (index & 31) */
  method Mark(words: seq<nat>, index: nat, ghost seen: set<nat>) returns (r: seq<nat>)
    requires BitmapOf(words, seen) && index < MAX_REQUIRED_FIELDS
    ensures BitmapOf(r, seen + {index})
  {
    var tmp := Pow2(index % 32);
    var w := index / 32;
    r := words[w := Or(words[w], tmp)];
    Widths();
    Pow2Monotone(index % 32, 31);
    OrBound(words[w], tmp, 32);
    forall k: nat | k < 64
      ensures Bit(r[k / 32], k % 32) <==> k in seen + {index}
    {
      if k / 32 == w {
        BitOr(words[w], tmp, k % 32);
        BitPow2(index % 32, k % 32);
        assert k % 32 == index % 32 <==> k == index;
      }
    }
  }

  /** The low n bits of a word are ones. */
  predicate LowBitsSet(word: nat, n: nat) {
    forall k: nat :: k < n ==> Bit(word, k)
  }

  lemma WordFull(word: nat, n: nat)
    requires word < TWO32 && n <= 32
    requires forall k: nat :: n <= k < 32 ==> !Bit(word, k)
    ensures word == Pow2(n) - 1 <==> LowBitsSet(word, n)
  {
    Widths();
    if LowBitsSet(word, n) {
      WordBelow(word, n, 32);
      AllOnes(word, n);
    }
    if word == Pow2(n) - 1 {
      forall k: nat | k < n ensures Bit(word, k) {
        OnesBit(n, k);
      }
    }
  }

  /** A word whose bits from n to m are clear and that is below 2^m is below 2^n. */
  lemma {:induction false} WordBelow(word: nat, n: nat, m: nat)
    requires n <= m && word < Pow2(m) && forall k: nat :: n <= k < m ==> !Bit(word, k)
    ensures word < Pow2(n)
    decreases m - n
  {
    if n < m {
      TopBit(word, m - 1);
      WordBelow(word, n, m - 1);
    }
  }

  lemma {:induction false} TopBit(word: nat, n: nat)
    requires word < Pow2(n + 1) && !Bit(word, n)
    ensures word < Pow2(n)
    decreases n
  {
    if n > 0 {
      TopBit(word / 2, n - 1);
    }
  }

  /**
    The check after the loop: whole words against all ones, the last one against as many
    ones as are left. It accepts exactly when every index below `count` was seen.
   */
  method AllSeen(words: seq<nat>, count: nat, ghost seen: set<nat>) returns (ok: bool)
    requires BitmapOf(words, seen) && count <= MAX_REQUIRED_FIELDS
    requires forall k :: k in seen ==> k < count
    ensures ok <==> RangeSeen(seen, 0, count)
  {
    var allbits := TWO32 - 1;
    Widths();
    var i := 0;
    while i < count / 32
      invariant 0 <= i <= count / 32
      invariant RangeSeen(seen, 0, 32 * i)
    {
      WordSeen(words, seen, i, 32);
      if words[i] != allbits {
        return false;
      }
      i := i + 1;
    }
    var left := count % 32;
    if left != 0 {
      WordSeen(words, seen, i, left);
      // allbits >> (32 - left)
      if words[i] != Pow2(left) - 1 {
        return false;
      }
    }
    return true;
  }

  /** What comparing one word of the bitmap with n ones tells. */
  lemma WordSeen(words: seq<nat>, seen: set<nat>, w: nat, n: nat)
    requires BitmapOf(words, seen) && w < 2 && n <= 32
    requires forall k: nat :: 32 * w + n <= k < 32 * w + 32 ==> k !in seen
    ensures words[w] == Pow2(n) - 1 <==> RangeSeen(seen, 32 * w, 32 * w + n)
  {
    forall b: nat | b < 32
      ensures Bit(words[w], b) <==> 32 * w + b in seen
    {
      var k := 32 * w + b;
      assert k / 32 == w && k % 32 == b;
    }
    WordFull(words[w], n);
    if LowBitsSet(words[w], n) {
      forall k: nat | 32 * w <= k < 32 * w + n
        ensures k in seen
      {
        assert Bit(words[w], k - 32 * w);
      }
    }
  }
}
