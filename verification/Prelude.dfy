/** Bytes, optional results and the outcome of parsing a prefix of a byte sequence. */
module Prelude {

  type byte = b: int | 0 <= b < 256

  type Bytes = seq<byte>

  datatype Option<+T> = None | Some(value: T)

  /** Either no value could be read, or a value was read and `rest` is what is left. */
  datatype Parse<+T> = Fail | Ok(value: T, rest: Bytes)

  /** At least one byte was used up. */
  predicate Consumed(s: Bytes, rest: Bytes) {
    |rest| < |s|
  }

  /** One output after another; none as soon as one of them is missing. */
  function Append(a: Option<Bytes>, b: Option<Bytes>): (r: Option<Bytes>)
    ensures r.Some? <==> a.Some? && b.Some?
    ensures r.Some? ==> r.value == a.value + b.value
  {
    if a.Some? && b.Some? then Some(a.value + b.value) else None
  }

  function Zeros(n: nat): (z: Bytes)
    ensures |z| == n
    ensures forall i :: 0 <= i < n ==> z[i] == 0
  {
    seq(n, i => 0)
  }

  lemma Assoc(a: Bytes, b: Bytes, c: Bytes)
    ensures (a + b) + c == a + (b + c)
  {
  }

  lemma EmptyRight(a: Bytes)
    ensures a + [] == a
  {
  }

  /** Cutting a concatenation where its parts meet. */
  lemma SplitAt(a: Bytes, b: Bytes)
    ensures (a + b)[..|a|] == a && (a + b)[|a|..] == b
  {
  }

  /** Cutting a slice in two. */
  lemma CutSlice(s: Bytes, i: nat, j: nat, k: nat)
    requires i + k <= j <= |s|
    ensures s[i..j][..k] == s[i..i + k] && s[i..j][k..] == s[i + k..j]
  {
  }

  lemma TakeAll<T>(s: seq<T>)
    ensures s[..|s|] == s
  {
  }
}
