/** Byte strings and the small sequence vocabulary the other modules share. */
module Bytes {

  newtype byte = x: int | 0 <= x < 256

  type Bytes = seq<byte>

  type uint64 = n: nat | n < 0x1_0000_0000_0000_0000

  datatype Option<+T> = None | Some(value: T)

  /** Whether `p` occurs in `t` at offset `i`. */
  predicate MatchAt(p: Bytes, t: Bytes, i: nat) {
    i + |p| <= |t| && t[i..i + |p|] == p
  }

  function Last<T>(s: seq<T>): T
    requires s != []
  {
    s[|s| - 1]
  }

  function Init<T>(s: seq<T>): seq<T>
    requires s != []
  {
    s[..|s| - 1]
  }

  lemma Associate(p: Bytes, q: Bytes, r: Bytes)
    ensures (p + q) + r == p + (q + r)
  {
  }

  lemma CutAt(p: Bytes, q: Bytes)
    ensures (p + q)[|p|..] == q && forall i :: 0 <= i < |p| ==> (p + q)[i] == p[i]
  {
  }
}
