/** The hash the log is built on, as a parameter: any function from byte strings to 32 bytes.

    Nothing here says that a hash is injective, because no hash is. A statement that needs it
    ends in `|| CollisionIn(h, inputs)`, where `inputs` is a finite set of byte strings that
    were actually hashed by the parties the statement is about: the collision is one of theirs. */
module Hashing {
  import opened Bytes

  type Digest = d: Bytes | |d| == 32 witness seq(32, _ => 0)

  type HashFn = Bytes -> Digest

  /** Two distinct members of `inputs` have the same hash. */
  ghost predicate CollisionIn(h: HashFn, inputs: set<Bytes>) {
    exists a, b :: a in inputs && b in inputs && a != b && h(a) == h(b)
  }

  lemma CollisionMonotone(h: HashFn, small: set<Bytes>, large: set<Bytes>)
    requires small <= large
    requires CollisionIn(h, small)
    ensures CollisionIn(h, large)
  {
    var a, b :| a in small && b in small && a != b && h(a) == h(b);
    assert a in large && b in large;
  }
}
