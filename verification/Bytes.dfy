/** Byte strings, hash functions with 32-byte digests, and what it means to find a collision. */
module ByteStrings {

  type byte = bv8

  type Bytes = seq<byte>

  type Digest = d: Bytes | |d| == 32 witness seq(32, _ => 0)

  /** The hash function is a parameter of the model: nothing is assumed about it but its width. */
  type Hash = Bytes -> Digest

  datatype Option<+T> = None | Some(value: T)

  /** How a call ends. */
  datatype Completion<+T> = Thrown | Returned(value: T)

  /** `x` and `y` are different strings among `inputs` with the same hash. */
  ghost predicate Collides<X, Y>(hash: X -> Y, inputs: set<X>, x: X, y: X) {
    x in inputs && y in inputs && x != y && hash(x) == hash(y)
  }

  ghost predicate Collision<X(!new), Y>(hash: X -> Y, inputs: set<X>) {
    exists x, y :: Collides(hash, inputs, x, y)
  }

  /** Concatenation is unambiguous once the widths of the first parts agree. */
  lemma SplitConcat<T>(a: seq<T>, b: seq<T>, c: seq<T>, d: seq<T>)
    requires a + b == c + d
    requires |a| == |c| || |b| == |d|
    ensures a == c && b == d
  {
    assert |a| + |b| == |a + b| == |c + d| == |c| + |d|;
    assert a == (a + b)[..|a|] && c == (c + d)[..|c|];
    assert b == (a + b)[|a|..] && d == (c + d)[|c|..];
  }
}
