/** Bytes and the injected digest primitive shared by both trees. */
module Hashing {

  newtype byte = x: int | 0 <= x < 256

  type Bytes = seq<byte>

  /** The digest primitive (SHA-256 in the Go code), left uninterpreted: every
      operation that hashes receives it as a parameter. */
  type Hasher = Bytes -> Bytes

  /** Output width of SHA-256, in bytes. */
  const DigestWidth: nat := 32

  /** `h` behaves like SHA-256 as far as lengths go: every digest has the same width. */
  ghost predicate FixedWidth(h: Hasher)
  {
    forall x :: |h(x)| == DigestWidth
  }

  /** `x` and `y` are a collision of `h`. */
  ghost predicate Collision(h: Hasher, x: Bytes, y: Bytes)
  {
    x != y && h(x) == h(y)
  }

  /** Two concatenations whose left parts have the same length are equal only
      when both parts are equal. */
  lemma ConcatInjective(a: Bytes, b: Bytes, c: Bytes, d: Bytes)
    requires |a| == |c|
    requires a + b == c + d
    ensures a == c && b == d
  {
    assert a == (a + b)[..|a|];
    assert c == (c + d)[..|c|];
    assert b == (a + b)[|a|..];
    assert d == (c + d)[|c|..];
  }

  /** The same after a common one-byte prefix. */
  lemma PrefixedConcatInjective(x: byte, a: Bytes, b: Bytes, c: Bytes, d: Bytes)
    requires |a| == |c|
    requires [x] + (a + b) == [x] + (c + d)
    ensures a == c && b == d
  {
    assert a + b == ([x] + (a + b))[1..];
    assert c + d == ([x] + (c + d))[1..];
    ConcatInjective(a, b, c, d);
  }
}
