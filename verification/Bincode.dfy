/** The pieces both logs write their records with: fixed-width little-endian words and
    length-prefixed byte strings. */
module Bincode {
  import opened Bytes
  import opened Wrappers

  function EncodeBytes(b: Bytes): Bytes {
    LE(|b|, 8) + b
  }

  /** A little-endian word of `w` bytes and what follows it. */
  function TakeWord(b: Bytes, w: nat): Option<(nat, Bytes)> {
    if |b| < w then None else Some((FromLE(b[..w]), b[w..]))
  }

  function TakeBytes(b: Bytes): Option<(Bytes, Bytes)> {
    match TakeWord(b, 8)
    case None => None
    case Some((n, rest)) => if |rest| < n then None else Some((rest[..n], rest[n..]))
  }

  lemma TakeWordBack(n: nat, w: nat, rest: Bytes)
    requires n < Pow256(w)
    ensures TakeWord(LE(n, w) + rest, w) == Some((n, rest))
  {
    LERoundTrip(n, w);
    assert (LE(n, w) + rest)[..w] == LE(n, w) && (LE(n, w) + rest)[w..] == rest;
  }

  lemma TakeBytesBack(b: Bytes, rest: Bytes)
    requires |b| < U64_LIMIT
    ensures TakeBytes(EncodeBytes(b) + rest) == Some((b, rest))
  {
    WordLimits();
    TakeWordBack(|b|, 8, b + rest);
    assert EncodeBytes(b) + rest == LE(|b|, 8) + (b + rest);
    assert (b + rest)[..|b|] == b && (b + rest)[|b|..] == rest;
  }
}
