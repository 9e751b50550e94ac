/** Byte strings: their lexicographic order (the order of every key in the
    engine) and the little-endian integers used by the on-disk formats. */
module Bytes {

  type Byte = x: int | 0 <= x < 256
  type Bytes = seq<Byte>

  // ---- lexicographic order -------------------------------------------------

  /** Strict byte-wise order; a proper prefix sorts first. */
  predicate Less(a: Bytes, b: Bytes) {
    b != [] && (a == [] || a[0] < b[0] || (a[0] == b[0] && Less(a[1..], b[1..])))
  }

  predicate AtMost(a: Bytes, b: Bytes) {
    a == b || Less(a, b)
  }

  lemma {:induction false} LessIrreflexive(a: Bytes)
    ensures !Less(a, a)
  {
    if a != [] { LessIrreflexive(a[1..]); }
  }

  lemma {:induction false} LessTransitive(a: Bytes, b: Bytes, c: Bytes)
    requires Less(a, b) && Less(b, c)
    ensures Less(a, c)
  {
    if a != [] && a[0] == b[0] == c[0] {
      LessTransitive(a[1..], b[1..], c[1..]);
    }
  }

  lemma {:induction false} LessTotal(a: Bytes, b: Bytes)
    ensures Less(a, b) || a == b || Less(b, a)
  {
    if a != [] && b != [] && a[0] == b[0] {
      LessTotal(a[1..], b[1..]);
      assert a == [a[0]] + a[1..] && b == [b[0]] + b[1..];
    }
  }

  lemma LessAsymmetric(a: Bytes, b: Bytes)
    requires Less(a, b)
    ensures !Less(b, a) && a != b
  {
    LessIrreflexive(a);
    if Less(b, a) { LessTransitive(a, b, a); }
  }

  lemma LessIsAtMost(a: Bytes, b: Bytes)
    ensures Less(a, b) ==> AtMost(a, b)
  {
  }

  lemma AtMostTrans(a: Bytes, b: Bytes, c: Bytes)
    requires AtMost(a, b) && AtMost(b, c)
    ensures AtMost(a, c)
  {
    if a != b && b != c { LessTransitive(a, b, c); }
  }

  lemma LessAtMost(a: Bytes, b: Bytes, c: Bytes)
    requires (Less(a, b) && AtMost(b, c)) || (AtMost(a, b) && Less(b, c))
    ensures Less(a, c)
  {
    if a != b && b != c { LessTransitive(a, b, c); }
  }

  /** Appending the same head on both sides does not change the order. */
  lemma {:induction false} LessSamePrefix(p: Bytes, a: Bytes, b: Bytes)
    ensures Less(p + a, p + b) <==> Less(a, b)
  {
    if p == [] {
      assert p + a == a && p + b == b;
    } else {
      LessSamePrefix(p[1..], a, b);
      assert (p + a)[1..] == p[1..] + a && (p + b)[1..] == p[1..] + b;
    }
  }

  // ---- ordered iteration ---------------------------------------------------

  predicate Ascending(ks: seq<Bytes>) {
    forall i, j :: 0 <= i < j < |ks| ==> Less(ks[i], ks[j])
  }

  lemma {:induction false} LeastExists(s: set<Bytes>)
    requires s != {}
    ensures exists m :: m in s && forall x | x in s :: AtMost(m, x)
    decreases |s|
  {
    var a :| a in s;
    var rest := s - {a};
    if rest == {} {
      assert s == {a};
    } else {
      LeastExists(rest);
      var m :| m in rest && forall x | x in rest :: AtMost(m, x);
      LessTotal(a, m);
      if Less(a, m) {
        forall x | x in s ensures AtMost(a, x) {
          if x != a && x != m {
            assert x in rest && AtMost(m, x);
            LessTransitive(a, m, x);
          }
        }
      } else {
        assert forall x | x in s :: AtMost(m, x);
      }
    }
  }

  function Least(s: set<Bytes>): (m: Bytes)
    requires s != {}
    ensures m in s && forall x | x in s :: AtMost(m, x)
  {
    LeastExists(s);
    assert forall a, b | a in s && b in s && AtMost(a, b) && AtMost(b, a) :: a == b by {
      forall a, b | a in s && b in s && AtMost(a, b) && AtMost(b, a) ensures a == b {
        if a != b { LessAsymmetric(a, b); }
      }
    }
    var m :| m in s && forall x | x in s :: AtMost(m, x);
    m
  }

  /** The elements of `s` in the order an ordered map or set yields them. */
  function Sorted(s: set<Bytes>): (ks: seq<Bytes>)
    ensures Ascending(ks)
    ensures |ks| == |s|
    ensures forall x :: x in ks <==> x in s
    decreases |s|
  {
    if s == {} then [] else
      var m := Least(s);
      var rest := Sorted(s - {m});
      assert forall i | 0 <= i < |rest| :: rest[i] in rest;
      [m] + rest
  }

  /** Ordered iteration as a loop needs it. */
  method InOrder(s: set<Bytes>) returns (ks: seq<Bytes>)
    ensures Ascending(ks) && |ks| == |s|
    ensures forall x :: x in ks <==> x in s
  {
    ks := Sorted(s);
  }

  lemma AscendingDistinct(ks: seq<Bytes>, i: nat, j: nat)
    requires Ascending(ks) && i < |ks| && j < |ks| && ks[i] == ks[j]
    ensures i == j
  {
    LessIrreflexive(ks[i]);
  }

  // ---- numbers --------------------------------------------------------------

  function Max(a: nat, b: nat): nat { if a < b then b else a }

  function Pow2(n: nat): (p: nat)
    ensures p > 0
  {
    if n == 0 then 1 else 2 * Pow2(n - 1)
  }

  // ---- little-endian integers ----------------------------------------------

  function Pow256(w: nat): (p: nat)
    ensures p > 0
  {
    if w == 0 then 1 else 256 * Pow256(w - 1)
  }

  function LE(n: nat, w: nat): (b: Bytes)
    ensures |b| == w
    decreases w
  {
    if w == 0 then [] else [n % 256] + LE(n / 256, w - 1)
  }

  function FromLE(b: Bytes): nat {
    if b == [] then 0 else b[0] + 256 * FromLE(b[1..])
  }

  lemma {:induction false} LERoundTrip(n: nat, w: nat)
    requires n < Pow256(w)
    ensures FromLE(LE(n, w)) == n
    decreases w
  {
    if w > 0 {
      LERoundTrip(n / 256, w - 1);
      assert LE(n, w)[1..] == LE(n / 256, w - 1);
    }
  }

  const U32_LIMIT: nat := 0x1_0000_0000
  const U64_LIMIT: nat := 0x1_0000_0000_0000_0000

  type Word32 = x: nat | x < U32_LIMIT

  /** A 32-bit checksum of a byte string. */
  type Checksum = Bytes -> Word32

  lemma WordLimits()
    ensures Pow256(2) == 0x1_0000
    ensures Pow256(4) == U32_LIMIT
    ensures Pow256(8) == U64_LIMIT
  {
    assert Pow256(1) == 256;
    assert Pow256(2) == 256 * Pow256(1);
    assert Pow256(3) == 256 * Pow256(2);
    assert Pow256(4) == 256 * Pow256(3);
    assert Pow256(5) == 256 * Pow256(4);
    assert Pow256(6) == 256 * Pow256(5);
    assert Pow256(7) == 256 * Pow256(6);
    assert Pow256(8) == 256 * Pow256(7);
  }
}

/** The conventional optional value. */
module Wrappers {
  datatype Option<+T> = None | Some(value: T)
}
