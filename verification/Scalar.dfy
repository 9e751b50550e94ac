/** Scalars of the metadata filter language and their order-preserving,
    self-delimiting byte encoding. */
module Scalar {
  import opened Bytes
  import opened Wrappers

  // ---- binary64 ------------------------------------------------------------

  const TWO52: nat := 0x10_0000_0000_0000
  const TWO63: nat := 0x8000_0000_0000_0000
  const TWO64: nat := 0x1_0000_0000_0000_0000

  /** A finite binary64 bit pattern: sign, biased exponent below 2047, fraction. */
  predicate Finite(bits: nat) {
    bits < TWO64 && (bits % TWO63) / TWO52 < 2047
  }

  /** Magnitude in units of the smallest subnormal, by section 3.4 of IEEE 754. */
  function Magnitude(m: nat): nat {
    var exponent, fraction := m / TWO52, m % TWO52;
    if exponent == 0 then fraction else (TWO52 + fraction) * Pow2(exponent - 1)
  }

  /** The exact numeric value a bit pattern denotes, in those units. */
  function NumberValue(bits: nat): int {
    if bits < TWO63 then Magnitude(bits) else -(Magnitude(bits - TWO63) as int)
  }

  lemma {:induction false} Pow2Mono(a: nat, b: nat)
    requires a <= b
    ensures Pow2(a) <= Pow2(b)
    decreases b
  {
    if a < b { Pow2Mono(a, b - 1); }
  }

  lemma ScaleMono(x: nat, y: nat, p: nat)
    requires x <= y
    ensures x * p <= y * p
  {
  }

  lemma ScaleStrict(x: nat, y: nat, p: nat)
    requires x < y && p > 0
    ensures x * p < y * p
  {
    assert y * p - x * p == (y - x) * p;
  }

  lemma MagnitudeBounds(m: nat)
    ensures var e := m / TWO52;
            if e == 0 then Magnitude(m) < TWO52
            else TWO52 * Pow2(e - 1) <= Magnitude(m) < TWO52 * Pow2(e)
  {
    var e, f := m / TWO52, m % TWO52;
    if e > 0 {
      var p := Pow2(e - 1);
      assert Magnitude(m) == (TWO52 + f) * p;
      ScaleMono(TWO52, TWO52 + f, p);
      ScaleStrict(TWO52 + f, 2 * TWO52, p);
      assert 2 * TWO52 * p == TWO52 * Pow2(e) by { assert Pow2(e) == 2 * p; }
    }
  }

  /** Larger patterns have larger magnitudes. */
  lemma MagnitudeMono(a: nat, b: nat)
    requires a < b
    ensures Magnitude(a) < Magnitude(b)
  {
    hide Pow2;
    var ea, eb := a / TWO52, b / TWO52;
    if ea == eb {
      if ea > 0 { ScaleStrict(TWO52 + a % TWO52, TWO52 + b % TWO52, Pow2(ea - 1)); }
    } else {
      MagnitudeBounds(a);
      MagnitudeBounds(b);
      if ea > 0 {
        Pow2Mono(ea, eb - 1);
        ScaleMono(Pow2(ea), Pow2(eb - 1), TWO52);
      } else {
        assert TWO52 * 1 <= TWO52 * Pow2(eb - 1) by { ScaleMono(1, Pow2(eb - 1), TWO52); }
      }
    }
  }

  // ---- scalars -------------------------------------------------------------

  datatype Scalar = Null | Bool(b: bool) | Number(bits: nat) | Str(s: Bytes)

  predicate WellFormed(x: Scalar) {
    x.Number? ==> Finite(x.bits)
  }

  datatype Ordering = Less_ | Equal | Greater

  function CompareInts(a: int, b: int): Ordering {
    if a < b then Less_ else if a == b then Equal else Greater
  }

  function CompareBytes(a: Bytes, b: Bytes): Ordering {
    if Less(a, b) then Less_ else if a == b then Equal else Greater
  }

  function AsInt(b: bool): int { if b then 1 else 0 }

  /** Orders scalars of one type by value; `None` across types. */
  function Compare(x: Scalar, y: Scalar): Option<Ordering> {
    match (x, y)
    case (Number(a), Number(b)) => Some(CompareInts(NumberValue(a), NumberValue(b)))
    case (Str(a), Str(b)) => Some(CompareBytes(a, b))
    case (Bool(a), Bool(b)) => Some(CompareInts(AsInt(a), AsInt(b)))
    case (Null, Null) => Some(Equal)
    case _ => None
  }

  // ---- encoding ------------------------------------------------------------

  /** Big-endian integer of `w` bytes. */
  function BE(n: nat, w: nat): (b: Bytes)
    ensures |b| == w
    decreases w
  {
    if w == 0 then [] else BE(n / 256, w - 1) + [n % 256]
  }

  /** The bit pattern remapped so that unsigned order is numeric order. */
  function OrderedBits(bits: nat): (r: nat)
    requires Finite(bits)
    ensures r < TWO64
  {
    var n := if bits == TWO63 then 0 else bits;
    if n >= TWO63 then TWO64 - 1 - n else n + TWO63
  }

  function Escape(s: Bytes): Bytes {
    if s == [] then [] else (if s[0] == 0 then [0, 0xFF] else [s[0]]) + Escape(s[1..])
  }

  function Tag(x: Scalar): Byte {
    match x
    case Null => 1
    case Bool(_) => 2
    case Number(_) => 3
    case Str(_) => 4
  }

  function Encode(x: Scalar): Bytes
    requires WellFormed(x)
  {
    match x
    case Null => [1]
    case Bool(b) => [2, AsInt(b)]
    case Number(bits) => [3] + BE(OrderedBits(bits), 8)
    case Str(s) => [4] + Escape(s) + [0, 1]
  }

  /** The loop that builds a string's encoding. */
  method EncodeString(s: Bytes) returns (out: Bytes)
    ensures out == Encode(Str(s))
  {
    out := [4];
    for i := 0 to |s|
      invariant [4] + Escape(s) == out + Escape(s[i..])
    {
      assert s[i..][1..] == s[i + 1..];
      ghost var rest := Escape(s[i + 1..]);
      out := out + [s[i]];
      if s[i] == 0 { out := out + [0xFF]; }
    }
    out := out + [0, 1];
  }

  // ---- number order --------------------------------------------------------

  lemma {:induction false} BEOrder(a: nat, b: nat, w: nat)
    requires a < Pow256(w) && b < Pow256(w)
    ensures Less(BE(a, w), BE(b, w)) <==> a < b
    decreases w
  {
    if w > 0 {
      BEOrder(a / 256, b / 256, w - 1);
      BEOrder(b / 256, a / 256, w - 1);
      LessSnoc(BE(a / 256, w - 1), a % 256, BE(b / 256, w - 1), b % 256);
      LessTotal(BE(a / 256, w - 1), BE(b / 256, w - 1));
    }
  }

  /** Order of equal-length strings extended by one byte each. */
  lemma {:induction false} LessSnoc(a: Bytes, x: Byte, b: Bytes, y: Byte)
    requires |a| == |b|
    ensures Less(a + [x], b + [y]) <==> Less(a, b) || (a == b && x < y)
  {
    if a == [] {
      assert a + [x] == [x] && b + [y] == [y];
    } else {
      assert (a + [x])[1..] == a[1..] + [x] && (b + [y])[1..] == b[1..] + [y];
      LessSnoc(a[1..], x, b[1..], y);
      assert a == [a[0]] + a[1..] && b == [b[0]] + b[1..];
      if a[0] == b[0] && Less(a, b) { assert Less(a[1..], b[1..]); }
    }
  }

  /** Bit order is value order, with both zeros the same. */
  lemma NumberOrder(a: nat, b: nat)
    requires Finite(a) && Finite(b)
    ensures OrderedBits(a) < OrderedBits(b) <==> NumberValue(a) < NumberValue(b)
    ensures OrderedBits(a) == OrderedBits(b) <==> NumberValue(a) == NumberValue(b)
  {
    NumberOrderOneWay(a, b);
    NumberOrderOneWay(b, a);
  }

  lemma NumberOrderOneWay(a: nat, b: nat)
    requires Finite(a) && Finite(b)
    ensures OrderedBits(a) < OrderedBits(b) ==> NumberValue(a) < NumberValue(b)
    ensures OrderedBits(a) == OrderedBits(b) ==> NumberValue(a) == NumberValue(b)
  {
    hide Magnitude;
    MagnitudeZero();
    var ma, mb := a % TWO63, b % TWO63;
    if ma < mb { MagnitudeMono(ma, mb); }
    if mb < ma { MagnitudeMono(mb, ma); }
    if 0 < ma { MagnitudeMono(0, ma); }
    if 0 < mb { MagnitudeMono(0, mb); }
  }

  lemma MagnitudeZero()
    ensures Magnitude(0) == 0
  {
  }

  // ---- string order --------------------------------------------------------

  /** Escaped and terminated strings compare as the strings do, whatever follows. */
  lemma {:induction false} EscapeOrder(s: Bytes, t: Bytes, p: Bytes, q: Bytes)
    ensures Less(s, t) ==> Less(Escape(s) + [0, 1] + p, Escape(t) + [0, 1] + q)
  {
    var es, et := Escape(s) + [0, 1] + p, Escape(t) + [0, 1] + q;
    if Less(s, t) {
      if s == [] {
        assert es == [0, 1] + p;
        if t[0] == 0 {
          assert et == [0, 0xFF] + (Escape(t[1..]) + [0, 1] + q);
          assert es[1..] == [1] + p;
        }
      } else if s[0] == t[0] {
        EscapeOrder(s[1..], t[1..], p, q);
        var head: Bytes := if s[0] == 0 then [0, 0xFF] else [s[0]];
        var a, b := Escape(s[1..]) + [0, 1] + p, Escape(t[1..]) + [0, 1] + q;
        assert es == head + a && et == head + b;
        LessSamePrefix(head, a, b);
      }
    }
  }

  // ---- the encoding as a whole ---------------------------------------------

  /** With anything appended, encodings of one type compare as the values do. */
  lemma EncodeOrder(x: Scalar, y: Scalar, p: Bytes, q: Bytes)
    requires WellFormed(x) && WellFormed(y) && Compare(x, y) == Some(Less_)
    ensures Less(Encode(x) + p, Encode(y) + q)
  {
    hide NumberValue, Escape, OrderedBits, Encode, Less;
    match x
    case Number(a) => NumberEncodeOrder(a, y.bits, p, q);
    case Str(s) => StrEncodeOrder(s, y.s, p, q);
    case Bool(a) => BoolEncodeOrder(p, q);
    case Null => assert false;
  }

  lemma NumberEncodeOrder(a: nat, b: nat, p: Bytes, q: Bytes)
    requires Finite(a) && Finite(b) && NumberValue(a) < NumberValue(b)
    ensures Less(Encode(Number(a)) + p, Encode(Number(b)) + q)
  {
    hide NumberValue, OrderedBits, BE, Less;
    NumberOrder(a, b);
    NumberBytes(a, b);
    FixedOrder([3] + BE(OrderedBits(a), 8), [3] + BE(OrderedBits(b), 8), p, q);
  }

  lemma StrEncodeOrder(s: Bytes, t: Bytes, p: Bytes, q: Bytes)
    requires Less(s, t)
    ensures Less(Encode(Str(s)) + p, Encode(Str(t)) + q)
  {
    hide Escape, Less;
    EscapeOrder(s, t, p, q);
    var a, b := Escape(s) + [0, 1] + p, Escape(t) + [0, 1] + q;
    assert Encode(Str(s)) + p == [4] + a && Encode(Str(t)) + q == [4] + b;
    LessSamePrefix([4], a, b);
  }

  lemma BoolEncodeOrder(p: Bytes, q: Bytes)
    ensures Less(Encode(Bool(false)) + p, Encode(Bool(true)) + q)
  {
    var a, b := Encode(Bool(false)) + p, Encode(Bool(true)) + q;
    assert a[0] == b[0] && a[1..][0] < b[1..][0];
  }

  lemma NumberBytes(a: nat, b: nat)
    requires Finite(a) && Finite(b)
    ensures Less([3] + BE(OrderedBits(a), 8), [3] + BE(OrderedBits(b), 8)) <==> OrderedBits(a) < OrderedBits(b)
  {
    WordLimits();
    BEOrder(OrderedBits(a), OrderedBits(b), 8);
    LessSamePrefix([3], BE(OrderedBits(a), 8), BE(OrderedBits(b), 8));
  }

  /** Equal-length strings keep their order under any suffixes. */
  lemma {:induction false} FixedOrder(a: Bytes, b: Bytes, p: Bytes, q: Bytes)
    requires |a| == |b| && Less(a, b)
    ensures Less(a + p, b + q)
  {
    if a[0] == b[0] {
      FixedOrder(a[1..], b[1..], p, q);
      assert (a + p)[1..] == a[1..] + p && (b + q)[1..] == b[1..] + q;
    }
  }

  /** Scalars that compare equal have one encoding. */
  lemma EncodeEqual(x: Scalar, y: Scalar)
    requires WellFormed(x) && WellFormed(y) && Compare(x, y) == Some(Equal)
    ensures Encode(x) == Encode(y)
  {
    hide NumberValue, OrderedBits;
    if x.Number? { NumberOrder(x.bits, y.bits); }
  }

  lemma CompareFlip(x: Scalar, y: Scalar)
    requires WellFormed(x) && WellFormed(y)
    ensures Compare(x, y) == None <==> Compare(y, x) == None
    ensures Compare(x, y) == None <==> Tag(x) != Tag(y)
    ensures Compare(x, y) == Some(Greater) <==> Compare(y, x) == Some(Less_)
    ensures Compare(x, y) == Some(Equal) <==> Compare(y, x) == Some(Equal)
  {
    hide NumberValue;
    if x.Str? && y.Str? {
      LessTotal(x.s, y.s);
      LessIrreflexive(x.s);
      if Less(x.s, y.s) { LessAsymmetric(x.s, y.s); }
      if Less(y.s, x.s) { LessAsymmetric(y.s, x.s); }
    }
  }

  lemma FirstByte(x: Scalar)
    requires WellFormed(x)
    ensures |Encode(x)| > 0 && Encode(x)[0] == Tag(x)
  {
    hide OrderedBits, Escape;
  }

  predicate IsPrefix(p: Bytes, s: Bytes) {
    |p| <= |s| && s[..|p|] == p
  }

  /** Prefix-free: an encoding starts another, however continued, only if the
      scalars are equal. */
  lemma EncodePrefixFree(x: Scalar, y: Scalar, p: Bytes)
    requires WellFormed(x) && WellFormed(y)
    ensures IsPrefix(Encode(x), Encode(y) + p) <==> Compare(x, y) == Some(Equal)
  {
    hide Encode, NumberValue, Compare;
    FirstByte(x);
    FirstByte(y);
    CompareFlip(x, y);
    var ex, ey := Encode(x), Encode(y);
    if Compare(x, y) == Some(Equal) {
      EncodeEqual(x, y);
      assert (ey + p)[..|ex|] == ex;
    } else if IsPrefix(ex, ey + p) {
      var rest := (ey + p)[|ex|..];
      assert ey + p == ex + rest;
      assert ex[0] == (ex + rest)[0] == (ey + p)[0] == ey[0];
      if Compare(x, y) == Some(Less_) {
        EncodeOrder(x, y, rest, p);
        LessIrreflexive(ey + p);
      } else if Compare(y, x) == Some(Less_) {
        EncodeOrder(y, x, p, rest);
        LessIrreflexive(ey + p);
      } else {
        NoOtherOutcome(x, y);
      }
    }
  }

  lemma NoOtherOutcome(x: Scalar, y: Scalar)
    requires WellFormed(x) && WellFormed(y) && Tag(x) == Tag(y)
    ensures Compare(x, y) == Some(Less_) || Compare(x, y) == Some(Equal) || Compare(y, x) == Some(Less_)
  {
    hide NumberValue;
    CompareFlip(x, y);
  }

  // ---- finding the end -----------------------------------------------------

  /** Where the encoding at the start of `b` ends, if it is well formed. */
  function StringEnd(b: Bytes, i: nat): Option<nat>
    requires i <= |b|
    decreases |b| - i
  {
    if i + 1 >= |b| then None
    else if b[i] != 0 then StringEnd(b, i + 1)
    else if b[i + 1] == 1 then Some(i + 2)
    else if b[i + 1] == 0xFF then StringEnd(b, i + 2)
    else None
  }

  function EncodedEnd(b: Bytes): Option<nat> {
    if b == [] then None
    else if b[0] == 1 then Some(1)
    else if b[0] == 2 then (if |b| >= 2 then Some(2) else None)
    else if b[0] == 3 then (if |b| >= 9 then Some(9) else None)
    else if b[0] == 4 then StringEnd(b, 1)
    else None
  }

  method EncodedLen(b: Bytes) returns (n: Option<nat>)
    ensures n == EncodedEnd(b)
    ensures n.Some? ==> n.value <= |b|
  {
    if b == [] { return None; }
    if b[0] == 1 { return Some(1); }
    if b[0] == 2 { return if |b| >= 2 then Some(2) else None; }
    if b[0] == 3 { return if |b| >= 9 then Some(9) else None; }
    if b[0] != 4 { return None; }
    var i := 1;
    while i + 1 < |b|
      invariant 1 <= i <= |b| && StringEnd(b, 1) == StringEnd(b, i)
    {
      if b[i] == 0 {
        if b[i + 1] == 1 { return Some(i + 2); }
        if b[i + 1] != 0xFF { return None; }
        i := i + 2;
      } else {
        i := i + 1;
      }
    }
    n := None;
  }

  lemma {:induction false} StringEndFound(head: Bytes, s: Bytes, p: Bytes)
    ensures StringEnd(head + (Escape(s) + [0, 1] + p), |head|) == Some(|head| + |Escape(s)| + 2)
    decreases |s|
  {
    var b := head + (Escape(s) + [0, 1] + p);
    if s == [] {
      assert b == head + ([0, 1] + p);
    } else {
      var piece: Bytes := if s[0] == 0 then [0, 0xFF] else [s[0]];
      var rest := Escape(s[1..]) + [0, 1] + p;
      assert b == (head + piece) + rest;
      StringEndFound(head + piece, s[1..], p);
      assert b[|head|] == s[0];
    }
  }

  /** The boundary is recovered whatever id follows. */
  lemma EncodedEndFound(x: Scalar, p: Bytes)
    requires WellFormed(x)
    ensures EncodedEnd(Encode(x) + p) == Some(|Encode(x)|)
  {
    hide OrderedBits, StringEnd, Escape, BE;
    if x.Str? {
      var tail := Escape(x.s) + [0, 1] + p;
      StringEndFound([4], x.s, p);
      assert Encode(x) + p == [4] + tail;
      assert ([4] + tail)[0] == 4;
    } else {
      assert (Encode(x) + p)[0] == Encode(x)[0];
    }
  }

  // ---- what is indexed -----------------------------------------------------

  const MAX_INDEXED_STRING: nat := 512

  function Zeros(s: Bytes): nat {
    if s == [] then 0 else (if s[0] == 0 then 1 else 0) + Zeros(s[1..])
  }

  predicate Indexable(x: Scalar) {
    x.Str? ==> |x.s| + Zeros(x.s) <= MAX_INDEXED_STRING
  }

  lemma {:induction false} EscapeLength(s: Bytes)
    ensures |Escape(s)| == |s| + Zeros(s)
  {
    if s != [] { EscapeLength(s[1..]); }
  }

  /** Indexable scalars encode in at most 515 bytes. */
  lemma EncodedLimit(x: Scalar)
    requires WellFormed(x) && Indexable(x)
    ensures |Encode(x)| <= MAX_INDEXED_STRING + 3
  {
    if x.Str? { EscapeLength(x.s); }
  }
}
