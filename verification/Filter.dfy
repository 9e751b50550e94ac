/** The metadata filter language: reference semantics, index keys, and the key
    ranges that answer each comparison. */
module Filter {
  import opened Bytes
  import opened Wrappers
  import opened Scalar
  import opened Metadata

  datatype RangeOp = Gt | Gte | Lt | Lte

  datatype Filter =
    | All
    | Eq(field: Bytes, value: Scalar)
    | Ne(field: Bytes, value: Scalar)
    | Range(field: Bytes, op: RangeOp, value: Scalar)
    | In(field: Bytes, values: seq<Scalar>)
    | Nin(field: Bytes, values: seq<Scalar>)
    | Exists(field: Bytes, want: bool)
    | And(parts: seq<Filter>)
    | Or(parts: seq<Filter>)
    | Not(part: Filter)

  predicate Operand(x: Scalar) {
    WellFormed(x) && Indexable(x)
  }

  /** What parsing guarantees of a filter. */
  ghost predicate Parsed(f: Filter) {
    match f
    case All => true
    case Eq(field, v) => ValidField(field) && Operand(v)
    case Ne(field, v) => ValidField(field) && Operand(v)
    case Range(field, _, v) => ValidField(field) && Operand(v) && (v.Number? || v.Str?)
    case In(field, vs) => ValidField(field) && forall i | 0 <= i < |vs| :: Operand(vs[i])
    case Nin(field, vs) => ValidField(field) && forall i | 0 <= i < |vs| :: Operand(vs[i])
    case Exists(field, _) => ValidField(field)
    case And(fs) => forall i | 0 <= i < |fs| :: Parsed(fs[i])
    case Or(fs) => forall i | 0 <= i < |fs| :: Parsed(fs[i])
    case Not(g) => Parsed(g)
  }

  // ---- reference semantics -------------------------------------------------

  predicate OpHolds(op: RangeOp, c: Option<Ordering>) {
    match op
    case Gt => c == Some(Greater)
    case Gte => c == Some(Greater) || c == Some(Equal)
    case Lt => c == Some(Less_)
    case Lte => c == Some(Less_) || c == Some(Equal)
  }

  /** The operators on two numbers, by what the numbers are. */
  lemma NumberOperators(a: nat, b: nat)
    ensures var c, x, y := Compare(Number(a), Number(b)), NumberValue(a), NumberValue(b);
            && (OpHolds(Gt, c) <==> x > y) && (OpHolds(Gte, c) <==> x >= y)
            && (OpHolds(Lt, c) <==> x < y) && (OpHolds(Lte, c) <==> x <= y)
            && (c == Some(Equal) <==> x == y)
  {
    hide NumberValue;
  }

  /** The operators on two strings, by byte order. */
  lemma StringOperators(a: Bytes, b: Bytes)
    ensures var c := Compare(Str(a), Str(b));
            && (OpHolds(Gt, c) <==> Less(b, a)) && (OpHolds(Gte, c) <==> Less(b, a) || a == b)
            && (OpHolds(Lt, c) <==> Less(a, b)) && (OpHolds(Lte, c) <==> Less(a, b) || a == b)
            && (c == Some(Equal) <==> a == b)
  {
    hide Less;
    LessTotal(a, b);
    LessIrreflexive(a);
    if Less(a, b) { LessAsymmetric(a, b); }
  }

  /** Values of different kinds satisfy no operator and are never equal. */
  lemma MixedOperators(op: RangeOp, s: Scalar, v: Scalar)
    ensures s.Number? != v.Number? || s.Str? != v.Str? || s.Bool? != v.Bool? || s.Null? != v.Null? ==>
              !OpHolds(op, Compare(s, v)) && Compare(s, v) != Some(Equal)
    ensures (s.Bool? && v.Bool?) || (s.Null? && v.Null?) ==> (Compare(s, v) == Some(Equal) <==> s == v)
  {
  }

  function ValuesAt(meta: Value, field: Bytes): seq<Scalar> {
    Collected(meta, Split(field), MAX_DEPTH)
  }

  predicate AnyEqual(have: seq<Scalar>, v: Scalar) {
    exists i :: 0 <= i < |have| && Compare(have[i], v) == Some(Equal)
  }

  predicate AnyInRange(have: seq<Scalar>, op: RangeOp, v: Scalar) {
    exists i :: 0 <= i < |have| && OpHolds(op, Compare(have[i], v))
  }

  predicate Matches(f: Filter, meta: Value) {
    match f
    case All => true
    case Eq(field, v) => AnyEqual(ValuesAt(meta, field), v)
    case Ne(field, v) => !AnyEqual(ValuesAt(meta, field), v)
    case Range(field, op, v) => AnyInRange(ValuesAt(meta, field), op, v)
    case In(field, vs) => exists i :: 0 <= i < |vs| && AnyEqual(ValuesAt(meta, field), vs[i])
    case Nin(field, vs) => !exists i :: 0 <= i < |vs| && AnyEqual(ValuesAt(meta, field), vs[i])
    case Exists(field, want) => Present(meta, Split(field), MAX_DEPTH) == want
    case And(fs) => forall i | 0 <= i < |fs| :: Matches(fs[i], meta)
    case Or(fs) => exists i :: 0 <= i < |fs| && Matches(fs[i], meta)
    case Not(g) => !Matches(g, meta)
  }

  // ---- prefix successor ----------------------------------------------------

  /** The least key above every key that starts with `p`. */
  function Successor(p: Bytes): Option<Bytes> {
    if p == [] then None
    else
      var n := |p| - 1;
      if p[n] < 0xFF then Some(p[..n] + [p[n] + 1]) else Successor(p[..n])
  }

  /** Scanning from a prefix up to its successor, or to the end when there is none,
      visits exactly the keys with that prefix. */
  method PrefixSuccessor(p: Bytes) returns (r: Option<Bytes>)
    ensures r == Successor(p)
    ensures forall k :: IsPrefix(p, k) <==> AtMost(p, k) && (r.Some? ==> Less(k, r.value))
  {
    hide Less, IsPrefix;
    forall k ensures IsPrefix(p, k) <==> AtMost(p, k) && (Successor(p).Some? ==> Less(k, Successor(p).value)) {
      SuccessorSelects(p, k);
    }
    var end := p;
    while end != []
      invariant Successor(p) == Successor(end)
      decreases |end|
    {
      var last := end[|end| - 1];
      end := end[..|end| - 1];
      if last < 0xFF { return Some(end + [last + 1]); }
    }
    r := None;
  }

  /** Keys from `p` up to its successor, if it has one, are exactly those starting
      with `p`. */
  lemma {:induction false} SuccessorSelects(p: Bytes, k: Bytes)
    ensures AtMost(p, k) && (Successor(p).Some? ==> Less(k, Successor(p).value)) <==> IsPrefix(p, k)
    decreases |p|
  {
    if p == [] {
      assert k[..0] == [];
      return;
    }
    hide Less;
    var n := |p| - 1;
    var head, last := p[..n], p[n];
    assert p == head + [last];
    SnocBetween(head, last, k);
    if last == 0xFF { SuccessorSelects(head, k); }
  }

  /** Where a key stands against `head + [x]`. */
  lemma SnocBetween(head: Bytes, x: Byte, k: Bytes)
    ensures x < 0xFF ==> (AtMost(head + [x], k) && Less(k, head + [x + 1]) <==> IsPrefix(head + [x], k))
    ensures x == 0xFF ==> (AtMost(head + [x], k) && IsPrefix(head, k) <==> IsPrefix(head + [x], k))
    ensures AtMost(head + [x], k) ==> AtMost(head, k)
    ensures IsPrefix(head + [x], k) ==> AtMost(head + [x], k) && IsPrefix(head, k)
    decreases |head|, 1
  {
    if head == [] {
      OneByte(x, k);
    } else if k == [] {
    } else {
      SnocStep(head, x, k);
    }
  }

  lemma OneByte(x: Byte, k: Bytes)
    ensures AtMost([x], k) <==> k != [] && x <= k[0]
    ensures x < 0xFF ==> (Less(k, [x + 1]) <==> k == [] || k[0] <= x)
    ensures IsPrefix([x], k) <==> k != [] && k[0] == x
    ensures [] + [x] == [x] && (x < 0xFF ==> [] + [x + 1] == [x + 1])
  {
    if k != [] {
      assert [x][1..] == [] && k == [k[0]] + k[1..];
      if x == k[0] {
        if k[1..] == [] { assert k == [x]; } else { assert Less([x][1..], k[1..]); }
      }
      if x < 0xFF { assert [x + 1][1..] == []; }
      if IsPrefix([x], k) { assert k[..1][0] == k[0]; }
      if k[0] == x { assert k[..1] == [x]; }
    }
  }

  lemma SnocStep(head: Bytes, x: Byte, k: Bytes)
    requires head != [] && k != []
    ensures x < 0xFF ==> (AtMost(head + [x], k) && Less(k, head + [x + 1]) <==> IsPrefix(head + [x], k))
    ensures x == 0xFF ==> (AtMost(head + [x], k) && IsPrefix(head, k) <==> IsPrefix(head + [x], k))
    ensures AtMost(head + [x], k) ==> AtMost(head, k)
    ensures IsPrefix(head + [x], k) ==> AtMost(head + [x], k) && IsPrefix(head, k)
    decreases |head|, 0
  {
    hide IsPrefix;
    var h, t := head[1..], k[1..];
    SnocBetween(h, x, t);
    PrefixStep(head, k);
    PrefixStep(head + [x], k);
    assert (head + [x])[1..] == h + [x];
    AtMostStep(head, k);
    AtMostStep(head + [x], k);
    if x < 0xFF { assert (head + [x + 1])[1..] == h + [x + 1]; }
  }

  lemma AtMostStep(a: Bytes, k: Bytes)
    requires a != [] && k != []
    ensures AtMost(a, k) <==> a[0] < k[0] || (a[0] == k[0] && AtMost(a[1..], k[1..]))
  {
    assert a == [a[0]] + a[1..] && k == [k[0]] + k[1..];
  }

  lemma PrefixStep(a: Bytes, k: Bytes)
    requires a != [] && k != []
    ensures IsPrefix(a, k) <==> a[0] == k[0] && IsPrefix(a[1..], k[1..])
  {
    if |a| <= |k| {
      assert k[..|a|] == [k[0]] + k[1..][..|a| - 1];
      assert a == [a[0]] + a[1..];
    }
  }

  /** Whatever lies between two continuations of `p` continues `p`. */
  lemma {:induction false} BetweenContinues(p: Bytes, a: Bytes, b: Bytes, k: Bytes)
    requires AtMost(p + a, k) && Less(k, p + b)
    ensures IsPrefix(p, k)
  {
    if p != [] {
      assert (p + a)[1..] == p[1..] + a && (p + b)[1..] == p[1..] + b;
      if k != [] {
        AtMostStep(p + a, k);
        PrefixStep(p, k);
        BetweenContinues(p[1..], a, b, k[1..]);
      }
    }
  }

  lemma SuccessorOf(p: Bytes, e: Bytes)
    requires e != [] && e[0] < 0xFF
    ensures Successor(e).Some? && Successor(p + e) == Some(p + Successor(e).value)
    decreases |e|
  {
    var n := |e| - 1;
    assert (p + e)[..|p| + n] == p + e[..n];
    if e[n] == 0xFF { SuccessorOf(p, e[..n]); }
    else { assert p + e[..n] + [e[n] + 1] == p + (e[..n] + [e[n] + 1]); }
  }

  // ---- which values a range selects ----------------------------------------

  /** The bounds of a comparison, after the field's key prefix. */
  function Bounds(op: RangeOp, v: Scalar): (Bytes, Bytes)
    requires WellFormed(v)
  {
    var e := Encode(v);
    var next := Successor(e);
    var after := if next.Some? then next.value else e;
    match op
    case Gt => (after, [Tag(v) + 1])
    case Gte => (e, [Tag(v) + 1])
    case Lt => ([Tag(v)], e)
    case Lte => ([Tag(v)], after)
  }

  predicate Within(k: Bytes, lo: Bytes, hi: Bytes) {
    AtMost(lo, k) && Less(k, hi)
  }

  lemma TagRange(v: Scalar, x: Bytes)
    requires x != []
    ensures AtMost([Tag(v)], x) <==> Tag(v) <= x[0]
    ensures Less(x, [Tag(v) + 1]) <==> x[0] <= Tag(v)
  {
    OneByte(Tag(v), x);
  }

  lemma NotBelow(a: Bytes, b: Bytes)
    ensures Less(a, b) <==> !AtMost(b, a)
  {
    LessTotal(a, b);
    if Less(a, b) { LessAsymmetric(a, b); }
  }

  lemma LessThenAtMost(a: Bytes, b: Bytes, c: Bytes)
    requires Less(a, b) && AtMost(b, c)
    ensures Less(a, c)
  {
    if b != c { LessTransitive(a, b, c); }
  }

  /** An entry `Encode(s) + id` against an operand's encoding and its successor. */
  lemma EntryPosition(s: Scalar, v: Scalar, id: Bytes)
    requires WellFormed(s) && WellFormed(v)
    ensures Successor(Encode(v)).Some? && AtMost(Encode(v), Successor(Encode(v)).value)
    ensures var x, e := Encode(s) + id, Encode(v);
            && (AtMost(e, x) && Less(x, Successor(e).value) <==> Compare(s, v) == Some(Equal))
            && (Tag(s) == Tag(v) ==> (Less(x, e) <==> Compare(s, v) == Some(Less_)))
  {
    hide Encode, Compare, Less, IsPrefix, Successor;
    var x, e := Encode(s) + id, Encode(v);
    FirstByte(v);
    SuccessorOf([], e);
    SuccessorSelects(e, x);
    SuccessorSelects(e, e);
    EncodePrefixFree(v, s, id);
    CompareFlip(s, v);
    assert IsPrefix(e, e) by { PrefixSelf(e); }
    assert e + [] == e;
    if Tag(s) == Tag(v) {
      NotBelow(x, e);
      if Compare(s, v) == Some(Less_) { EncodeOrder(s, v, id, []); }
      if Compare(v, s) == Some(Less_) { EncodeOrder(v, s, [], id); NotBelow(e, x); LessIsAtMost(e, x); }
      NoOtherOutcome(s, v);
    }
  }

  lemma PrefixSelf(e: Bytes)
    ensures IsPrefix(e, e) && AtMost(e, e)
  {
  }

  /** Each comparison's bounds select exactly the values that satisfy it. */
  lemma RangeSelects(op: RangeOp, s: Scalar, v: Scalar, id: Bytes)
    requires WellFormed(s) && WellFormed(v)
    ensures Within(Encode(s) + id, Bounds(op, v).0, Bounds(op, v).1) <==> OpHolds(op, Compare(s, v))
  {
    hide Encode, Compare, Less, Successor, AtMost;
    var x, e := Encode(s) + id, Encode(v);
    FirstByte(s);
    FirstByte(v);
    assert x[0] == Tag(s);
    EntryPosition(s, v, id);
    var after := Successor(e).value;
    NotBelow(x, e);
    NotBelow(x, after);
    TagRange(v, x);
    CompareFlip(s, v);
    if Tag(s) == Tag(v) { NoOtherOutcome(s, v); }
    assert Compare(s, v).Some? <==> Tag(s) == Tag(v);
    assert Tag(s) < Tag(v) ==> Less(x, e) by { if Tag(s) < Tag(v) { FirstByteLess(x, e); } }
    assert Less(x, e) ==> Less(x, after) by { if Less(x, e) { LessThenAtMost(x, e, after); } }
    assert Tag(v) < Tag(s) ==> !Less(x, e) by { if Tag(v) < Tag(s) { FirstByteLess(e, x); LessIsAtMost(e, x); } }
  }

  lemma FirstByteLess(a: Bytes, b: Bytes)
    requires a != [] && b != [] && a[0] < b[0]
    ensures Less(a, b)
  {
  }

  // ---- index keys ----------------------------------------------------------

  const DOC: Byte := 0x11
  const META: Byte := 0x12
  const IDS: Byte := 0x15
  const PRESENT: Byte := 0x00
  const MAX_ID_LEN: nat := 128

  function Base(field: Bytes): Bytes {
    [META] + field + [0]
  }

  function ValueKey(field: Bytes, v: Scalar, id: Bytes): Bytes
    requires WellFormed(v)
  {
    Base(field) + (Encode(v) + id)
  }

  function PresentKey(field: Bytes, id: Bytes): Bytes {
    Base(field) + ([PRESENT] + id)
  }

  /** Position of the first NUL. */
  function FirstNul(k: Bytes): (i: nat)
    ensures i <= |k| && 0 !in k[..i] && (i < |k| ==> k[i] == 0)
  {
    if k == [] || k[0] == 0 then 0
    else
      var i := FirstNul(k[1..]);
      assert k[..i + 1] == [k[0]] + k[1..][..i];
      i + 1
  }

  /** The field a metadata key belongs to. */
  function KeyField(k: Bytes): Bytes
    requires k != []
  {
    k[1..][..FirstNul(k[1..])]
  }

  /** What follows the field. */
  function KeyRest(k: Bytes): Bytes
    requires k != []
  {
    var i := FirstNul(k[1..]);
    if i < |k| - 1 then k[i + 2..] else []
  }

  /** The document a metadata key belongs to. */
  function KeyId(k: Bytes): Bytes
    requires k != []
  {
    var rest := KeyRest(k);
    if rest == [] then []
    else if rest[0] == PRESENT then rest[1..]
    else
      var n := EncodedEnd(rest);
      if n.Some? && n.value <= |rest| then rest[n.value..] else []
  }

  lemma {:induction false} FirstNulOf(field: Bytes, x: Bytes)
    requires 0 !in field
    ensures FirstNul(field + [0] + x) == |field|
  {
    if field == [] {
      assert field + [0] + x == [0] + x;
    } else {
      FirstNulOf(field[1..], x);
      assert (field + [0] + x)[1..] == field[1..] + [0] + x;
    }
  }

  lemma KeyParts(field: Bytes, x: Bytes)
    requires 0 !in field
    ensures KeyField(Base(field) + x) == field && KeyRest(Base(field) + x) == x
  {
    hide FirstNul;
    var k := Base(field) + x;
    assert k[1..] == field + [0] + x;
    FirstNulOf(field, x);
  }

  /** Field, value and id can all be read back from a key. */
  lemma ValueKeyParts(field: Bytes, v: Scalar, id: Bytes)
    requires 0 !in field && WellFormed(v)
    ensures var k := ValueKey(field, v, id);
            KeyField(k) == field && KeyRest(k) == Encode(v) + id && KeyId(k) == id
  {
    hide Encode, EncodedEnd, KeyField, KeyRest;
    KeyParts(field, Encode(v) + id);
    FirstByte(v);
    EncodedEndFound(v, id);
    assert (Encode(v) + id)[0] == Tag(v);
  }

  lemma PresentKeyParts(field: Bytes, id: Bytes)
    requires 0 !in field
    ensures var k := PresentKey(field, id);
            KeyField(k) == field && KeyRest(k) == [PRESENT] + id && KeyId(k) == id
  {
    hide KeyField, KeyRest;
    KeyParts(field, [PRESENT] + id);
    assert ([PRESENT] + id)[1..] == id;
  }

  /** A key under a field's prefix belongs to that field. */
  lemma UnderBase(field: Bytes, k: Bytes)
    requires 0 !in field && IsPrefix(Base(field), k)
    ensures k != [] && k[0] == META && KeyField(k) == field && KeyRest(k) == k[|Base(field)|..]
    ensures k == Base(field) + KeyRest(k)
  {
    var x := k[|Base(field)|..];
    assert k == Base(field) + x;
    KeyParts(field, x);
  }
}
