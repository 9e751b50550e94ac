/** Key ranges. */
module Ranges {
  import opened Bytes

  datatype Bound = Unbounded | Included(key: Bytes) | Excluded(key: Bytes)

  predicate AboveLow(lo: Bound, k: Bytes) {
    match lo
    case Unbounded => true
    case Included(b) => AtMost(b, k)
    case Excluded(b) => Less(b, k)
  }

  predicate BelowHigh(hi: Bound, k: Bytes) {
    match hi
    case Unbounded => true
    case Included(b) => AtMost(k, b)
    case Excluded(b) => Less(k, b)
  }

  predicate InRange(lo: Bound, hi: Bound, k: Bytes) {
    AboveLow(lo, k) && BelowHigh(hi, k)
  }

  /** What the bounds say of the bound key itself and of the keys on each side of it. */
  lemma BoundsMean(b: Bytes, k: Bytes)
    ensures AboveLow(Included(b), b) && BelowHigh(Included(b), b) && !AboveLow(Excluded(b), b) && !BelowHigh(Excluded(b), b)
    ensures Less(k, b) ==> !AboveLow(Included(b), k) && !AboveLow(Excluded(b), k) && BelowHigh(Included(b), k) && BelowHigh(Excluded(b), k)
    ensures Less(b, k) ==> AboveLow(Included(b), k) && AboveLow(Excluded(b), k) && !BelowHigh(Included(b), k) && !BelowHigh(Excluded(b), k)
    ensures k == b || Less(k, b) || Less(b, k)
    ensures AboveLow(Unbounded, k) && BelowHigh(Unbounded, k)
  {
    LessIrreflexive(b);
    LessTotal(k, b);
    if Less(k, b) { LessAsymmetric(k, b); }
    if Less(b, k) { LessAsymmetric(b, k); }
  }

  /** Past one end, later keys stay past it. */
  lemma RangeOrder(a: Bytes, b: Bytes, bound: Bound)
    requires Less(a, b)
    ensures AboveLow(bound, a) ==> AboveLow(bound, b)
    ensures !BelowHigh(bound, a) ==> !BelowHigh(bound, b)
  {
    if bound.Included? && AtMost(bound.key, a) { LessAtMost(bound.key, a, b); }
    if bound.Excluded? && Less(bound.key, a) { LessTransitive(bound.key, a, b); }
    if bound.Included? && AtMost(b, bound.key) { LessAtMost(a, b, bound.key); }
    if bound.Excluded? && Less(b, bound.key) { LessTransitive(a, b, bound.key); }
  }
}
