/** Where a full page divides, and why a division always exists. */
module BTreeSplit {
  import opened Bytes
  import opened PageLayout
  import opened Wrappers
  import opened BTree

  function Total(sizes: seq<nat>): nat {
    if sizes == [] then 0 else Total(sizes[..|sizes| - 1]) + sizes[|sizes| - 1]
  }

  lemma {:induction false} TotalConcat(a: seq<nat>, b: seq<nat>)
    ensures Total(a + b) == Total(a) + Total(b)
  {
    if b == [] {
      assert a + b == a;
    } else {
      assert (a + b)[..|a + b| - 1] == a + b[..|b| - 1];
      TotalConcat(a, b[..|b| - 1]);
    }
  }

  /** Bytes on each side of a division; with `promote`, cell `c` moves up. */
  function LeftOf(sizes: seq<nat>, c: nat): nat
    requires c <= |sizes|
  {
    Total(sizes[..c])
  }

  function RightOf(sizes: seq<nat>, promote: bool, c: nat): nat
    requires c <= |sizes| && (promote ==> c < |sizes|)
  {
    if promote then Total(sizes[c + 1..]) else Total(sizes[c..])
  }

  /** Both sides fit a page; for a leaf both sides hold a cell. */
  predicate Divides(sizes: seq<nat>, promote: bool, c: nat) {
    && (if promote then c < |sizes| else 0 < c < |sizes|)
    && LeftOf(sizes, c) <= USABLE_SPACE && RightOf(sizes, promote, c) <= USABLE_SPACE
  }

  function Imbalance(sizes: seq<nat>, promote: bool, c: nat): nat
    requires c <= |sizes| && (promote ==> c < |sizes|)
  {
    var l, r := LeftOf(sizes, c), RightOf(sizes, promote, c);
    if l < r then r - l else l - r
  }

  lemma TotalCut(sizes: seq<nat>, c: nat)
    requires c <= |sizes|
    ensures Total(sizes) == Total(sizes[..c]) + Total(sizes[c..])
  {
    assert sizes == sizes[..c] + sizes[c..];
    TotalConcat(sizes[..c], sizes[c..]);
  }

  lemma TotalStep(sizes: seq<nat>, c: nat)
    requires c < |sizes|
    ensures Total(sizes[..c + 1]) == Total(sizes[..c]) + sizes[c]
  {
    assert sizes[..c + 1][..c] == sizes[..c];
  }

  /** The sides of a division from the running total alone. */
  lemma Sides(sizes: seq<nat>, c: nat)
    requires c <= |sizes|
    ensures LeftOf(sizes, 0) == 0 && LeftOf(sizes, |sizes|) == Total(sizes)
    ensures c < |sizes| ==> LeftOf(sizes, c + 1) == LeftOf(sizes, c) + sizes[c]
    ensures RightOf(sizes, false, c) + LeftOf(sizes, c) == Total(sizes)
    ensures c < |sizes| ==> RightOf(sizes, true, c) + LeftOf(sizes, c) + sizes[c] == Total(sizes)
  {
    hide LeftOf, RightOf, Total;
    Ends(sizes);
    NotPromoted(sizes, c);
    if c < |sizes| { Promoted(sizes, c); }
  }

  lemma Ends(sizes: seq<nat>)
    ensures LeftOf(sizes, 0) == 0 && LeftOf(sizes, |sizes|) == Total(sizes)
  {
    hide Total;
    assert sizes[..0] == [] && sizes[..|sizes|] == sizes;
    EmptyTotal();
  }

  lemma NotPromoted(sizes: seq<nat>, c: nat)
    requires c <= |sizes|
    ensures RightOf(sizes, false, c) + LeftOf(sizes, c) == Total(sizes)
  {
    hide Total;
    TotalCut(sizes, c);
  }

  lemma Promoted(sizes: seq<nat>, c: nat)
    requires c < |sizes|
    ensures LeftOf(sizes, c + 1) == LeftOf(sizes, c) + sizes[c]
    ensures RightOf(sizes, true, c) + LeftOf(sizes, c) + sizes[c] == Total(sizes)
  {
    hide Total;
    TotalStep(sizes, c);
    TotalCut(sizes, c + 1);
  }

  lemma EmptyTotal()
    ensures Total([]) == 0
  {
  }

  /** `best` is the first most even division among the candidates below `n`. */
  ghost predicate BestBelow(sizes: seq<nat>, promote: bool, n: nat, best: Option<nat>) {
    && (best.Some? ==> Divides(sizes, promote, best.value) && best.value < n)
    && (best.None? ==> forall c: nat | c < n :: !Divides(sizes, promote, c))
    && (best.Some? ==> forall c: nat | c < n && Divides(sizes, promote, c) ::
          Imbalance(sizes, promote, best.value) <= Imbalance(sizes, promote, c)
          && (c < best.value ==> Imbalance(sizes, promote, best.value) < Imbalance(sizes, promote, c)))
  }

  lemma BestStep(sizes: seq<nat>, promote: bool, n: nat, best: Option<nat>)
    requires BestBelow(sizes, promote, n, best)
    ensures BestBelow(sizes, promote, n + 1,
              if Divides(sizes, promote, n) && (best.None? || Imbalance(sizes, promote, n) < Imbalance(sizes, promote, best.value))
              then Some(n) else best)
  {
    hide LeftOf, RightOf;
  }

  /** The most even division, the first of equals; `None` only if none exists. */
  method SplitPoint(sizes: seq<nat>, promote: bool) returns (best: Option<nat>)
    ensures BestBelow(sizes, promote, |sizes|, best)
    ensures best.None? ==> forall c: nat :: !Divides(sizes, promote, c)
  {
    hide Total, LeftOf, RightOf, BestBelow;
    var total := Sum(sizes);
    var least, left := 0, 0;
    best := None;
    Sides(sizes, 0);
    NoneBelow(sizes, promote);
    for i := 0 to |sizes|
      invariant left == LeftOf(sizes, i)
      invariant BestBelow(sizes, promote, if promote then i else i + 1, best)
      invariant best.Some? ==> best.value < |sizes| && least == Imbalance(sizes, promote, best.value)
    {
      Sides(sizes, i);
      Sides(sizes, i + 1);
      var size := sizes[i];
      var l, r, candidate := left, total - left - size, i;
      if !promote { l, r, candidate := left + size, total - left - size, i + 1; }
      left := left + size;
      BestStep(sizes, promote, candidate, best);
      if (promote || candidate < |sizes|) && l <= USABLE_SPACE && r <= USABLE_SPACE {
        var imbalance := if l < r then r - l else l - r;
        if best.None? || imbalance < least { best, least := Some(candidate), imbalance; }
      }
    }
    BestAll(sizes, promote, best);
  }

  /** What the chosen division is: no other one within the page limits leaves the sides
      closer, and for a leaf none leaves a smaller larger half. */
  lemma MostEven(sizes: seq<nat>, promote: bool, b: nat, c: nat)
    requires BestBelow(sizes, promote, |sizes|, Some(b)) && c < |sizes| && (promote || c > 0)
    requires var from := if promote then c + 1 else c;
             Total(sizes[..c]) <= USABLE_SPACE && Total(sizes[from..]) <= USABLE_SPACE
    ensures b < |sizes| && (promote || b > 0)
    ensures var l, r := Total(sizes[..b]) as int, Total(sizes[if promote then b + 1 else b..]) as int;
            var x, y := Total(sizes[..c]) as int, Total(sizes[if promote then c + 1 else c..]) as int;
            && l <= USABLE_SPACE && r <= USABLE_SPACE
            && (l - r <= x - y || l - r <= y - x) && (r - l <= x - y || r - l <= y - x)
            && (!promote ==> Max(l, r) <= Max(x, y))
  {
    hide Total;
    assert Divides(sizes, promote, c);
    if !promote {
      TotalCut(sizes, b);
      TotalCut(sizes, c);
    }
  }

  lemma NoneBelow(sizes: seq<nat>, promote: bool)
    ensures BestBelow(sizes, promote, if promote then 0 else 1, None)
  {
  }

  lemma BestAll(sizes: seq<nat>, promote: bool, best: Option<nat>)
    requires BestBelow(sizes, promote, if promote then |sizes| else |sizes| + 1, best)
    ensures BestBelow(sizes, promote, |sizes|, best)
    ensures best.None? ==> forall c: nat :: !Divides(sizes, promote, c)
  {
    hide LeftOf, RightOf;
  }

  method Sum(sizes: seq<nat>) returns (t: nat)
    ensures t == Total(sizes)
  {
    t := 0;
    for i := 0 to |sizes|
      invariant t == Total(sizes[..i])
    {
      assert sizes[..i + 1][..i] == sizes[..i];
      t := t + sizes[i];
    }
    assert sizes[..|sizes|] == sizes;
  }

  // ---- existence -----------------------------------------------------------

  /** Adding cells one by one, the running total first reaches `goal` here. */
  lemma {:induction false} FirstReach(sizes: seq<nat>, goal: nat, n: nat) returns (c: nat)
    requires n <= |sizes| && goal <= LeftOf(sizes, n)
    ensures c <= n && goal <= LeftOf(sizes, c) && (c > 0 ==> LeftOf(sizes, c - 1) < goal)
  {
    hide LeftOf;
    c := n;
    if n > 0 && goal <= LeftOf(sizes, n - 1) { c := FirstReach(sizes, goal, n - 1); }
  }

  const LARGEST_CELL: nat := 1040

  /** No leaf cell and slot together exceed 1040 bytes. */
  lemma EntryLimit(e: Entry)
    requires EntryOk(e)
    ensures EntrySize(e) <= LARGEST_CELL
  {
  }

  /** A leaf that overflows by one cell can always be divided. */
  lemma LeafDivides(sizes: seq<nat>)
    requires |sizes| >= 2 && Total(sizes) <= USABLE_SPACE + LARGEST_CELL
    requires forall i | 0 <= i < |sizes| :: 0 < sizes[i] <= LARGEST_CELL
    ensures exists c: nat :: Divides(sizes, false, c)
  {
    hide Total, LeftOf, RightOf;
    var t := Total(sizes);
    var goal := if t <= USABLE_SPACE then 1 else t - USABLE_SPACE;
    Sides(sizes, 0);
    Sides(sizes, 1);
    Sides(sizes, |sizes| - 1);
    var c := FirstReach(sizes, goal, |sizes|);
    Sides(sizes, c - 1);
    Sides(sizes, c);
    if c == |sizes| { FewBefore(sizes, c - 1); }
    assert Divides(sizes, false, c);
  }

  /** All but the last of two or more cells are not nothing. */
  lemma FewBefore(sizes: seq<nat>, c: nat)
    requires 0 < c < |sizes| && forall i | 0 <= i < |sizes| :: 0 < sizes[i]
    ensures LeftOf(sizes, c) > 0
  {
    hide Total, LeftOf, RightOf;
    Sides(sizes, c - 1);
  }

  /** An internal node that overflows by one separator can always be divided. */
  lemma NodeDivides(sizes: seq<nat>)
    requires sizes != [] && Total(sizes) <= USABLE_SPACE + LARGEST_CELL
    requires forall i | 0 <= i < |sizes| :: 0 < sizes[i] <= LARGEST_CELL
    ensures exists c: nat :: Divides(sizes, true, c)
  {
    hide Total, LeftOf, RightOf;
    var t := Total(sizes);
    Sides(sizes, 0);
    if t <= USABLE_SPACE {
      assert Divides(sizes, true, 0);
    } else {
      var c := FirstReach(sizes, t - USABLE_SPACE, |sizes|);
      Sides(sizes, c - 1);
      assert Divides(sizes, true, c - 1);
    }
  }

  // ---- sizes of cells ------------------------------------------------------

  function EntrySizes(es: seq<Entry>): seq<nat> {
    seq(|es|, i requires 0 <= i < |es| => EntrySize(es[i]))
  }

  function SepSizes(ks: seq<Bytes>): seq<nat> {
    seq(|ks|, i requires 0 <= i < |ks| => SepSize(ks[i]))
  }

  lemma {:induction false} EntrySizesTotal(es: seq<Entry>)
    ensures Total(EntrySizes(es)) == LeafBytes(es)
  {
    if es != [] {
      assert EntrySizes(es)[..|es| - 1] == EntrySizes(es[..|es| - 1]);
      EntrySizesTotal(es[..|es| - 1]);
    }
  }

  lemma {:induction false} SepSizesTotal(ks: seq<Bytes>)
    ensures Total(SepSizes(ks)) == NodeBytes(ks)
  {
    if ks != [] {
      assert SepSizes(ks)[..|ks| - 1] == SepSizes(ks[..|ks| - 1]);
      SepSizesTotal(ks[..|ks| - 1]);
    }
  }

  lemma EntriesDivided(es: seq<Entry>, c: nat)
    requires Divides(EntrySizes(es), false, c)
    ensures 0 < c < |es| && LeafBytes(es[..c]) <= USABLE_SPACE && LeafBytes(es[c..]) <= USABLE_SPACE
  {
    assert EntrySizes(es)[..c] == EntrySizes(es[..c]) && EntrySizes(es)[c..] == EntrySizes(es[c..]);
    EntrySizesTotal(es[..c]);
    EntrySizesTotal(es[c..]);
  }

  lemma SepsDivided(ks: seq<Bytes>, c: nat)
    requires Divides(SepSizes(ks), true, c)
    ensures c < |ks| && NodeBytes(ks[..c]) <= USABLE_SPACE && NodeBytes(ks[c + 1..]) <= USABLE_SPACE
  {
    assert SepSizes(ks)[..c] == SepSizes(ks[..c]) && SepSizes(ks)[c + 1..] == SepSizes(ks[c + 1..]);
    SepSizesTotal(ks[..c]);
    SepSizesTotal(ks[c + 1..]);
  }
}
