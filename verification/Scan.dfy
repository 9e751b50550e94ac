/** Ordered scans: the tree's pairs merged with the in-memory versions, the
    key count, and the batched copy a backup makes. */
module Scan {
  import opened Bytes
  import opened Wrappers
  import opened History

  type Pair = (Bytes, Bytes)
  type OverlayEntry = (Bytes, Option<Bytes>)

  // ---- ascending lists as maps ---------------------------------------------

  /** Keys strictly ascending. */
  predicate Ordered<V>(es: seq<(Bytes, V)>) {
    forall i, j | 0 <= i < j < |es| :: Less(es[i].0, es[j].0)
  }

  function Find<V>(es: seq<(Bytes, V)>, k: Bytes): Option<V> {
    if es == [] then None else if es[0].0 == k then Some(es[0].1) else Find(es[1..], k)
  }

  /** `es` is the ascending listing of `m`. */
  ghost predicate IsListing(es: seq<Pair>, m: map<Bytes, Bytes>) {
    Ordered(es) && forall k :: Find(es, k) == Get(m, k)
  }

  ghost predicate IsOverlay(es: seq<OverlayEntry>, ws: Writes) {
    Ordered(es) && forall k :: Find(es, k) == if k in ws then Some(ws[k]) else None
  }

  predicate AllAbove<V>(es: seq<(Bytes, V)>, b: Bytes) {
    forall i | 0 <= i < |es| :: Less(b, es[i].0)
  }

  lemma {:induction false} FindAbove<V>(es: seq<(Bytes, V)>, b: Bytes)
    requires AllAbove(es, b)
    ensures Find(es, b) == None
  {
    if es != [] {
      LessIrreflexive(b);
      FindAbove(es[1..], b);
    }
  }

  lemma AboveTrans<V>(es: seq<(Bytes, V)>, a: Bytes, b: Bytes)
    requires Less(a, b) && AllAbove(es, b)
    ensures AllAbove(es, a)
  {
    forall i | 0 <= i < |es| ensures Less(a, es[i].0) { LessTransitive(a, b, es[i].0); }
  }

  lemma TailAbove<V>(es: seq<(Bytes, V)>)
    requires es != [] && Ordered(es)
    ensures Ordered(es[1..]) && AllAbove(es[1..], es[0].0)
  {
    forall i | 0 <= i < |es| - 1 ensures Less(es[0].0, es[1..][i].0) { assert es[1..][i] == es[i + 1]; }
  }

  lemma ConsOrdered<V>(e: (Bytes, V), es: seq<(Bytes, V)>)
    requires Ordered(es) && AllAbove(es, e.0)
    ensures Ordered([e] + es)
  {
  }

  // ---- listing a map -------------------------------------------------------

  function ListFor<V>(ks: seq<Bytes>, m: map<Bytes, V>): seq<(Bytes, V)> {
    if ks == [] then [] else (if ks[0] in m then [(ks[0], m[ks[0]])] else []) + ListFor(ks[1..], m)
  }

  lemma ListForStep<V>(ks: seq<Bytes>, m: map<Bytes, V>, i: nat)
    requires i < |ks|
    ensures ListFor(ks[i..], m) == (if ks[i] in m then [(ks[i], m[ks[i]])] else []) + ListFor(ks[i + 1..], m)
  {
    assert ks[i..][1..] == ks[i + 1..] && ks[i..][0] == ks[i];
  }

  lemma {:induction false} ListForAbove<V>(ks: seq<Bytes>, m: map<Bytes, V>, b: Bytes)
    requires forall i | 0 <= i < |ks| :: Less(b, ks[i])
    ensures AllAbove(ListFor(ks, m), b)
  {
    hide Less;
    if ks != [] { ListForAbove(ks[1..], m, b); }
  }

  lemma {:induction false} ListForFind<V>(ks: seq<Bytes>, m: map<Bytes, V>, k: Bytes)
    requires Ascending(ks)
    ensures Ordered(ListFor(ks, m))
    ensures Find(ListFor(ks, m), k) == if k in ks && k in m then Some(m[k]) else None
  {
    assert Ordered<V>([]);
    hide Less, Ordered, AllAbove;
    if ks != [] {
      ListForFind(ks[1..], m, k);
      ListForAbove(ks[1..], m, ks[0]);
      var rest := ListFor(ks[1..], m);
      FindAbove(rest, ks[0]);
      if ks[0] in m {
        ConsOrdered((ks[0], m[ks[0]]), rest);
        assert ([(ks[0], m[ks[0]])] + rest)[1..] == rest;
      } else {
        assert [] + rest == rest;
      }
    }
  }

  /** The ascending listing of a map. */
  function ListOf(m: map<Bytes, Bytes>): seq<Pair> {
    ListFor(Sorted(m.Keys), m)
  }

  lemma ListOfIs(m: map<Bytes, Bytes>)
    ensures IsListing(ListOf(m), m)
  {
    hide Ordered, Find, ListFor, Sorted;
    var ks := Sorted(m.Keys);
    forall k ensures Find(ListOf(m), k) == Get(m, k) { ListForFind(ks, m, k); }
    ListForFind(ks, m, []);
  }

  /** Any listing of a map is the listing. */
  lemma ListingIs(es: seq<Pair>, m: map<Bytes, Bytes>)
    requires IsListing(es, m)
    ensures es == ListOf(m)
  {
    hide Ordered, Find, ListOf;
    ListOfIs(m);
    forall k ensures Find(es, k) == Find(ListOf(m), k) { assert Find(es, k) == Get(m, k); }
    ListingUnique(es, ListOf(m));
  }

  // ---- the merge -----------------------------------------------------------

  /** A live overlay entry is emitted, a tombstone is not. */
  function Emit(e: OverlayEntry): seq<Pair> {
    if e.1.Some? then [(e.0, e.1.value)] else []
  }

  function Merge(t: seq<Pair>, o: seq<OverlayEntry>): seq<Pair> {
    if o == [] then t
    else if t == [] || Less(o[0].0, t[0].0) then Emit(o[0]) + Merge(t, o[1..])
    else if o[0].0 == t[0].0 then Emit(o[0]) + Merge(t[1..], o[1..])
    else [t[0]] + Merge(t[1..], o)
  }

  lemma {:induction false} MergeAbove(t: seq<Pair>, o: seq<OverlayEntry>, b: Bytes)
    requires AllAbove(t, b) && AllAbove(o, b)
    ensures AllAbove(Merge(t, o), b)
  {
    hide Less;
    if o != [] {
      if t == [] || Less(o[0].0, t[0].0) { MergeAbove(t, o[1..], b); }
      else if o[0].0 == t[0].0 { MergeAbove(t[1..], o[1..], b); }
      else { MergeAbove(t[1..], o, b); }
    }
  }

  lemma EmitCons(e: OverlayEntry, rest: seq<Pair>, k: Bytes)
    requires Ordered(rest) && AllAbove(rest, e.0)
    ensures Ordered(Emit(e) + rest)
    ensures Find(Emit(e) + rest, k) == if k == e.0 then e.1 else Find(rest, k)
  {
    hide Less;
    FindAbove(rest, e.0);
    if e.1.Some? {
      ConsOrdered((e.0, e.1.value), rest);
      assert (Emit(e) + rest)[1..] == rest;
    } else {
      assert Emit(e) + rest == rest;
    }
  }

  /** Merging keeps the order, and each key reads from the overlay first. */
  lemma {:induction false} MergeFind(t: seq<Pair>, o: seq<OverlayEntry>, k: Bytes)
    requires Ordered(t) && Ordered(o)
    ensures Ordered(Merge(t, o))
    ensures Find(Merge(t, o), k) == if Find(o, k).Some? then Find(o, k).value else Find(t, k)
  {
    hide Less, Ordered, AllAbove;
    if o != [] {
      TailAbove(o);
      var h := o[0].0;
      if t == [] || Less(h, t[0].0) {
        MergeFind(t, o[1..], k);
        if t != [] { HeadBelow(t, h); } else { NothingAbove<Bytes>(h); }
        MergeAbove(t, o[1..], h);
        EmitCons(o[0], Merge(t, o[1..]), k);
        FindAbove(o[1..], h);
      } else {
        TailAbove(t);
        if h == t[0].0 {
          MergeFind(t[1..], o[1..], k);
          MergeAbove(t[1..], o[1..], h);
          EmitCons(o[0], Merge(t[1..], o[1..]), k);
          FindAbove(o[1..], h);
        } else {
          LessTotal(h, t[0].0);
          MergeFind(t[1..], o, k);
          HeadBelow(o, t[0].0);
          MergeAbove(t[1..], o, t[0].0);
          ConsOrdered(t[0], Merge(t[1..], o));
          FindAbove(o, t[0].0);
          assert ([t[0]] + Merge(t[1..], o))[1..] == Merge(t[1..], o);
        }
      }
    } else {
      assert Find(o, k) == None;
    }
  }

  lemma NothingAbove<V>(b: Bytes)
    ensures AllAbove<V>([], b)
  {
  }

  lemma HeadBelow<V>(es: seq<(Bytes, V)>, b: Bytes)
    requires es != [] && Ordered(es) && Less(b, es[0].0)
    ensures AllAbove(es, b)
  {
    hide Less;
    TailAbove(es);
    AboveTrans(es[1..], b, es[0].0);
    forall i | 0 <= i < |es| ensures Less(b, es[i].0) {
      if i > 0 { assert es[i] == es[1..][i - 1]; }
    }
  }

  /** The merge of a tree listing and an overlay listing is the listing of the
      visible state. */
  lemma MergeIsVisible(t: seq<Pair>, o: seq<OverlayEntry>, m: map<Bytes, Bytes>, ws: Writes)
    requires IsListing(t, m) && IsOverlay(o, ws)
    ensures IsListing(Merge(t, o), Overlay(m, ws))
  {
    hide Ordered, Find, Merge;
    forall k ensures Find(Merge(t, o), k) == Get(Overlay(m, ws), k) { MergeFind(t, o, k); }
    MergeFind(t, o, []);
  }

  /** Two listings of one map are equal, so a scan has only one answer. */
  lemma {:induction false} ListingUnique(a: seq<Pair>, b: seq<Pair>)
    requires Ordered(a) && Ordered(b) && forall k :: Find(a, k) == Find(b, k)
    ensures a == b
  {
    hide Less, Ordered, AllAbove;
    if a == [] || b == [] {
      SomeFound(a, b);
      SomeFound(b, a);
    } else {
      var x, y := a[0].0, b[0].0;
      LessTotal(x, y);
      assert Find(a, x).Some? && Find(b, y).Some?;
      if Less(x, y) { HeadBelow(b, x); FindAbove(b, x); }
      if Less(y, x) { HeadBelow(a, y); FindAbove(a, y); }
      TailAbove(a);
      TailAbove(b);
      forall k ensures Find(a[1..], k) == Find(b[1..], k) {
        assert Find(a, k) == Find(b, k);
        if k == x { FindAbove(a[1..], x); FindAbove(b[1..], x); }
      }
      ListingUnique(a[1..], b[1..]);
    }
  }

  lemma SomeFound(a: seq<Pair>, b: seq<Pair>)
    requires forall k :: Find(a, k) == Find(b, k)
    ensures b == [] ==> a == []
  {
    if a != [] { assert Find(a, a[0].0).Some? == Find(b, a[0].0).Some?; }
  }

  // ---- the scan loop -------------------------------------------------------

  /** What the callback receives: everything up to and including the first pair
      after which it declines to go on. */
  function Until(done: seq<Pair>, es: seq<Pair>, go: seq<Pair> -> bool): seq<Pair>
    decreases |es|
  {
    if es == [] then done
    else if !go(done + [es[0]]) then done + [es[0]]
    else Until(done + [es[0]], es[1..], go)
  }

  /** `out` is what a callback is handed of `es`: pair by pair in order, asked to go on
      after each, to the end or to the first refusal. */
  ghost predicate Delivered(out: seq<Pair>, es: seq<Pair>, go: seq<Pair> -> bool) {
    && out <= es && (forall n | 0 < n < |out| :: go(out[..n]))
    && (out == es || (out != [] && !go(out)))
  }

  lemma {:induction false} UntilDelivers(done: seq<Pair>, es: seq<Pair>, go: seq<Pair> -> bool)
    requires forall n | 0 < n <= |done| :: go(done[..n])
    ensures var out := Until(done, es, go);
            && done <= out <= done + es && (forall n | 0 < n < |out| :: go(out[..n]))
            && (out == done + es || (out != [] && !go(out)))
    decreases |es|
  {
    if es == [] {
      assert done + es == done;
    } else {
      var next := done + [es[0]];
      assert next + es[1..] == done + es;
      forall n | 0 < n < |next| ensures go(next[..n]) { assert next[..n] == done[..n]; }
      if go(next) {
        forall n | 0 < n <= |next| ensures go(next[..n]) { assert n == |next| ==> next[..n] == next; }
        UntilDelivers(next, es[1..], go);
      }
    }
  }

  /** Streams the tree's pairs, merging overlay entries in key order. */
  method MergeScan(t: seq<Pair>, o: seq<OverlayEntry>, go: seq<Pair> -> bool) returns (out: seq<Pair>)
    ensures out == Until([], Merge(t, o), go)
    ensures Delivered(out, Merge(t, o), go)
  {
    hide Merge, Until;
    out := MergeLoop(t, o, go);
    UntilDelivers([], Merge(t, o), go);
    assert [] + Merge(t, o) == Merge(t, o);
  }

  method MergeLoop(t: seq<Pair>, o: seq<OverlayEntry>, go: seq<Pair> -> bool) returns (out: seq<Pair>)
    ensures out == Until([], Merge(t, o), go)
  {
    hide Less, Merge, Until;
    out := [];
    var i, j := 0, 0;
    assert t[0..] == t && o[0..] == o;
    while i < |t|
      invariant 0 <= i <= |t| && 0 <= j <= |o|
      invariant Until(out, Merge(t[i..], o[j..]), go) == Until([], Merge(t, o), go)
    {
      // Overlay keys that sort before this tree key come first.
      while j < |o| && Less(o[j].0, t[i].0)
        invariant 0 <= j <= |o|
        invariant Until(out, Merge(t[i..], o[j..]), go) == Until([], Merge(t, o), go)
      {
        var e := o[j];
        MergeHead(t, o, i, j);
        EmitStep(out, e, Merge(t[i..], o[j + 1..]), go);
        j := j + 1;
        if e.1.Some? {
          out := out + [(e.0, e.1.value)];
          if !go(out) { return; }
        }
      }
      MergeHead(t, o, i, j);
      if j < |o| && o[j].0 == t[i].0 {
        var e := o[j];
        EmitStep(out, e, Merge(t[i + 1..], o[j + 1..]), go);
        i, j := i + 1, j + 1;
        if e.1.Some? {
          out := out + [(e.0, e.1.value)];
          if !go(out) { return; }
        }
      } else {
        UntilStep(out, t[i], Merge(t[i + 1..], o[j..]), go);
        out := out + [t[i]];
        i := i + 1;
        if !go(out) { return; }
      }
    }
    assert t[i..] == [];
    while j < |o|
      invariant 0 <= j <= |o|
      invariant Until(out, Merge([], o[j..]), go) == Until([], Merge(t, o), go)
    {
      var e := o[j];
      MergeRest(o, j);
      EmitStep(out, e, Merge([], o[j + 1..]), go);
      j := j + 1;
      if e.1.Some? {
        out := out + [(e.0, e.1.value)];
        if !go(out) { return; }
      }
    }
    assert o[j..] == [];
    MergeNothing(out, go);
  }

  lemma MergeNothing(out: seq<Pair>, go: seq<Pair> -> bool)
    ensures Until(out, Merge([], []), go) == out
  {
  }

  /** The first step of a merge. */
  lemma MergeHead(t: seq<Pair>, o: seq<OverlayEntry>, i: nat, j: nat)
    requires i < |t| && j <= |o|
    ensures var m := Merge(t[i..], o[j..]);
            && (j < |o| && Less(o[j].0, t[i].0) ==> m == Emit(o[j]) + Merge(t[i..], o[j + 1..]))
            && (j < |o| && !Less(o[j].0, t[i].0) && o[j].0 == t[i].0 ==> m == Emit(o[j]) + Merge(t[i + 1..], o[j + 1..]))
            && ((j < |o| ==> !Less(o[j].0, t[i].0) && o[j].0 != t[i].0) ==> m == [t[i]] + Merge(t[i + 1..], o[j..]))
  {
    hide Less;
    assert t[i..][1..] == t[i + 1..] && t[i..][0] == t[i] && t[i..] != [];
    if j < |o| {
      assert o[j..][1..] == o[j + 1..] && o[j..][0] == o[j];
    } else {
      assert o[j..] == [];
      MergeNoOverlay(t[i..]);
      MergeNoOverlay(t[i + 1..]);
      assert t[i..] == [t[i]] + t[i + 1..];
    }
  }

  lemma MergeNoOverlay(t: seq<Pair>)
    ensures Merge(t, []) == t
  {
  }

  lemma MergeRest(o: seq<OverlayEntry>, j: nat)
    requires j < |o|
    ensures Merge([], o[j..]) == Emit(o[j]) + Merge([], o[j + 1..])
  {
    assert o[j..][1..] == o[j + 1..] && o[j..][0] == o[j];
  }

  /** An overlay entry is handed over, or is a tombstone and skipped. */
  lemma EmitStep(done: seq<Pair>, e: OverlayEntry, es: seq<Pair>, go: seq<Pair> -> bool)
    ensures e.1.None? ==> Until(done, Emit(e) + es, go) == Until(done, es, go)
    ensures e.1.Some? ==> Until(done, Emit(e) + es, go) ==
                            if go(done + [(e.0, e.1.value)]) then Until(done + [(e.0, e.1.value)], es, go) else done + [(e.0, e.1.value)]
  {
    hide Until;
    if e.1.Some? { UntilStep(done, (e.0, e.1.value), es, go); } else { assert Emit(e) + es == es; }
  }

  lemma UntilStep(done: seq<Pair>, e: Pair, es: seq<Pair>, go: seq<Pair> -> bool)
    ensures Until(done, [e] + es, go) == if go(done + [e]) then Until(done + [e], es, go) else done + [e]
  {
    assert ([e] + es)[1..] == es;
  }

  /** A callback that never stops receives the whole merge. */
  lemma {:induction false} UntilAll(done: seq<Pair>, es: seq<Pair>, go: seq<Pair> -> bool)
    requires forall x :: go(x)
    ensures Until(done, es, go) == done + es
    decreases |es|
  {
    if es != [] {
      UntilAll(done + [es[0]], es[1..], go);
      assert done + [es[0]] + es[1..] == done + es;
    } else {
      assert done + es == done;
    }
  }

  // ---- counting ------------------------------------------------------------

  function ToWrites(o: seq<OverlayEntry>): Writes {
    if o == [] then map[] else ToWrites(o[..|o| - 1])[o[|o| - 1].0 := o[|o| - 1].1]
  }

  lemma {:induction false} ToWritesKeys(o: seq<OverlayEntry>, k: Bytes)
    ensures k in ToWrites(o) <==> exists i :: 0 <= i < |o| && o[i].0 == k
  {
    if o != [] {
      var n := |o| - 1;
      ToWritesKeys(o[..n], k);
      if exists i :: 0 <= i < |o| && o[i].0 == k {
        var i :| 0 <= i < |o| && o[i].0 == k;
        if i < n { assert o[..n][i].0 == k; }
      }
    }
  }

  /** An overlay listing is read back as the writes it lists. */
  lemma ListedWrites(o: seq<OverlayEntry>, ws: Writes)
    requires IsOverlay(o, ws)
    ensures ToWrites(o) == ws
  {
    hide Less, Ordered;
    forall k ensures (k in ToWrites(o) <==> k in ws) && (k in ws ==> ToWrites(o)[k] == ws[k]) {
      ToWritesFind(o, k);
      assert Find(o, k) == if k in ws then Some(ws[k]) else None;
    }
  }

  lemma {:induction false} ToWritesFind(o: seq<OverlayEntry>, k: Bytes)
    requires Ordered(o)
    ensures Find(o, k) == if k in ToWrites(o) then Some(ToWrites(o)[k]) else None
  {
    hide Less;
    if o != [] {
      var n := |o| - 1;
      ToWritesFind(o[..n], k);
      FindSnoc(o, k);
      NotYetWritten(o, n);
    }
  }

  lemma {:induction false} FindSnoc<V>(es: seq<(Bytes, V)>, k: Bytes)
    requires es != []
    ensures var n := |es| - 1;
            Find(es, k) == if Find(es[..n], k).Some? then Find(es[..n], k) else if es[n].0 == k then Some(es[n].1) else None
    decreases |es|
  {
    var n := |es| - 1;
    if n > 0 && es[0].0 != k {
      FindSnoc(es[1..], k);
      assert es[1..][..n - 1] == es[..n][1..] && es[1..][n - 1] == es[n];
    } else if n == 0 {
      assert es[..0] == [] && es[1..] == [];
      assert Find<V>([], k) == None;
    }
  }

  lemma NotYetWritten(o: seq<OverlayEntry>, i: nat)
    requires Ordered(o) && i < |o|
    ensures o[i].0 !in ToWrites(o[..i])
  {
    ToWritesKeys(o[..i], o[i].0);
    if o[i].0 in ToWrites(o[..i]) {
      var j :| 0 <= j < i && o[..i][j].0 == o[i].0;
      LessIrreflexive(o[i].0);
    }
  }

  /** Counts the tree's keys and corrects for each overlay entry. */
  method CountWith(tree: map<Bytes, Bytes>, o: seq<OverlayEntry>) returns (count: nat)
    requires Ordered(o)
    ensures count == |Overlay(tree, ToWrites(o))|
  {
    hide Less, Overlay, Ordered;
    count := |tree|;
    OverlayNothing(tree);
    for i := 0 to |o|
      invariant count == |Overlay(tree, ToWrites(o[..i]))|
    {
      assert o[..i + 1][..i] == o[..i];
      NotYetWritten(o, i);
      CountStep(tree, ToWrites(o[..i]), o[i].0, o[i].1);
      if o[i].1.Some? && o[i].0 !in tree {
        count := count + 1;
      } else if o[i].1.None? && o[i].0 in tree {
        count := count - 1;
      }
    }
    assert o[..|o|] == o;
  }

  lemma CountStep(tree: map<Bytes, Bytes>, ws: Writes, k: Bytes, w: Option<Bytes>)
    requires k !in ws
    ensures |Overlay(tree, ws[k := w])| ==
            |Overlay(tree, ws)| + (if w.Some? && k !in tree then 1 else if w.None? && k in tree then -1 else 0)
  {
    OverlayOne(tree, ws, k, w);
    assert k in Overlay(tree, ws) <==> k in tree;
    hide Overlay;
    WriteSize(Overlay(tree, ws), k, w);
  }

  lemma WriteSize(m: map<Bytes, Bytes>, k: Bytes, w: Option<Bytes>)
    ensures |Write(m, k, w)| == |m| + (if w.Some? && k !in m then 1 else if w.None? && k in m then -1 else 0)
  {
    var r := Write(m, k, w);
    assert |m| == |m.Keys| && |r| == |r.Keys|;
    assert r.Keys == if w.Some? then m.Keys + {k} else m.Keys - {k};
  }

  // ---- batched copy --------------------------------------------------------

  /** The pairs strictly after the cursor. */
  function After(es: seq<Pair>, cursor: Option<Bytes>): seq<Pair> {
    if es == [] || cursor.None? || Less(cursor.value, es[0].0) then es else After(es[1..], cursor)
  }

  lemma AfterNone(es: seq<Pair>)
    ensures After(es, None) == es
  {
  }

  lemma {:induction false} AfterLast(es: seq<Pair>, n: nat)
    requires Ordered(es) && 0 < n <= |es|
    ensures After(es, Some(es[n - 1].0)) == es[n..]
  {
    hide Less;
    TailAbove(es);
    if n == 1 {
      LessIrreflexive(es[0].0);
      if |es| > 1 { assert Less(es[0].0, es[1].0); }
    } else {
      assert Less(es[0].0, es[n - 1].0);
      LessAsymmetric(es[0].0, es[n - 1].0);
      assert es[1..][n - 2] == es[n - 1];
      AfterLast(es[1..], n - 1);
    }
  }

  lemma {:induction false} UntilIsPrefix(done: seq<Pair>, es: seq<Pair>, go: seq<Pair> -> bool)
    ensures done <= Until(done, es, go) <= done + es
    ensures es != [] ==> |Until(done, es, go)| > |done|
    decreases |es|
  {
    if es != [] && go(done + [es[0]]) {
      UntilIsPrefix(done + [es[0]], es[1..], go);
      assert done + [es[0]] + es[1..] == done + es;
    }
  }

  /** A batch is the next piece of the view, and not empty before the end. */
  lemma BatchOf(view: seq<Pair>, n: nat, batch: seq<Pair>, go: seq<Pair> -> bool)
    requires n <= |view| && batch == Until([], view[n..], go)
    ensures n + |batch| <= |view| && batch == view[n..n + |batch|] && (batch == [] ==> n == |view|)
  {
    hide Until;
    UntilIsPrefix([], view[n..], go);
    assert [] + view[n..] == view[n..];
  }

  /** A cursor's remainder holds exactly the keys beyond it. */
  lemma {:induction false} AfterFind(es: seq<Pair>, cursor: Bytes, k: Bytes)
    requires Ordered(es)
    ensures Ordered(After(es, Some(cursor)))
    ensures Find(After(es, Some(cursor)), k) == if Less(cursor, k) then Find(es, k) else None
  {
    hide Less, Ordered, AllAbove;
    if es != [] {
      TailAbove(es);
      if Less(cursor, es[0].0) {
        HeadBelow(es, cursor);
        if !Less(cursor, k) { NotFound(es, cursor, k); }
      } else {
        AfterFind(es[1..], cursor, k);
      }
    }
  }

  lemma NotFound(es: seq<Pair>, cursor: Bytes, k: Bytes)
    requires AllAbove(es, cursor) && !Less(cursor, k)
    ensures Find(es, k) == None
    decreases |es|
  {
    if es != [] {
      assert Less(cursor, es[0].0);
      NotFound(es[1..], cursor, k);
    }
  }
}
