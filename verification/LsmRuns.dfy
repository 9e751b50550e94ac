/** Versioned entries, sorted runs, and the compaction merge. */
module LsmRuns {
  import opened Bytes
  import opened Wrappers

  /** A version of a key; `slot == None` is a tombstone. */
  datatype Entry = Entry(key: Bytes, seqno: nat, slot: Option<Bytes>)

  type Run = seq<Entry>

  /** Internal order: key ascending, then sequence number descending. */
  predicate Before(a: Entry, b: Entry) {
    Less(a.key, b.key) || (a.key == b.key && a.seqno > b.seqno)
  }

  predicate SameVersion(a: Entry, b: Entry) {
    a.key == b.key && a.seqno == b.seqno
  }

  ghost predicate Sorted(r: Run) {
    forall i, j | 0 <= i < j < |r| :: Before(r[i], r[j])
  }

  lemma BeforeTransitive(a: Entry, b: Entry, c: Entry)
    requires Before(a, b) && Before(b, c)
    ensures Before(a, c)
  {
    if Less(a.key, b.key) && Less(b.key, c.key) { LessTransitive(a.key, b.key, c.key); }
  }

  lemma BeforeTotal(a: Entry, b: Entry)
    ensures Before(a, b) || Before(b, a) || SameVersion(a, b)
  {
    LessTotal(a.key, b.key);
  }

  predicate Visible(e: Entry, k: Bytes, s: nat) {
    e.key == k && e.seqno <= s
  }

  /** The newest version of `k` at or below `s`, by scanning in order. */
  function FirstVisible(r: Run, k: Bytes, s: nat): (e: Option<Entry>)
    ensures e.Some? ==> e.value in r && Visible(e.value, k, s)
    ensures e.None? ==> forall x | x in r :: !Visible(x, k, s)
  {
    if r == [] then None
    else if Visible(r[0], k, s) then Some(r[0])
    else FirstVisible(r[1..], k, s)
  }

  /** `e` is the newest of `r` visible at `s`. */
  ghost predicate IsNewest(r: Run, k: Bytes, s: nat, e: Option<Entry>) {
    if e.None? then forall x | x in r :: !Visible(x, k, s)
    else e.value in r && Visible(e.value, k, s) && forall x | x in r && Visible(x, k, s) :: x.seqno <= e.value.seqno
  }

  /** In a sorted run the first visible version is the newest. */
  lemma {:induction false} FirstIsNewest(r: Run, k: Bytes, s: nat)
    requires Sorted(r)
    ensures IsNewest(r, k, s, FirstVisible(r, k, s))
  {
    hide Less;
    if r != [] {
      if Visible(r[0], k, s) {
        forall x | x in r && Visible(x, k, s) ensures x.seqno <= r[0].seqno {
          var i :| 0 <= i < |r| && r[i] == x;
          if i > 0 {
            assert Before(r[0], r[i]);
            LessIrreflexive(k);
          }
        }
      } else {
        FirstIsNewest(r[1..], k, s);
        var f := FirstVisible(r[1..], k, s);
        assert forall x | x in r :: x == r[0] || x in r[1..];
      }
    }
  }

  // ---- memtable ------------------------------------------------------------

  /** Ordered-map insert: replaces the same version, otherwise keeps order. */
  function PutSlot(r: Run, e: Entry): Run {
    if r == [] then [e]
    else if SameVersion(r[0], e) then [e] + r[1..]
    else if Before(e, r[0]) then [e] + r
    else [r[0]] + PutSlot(r[1..], e)
  }

  lemma {:induction false} PutSlotMembers(r: Run, e: Entry, x: Entry)
    requires Sorted(r)
    ensures x in PutSlot(r, e) <==> x == e || (x in r && !SameVersion(x, e))
  {
    hide Less;
    if r != [] {
      assert x in r <==> x == r[0] || x in r[1..];
      if SameVersion(r[0], e) {
        if x in r[1..] { VersionOnce(r, x); }
      } else if Before(e, r[0]) {
        if x in r { AfterHead(r, e, x); }
      } else {
        PutSlotMembers(r[1..], e, x);
      }
    }
  }

  lemma VersionOnce(r: Run, x: Entry)
    requires Sorted(r) && r != [] && x in r[1..]
    ensures !SameVersion(r[0], x)
  {
    var i :| 0 <= i < |r| - 1 && r[1..][i] == x;
    assert Before(r[0], r[i + 1]);
    LessIrreflexive(x.key);
  }

  lemma AfterHead(r: Run, e: Entry, x: Entry)
    requires Sorted(r) && r != [] && Before(e, r[0]) && x in r
    ensures Before(e, x) && !SameVersion(x, e)
  {
    var i :| 0 <= i < |r| && r[i] == x;
    if i > 0 {
      assert Before(r[0], r[i]);
      BeforeTransitive(e, r[0], r[i]);
    }
    LessIrreflexive(e.key);
  }

  lemma {:induction false} PutSlotSorted(r: Run, e: Entry)
    requires Sorted(r)
    ensures Sorted(PutSlot(r, e))
  {
    hide Less;
    if r != [] {
      var t := r[1..];
      if SameVersion(r[0], e) {
        ConsSorted(e, t) by {
          forall x | x in t ensures Before(e, x) { var i :| 0 <= i < |t| && t[i] == x; assert Before(r[0], r[i + 1]); }
        }
      } else if Before(e, r[0]) {
        ConsSorted(e, r) by {
          forall x | x in r ensures Before(e, x) { AfterHead(r, e, x); }
        }
      } else {
        PutSlotSorted(t, e);
        BeforeTotal(e, r[0]);
        ConsSorted(r[0], PutSlot(t, e)) by {
          forall x | x in PutSlot(t, e) ensures Before(r[0], x) {
            PutSlotMembers(t, e, x);
            if x != e { var i :| 0 <= i < |t| && t[i] == x; assert Before(r[0], r[i + 1]); }
          }
        }
      }
    }
  }

  lemma ConsSorted(e: Entry, r: Run)
    requires Sorted(r) && forall x | x in r :: Before(e, x)
    ensures Sorted([e] + r)
  {
    hide Before;
    forall i, j | 0 <= i < j < |[e] + r| ensures Before(([e] + r)[i], ([e] + r)[j]) {
      assert ([e] + r)[j] == r[j - 1] && r[j - 1] in r;
    }
  }

  // ---- merging runs --------------------------------------------------------

  /** A version older than one every live snapshot can already read. */
  ghost predicate Superseded(all: Run, e: Entry, floor: nat) {
    exists x :: x in all && x.key == e.key && x.seqno > e.seqno && x.seqno <= floor
  }

  /** What a merge keeps: nothing superseded, and no tombstone at or below the
      floor when tombstones may be dropped. */
  ghost predicate Keeps(all: Run, e: Entry, floor: nat, dropTombstones: bool) {
    && e in all && !Superseded(all, e, floor)
    && !(dropTombstones && e.slot.None? && e.seqno <= floor)
  }

  ghost predicate Unique(all: Run) {
    forall a, b | a in all && b in all && SameVersion(a, b) :: a == b
  }

  ghost predicate IsMerge(all: Run, floor: nat, dropTombstones: bool, out: Run) {
    Sorted(out) && forall e :: e in out <==> Keeps(all, e, floor, dropTombstones)
  }

  function Flatten(runs: seq<Run>): Run {
    if runs == [] then [] else Flatten(runs[..|runs| - 1]) + runs[|runs| - 1]
  }

  /** Entries in internal order, repeated versions allowed. */
  ghost predicate Ordered(all: Run) {
    forall i, j | 0 <= i < j < |all| :: Before(all[i], all[j]) || SameVersion(all[i], all[j])
  }

  /** One step of the merge over entries in order. */
  lemma KeepStep(seen: Run, e: Entry, floor: nat, drop: bool, x: Entry)
    requires Ordered(seen + [e]) && Unique(seen + [e])
    ensures Keeps(seen + [e], x, floor, drop) <==>
              if x == e then Keeps(seen + [e], e, floor, drop) else Keeps(seen, x, floor, drop)
  {
    hide Less;
    var all := seen + [e];
    if x != e && x in seen {
      if Superseded(all, x, floor) {
        var y :| y in all && y.key == x.key && y.seqno > x.seqno && y.seqno <= floor;
        if y !in seen {
          assert y == e;
          var i :| 0 <= i < |seen| && seen[i] == x;
          assert all[i] == x && all[|seen|] == e;
          LessIrreflexive(x.key);
        }
      }
      if Superseded(seen, x, floor) {
        var y :| y in seen && y.key == x.key && y.seqno > x.seqno && y.seqno <= floor;
        assert y in all;
      }
    }
  }

  /** The first entry of each version, for entries in order. */
  function Firsts(all: Run): Run {
    if all == [] then []
    else
      var n := |all| - 1;
      var rest := Firsts(all[..n]);
      if rest != [] && SameVersion(rest[|rest| - 1], all[n]) then rest else rest + [all[n]]
  }

  lemma {:induction false} FirstsSorted(all: Run)
    requires Ordered(all)
    ensures Sorted(Firsts(all)) && (forall x | x in Firsts(all) :: x in all)
    ensures all != [] ==> Firsts(all) != [] && SameVersion(Firsts(all)[|Firsts(all)| - 1], all[|all| - 1])
  {
    hide Before;
    if all != [] {
      var n := |all| - 1;
      PrefixInOrder(all, n);
      FirstsSorted(all[..n]);
      if n > 0 { LastAfter(all, Firsts(all[..n])); }
    }
  }

  lemma PrefixInOrder(all: Run, n: nat)
    requires Ordered(all) && n <= |all|
    ensures Ordered(all[..n])
  {
    hide Before;
  }

  /** The last entry repeats the last of the firsts, or comes after all of them. */
  lemma LastAfter(all: Run, rest: Run)
    requires Ordered(all) && |all| > 1 && Sorted(rest) && rest != [] && SameVersion(rest[|rest| - 1], all[|all| - 2])
    ensures var e := all[|all| - 1];
            SameVersion(rest[|rest| - 1], e) || Sorted(rest + [e])
  {
    var n := |all| - 1;
    var e, last := all[n], rest[|rest| - 1];
    assert Before(all[n - 1], all[n]) || SameVersion(all[n - 1], all[n]);
    if !SameVersion(last, e) {
      assert Before(last, e);
      hide Before;
      forall i, j | 0 <= i < j < |rest + [e]| ensures Before((rest + [e])[i], (rest + [e])[j]) {
        if j == |rest| && i < |rest| - 1 { BeforeTransitive(rest[i], last, e); }
      }
    }
  }

  lemma SortedIsUnique(r: Run)
    requires Sorted(r)
    ensures Ordered(r) && Unique(r)
  {
    forall a, b | a in r && b in r && SameVersion(a, b) ensures a == b {
      var i :| 0 <= i < |r| && r[i] == a;
      var j :| 0 <= j < |r| && r[j] == b;
      LessIrreflexive(a.key);
    }
  }

  /** A repeated version changes nothing: its first entry covers the floor or was just
      emitted. */
  lemma RepeatSkipped(seen: Run, e: Entry, floor: nat, drop: bool, out: Run, current: Option<Bytes>, covered: bool)
    requires MergeState(seen, floor, drop, out, current, covered) && Sorted(seen) && seen != [] && SameVersion(seen[|seen| - 1], e)
    ensures current == Some(e.key) && (covered || (out != [] && SameVersion(out[|out| - 1], e)))
  {
    hide Before;
    var f := seen[|seen| - 1];
    assert f in seen;
    if !covered {
      assert f.seqno > floor;
      assert Keeps(seen, f, floor, drop);
      LastTwice(seen);
      LastIsLatest(seen, f, floor, drop, out);
    }
  }

  lemma LastTwice(seen: Run)
    requires Sorted(seen) && seen != []
    ensures Ordered(seen + [seen[|seen| - 1]])
  {
    hide Before;
  }

  /** One round of the loop over the firsts. */
  lemma FirstsStep(all: Run, i: nat, floor: nat, drop: bool, out: Run, current: Option<Bytes>, covered: bool)
    requires Ordered(all) && i < |all| && MergeState(Firsts(all[..i]), floor, drop, out, current, covered)
    ensures var e := all[i];
            var newKey := current != Some(e.key);
            var repeated := out != [] && SameVersion(out[|out| - 1], e);
            var skip := !newKey && (covered || repeated);
            var hits := e.seqno <= floor;
            var dropped := e.slot.None? && drop && hits;
            MergeState(Firsts(all[..i + 1]), floor, drop, if skip || dropped then out else out + [e], Some(e.key),
                       if skip then covered else hits)
  {
    hide Before, MergeState;
    var e, seen := all[i], Firsts(all[..i]);
    assert all[..i + 1][..i] == all[..i] && all[..i + 1][i] == e;
    PrefixInOrder(all, i);
    PrefixInOrder(all, i + 1);
    FirstsSorted(all[..i]);
    if seen != [] && SameVersion(seen[|seen| - 1], e) {
      RepeatSkipped(seen, e, floor, drop, out, current, covered);
    } else {
      assert Sorted(seen + [e]) by {
        if i > 0 { LastAfter(all[..i + 1], seen); } else { assert all[..0] == []; }
      }
      SortedIsUnique(seen + [e]);
      MergeStateStep(seen, e, floor, drop, out, current, covered);
    }
  }

  /** The loop over the flattened, sorted entries; of equal versions the first counts. */
  method FilterVersions(all: Run, floor: nat, dropTombstones: bool) returns (out: Run)
    requires Ordered(all)
    ensures IsMerge(Firsts(all), floor, dropTombstones, out)
  {
    hide Less, Superseded, Before, MergeState, Firsts;
    out := [];
    var current: Option<Bytes> := None;
    var covered := false;
    NothingMerged(all, floor, dropTombstones);
    for i := 0 to |all|
      invariant MergeState(Firsts(all[..i]), floor, dropTombstones, out, current, covered)
    {
      var e := all[i];
      var newKey := current != Some(e.key);
      var repeated := out != [] && SameVersion(out[|out| - 1], e);
      FirstsStep(all, i, floor, dropTombstones, out, current, covered);
      if newKey {
        current, covered := Some(e.key), false;
      }
      if newKey || !covered {
        if newKey || !repeated {
          if e.seqno <= floor { covered := true; }
          if !(e.slot.None? && dropTombstones && e.seqno <= floor) {
            out := out + [e];
          }
        }
      }
    }
    assert all[..|all|] == all;
    MergedAll(Firsts(all), floor, dropTombstones, out, current, covered);
  }

  lemma NothingMerged(all: Run, floor: nat, drop: bool)
    ensures MergeState(Firsts(all[..0]), floor, drop, [], None, false)
  {
    assert all[..0] == [];
  }

  lemma MergedAll(seen: Run, floor: nat, drop: bool, out: Run, current: Option<Bytes>, covered: bool)
    requires MergeState(seen, floor, drop, out, current, covered)
    ensures IsMerge(seen, floor, drop, out)
  {
  }

  /** What the loop knows about the entries it has `seen`. */
  ghost predicate MergeState(seen: Run, floor: nat, drop: bool, out: Run, current: Option<Bytes>, covered: bool) {
    && IsMerge(seen, floor, drop, out)
    && (current == if seen == [] then None else Some(seen[|seen| - 1].key))
    && (covered <==> current.Some? && exists x :: x in seen && x.key == current.value && x.seqno <= floor)
  }

  /** The next entry is dropped, skipped as a repeat, or appended in order. */
  lemma MergeStateStep(seen: Run, e: Entry, floor: nat, drop: bool, out: Run, current: Option<Bytes>, covered: bool)
    requires MergeState(seen, floor, drop, out, current, covered)
    requires Ordered(seen + [e]) && Unique(seen + [e])
    ensures var newKey := current != Some(e.key);
            var repeated := out != [] && SameVersion(out[|out| - 1], e);
            var skip := !newKey && (covered || repeated);
            var hits := e.seqno <= floor;
            var dropped := e.slot.None? && drop && hits;
            MergeState(seen + [e], floor, drop, if skip || dropped then out else out + [e], Some(e.key),
                       if skip then covered else hits)
  {
    hide Ordered, Unique, Keeps;
    NewestKept(seen, e, floor, drop, out, current, covered);
    MergeMembers(seen, e, floor, drop, out, current, covered);
    MergeOrder(seen, e, floor, drop, out);
    MergeCovered(seen, e, floor, drop, out, current, covered);
  }

  lemma MergeCovered(seen: Run, e: Entry, floor: nat, drop: bool, out: Run, current: Option<Bytes>, covered: bool)
    requires MergeState(seen, floor, drop, out, current, covered)
    requires Ordered(seen + [e])
    ensures var newKey := current != Some(e.key);
            var repeated := out != [] && SameVersion(out[|out| - 1], e);
            var skip := !newKey && (covered || repeated);
            (if skip then covered else e.seqno <= floor) <==>
              exists x :: x in seen + [e] && x.key == e.key && x.seqno <= floor
  {
    hide Less;
    var all := seen + [e];
    assert e in all;
    if current != Some(e.key) {
      forall x | x in seen ensures x.key != e.key { KeyPassed(seen, e, x); }
    } else if !covered && out != [] && SameVersion(out[|out| - 1], e) {
      assert out[|out| - 1] in out;
      assert out[|out| - 1] in seen;
    } else if covered {
      var x :| x in seen && x.key == current.value && x.seqno <= floor;
      assert x in all;
    }
  }

  /** Once the key changes, earlier keys never come back. */
  lemma KeyPassed(seen: Run, e: Entry, x: Entry)
    requires Ordered(seen + [e]) && x in seen && seen[|seen| - 1].key != e.key
    ensures x.key != e.key
  {
    var all, n := seen + [e], |seen|;
    var i :| 0 <= i < n && seen[i] == x;
    assert all[i] == x && all[n - 1] == seen[n - 1] && all[n] == e;
    if x.key == e.key && i < n - 1 {
      var y := seen[n - 1];
      assert Before(all[i], all[n - 1]) || SameVersion(all[i], all[n - 1]);
      assert Before(all[n - 1], all[n]) || SameVersion(all[n - 1], all[n]);
      LessAsymmetric(y.key, e.key);
    }
  }

  lemma MergeMembers(seen: Run, e: Entry, floor: nat, drop: bool, out: Run, current: Option<Bytes>, covered: bool)
    requires MergeState(seen, floor, drop, out, current, covered)
    requires Ordered(seen + [e]) && Unique(seen + [e])
    ensures var newKey := current != Some(e.key);
            var repeated := out != [] && SameVersion(out[|out| - 1], e);
            var skip := !newKey && (covered || repeated);
            var dropped := e.slot.None? && drop && e.seqno <= floor;
            forall x :: x in (if skip || dropped then out else out + [e]) <==> Keeps(seen + [e], x, floor, drop)
  {
    hide Less, Keeps;
    NewestKept(seen, e, floor, drop, out, current, covered);
    forall x { KeepStep(seen, e, floor, drop, x); }
  }

  /** Whether the newest entry itself is kept. */
  lemma NewestKept(seen: Run, e: Entry, floor: nat, drop: bool, out: Run, current: Option<Bytes>, covered: bool)
    requires MergeState(seen, floor, drop, out, current, covered)
    requires Ordered(seen + [e]) && Unique(seen + [e])
    ensures var newKey := current != Some(e.key);
            var repeated := out != [] && SameVersion(out[|out| - 1], e);
            var skip := !newKey && (covered || repeated);
            var dropped := e.slot.None? && drop && e.seqno <= floor;
            && (Keeps(seen + [e], e, floor, drop) <==> !((skip || dropped) && e !in out))
            && (!(skip || dropped) ==> e !in out)
            && (dropped ==> e !in out)
  {
    hide Less;
    var all := seen + [e];
    if current != Some(e.key) {
      forall x | x in seen ensures x.key != e.key { KeyPassed(seen, e, x); }
    } else if covered {
      var x :| x in seen && x.key == e.key && x.seqno <= floor;
      var i :| 0 <= i < |seen| && seen[i] == x;
      assert all[i] == x && all[|seen|] == e && x in all;
      LessIrreflexive(e.key);
      if x.seqno == e.seqno { assert x == e; }
    }
    if out != [] && SameVersion(out[|out| - 1], e) {
      assert out[|out| - 1] in out && out[|out| - 1] in all && e in all;
    }
    if e in out && !(out != [] && SameVersion(out[|out| - 1], e)) {
      LastIsLatest(seen, e, floor, drop, out);
    }
  }

  lemma LastIsLatest(seen: Run, e: Entry, floor: nat, drop: bool, out: Run)
    requires IsMerge(seen, floor, drop, out) && Ordered(seen + [e]) && e in out
    ensures SameVersion(out[|out| - 1], e)
  {
    var i :| 0 <= i < |out| && out[i] == e;
    var n := |out| - 1;
    if i < n {
      assert Before(out[i], out[n]) && out[n] in out && out[n] in seen;
      var j :| 0 <= j < |seen| && seen[j] == out[n];
      assert (seen + [e])[j] == out[n] && (seen + [e])[|seen|] == e;
      LessIrreflexive(e.key);
      if Less(e.key, out[n].key) { LessAsymmetric(e.key, out[n].key); }
    }
  }

  lemma MergeOrder(seen: Run, e: Entry, floor: nat, drop: bool, out: Run)
    requires IsMerge(seen, floor, drop, out) && Ordered(seen + [e]) && Unique(seen + [e])
    ensures e !in out ==> Sorted(out + [e])
  {
    if e !in out {
      forall i, j | 0 <= i < j < |out + [e]| ensures Before((out + [e])[i], (out + [e])[j]) {
        if j == |out| {
          assert out[i] in out && out[i] in seen;
          var m :| 0 <= m < |seen| && seen[m] == out[i];
          assert (seen + [e])[m] == out[i] && (seen + [e])[|seen|] == e;
          assert out[i] in seen + [e] && e in seen + [e];
        }
      }
    }
  }

  // ---- sorting the inputs --------------------------------------------------

  /** Stable insertion: after every entry not greater than `e`. */
  function InsertStable(all: Run, e: Entry): Run {
    if all == [] || Before(e, all[0]) then [e] + all else [all[0]] + InsertStable(all[1..], e)
  }

  lemma {:induction false} InsertStableMembers(all: Run, e: Entry, x: Entry)
    ensures x in InsertStable(all, e) <==> x == e || x in all
  {
    hide Before;
    if all != [] && !Before(e, all[0]) {
      InsertStableMembers(all[1..], e, x);
      assert x in all <==> x == all[0] || x in all[1..];
    }
  }

  predicate NotAfter(a: Entry, b: Entry) {
    Before(a, b) || SameVersion(a, b)
  }

  lemma NotAfterTrans(a: Entry, b: Entry, c: Entry)
    requires NotAfter(a, b) && NotAfter(b, c)
    ensures NotAfter(a, c)
  {
    if Before(a, b) && Before(b, c) { BeforeTransitive(a, b, c); }
  }

  lemma ConsOrdered(e: Entry, all: Run)
    requires Ordered(all) && forall x | x in all :: NotAfter(e, x)
    ensures Ordered([e] + all)
  {
    hide Before;
    forall i, j | 0 <= i < j < |[e] + all|
      ensures Before(([e] + all)[i], ([e] + all)[j]) || SameVersion(([e] + all)[i], ([e] + all)[j])
    {
      assert ([e] + all)[j] == all[j - 1] && all[j - 1] in all;
    }
  }

  lemma HeadNotAfter(all: Run, x: Entry)
    requires all != [] && Ordered(all) && x in all
    ensures NotAfter(all[0], x)
  {
    hide Before;
    var i :| 0 <= i < |all| && all[i] == x;
  }

  lemma {:induction false} InsertStableOrdered(all: Run, e: Entry)
    requires Ordered(all)
    ensures Ordered(InsertStable(all, e))
  {
    hide Before, Ordered;
    if all == [] {
      SingletonOrdered(e);
      assert [e] + all == [e];
    } else if Before(e, all[0]) {
      forall x | x in all ensures NotAfter(e, x) {
        HeadNotAfter(all, x);
        NotAfterTrans(e, all[0], x);
      }
      ConsOrdered(e, all);
    } else {
      TailOrdered(all);
      InsertStableOrdered(all[1..], e);
      forall x | x in InsertStable(all[1..], e) ensures NotAfter(all[0], x) {
        InsertStableMembers(all[1..], e, x);
        if x == e { BeforeTotal(e, all[0]); } else { HeadNotAfter(all, x); }
      }
      ConsOrdered(all[0], InsertStable(all[1..], e));
    }
  }

  lemma TailOrdered(all: Run)
    requires Ordered(all) && all != []
    ensures Ordered(all[1..])
  {
    hide Before;
  }

  lemma SingletonOrdered(e: Entry)
    ensures Ordered([e])
  {
  }

  /** The first entry of a version, in list order. */
  function FirstOf(es: Run, v: Entry): Option<Entry> {
    if es == [] then None else if SameVersion(es[0], v) then Some(es[0]) else FirstOf(es[1..], v)
  }

  /** Stable insertion never overtakes an equal version. */
  lemma {:induction false} InsertStableFirst(all: Run, e: Entry, v: Entry)
    requires Ordered(all)
    ensures FirstOf(InsertStable(all, e), v) == if FirstOf(all, v).Some? then FirstOf(all, v) else if SameVersion(e, v) then Some(e) else None
  {
    hide Before, Ordered;
    if all == [] || Before(e, all[0]) {
      assert ([e] + all)[1..] == all;
      if all != [] && SameVersion(e, v) {
        forall x | x in all ensures !SameVersion(x, v) {
          HeadNotAfter(all, x);
          StrictlyAfter(e, all[0], x);
        }
        NoFirst(all, v);
      }
    } else {
      TailOrdered(all);
      InsertStableFirst(all[1..], e, v);
      assert ([all[0]] + InsertStable(all[1..], e))[1..] == InsertStable(all[1..], e);
    }
  }

  lemma StrictlyAfter(a: Entry, b: Entry, c: Entry)
    requires Before(a, b) && NotAfter(b, c)
    ensures !SameVersion(a, c)
  {
    LessIrreflexive(a.key);
    if Less(a.key, b.key) { LessAsymmetric(a.key, b.key); }
  }

  lemma {:induction false} NoFirst(es: Run, v: Entry)
    requires forall x | x in es :: !SameVersion(x, v)
    ensures FirstOf(es, v) == None
  {
    if es != [] { NoFirst(es[1..], v); }
  }

  lemma {:induction false} FirstSnoc(es: Run, e: Entry, v: Entry)
    ensures FirstOf(es + [e], v) == if FirstOf(es, v).Some? then FirstOf(es, v) else if SameVersion(e, v) then Some(e) else None
  {
    if es == [] {
      assert [e][1..] == [];
      assert es + [e] == [e];
    } else {
      assert (es + [e])[1..] == es[1..] + [e];
      FirstSnoc(es[1..], e, v);
    }
  }

  /** Sorting keeps, of each version, the same entry first. */
  method SortStable(es: Run) returns (all: Run)
    ensures Ordered(all) && forall v :: FirstOf(all, v) == FirstOf(es, v)
  {
    hide Before, InsertStable, FirstOf;
    all := [];
    assert Ordered(all);
    hide Ordered;
    for i := 0 to |es|
      invariant Ordered(all)
      invariant forall v :: FirstOf(all, v) == FirstOf(es[..i], v)
    {
      InsertStableOrdered(all, es[i]);
      forall v ensures FirstOf(InsertStable(all, es[i]), v) == FirstOf(es[..i + 1], v) {
        InsertStableFirst(all, es[i], v);
        FirstSnoc(es[..i], es[i], v);
        assert es[..i + 1] == es[..i] + [es[i]];
      }
      all := InsertStable(all, es[i]);
    }
    assert es[..|es|] == es;
  }

  /** Of each version the first entry, whatever the order of the list. */
  function Winners(es: Run): Run {
    if es == [] then []
    else
      var n := |es| - 1;
      Winners(es[..n]) + if FirstOf(es[..n], es[n]).None? then [es[n]] else []
  }

  lemma {:induction false} WinnersMembers(es: Run, x: Entry)
    ensures x in Winners(es) <==> FirstOf(es, x) == Some(x)
  {
    if es != [] {
      var n := |es| - 1;
      WinnersMembers(es[..n], x);
      FirstSnoc(es[..n], es[n], x);
      assert es == es[..n] + [es[n]];
      if SameVersion(es[n], x) { SameFirst(es[..n], es[n], x); }
    }
  }

  lemma {:induction false} SameFirst(es: Run, a: Entry, b: Entry)
    requires SameVersion(a, b)
    ensures FirstOf(es, a) == FirstOf(es, b)
  {
    if es != [] { SameFirst(es[1..], a, b); }
  }

  lemma {:induction false} FirstsMembers(all: Run, x: Entry)
    requires Ordered(all)
    ensures x in Firsts(all) <==> FirstOf(all, x) == Some(x)
  {
    hide Before;
    if all != [] {
      var n := |all| - 1;
      PrefixInOrder(all, n);
      FirstsMembers(all[..n], x);
      FirstSnoc(all[..n], all[n], x);
      assert all == all[..n] + [all[n]];
      FirstsSorted(all[..n]);
      LastIsNew(all);
      if SameVersion(all[n], x) { SameFirst(all[..n], all[n], x); }
    }
  }

  /** In order, the last entry repeats an earlier version only if it repeats the last
      of the firsts. */
  lemma LastIsNew(all: Run)
    requires Ordered(all) && all != []
    ensures var n := |all| - 1;
            var rest := Firsts(all[..n]);
            (rest != [] && SameVersion(rest[|rest| - 1], all[n])) <==> FirstOf(all[..n], all[n]).Some?
  {
    hide Before, Firsts;
    var n := |all| - 1;
    var e := all[n];
    PrefixInOrder(all, n);
    FirstsSorted(all[..n]);
    if n > 0 && SameVersion(all[n - 1], e) {
      FoundFirst(all[..n], n - 1, e);
    } else {
      forall x | x in all[..n] ensures !SameVersion(x, e) {
        var i :| 0 <= i < n && all[i] == x;
        EarlierDiffers(all, i);
      }
      NoFirst(all[..n], e);
      if n == 0 { assert all[..0] == []; FirstsEmpty(); }
    }
  }

  lemma FirstsEmpty()
    ensures Firsts([]) == []
  {
  }

  lemma {:induction false} FoundFirst(es: Run, i: nat, v: Entry)
    requires i < |es| && SameVersion(es[i], v)
    ensures FirstOf(es, v).Some?
    decreases |es|
  {
    if i > 0 { FoundFirst(es[1..], i - 1, v); }
  }

  lemma EarlierDiffers(all: Run, i: nat)
    requires Ordered(all) && i < |all| - 1 && !SameVersion(all[|all| - 2], all[|all| - 1])
    ensures !SameVersion(all[i], all[|all| - 1])
  {
    var n := |all| - 1;
    assert Before(all[n - 1], all[n]);
    if i < n - 1 {
      assert NotAfter(all[i], all[n - 1]);
      if Before(all[i], all[n - 1]) { BeforeTransitive(all[i], all[n - 1], all[n]); }
    }
    LessIrreflexive(all[n].key);
  }

  /** Merges runs into one sorted run, dropping dead versions. Where runs share a
      version, the earliest run's entry counts. */
  method MergeRuns(runs: seq<Run>, floor: nat, dropTombstones: bool) returns (out: Run)
    ensures IsMerge(Winners(Flatten(runs)), floor, dropTombstones, out)
  {
    hide Flatten, Firsts, Winners, IsMerge, FirstOf, Ordered;
    var es := FlattenRuns(runs);
    var all := SortStable(es);
    out := FilterVersions(all, floor, dropTombstones);
    forall x ensures x in Firsts(all) <==> x in Winners(es) {
      FirstsMembers(all, x);
      WinnersMembers(es, x);
    }
    SameEntriesSameMerge(Firsts(all), Winners(es), floor, dropTombstones, out);
  }

  /** With no version shared, every entry counts. */
  lemma UniqueMerge(es: Run, floor: nat, drop: bool, out: Run)
    requires Unique(es) && IsMerge(Winners(es), floor, drop, out)
    ensures IsMerge(es, floor, drop, out)
  {
    hide Winners, IsMerge;
    forall x ensures x in Winners(es) <==> x in es {
      WinnersMembers(es, x);
      UniqueFirst(es, x);
    }
    SameEntriesSameMerge(Winners(es), es, floor, drop, out);
  }

  lemma UniqueFirst(es: Run, x: Entry)
    requires Unique(es)
    ensures FirstOf(es, x) == Some(x) <==> x in es
  {
    FirstIn(es, x);
    if x in es {
      var i :| 0 <= i < |es| && es[i] == x;
      FoundFirst(es, i, x);
    }
  }

  lemma {:induction false} FirstIn(es: Run, v: Entry)
    ensures FirstOf(es, v).Some? ==> FirstOf(es, v).value in es && SameVersion(FirstOf(es, v).value, v)
  {
    if es != [] { FirstIn(es[1..], v); }
  }

  method FlattenRuns(runs: seq<Run>) returns (es: Run)
    ensures es == Flatten(runs)
  {
    es := [];
    for i := 0 to |runs|
      invariant es == Flatten(runs[..i])
    {
      assert runs[..i + 1][..i] == runs[..i];
      es := es + runs[i];
    }
    assert runs[..|runs|] == runs;
  }

  lemma SameEntriesSameMerge(a: Run, b: Run, floor: nat, drop: bool, out: Run)
    requires (forall x :: x in a <==> x in b) && IsMerge(a, floor, drop, out)
    ensures IsMerge(b, floor, drop, out)
  {
    hide Before;
    forall e ensures Keeps(a, e, floor, drop) <==> Keeps(b, e, floor, drop) {
      assert Superseded(a, e, floor) <==> Superseded(b, e, floor);
    }
  }
}
