/** Editing leaves and nodes keeps them good. */
module BTreeEdit {
  import opened Bytes
  import opened Wrappers
  import opened BTree
  import opened BTreePages
  import opened BTreeSplit

  // ---- leaves --------------------------------------------------------------

  /** Where a search for `k` ends. */
  ghost predicate IsPosition(es: seq<Entry>, k: Bytes, found: bool, i: nat) {
    && i <= |es| && (found ==> i < |es| && es[i].key == k)
    && (forall j | 0 <= j < i :: Less(es[j].key, k))
    && (forall j | (if found then i + 1 else i) <= j < |es| :: Less(k, es[j].key))
  }

  /** The leaf with the entry put where the search ended. */
  function PutAt(es: seq<Entry>, found: bool, i: nat, e: Entry): seq<Entry>
    requires i <= |es| && (found ==> i < |es|)
  {
    es[..i] + [e] + es[(if found then i + 1 else i)..]
  }

  lemma PutGood(es: seq<Entry>, found: bool, i: nat, e: Entry, lo: Option<Bytes>, hi: Option<Bytes>)
    requires EntriesOk(es, lo, hi) && IsPosition(es, e.key, found, i) && EntryOk(e) && InBounds(e.key, lo, hi)
    ensures EntriesOk(PutAt(es, found, i, e), lo, hi)
  {
    hide Less, EntryOk, InBounds;
    var r, skip := PutAt(es, found, i, e), if found then 0 else 1;
    forall j | 0 <= j < |r| ensures EntryOk(r[j]) && InBounds(r[j].key, lo, hi) {
      if j < i { assert r[j] == es[j]; } else if j > i { assert r[j] == es[j - skip]; }
    }
    forall a, b | 0 <= a < b < |r| ensures Less(r[a].key, r[b].key) {
      if b < i { assert r[a] == es[a] && r[b] == es[b]; }
      else if b == i { assert r[a] == es[a]; }
      else if a < i { assert r[a] == es[a] && r[b] == es[b - skip]; }
      else if a == i { assert r[b] == es[b - skip]; }
      else { assert r[a] == es[a - skip] && r[b] == es[b - skip]; }
    }
  }

  lemma RemoveGood(es: seq<Entry>, i: nat, lo: Option<Bytes>, hi: Option<Bytes>)
    requires EntriesOk(es, lo, hi) && i < |es|
    ensures EntriesOk(es[..i] + es[i + 1..], lo, hi)
    ensures LeafBytes(es) == LeafBytes(es[..i] + es[i + 1..]) + EntrySize(es[i])
    ensures ChainIds(es) == ChainIds(es[..i] + es[i + 1..]) + multiset(es[i].chain)
  {
    hide EntriesOk, LeafBytes, ChainIds, EntrySize;
    RemoveOk(es, i, lo, hi);
    LeafAround(es, i);
  }

  lemma RemoveOk(es: seq<Entry>, i: nat, lo: Option<Bytes>, hi: Option<Bytes>)
    requires EntriesOk(es, lo, hi) && i < |es|
    ensures EntriesOk(es[..i] + es[i + 1..], lo, hi)
  {
    hide Less, EntryOk, InBounds;
    var r := es[..i] + es[i + 1..];
    forall j | 0 <= j < |r| ensures EntryOk(r[j]) && InBounds(r[j].key, lo, hi) { assert r[j] == es[After(i, j)]; }
    forall a, b | 0 <= a < b < |r| ensures Less(r[a].key, r[b].key) {
      assert r[a] == es[After(i, a)] && r[b] == es[After(i, b)];
    }
  }

  /** Where position `j` was before the entry at `i` went. */
  function After(i: nat, j: nat): nat {
    if j < i then j else j + 1
  }

  lemma LeafAround(es: seq<Entry>, i: nat)
    requires i < |es|
    ensures LeafBytes(es) == LeafBytes(es[..i] + es[i + 1..]) + EntrySize(es[i])
    ensures ChainIds(es) == ChainIds(es[..i] + es[i + 1..]) + multiset(es[i].chain)
  {
    hide LeafBytes, ChainIds;
    assert es == es[..i] + [es[i]] + es[i + 1..];
    LeafBytesConcat(es[..i] + [es[i]], es[i + 1..]);
    LeafBytesConcat(es[..i], [es[i]]);
    LeafBytesConcat(es[..i], es[i + 1..]);
    LeafBytesOne(es[i]);
  }

  /** Bytes and pages of the leaf after the put. */
  lemma PutSizes(es: seq<Entry>, found: bool, i: nat, e: Entry)
    requires i <= |es| && (found ==> i < |es|)
    ensures var rest := if found then es[..i] + es[i + 1..] else es;
            && LeafBytes(PutAt(es, found, i, e)) == LeafBytes(rest) + EntrySize(e)
            && ChainIds(PutAt(es, found, i, e)) == ChainIds(rest) + multiset(e.chain)
  {
    hide LeafBytes, ChainIds;
    var a, b := es[..i], es[(if found then i + 1 else i)..];
    LeafBytesConcat(a + [e], b);
    LeafBytesConcat(a, [e]);
    LeafBytesConcat(a, b);
    LeafBytesOne(e);
    if !found { assert a + b == es; }
  }

  /** Cutting a leaf in two at `c`. */
  lemma CutGood(es: seq<Entry>, c: nat, lo: Option<Bytes>, hi: Option<Bytes>)
    requires EntriesOk(es, lo, hi) && 0 < c < |es|
    ensures EntriesOk(es[..c], lo, Some(es[c].key)) && EntriesOk(es[c..], Some(es[c].key), hi)
    ensures KeyOk(es[c].key) && Inside(es[c].key, lo, hi)
    ensures LeafBytes(es) == LeafBytes(es[..c]) + LeafBytes(es[c..]) && ChainIds(es) == ChainIds(es[..c]) + ChainIds(es[c..])
  {
    hide EntriesOk, LeafBytes, ChainIds, Inside, KeyOk;
    assert es == es[..c] + es[c..];
    LeafBytesConcat(es[..c], es[c..]);
    CutLeft(es, c, lo, hi);
    CutRight(es, c, lo, hi);
  }

  lemma CutLeft(es: seq<Entry>, c: nat, lo: Option<Bytes>, hi: Option<Bytes>)
    requires EntriesOk(es, lo, hi) && 0 < c < |es|
    ensures EntriesOk(es[..c], lo, Some(es[c].key)) && KeyOk(es[c].key) && Inside(es[c].key, lo, hi)
  {
    hide Less;
    assert EntryOk(es[c]) && InBounds(es[0].key, lo, hi) && InBounds(es[c].key, lo, hi) && Less(es[0].key, es[c].key);
    if lo.Some? { LessAtMost(lo.value, es[0].key, es[c].key); }
    hide EntryOk;
    forall i | 0 <= i < c ensures EntryOk(es[..c][i]) && InBounds(es[..c][i].key, lo, Some(es[c].key)) {
      assert es[..c][i] == es[i] && InBounds(es[i].key, lo, hi);
    }
  }

  lemma CutRight(es: seq<Entry>, c: nat, lo: Option<Bytes>, hi: Option<Bytes>)
    requires EntriesOk(es, lo, hi) && 0 < c < |es|
    ensures EntriesOk(es[c..], Some(es[c].key), hi)
  {
    hide Less, EntryOk;
    var r := es[c..];
    forall i | 0 <= i < |r| ensures EntryOk(r[i]) && InBounds(r[i].key, Some(es[c].key), hi) {
      assert r[i] == es[c + i] && InBounds(es[c + i].key, lo, hi);
    }
    forall a, b | 0 <= a < b < |r| ensures Less(r[a].key, r[b].key) { assert r[a] == es[c + a] && r[b] == es[c + b]; }
  }

  // ---- nodes ---------------------------------------------------------------

  function SepsWith(seps: seq<Bytes>, i: nat, k: Bytes): seq<Bytes>
    requires i <= |seps|
  {
    seps[..i] + [k] + seps[i..]
  }

  function KidsWith(kids: seq<Tree>, i: nat, left: Tree, right: Tree): seq<Tree>
    requires i < |kids|
  {
    kids[..i] + [left, right] + kids[i + 1..]
  }

  /** A node takes in the two halves of a child. */
  lemma AbsorbGood(seps: seq<Bytes>, kids: seq<Tree>, i: nat, k: Bytes, left: Tree, right: Tree,
                   lo: Option<Bytes>, hi: Option<Bytes>, h: nat)
    requires h > 0 && GoodParts(seps, kids, lo, hi, h) && i < |kids|
    requires KeyOk(k) && Inside(k, KidLo(seps, i, lo), KidHi(seps, i, hi))
    requires Good(left, KidLo(seps, i, lo), Some(k), h - 1) && Good(right, Some(k), KidHi(seps, i, hi), h - 1)
    ensures GoodParts(SepsWith(seps, i, k), KidsWith(kids, i, left, right), lo, hi, h)
  {
    hide Good, Less, KeyOk;
    AbsorbSeps(seps, i, k, lo, hi);
    hide SepsOk;
    var seps', kids' := SepsWith(seps, i, k), KidsWith(kids, i, left, right);
    forall j | 0 <= j < |kids'| ensures Good(kids'[j], KidLo(seps', j, lo), KidHi(seps', j, hi), h - 1) {
      if j < i {
        assert kids'[j] == kids[j] && KidLo(seps', j, lo) == KidLo(seps, j, lo) && KidHi(seps', j, hi) == KidHi(seps, j, hi);
      } else if j > i + 1 {
        assert kids'[j] == kids[j - 1] && KidLo(seps', j, lo) == KidLo(seps, j - 1, lo) && KidHi(seps', j, hi) == KidHi(seps, j - 1, hi);
      }
    }
  }

  lemma AbsorbSeps(seps: seq<Bytes>, i: nat, k: Bytes, lo: Option<Bytes>, hi: Option<Bytes>)
    requires SepsOk(seps, lo, hi) && i <= |seps| && KeyOk(k) && Inside(k, KidLo(seps, i, lo), KidHi(seps, i, hi))
    ensures SepsOk(SepsWith(seps, i, k), lo, hi)
  {
    hide Less, KeyOk;
    var r := SepsWith(seps, i, k);
    assert Inside(k, lo, hi) by {
      if lo.Some? && i > 0 { LessTransitive(lo.value, seps[i - 1], k); }
      if hi.Some? && i < |seps| { LessTransitive(k, seps[i], hi.value); }
    }
    forall a, b | 0 <= a < b < |r| ensures Less(r[a], r[b]) {
      if b < i { assert r[a] == seps[a] && r[b] == seps[b]; }
      else if b == i { assert r[a] == seps[a]; if a < i - 1 { LessTransitive(seps[a], seps[i - 1], k); } }
      else if a < i { assert r[a] == seps[a] && r[b] == seps[b - 1]; }
      else if a == i { assert r[b] == seps[b - 1]; if b - 1 > i { LessTransitive(k, seps[i], seps[b - 1]); } }
      else { assert r[a] == seps[a - 1] && r[b] == seps[b - 1]; }
    }
  }

  /** Splitting a node: separator `m` moves up. */
  lemma NodeCutGood(seps: seq<Bytes>, kids: seq<Tree>, m: nat, lo: Option<Bytes>, hi: Option<Bytes>, h: nat)
    requires h > 0 && GoodParts(seps, kids, lo, hi, h) && m < |seps|
    ensures GoodParts(seps[..m], kids[..m + 1], lo, Some(seps[m]), h)
    ensures GoodParts(seps[m + 1..], kids[m + 1..], Some(seps[m]), hi, h)
    ensures KeyOk(seps[m]) && Inside(seps[m], lo, hi)
  {
    hide Good, Less, KeyOk;
    var ls, lk, rs, rk, k := seps[..m], kids[..m + 1], seps[m + 1..], kids[m + 1..], seps[m];
    forall j | 0 <= j < |lk| ensures Good(lk[j], KidLo(ls, j, lo), KidHi(ls, j, Some(k)), h - 1) {
      assert lk[j] == kids[j] && KidLo(ls, j, lo) == KidLo(seps, j, lo) && KidHi(ls, j, Some(k)) == KidHi(seps, j, hi);
    }
    forall j | 0 <= j < |rk| ensures Good(rk[j], KidLo(rs, j, Some(k)), KidHi(rs, j, hi), h - 1) {
      var n := m + 1 + j;
      assert rk[j] == kids[n] && KidLo(rs, j, Some(k)) == KidLo(seps, n, lo) && KidHi(rs, j, hi) == KidHi(seps, n, hi);
    }
    forall j | 0 <= j < |rs| ensures KeyOk(rs[j]) && Inside(rs[j], Some(k), hi) { assert rs[j] == seps[m + 1 + j]; }
    forall a, b | 0 <= a < b < |rs| ensures Less(rs[a], rs[b]) { assert rs[a] == seps[m + 1 + a] && rs[b] == seps[m + 1 + b]; }
  }

  function SepsWithout(seps: seq<Bytes>, slot: nat): seq<Bytes>
    requires seps != [] && slot <= |seps|
  {
    if slot == 0 then seps[1..] else seps[..slot - 1] + seps[slot..]
  }

  function KidsWithout(kids: seq<Tree>, slot: nat): seq<Tree>
    requires slot < |kids|
  {
    kids[..slot] + kids[slot + 1..]
  }

  /** A node loses a child; a neighbour's bounds widen over the gap. */
  lemma LoseKidGood(seps: seq<Bytes>, kids: seq<Tree>, slot: nat, lo: Option<Bytes>, hi: Option<Bytes>, h: nat)
    requires h > 0 && GoodParts(seps, kids, lo, hi, h) && seps != [] && slot < |kids|
    ensures GoodParts(SepsWithout(seps, slot), KidsWithout(kids, slot), lo, hi, h)
  {
    hide Good, Less, KeyOk;
    LoseSep(seps, slot, lo, hi);
    var s, ks := SepsWithout(seps, slot), KidsWithout(kids, slot);
    forall j | 0 <= j < |ks| ensures Good(ks[j], KidLo(s, j, lo), KidHi(s, j, hi), h - 1) {
      var n := if j < slot then j else j + 1;
      assert ks[j] == kids[n];
      KidWidens(seps, slot, j, lo, hi);
      Widen(kids[n], KidLo(seps, n, lo), KidHi(seps, n, hi), KidLo(s, j, lo), KidHi(s, j, hi), h - 1);
    }
  }

  lemma LoseSep(seps: seq<Bytes>, slot: nat, lo: Option<Bytes>, hi: Option<Bytes>)
    requires SepsOk(seps, lo, hi) && seps != [] && slot <= |seps|
    ensures SepsOk(SepsWithout(seps, slot), lo, hi)
  {
    hide Less, KeyOk;
    var s, gone := SepsWithout(seps, slot), if slot == 0 then 0 else slot - 1;
    forall j | 0 <= j < |s| ensures KeyOk(s[j]) && Inside(s[j], lo, hi) { assert s[j] == seps[if j < gone then j else j + 1]; }
    forall a, b | 0 <= a < b < |s| ensures Less(s[a], s[b]) {
      assert s[a] == seps[if a < gone then a else a + 1] && s[b] == seps[if b < gone then b else b + 1];
    }
  }

  lemma KidWidens(seps: seq<Bytes>, slot: nat, j: nat, lo: Option<Bytes>, hi: Option<Bytes>)
    requires SepsOk(seps, lo, hi) && seps != [] && slot <= |seps| && j < |seps|
    ensures var s, n := SepsWithout(seps, slot), if j < slot then j else j + 1;
            Narrower(KidLo(seps, n, lo), KidHi(seps, n, hi), KidLo(s, j, lo), KidHi(s, j, hi))
  {
    hide Less, KeyOk;
    var s, n := SepsWithout(seps, slot), if j < slot then j else j + 1;
    var gone := if slot == 0 then 0 else slot - 1;
    if j > 0 {
      assert s[j - 1] == seps[if j - 1 < gone then j - 1 else j];
    }
    if j < |s| {
      assert s[j] == seps[if j < gone then j else j + 1];
    }
  }

  lemma LoseSepBytes(seps: seq<Bytes>, slot: nat)
    requires seps != [] && slot <= |seps|
    ensures NodeBytes(SepsWithout(seps, slot)) <= NodeBytes(seps)
  {
    hide NodeBytes;
    var gone := if slot == 0 then 0 else slot - 1;
    var a, b := seps[..gone], seps[gone + 1..];
    WithoutAround(seps, slot, gone);
    NodeBytesConcat(a, b);
    NodeBytesConcat(a + [seps[gone]], b);
    NodeBytesConcat(a, [seps[gone]]);
  }

  lemma WithoutAround(seps: seq<Bytes>, slot: nat, gone: nat)
    requires seps != [] && slot <= |seps| && gone == if slot == 0 then 0 else slot - 1
    ensures SepsWithout(seps, slot) == seps[..gone] + seps[gone + 1..] && seps == seps[..gone] + [seps[gone]] + seps[gone + 1..]
  {
  }
}
