/** The multi-version store: version chains, live transactions and snapshots. */
module VersionStore {
  import opened Bytes
  import opened Wrappers
  import opened History

  datatype Txn = Txn(snapshot: nat, writes: Writes, readOnly: bool)

  datatype Error = TxnNotFound | ReadOnly | Conflict

  datatype Result<+T> = Ok(value: T) | Err(error: Error)

  /** The value of a version store between two operations. */
  datatype Store = Store(
    chains: map<Bytes, seq<Version>>,
    nextTs: nat,
    nextTxnId: nat,
    active: map<nat, Txn>)

  /** A committed transaction a checkpoint writes back to the log. */
  datatype Retained = Retained(txnId: nat, ts: nat, writes: seq<(Bytes, Option<Bytes>)>)

  function Chain(chains: map<Bytes, seq<Version>>, k: Bytes): seq<Version> {
    if k in chains then chains[k] else []
  }

  /** What was committed last for `k`, a deletion included. */
  function Latest(chains: map<Bytes, seq<Version>>, k: Bytes): Option<Option<Bytes>> {
    var c := Chain(chains, k);
    if c == [] then None else Some(c[|c| - 1].value)
  }

  function CurrentTs(s: Store): nat {
    if s.nextTs == 0 then 0 else s.nextTs - 1
  }

  // ---- what each operation does to the store -------------------------------

  function AfterBegin(s: Store, readOnly: bool): Store {
    s.(nextTxnId := s.nextTxnId + 1, active := s.active[s.nextTxnId := Txn(CurrentTs(s), map[], readOnly)])
  }

  function AfterStage(s: Store, id: nat, k: Bytes, w: Option<Bytes>): Store
    requires id in s.active
  {
    s.(active := s.active[id := s.active[id].(writes := s.active[id].writes[k := w])])
  }

  /** A write conflicts when some written key has a version newer than the
      writer's snapshot. */
  ghost predicate Conflicts(s: Store, id: nat)
    requires id in s.active
  {
    exists k :: k in s.active[id].writes.Keys && NewerThan(s.chains, k, s.active[id].snapshot)
  }

  predicate NewerThan(chains: map<Bytes, seq<Version>>, k: Bytes, snapshot: nat) {
    var c := Chain(chains, k);
    c != [] && c[|c| - 1].ts > snapshot
  }

  /** Every written key gains one version stamped `ts`. */
  function Publish(chains: map<Bytes, seq<Version>>, ws: Writes, ts: nat): map<Bytes, seq<Version>> {
    map k | k in chains.Keys + ws.Keys ::
      if k in ws then Chain(chains, k) + [Version(ts, ws[k])] else chains[k]
  }

  function AfterCommit(s: Store, id: nat): Store
    requires id in s.active
  {
    Store(Publish(s.chains, s.active[id].writes, s.nextTs), s.nextTs + 1, s.nextTxnId, s.active - {id})
  }

  function AfterRollback(s: Store, id: nat): Store {
    s.(active := s.active - {id})
  }

  /** Oldest snapshot a live transaction can see. */
  ghost predicate IsWatermark(s: Store, w: nat) {
    if s.active == map[] then
      w == CurrentTs(s)
    else
      && (exists i :: i in s.active && s.active[i].snapshot == w)
      && (forall i | i in s.active :: w <= s.active[i].snapshot)
  }

  /** The oldest snapshot among transactions other than `id`, or the current timestamp. */
  ghost predicate OldestWithout(s: Store, id: nat, w: nat) {
    if forall i | i in s.active :: i == id then w == CurrentTs(s)
    else
      && (exists i :: i in s.active && i != id && s.active[i].snapshot == w)
      && (forall i | i in s.active && i != id :: w <= s.active[i].snapshot)
  }

  lemma WatermarkWithout(s: Store, s': Store, id: nat)
    requires s'.active.Keys == s.active.Keys - {id} && CurrentTs(s') == CurrentTs(s)
    requires forall i | i in s'.active :: s'.active[i].snapshot == s.active[i].snapshot
    ensures forall w :: IsWatermark(s', w) <==> OldestWithout(s, id, w)
  {
    if forall i | i in s.active :: i == id {
      assert s'.active.Keys == {};
      assert s'.active == map[];
    } else {
      var i :| i in s.active && i != id;
      assert i in s'.active;
    }
  }

  function MergedChains(chains: map<Bytes, seq<Version>>, w: nat): map<Bytes, seq<Version>> {
    map k | k in chains && chains[k][Cut(chains[k], w)..] != [] :: chains[k][Cut(chains[k], w)..]
  }

  /** The write a merge at `w` applies to the tree for key `k`. */
  function MergedWrites(chains: map<Bytes, seq<Version>>, w: nat): Writes {
    map k | k in chains && Cut(chains[k], w) > 0 :: chains[k][Cut(chains[k], w) - 1].value
  }

  function InsertVersion(c: seq<Version>, v: Version): seq<Version> {
    var at := InsertionPoint(c, v.ts);
    c[..at] + [v] + c[at..]
  }

  /** First index whose timestamp exceeds `ts` in an ascending chain. */
  function InsertionPoint(c: seq<Version>, ts: nat): (n: nat)
    ensures n <= |c|
    ensures forall i | 0 <= i < n :: c[i].ts <= ts
    ensures n < |c| ==> c[n].ts > ts
  {
    if c == [] || c[0].ts > ts then 0 else 1 + InsertionPoint(c[1..], ts)
  }

  function AfterRecovered(s: Store, ts: nat, k: Bytes, v: Option<Bytes>): Store {
    s.(chains := s.chains[k := InsertVersion(Chain(s.chains, k), Version(ts, v))],
       nextTs := if ts >= s.nextTs then ts + 1 else s.nextTs)
  }

  /** The values `c` holds at timestamp `ts`, paired with their key. */
  function ValuesAt(k: Bytes, c: seq<Version>, ts: nat): seq<(Bytes, Option<Bytes>)> {
    if c == [] then []
    else
      var last := c[|c| - 1];
      ValuesAt(k, c[..|c| - 1], ts) + if last.ts == ts then [(k, last.value)] else []
  }

  /** Everything committed at `ts`, key by key in the order `ks`. */
  function GroupAt(chains: map<Bytes, seq<Version>>, ks: seq<Bytes>, ts: nat): seq<(Bytes, Option<Bytes>)> {
    if ks == [] then []
    else
      var last := ks[|ks| - 1];
      GroupAt(chains, ks[..|ks| - 1], ts) + ValuesAt(last, Chain(chains, last), ts)
  }

  ghost predicate Iterates(ks: seq<Bytes>, s: set<Bytes>) {
    Ascending(ks) && forall k :: k in ks <==> k in s
  }

  ghost predicate HasTs(r: seq<Retained>, t: nat) {
    exists i :: 0 <= i < |r| && r[i].ts == t
  }

  /** What a checkpoint at `w` writes back: one group per timestamp above `w`
      that a chain still holds, oldest first, under fresh transaction ids. */
  ghost predicate IsRetained(s: Store, w: nat, ks: seq<Bytes>, r: seq<Retained>) {
    && Iterates(ks, s.chains.Keys)
    && (forall i, j | 0 <= i < j < |r| :: r[i].ts < r[j].ts)
    && (forall t: nat | t > w && GroupAt(s.chains, ks, t) != [] :: HasTs(r, t))
    && (forall i | 0 <= i < |r| ::
          r[i].ts > w && r[i].txnId == s.nextTxnId + i && r[i].writes == GroupAt(s.chains, ks, r[i].ts) != [])
  }

  ghost predicate AscendingChains(chains: map<Bytes, seq<Version>>) {
    forall k | k in chains :: chains[k] != [] && forall i, j | 0 <= i < j < |chains[k]| :: chains[k][i].ts <= chains[k][j].ts
  }

  // ---- loop steps ----------------------------------------------------------

  ghost function HolderIds(active: map<nat, Txn>, s: nat): set<nat> {
    set i | i in active && active[i].snapshot == s
  }

  /** How many live transactions hold snapshot `s`. */
  ghost function Holders(active: map<nat, Txn>, s: nat): nat {
    |HolderIds(active, s)|
  }

  ghost predicate Counted(active: map<nat, Txn>, live: map<nat, nat>) {
    && (forall s: nat :: Holders(active, s) == if s in live then live[s] else 0)
    && (forall s | s in live :: live[s] > 0)
  }

  lemma HoldersSame(a: map<nat, Txn>, b: map<nat, Txn>, s: nat)
    requires a.Keys == b.Keys && forall i | i in a :: a[i].snapshot == b[i].snapshot
    ensures Holders(a, s) == Holders(b, s)
  {
    assert HolderIds(a, s) == HolderIds(b, s);
  }

  lemma HoldersAdd(a: map<nat, Txn>, id: nat, t: Txn, s: nat)
    requires id !in a
    ensures Holders(a[id := t], s) == Holders(a, s) + if s == t.snapshot then 1 else 0
  {
    assert HolderIds(a[id := t], s) == HolderIds(a, s) + if s == t.snapshot then {id} else {};
  }

  lemma HoldersRemove(a: map<nat, Txn>, id: nat, s: nat)
    requires id in a
    ensures Holders(a, s) == Holders(a - {id}, s) + if s == a[id].snapshot then 1 else 0
  {
    assert HolderIds(a, s) == HolderIds(a - {id}, s) + if s == a[id].snapshot then {id} else {};
  }

  /** One more holder of a snapshot. */
  lemma CountedAdd(active: map<nat, Txn>, live: map<nat, nat>, id: nat, t: Txn)
    requires Counted(active, live) && id !in active
    ensures Counted(active[id := t], live[t.snapshot := 1 + if t.snapshot in live then live[t.snapshot] else 0])
  {
    hide Holders;
    forall s: nat { HoldersAdd(active, id, t, s); }
  }

  lemma HolderCounts(active: map<nat, Txn>, i: nat)
    requires i in active
    ensures Holders(active, active[i].snapshot) > 0
  {
    assert i in HolderIds(active, active[i].snapshot);
  }

  lemma SomeHolder(active: map<nat, Txn>, s: nat) returns (i: nat)
    requires Holders(active, s) > 0
    ensures i in active && active[i].snapshot == s
  {
    i :| i in HolderIds(active, s);
  }

  function Restrict(ws: Writes, ks: seq<Bytes>): Writes {
    map k | k in ws && k in ks :: ws[k]
  }

  lemma PublishStep(chains: map<Bytes, seq<Version>>, ws: Writes, ts: nat, ks: seq<Bytes>, i: nat)
    requires Ascending(ks) && i < |ks| && ks[i] in ws
    ensures var m := Publish(chains, Restrict(ws, ks[..i]), ts);
            Publish(chains, Restrict(ws, ks[..i + 1]), ts) == m[ks[i] := Chain(m, ks[i]) + [Version(ts, ws[ks[i]])]]
  {
    NotBefore(ks, i);
    RestrictStep(ws, ks, i);
    hide Restrict, Ascending;
    PublishOne(chains, Restrict(ws, ks[..i]), ts, ks[i], ws[ks[i]]);
  }

  lemma NotBefore(ks: seq<Bytes>, i: nat)
    requires Ascending(ks) && i < |ks|
    ensures ks[i] !in ks[..i]
  {
    hide Ascending;
    if ks[i] in ks[..i] {
      var j :| 0 <= j < i && ks[..i][j] == ks[i];
      AscendingDistinct(ks, i, j);
    }
  }

  lemma RestrictStep(ws: Writes, ks: seq<Bytes>, i: nat)
    requires i < |ks| && ks[i] in ws && ks[i] !in ks[..i]
    ensures Restrict(ws, ks[..i + 1]) == Restrict(ws, ks[..i])[ks[i] := ws[ks[i]]] && ks[i] !in Restrict(ws, ks[..i])
  {
    assert ks[..i + 1] == ks[..i] + [ks[i]];
  }

  lemma PublishOne(chains: map<Bytes, seq<Version>>, ws: Writes, ts: nat, k: Bytes, v: Option<Bytes>)
    requires k !in ws
    ensures var m := Publish(chains, ws, ts);
            Publish(chains, ws[k := v], ts) == m[k := Chain(m, k) + [Version(ts, v)]]
  {
  }

  lemma PublishNothing(chains: map<Bytes, seq<Version>>, ws: Writes, ks: seq<Bytes>, ts: nat)
    ensures Publish(chains, Restrict(ws, ks[..0]), ts) == chains
  {
    assert Restrict(ws, ks[..0]) == map[];
  }

  /** What merging the keys `ks` at `w` writes to the tree. */
  function MergedOver(chains: map<Bytes, seq<Version>>, ks: seq<Bytes>, w: nat): Writes {
    map k | k in ks && k in chains && Cut(chains[k], w) > 0 :: chains[k][Cut(chains[k], w) - 1].value
  }

  lemma MergedStep(chains: map<Bytes, seq<Version>>, ks: seq<Bytes>, i: nat, w: nat)
    requires i < |ks|
    ensures var ws, c := MergedOver(chains, ks[..i], w), Chain(chains, ks[i]);
            MergedOver(chains, ks[..i + 1], w) == if Cut(c, w) == 0 then ws else ws[ks[i] := c[Cut(c, w) - 1].value]
  {
    hide Cut, MergedOver;
    var c := Chain(chains, ks[i]);
    var ws, next := MergedOver(chains, ks[..i], w), MergedOver(chains, ks[..i + 1], w);
    var more := if Cut(c, w) == 0 then ws else ws[ks[i] := c[Cut(c, w) - 1].value];
    forall k ensures (k in next <==> k in more) && (k in next ==> next[k] == more[k]) {
      assert k in ks[..i + 1] <==> k in ks[..i] || k == ks[i];
      MergedAt(chains, ks[..i], w, k);
      MergedAt(chains, ks[..i + 1], w, k);
    }
    SameWrites(next, more);
  }

  lemma MergedAt(chains: map<Bytes, seq<Version>>, ks: seq<Bytes>, w: nat, k: Bytes)
    ensures var ws, c := MergedOver(chains, ks, w), Chain(chains, k);
            && (k in ws <==> k in ks && Cut(c, w) > 0)
            && (k in ws ==> ws[k] == c[Cut(c, w) - 1].value)
  {
    hide Cut;
    if k !in chains { NothingCut(w); }
  }

  lemma NothingCut(w: nat)
    ensures Cut([], w) == 0
  {
  }

  lemma SameWrites(a: Writes, b: Writes)
    requires forall k :: (k in a <==> k in b) && (k in a ==> a[k] == b[k])
    ensures a == b
  {
  }

  /** The tree once one key's newest version at or below `w` is in it. */
  function MergeKey(tree: map<Bytes, Bytes>, k: Bytes, c: seq<Version>, w: nat): map<Bytes, Bytes> {
    if Cut(c, w) == 0 then tree else Write(tree, k, c[Cut(c, w) - 1].value)
  }

  function MergeKeys(tree: map<Bytes, Bytes>, chains: map<Bytes, seq<Version>>, ks: seq<Bytes>, w: nat): map<Bytes, Bytes> {
    if ks == [] then tree
    else
      var k := ks[|ks| - 1];
      MergeKey(MergeKeys(tree, chains, ks[..|ks| - 1], w), k, Chain(chains, k), w)
  }

  lemma {:induction false} MergeKeysOver(tree: map<Bytes, Bytes>, chains: map<Bytes, seq<Version>>, ks: seq<Bytes>, w: nat)
    ensures MergeKeys(tree, chains, ks, w) == Overlay(tree, MergedOver(chains, ks, w))
  {
    hide Overlay, Cut;
    if ks == [] {
      assert MergedOver(chains, ks, w) == map[];
      OverlayNothing(tree);
    } else {
      var i := |ks| - 1;
      var k := ks[i];
      MergeKeysOver(tree, chains, ks[..i], w);
      MergedStep(chains, ks, i, w);
      assert ks[..i + 1] == ks;
      var n := Cut(Chain(chains, k), w);
      if n > 0 {
        OverlayOne(tree, MergedOver(chains, ks[..i], w), k, chains[k][n - 1].value);
      }
    }
  }

  /** Merging every key amounts to overlaying one write set on the tree. */
  lemma MergeKeysIs(tree: map<Bytes, Bytes>, chains: map<Bytes, seq<Version>>, ks: seq<Bytes>, w: nat)
    requires forall k :: k in ks <==> k in chains
    ensures MergeKeys(tree, chains, ks, w) == Overlay(tree, MergedWrites(chains, w))
  {
    hide Overlay, MergeKeys;
    MergeKeysOver(tree, chains, ks, w);
    MergedComplete(chains, ks, w);
  }

  /** The chains once the keys `ks` have been trimmed at `w`. */
  function TrimmedOver(chains: map<Bytes, seq<Version>>, ks: seq<Bytes>, w: nat): map<Bytes, seq<Version>> {
    map k | k in chains && (k in ks ==> chains[k][Cut(chains[k], w)..] != []) ::
      if k in ks then chains[k][Cut(chains[k], w)..] else chains[k]
  }

  lemma TrimmedStep(chains: map<Bytes, seq<Version>>, ks: seq<Bytes>, i: nat, w: nat)
    requires Ascending(ks) && i < |ks| && ks[i] in chains && chains[ks[i]] != []
    ensures var m := TrimmedOver(chains, ks[..i], w);
            && ks[i] in m && m[ks[i]] == chains[ks[i]]
            && var rest := m[ks[i]][Cut(chains[ks[i]], w)..];
               TrimmedOver(chains, ks[..i + 1], w) == if rest == [] then m - {ks[i]} else m[ks[i] := rest]
  {
    var k := ks[i];
    if k in ks[..i] {
      var j :| 0 <= j < i && ks[j] == k;
      AscendingDistinct(ks, i, j);
    }
    assert ks[..i + 1] == ks[..i] + [k];
  }

  lemma MergedComplete(chains: map<Bytes, seq<Version>>, ks: seq<Bytes>, w: nat)
    requires forall k :: k in ks <==> k in chains
    ensures MergedOver(chains, ks, w) == MergedWrites(chains, w)
    ensures TrimmedOver(chains, ks, w) == MergedChains(chains, w)
  {
  }

  lemma MergedAscending(chains: map<Bytes, seq<Version>>, w: nat)
    requires AscendingChains(chains)
    ensures AscendingChains(MergedChains(chains, w))
  {
  }

  lemma PublishAscending(chains: map<Bytes, seq<Version>>, ws: Writes, ts: nat)
    requires AscendingChains(chains) && Dated(chains, ts)
    ensures AscendingChains(Publish(chains, ws, ts)) && Dated(Publish(chains, ws, ts), ts + 1)
  {
  }

  lemma {:induction false} InsertionTail(c: seq<Version>, ts: nat, at: nat)
    requires at <= |c| && forall i | 0 <= i < at :: c[i].ts <= ts
    requires at < |c| ==> c[at].ts > ts
    ensures InsertionPoint(c, ts) == at
  {
    if at > 0 { InsertionTail(c[1..], ts, at - 1); }
  }

  lemma RecoveredAscending(s: Store, ts: nat, k: Bytes, v: Option<Bytes>)
    requires AscendingChains(s.chains)
    ensures AscendingChains(AfterRecovered(s, ts, k, v).chains)
  {
    var c := Chain(s.chains, k);
    var n := InsertVersion(c, Version(ts, v));
    var at := InsertionPoint(c, ts);
    forall i, j | 0 <= i < j < |n| ensures n[i].ts <= n[j].ts {
      assert n[i] == if i < at then c[i] else if i == at then Version(ts, v) else c[i - 1];
      assert n[j] == if j < at then c[j] else if j == at then Version(ts, v) else c[j - 1];
    }
  }

  lemma RecoveredDated(s: Store, ts: nat, k: Bytes, v: Option<Bytes>)
    requires Dated(s.chains, s.nextTs)
    ensures Dated(AfterRecovered(s, ts, k, v).chains, AfterRecovered(s, ts, k, v).nextTs)
  {
    var c := Chain(s.chains, k);
    var n := InsertVersion(c, Version(ts, v));
    var at := InsertionPoint(c, ts);
    forall i | 0 <= i < |n| ensures n[i].ts < AfterRecovered(s, ts, k, v).nextTs {
      assert n[i] == if i < at then c[i] else if i == at then Version(ts, v) else c[i - 1];
    }
  }

  type Groups = map<nat, seq<(Bytes, Option<Bytes>)>>

  function Group(byTs: Groups, t: nat): seq<(Bytes, Option<Bytes>)> {
    if t in byTs then byTs[t] else []
  }

  function AddVersions(byTs: Groups, k: Bytes, c: seq<Version>, w: nat): Groups {
    if c == [] then byTs
    else
      var m, v := AddVersions(byTs, k, c[..|c| - 1], w), c[|c| - 1];
      if v.ts > w then m[v.ts := Group(m, v.ts) + [(k, v.value)]] else m
  }

  function Grouped(chains: map<Bytes, seq<Version>>, ks: seq<Bytes>, w: nat): Groups {
    if ks == [] then map[]
    else
      var k := ks[|ks| - 1];
      AddVersions(Grouped(chains, ks[..|ks| - 1], w), k, Chain(chains, k), w)
  }

  lemma {:induction false} AddVersionsAt(byTs: Groups, k: Bytes, c: seq<Version>, w: nat, t: nat)
    requires t in byTs ==> t > w && byTs[t] != []
    ensures var m := AddVersions(byTs, k, c, w);
            && Group(m, t) == Group(byTs, t) + (if t > w then ValuesAt(k, c, t) else [])
            && (t in m <==> Group(m, t) != [])
  {
    if c != [] { AddVersionsAt(byTs, k, c[..|c| - 1], w, t); }
  }

  lemma {:induction false} GroupedAt(chains: map<Bytes, seq<Version>>, ks: seq<Bytes>, w: nat, t: nat)
    ensures var m := Grouped(chains, ks, w);
            && Group(m, t) == (if t > w then GroupAt(chains, ks, t) else [])
            && (t in m <==> Group(m, t) != [])
  {
    if ks != [] {
      var k, m := ks[|ks| - 1], Grouped(chains, ks[..|ks| - 1], w);
      GroupedAt(chains, ks[..|ks| - 1], w, t);
      AddVersionsAt(m, k, Chain(chains, k), w, t);
    }
  }

  lemma GroupedIsRetained(s: Store, w: nat, ks: seq<Bytes>, tss: seq<nat>, r: seq<Retained>)
    requires Iterates(ks, s.chains.Keys)
    requires forall t :: t in tss <==> t in Grouped(s.chains, ks, w)
    requires forall i, j | 0 <= i < j < |tss| :: tss[i] < tss[j]
    requires |r| == |tss|
    requires forall i | 0 <= i < |r| :: tss[i] in Grouped(s.chains, ks, w)
                                     && r[i] == Retained(s.nextTxnId + i, tss[i], Grouped(s.chains, ks, w)[tss[i]])
    ensures IsRetained(s, w, ks, r)
  {
    forall t: nat | t > w && GroupAt(s.chains, ks, t) != [] ensures HasTs(r, t) {
      GroupedAt(s.chains, ks, w, t);
      var i :| 0 <= i < |tss| && tss[i] == t;
      assert r[i].ts == t;
    }
    forall i | 0 <= i < |r| ensures r[i].ts > w && r[i].writes == GroupAt(s.chains, ks, r[i].ts) != [] {
      GroupedAt(s.chains, ks, w, tss[i]);
    }
  }

  method InTimeOrder(s: set<nat>) returns (ts: seq<nat>)
    ensures forall t :: t in ts <==> t in s
    ensures forall i, j | 0 <= i < j < |ts| :: ts[i] < ts[j]
  {
    ts := [];
    var rest := s;
    while rest != {}
      invariant forall t :: t in ts + [] || t in rest <==> t in s
      invariant forall i | 0 <= i < |ts| :: forall t | t in rest :: ts[i] < t
      invariant forall i, j | 0 <= i < j < |ts| :: ts[i] < ts[j]
      decreases |rest|
    {
      var t := Min(rest);
      ts := ts + [t];
      rest := rest - {t};
    }
  }

  method Min(s: set<nat>) returns (m: nat)
    requires s != {}
    ensures m in s && forall x | x in s :: m <= x
  {
    m :| m in s;
    var rest := s;
    while rest != {}
      invariant m in s && forall x | x in s && x !in rest :: m <= x
      decreases |rest|
    {
      var x :| x in rest;
      rest := rest - {x};
      if x in s && x < m { m := x; }
    }
  }

  // ---- the store itself ----------------------------------------------------

  /** Every version was committed before `ts`. */
  ghost predicate Dated(chains: map<Bytes, seq<Version>>, ts: nat) {
    forall k | k in chains :: forall i | 0 <= i < |chains[k]| :: chains[k][i].ts < ts
  }

  /** Every version is older than the next timestamp, so a snapshot taken now sees it. */
  lemma AllVisible(chains: map<Bytes, seq<Version>>, nextTs: nat, k: Bytes)
    requires nextTs > 0 && Dated(chains, nextTs)
    ensures NewestAt(Chain(chains, k), nextTs - 1) == Latest(chains, k)
  {
  }

  lemma PublishLatest(chains: map<Bytes, seq<Version>>, ws: Writes, ts: nat, k: Bytes)
    ensures Latest(Publish(chains, ws, ts), k) == if k in ws then Some(ws[k]) else Latest(chains, k)
  {
  }

  class Versions {
    var chains: map<Bytes, seq<Version>>
    var nextTs: nat
    var nextTxnId: nat
    var active: map<nat, Txn>
    /** How many live transactions hold each snapshot. */
    var liveSnapshots: map<nat, nat>

    ghost function View(): Store
      reads this
    {
      Store(chains, nextTs, nextTxnId, active)
    }

    ghost predicate Valid()
      reads this
    {
      && nextTs > 0
      && AscendingChains(chains) && Dated(chains, nextTs)
      && (forall i | i in active :: i < nextTxnId)
      && Counted(active, liveSnapshots)
    }

    constructor (ts: nat, txnId: nat)
      ensures Valid()
      ensures View() == Store(map[], if ts > 1 then ts else 1, if txnId > 1 then txnId else 1, map[])
    {
      chains, active, liveSnapshots := map[], map[], map[];
      nextTs := if ts > 1 then ts else 1;
      nextTxnId := if txnId > 1 then txnId else 1;
    }

    method Begin(readOnly: bool) returns (id: nat)
      requires Valid()
      modifies this
      ensures Valid()
      ensures id == old(nextTxnId) && id !in old(active)
      ensures View() == AfterBegin(old(View()), readOnly)
      ensures active.Keys == old(active.Keys) + {id} && forall j | j in old(active) :: active[j] == old(active)[j]
      ensures active[id].writes == map[] && active[id].readOnly == readOnly && chains == old(chains) && nextTs == old(nextTs)
      ensures forall k :: NewestAt(Chain(chains, k), active[id].snapshot) == Latest(chains, k)
    {
      hide Counted, AscendingChains, Dated, NewestAt, Latest;
      forall k { AllVisible(chains, nextTs, k); }
      id := nextTxnId;
      nextTxnId := nextTxnId + 1;
      var snapshot := nextTs - 1;
      CountedAdd(active, liveSnapshots, id, Txn(snapshot, map[], readOnly));
      liveSnapshots := liveSnapshots[snapshot := 1 + if snapshot in liveSnapshots then liveSnapshots[snapshot] else 0];
      active := active[id := Txn(snapshot, map[], readOnly)];
    }

    method Stage(id: nat, k: Bytes, w: Option<Bytes>) returns (r: Result<()>)
      requires Valid()
      modifies this
      ensures Valid()
      ensures r == if id !in old(active) then Err(TxnNotFound)
                   else if old(active)[id].readOnly then Err(ReadOnly) else Ok(())
      ensures View() == if r.Ok? then AfterStage(old(View()), id, k, w) else old(View())
      ensures r.Ok? ==>
                && chains == old(chains) && nextTs == old(nextTs) && active.Keys == old(active.Keys)
                && active[id].snapshot == old(active)[id].snapshot && !active[id].readOnly
                && k in active[id].writes && active[id].writes[k] == w
                && (forall x | x != k :: (x in active[id].writes <==> x in old(active)[id].writes)
                                      && (x in active[id].writes ==> active[id].writes[x] == old(active)[id].writes[x]))
                && forall j | j in active && j != id :: active[j] == old(active)[j]
    {
      if id !in active { return Err(TxnNotFound); }
      if active[id].readOnly { return Err(ReadOnly); }
      var staged := active[id := active[id].(writes := active[id].writes[k := w])];
      forall s: nat { HoldersSame(active, staged, s); }
      active := staged;
      r := Ok(());
    }

    /** Newest committed version visible at `snapshot`, searching backwards. */
    method Visible(k: Bytes, snapshot: nat) returns (r: Option<Option<Bytes>>)
      ensures r == NewestAt(Chain(chains, k), snapshot)
    {
      var c := Chain(chains, k);
      var n := |c|;
      assert c[..n] == c;
      while n > 0
        invariant 0 <= n <= |c|
        invariant NewestAt(c, snapshot) == NewestAt(c[..n], snapshot)
      {
        if c[n - 1].ts <= snapshot { return Some(c[n - 1].value); }
        assert c[..n][..n - 1] == c[..n - 1];
        n := n - 1;
      }
      r := None;
    }

    /** A transaction's own writes first, then its snapshot. */
    method Read(id: nat, k: Bytes) returns (r: Result<Option<Option<Bytes>>>)
      ensures r == if id !in active then Err(TxnNotFound)
                   else if k in active[id].writes then Ok(Some(active[id].writes[k]))
                   else Ok(NewestAt(Chain(chains, k), active[id].snapshot))
    {
      if id !in active { return Err(TxnNotFound); }
      if k in active[id].writes { return Ok(Some(active[id].writes[k])); }
      var v := Visible(k, active[id].snapshot);
      r := Ok(v);
    }

    method DetectConflict(id: nat) returns (r: Result<()>)
      ensures r == if id !in active then Err(TxnNotFound)
                   else if Conflicts(View(), id) then Err(Conflict) else Ok(())
    {
      if id !in active { return Err(TxnNotFound); }
      var ks := InOrder(active[id].writes.Keys);
      for i := 0 to |ks|
        invariant forall j | 0 <= j < i :: !NewerThan(chains, ks[j], active[id].snapshot)
      {
        if NewerThan(chains, ks[i], active[id].snapshot) {
          assert ks[i] in ks;
          return Err(Conflict);
        }
      }
      r := Ok(());
    }

    /** Ends a transaction: its snapshot no longer holds the watermark back. */
    method Release(id: nat)
      requires id in active && Counted(active, liveSnapshots)
      modifies this`liveSnapshots, this`active
      ensures active == old(active) - {id}
      ensures Counted(active, liveSnapshots)
    {
      HolderCounts(active, id);
      forall s: nat { HoldersRemove(active, id, s); }
      var s := active[id].snapshot;
      if liveSnapshots[s] == 1 {
        liveSnapshots := liveSnapshots - {s};
      } else {
        liveSnapshots := liveSnapshots[s := liveSnapshots[s] - 1];
      }
      active := active - {id};
    }

    method Commit(id: nat) returns (r: Result<nat>)
      requires Valid()
      modifies this
      ensures Valid()
      ensures r == if id !in old(active) then Err(TxnNotFound)
                   else if Conflicts(old(View()), id) then Err(Conflict) else Ok(old(nextTs))
      ensures View() == if r.Ok? then AfterCommit(old(View()), id) else old(View())
      ensures r.Ok? ==>
                && active.Keys == old(active.Keys) - {id} && (forall j | j in active :: active[j] == old(active)[j])
                && forall k :: Latest(chains, k) == if k in old(active)[id].writes then Some(old(active)[id].writes[k]) else old(Latest(chains, k))
    {
      hide AscendingChains, Dated;
      var clash := DetectConflict(id);
      if clash.Err? { return Err(clash.error); }
      var ts, ws := nextTs, active[id].writes;
      nextTs := nextTs + 1;
      PublishAscending(chains, ws, ts);
      forall k { PublishLatest(chains, ws, ts, k); }
      PublishWrites(ws, ts);
      Release(id);
      r := Ok(ts);
    }

    method PublishWrites(ws: Writes, ts: nat)
      modifies this`chains
      ensures chains == Publish(old(chains), ws, ts)
    {
      var ks := InOrder(ws.Keys);
      ghost var before := chains;
      PublishNothing(chains, ws, ks, ts);
      for i := 0 to |ks|
        invariant chains == Publish(before, Restrict(ws, ks[..i]), ts)
      {
        assert ks[i] in ks;
        PublishStep(before, ws, ts, ks, i);
        chains := chains[ks[i] := Chain(chains, ks[i]) + [Version(ts, ws[ks[i]])]];
      }
      assert Restrict(ws, ks[..|ks|]) == ws;
    }

    method Rollback(id: nat) returns (r: Result<()>)
      requires Valid()
      modifies this
      ensures Valid()
      ensures r == if id !in old(active) then Err(TxnNotFound) else Ok(())
      ensures View() == AfterRollback(old(View()), id)
      ensures id !in active && active.Keys == old(active.Keys) - {id} && forall j | j in active :: active[j] == old(active)[j]
      ensures chains == old(chains) && nextTs == old(nextTs) && nextTxnId == old(nextTxnId)
      ensures forall w :: IsWatermark(View(), w) <==> OldestWithout(old(View()), id, w)
    {
      ghost var before := View();
      if id !in active {
        assert active - {id} == active;
        WatermarkWithout(before, View(), id);
        return Err(TxnNotFound);
      }
      Release(id);
      WatermarkWithout(before, View(), id);
      r := Ok(());
    }

    method MergeWatermark() returns (w: nat)
      requires Valid()
      ensures IsWatermark(View(), w)
    {
      if liveSnapshots == map[] {
        forall i | i in active ensures false { HolderCounts(active, i); }
        assert active == map[];
        return nextTs - 1;
      }
      w := Min(liveSnapshots.Keys);
      forall i | i in active ensures w <= active[i].snapshot { HolderCounts(active, i); }
      ghost var h := SomeHolder(active, w);
    }

    /** Folds versions at or below `watermark` into `tree`; chains are trimmed
        only once every key reached the tree. */
    method MergeIntoTree(tree: map<Bytes, Bytes>, watermark: nat) returns (merged: map<Bytes, Bytes>)
      requires Valid()
      modifies this`chains
      ensures Valid()
      ensures merged == Overlay(tree, MergedWrites(old(chains), watermark))
      ensures View() == old(View()).(chains := MergedChains(old(chains), watermark))
    {
      merged := UpdatedTree(tree, watermark);
      TrimChains(watermark);
    }

    /** First phase: every key's newest version at or below `watermark`. */
    method UpdatedTree(tree: map<Bytes, Bytes>, watermark: nat) returns (merged: map<Bytes, Bytes>)
      ensures merged == Overlay(tree, MergedWrites(chains, watermark))
    {
      merged := tree;
      var ks := InOrder(chains.Keys);
      for i := 0 to |ks|
        invariant merged == MergeKeys(tree, chains, ks[..i], watermark)
      {
        assert ks[..i + 1][..i] == ks[..i];
        merged := MergeKey(merged, ks[i], Chain(chains, ks[i]), watermark);
      }
      assert ks[..|ks|] == ks;
      MergeKeysIs(tree, chains, ks, watermark);
    }

    /** Second phase: drop everything the tree now holds. */
    method TrimChains(watermark: nat)
      requires AscendingChains(chains)
      modifies this`chains
      ensures AscendingChains(chains)
      ensures chains == MergedChains(old(chains), watermark)
    {
      var ks := InOrder(chains.Keys);
      ghost var before := chains;
      assert TrimmedOver(before, ks[..0], watermark) == before;
      for i := 0 to |ks|
        invariant chains == TrimmedOver(before, ks[..i], watermark)
      {
        assert ks[i] in ks;
        TrimmedStep(before, ks, i, watermark);
        var rest := chains[ks[i]][Cut(chains[ks[i]], watermark)..];
        chains := if rest == [] then chains - {ks[i]} else chains[ks[i] := rest];
      }
      assert ks[..|ks|] == ks;
      MergedComplete(before, ks, watermark);
      MergedAscending(before, watermark);
    }

    /** Groups what the tree does not hold yet by commit. */
    method GroupByTs(ks: seq<Bytes>, watermark: nat) returns (byTs: Groups)
      ensures byTs == Grouped(chains, ks, watermark)
    {
      byTs := map[];
      for i := 0 to |ks|
        invariant byTs == Grouped(chains, ks[..i], watermark)
      {
        assert ks[..i + 1][..i] == ks[..i];
        var c := Chain(chains, ks[i]);
        ghost var before := byTs;
        for j := 0 to |c|
          invariant byTs == AddVersions(before, ks[i], c[..j], watermark)
        {
          assert c[..j + 1][..j] == c[..j];
          if c[j].ts > watermark {
            byTs := byTs[c[j].ts := Group(byTs, c[j].ts) + [(ks[i], c[j].value)]];
          }
        }
        assert c[..|c|] == c;
      }
      assert ks[..|ks|] == ks;
    }

    method RetainedCommits(watermark: nat) returns (r: seq<Retained>)
      requires Valid()
      modifies this`nextTxnId
      ensures Valid()
      ensures exists ks :: IsRetained(old(View()), watermark, ks, r)
      ensures View() == old(View()).(nextTxnId := old(nextTxnId) + |r|)
    {
      hide IsRetained, Grouped, Counted, AscendingChains, Ascending;
      var ks := InOrder(chains.Keys);
      var byTs := GroupByTs(ks, watermark);
      var tss := InTimeOrder(byTs.Keys);
      r := [];
      for i := 0 to |tss|
        invariant |r| == i && nextTxnId == old(nextTxnId) + i
        invariant forall j | 0 <= j < i :: r[j] == Retained(old(nextTxnId) + j, tss[j], byTs[tss[j]])
      {
        assert tss[i] in tss;
        r := r + [Retained(nextTxnId, tss[i], byTs[tss[i]])];
        nextTxnId := nextTxnId + 1;
      }
      GroupedIsRetained(old(View()), watermark, ks, tss, r);
    }

    /** Recovered writes go straight into the chains, before any transaction. */
    method ApplyRecovered(ts: nat, k: Bytes, v: Option<Bytes>)
      requires Valid()
      modifies this`chains, this`nextTs
      ensures Valid()
      ensures View() == AfterRecovered(old(View()), ts, k, v)
    {
      hide AscendingChains, Dated;
      var c := Chain(chains, k);
      var at := 0;
      while at < |c| && c[at].ts <= ts
        invariant 0 <= at <= |c|
        invariant forall i | 0 <= i < at :: c[i].ts <= ts
      {
        at := at + 1;
      }
      InsertionTail(c, ts, at);
      RecoveredAscending(View(), ts, k, v);
      RecoveredDated(View(), ts, k, v);
      chains := chains[k := c[..at] + [Version(ts, v)] + c[at..]];
      if ts >= nextTs { nextTs := ts + 1; }
    }

    /** Moves the counter past an id found in the log, and no further than that takes. */
    method ObserveTxnId(id: nat)
      requires Valid()
      modifies this`nextTxnId
      ensures Valid()
      ensures nextTxnId > id && nextTxnId >= old(nextTxnId)
      ensures nextTxnId - 1 <= id || nextTxnId - 1 < old(nextTxnId)
      ensures View() == old(View()).(nextTxnId := nextTxnId)
    {
      if id >= nextTxnId { nextTxnId := id + 1; }
    }
  }

  /** A new transaction reads what was committed last, and nothing of its own. */
  method BeginThenRead(v: Versions, readOnly: bool, k: Bytes) returns (id: nat, r: Result<Option<Option<Bytes>>>)
    requires v.Valid()
    modifies v
    ensures v.Valid() && r == Ok(Latest(old(v.chains), k))
  {
    id := v.Begin(readOnly);
    r := v.Read(id, k);
  }

  /** A transaction reads what it staged last, and every other key as before. */
  method StageThenRead(v: Versions, id: nat, k: Bytes, w: Option<Bytes>, x: Bytes)
    returns (staged: Result<()>, was: Result<Option<Option<Bytes>>>, r: Result<Option<Option<Bytes>>>)
    requires v.Valid()
    modifies v
    ensures v.Valid() && (staged.Ok? <==> id in old(v.active) && !old(v.active)[id].readOnly)
    ensures r == if staged.Ok? && x == k then Ok(Some(w)) else was
  {
    was := v.Read(id, x);
    staged := v.Stage(id, k, w);
    r := v.Read(id, x);
  }

  /** What was staged last for a key is what a commit leaves for everyone who begins after. */
  method StageCommitRead(v: Versions, id: nat, k: Bytes, w: Option<Bytes>) returns (ts: Result<nat>, r: Result<Option<Option<Bytes>>>)
    requires v.Valid() && id in v.active && !v.active[id].readOnly
    modifies v
    ensures ts.Ok? ==> r == Ok(Some(w))
  {
    var staged := v.Stage(id, k, w);
    ts := v.Commit(id);
    var later := v.Begin(true);
    r := v.Read(later, k);
  }

  /** After a rollback every operation refuses the transaction. */
  method RollbackEnds(v: Versions, id: nat, k: Bytes, w: Option<Bytes>)
    returns (read: Result<Option<Option<Bytes>>>, stage: Result<()>, commit: Result<nat>, again: Result<()>)
    requires v.Valid()
    modifies v
    ensures read == Err(TxnNotFound) && stage == Err(TxnNotFound) && commit == Err(TxnNotFound) && again == Err(TxnNotFound)
  {
    var done := v.Rollback(id);
    read := v.Read(id, k);
    stage := v.Stage(id, k, w);
    commit := v.Commit(id);
    again := v.Rollback(id);
  }
}
