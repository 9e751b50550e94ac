/** Writing documents: flattening, staging of upserts and deletes, and the
    document counter. */
module CollectionStore {
  import opened Bytes
  import opened Wrappers
  import opened Scalar
  import opened Metadata
  import opened Filter
  import opened CollectionIndex
  import opened Collection

  // ---- flattening ----------------------------------------------------------

  /** The recursive walk with its accumulators; stops at the first bad key. */
  method Walk(v: Value, at: Bytes, values0: seq<Item>, present0: set<Bytes>, budget: nat)
    returns (ok: bool, values: seq<Item>, present: set<Bytes>)
    ensures ok == WalkOk(v, at, budget)
    ensures ok ==> values == values0 + Values(v, at, budget) && present == present0 + Presents(v, at, budget)
    decreases budget, 0, 0
  {
    hide ValuesAll, PresentsAll;
    values, present := values0, present0;
    if budget == 0 { return false, values, present; }
    if at != [] && !v.Array? { present := present + {at}; }
    match v {
      case Object(fields) =>
        ok, values, present := WalkFields(v, at, values, present, budget - 1);
      case Array(items) =>
        ok, values, present := WalkItems(v, at, values, present, budget - 1);
      case Leaf(s) =>
        if at != [] && Indexable(s) { values := values + [Item(at, s)]; }
        ok := true;
        NoKids(budget - 1);
    }
  }

  lemma NoKids(budget: nat)
    ensures ValuesAll([], budget) == [] && PresentsAll([], budget) == {}
  {
  }

  method WalkFields(v: Value, at: Bytes, values0: seq<Item>, present0: set<Bytes>, budget: nat)
    returns (ok: bool, values: seq<Item>, present: set<Bytes>)
    requires v.Object?
    ensures ok <==> KeysOk(v, at) && forall i | 0 <= i < |Kids(v, at)| :: WalkOk(Kids(v, at)[i].value, Kids(v, at)[i].at, budget)
    ensures ok ==> WalkedKids(Kids(v, at), values0, present0, budget, values, present)
    decreases budget, 0, 1
  {
    hide Values, Presents, WalkOk, WalkedKids;
    values, present := values0, present0;
    ghost var kids := Kids(v, at);
    WalkedNothing(values0, present0, budget);
    assert kids[..0] == [];
    for i := 0 to |v.fields|
      invariant forall j | 0 <= j < i :: ValidKey(v.fields[j].key) && |Child(at, v.fields[j].key)| <= MAX_FIELD_PATH
      invariant WalkedKids(kids[..i], values0, present0, budget, values, present)
    {
      var k := v.fields[i].key;
      if !ValidField(k) || !NoDot(k) { return false, values, present; }
      var path := Child(at, k);
      if |path| > MAX_FIELD_PATH { return false, values, present; }
      assert kids[i] == Kid(path, v.fields[i].value);
      ok, values, present := Walk(v.fields[i].value, path, values, present, budget);
      if !ok { return; }
      WalkedStep(kids, i, values0, present0, budget);
    }
    assert kids[..|kids|] == kids;
    WalkedAllOk(kids, values0, present0, budget, values, present);
    ok := true;
  }

  method WalkItems(v: Value, at: Bytes, values0: seq<Item>, present0: set<Bytes>, budget: nat)
    returns (ok: bool, values: seq<Item>, present: set<Bytes>)
    requires v.Array?
    ensures ok <==> forall i | 0 <= i < |Kids(v, at)| :: WalkOk(Kids(v, at)[i].value, Kids(v, at)[i].at, budget)
    ensures ok ==> WalkedKids(Kids(v, at), values0, present0, budget, values, present)
    decreases budget, 0, 1
  {
    hide Values, Presents, WalkOk, WalkedKids;
    values, present := values0, present0;
    ghost var kids := Kids(v, at);
    WalkedNothing(values0, present0, budget);
    assert kids[..0] == [];
    for i := 0 to |v.items|
      invariant WalkedKids(kids[..i], values0, present0, budget, values, present)
    {
      assert kids[i] == Kid(at, v.items[i]);
      ok, values, present := Walk(v.items[i], at, values, present, budget);
      if !ok { return; }
      WalkedStep(kids, i, values0, present0, budget);
    }
    assert kids[..|kids|] == kids;
    WalkedAllOk(kids, values0, present0, budget, values, present);
    ok := true;
  }

  lemma WalkedNothing(values0: seq<Item>, present0: set<Bytes>, budget: nat)
    ensures WalkedKids([], values0, present0, budget, values0, present0)
  {
  }

  lemma WalkedAllOk(kids: seq<Kid>, values0: seq<Item>, present0: set<Bytes>, budget: nat, values: seq<Item>, present: set<Bytes>)
    requires WalkedKids(kids, values0, present0, budget, values, present)
    ensures forall i | 0 <= i < |kids| :: WalkOk(kids[i].value, kids[i].at, budget)
  {
  }

  /** What the walk has gathered from the children it has visited. */
  ghost predicate WalkedKids(kids: seq<Kid>, values0: seq<Item>, present0: set<Bytes>, budget: nat, values: seq<Item>, present: set<Bytes>) {
    && values == values0 + ValuesAll(kids, budget) && present == present0 + PresentsAll(kids, budget)
    && forall i | 0 <= i < |kids| :: WalkOk(kids[i].value, kids[i].at, budget)
  }

  lemma WalkedStep(kids: seq<Kid>, i: nat, values0: seq<Item>, present0: set<Bytes>, budget: nat)
    requires i < |kids| && WalkOk(kids[i].value, kids[i].at, budget)
    ensures forall vs, ps | WalkedKids(kids[..i], values0, present0, budget, vs, ps) ::
              WalkedKids(kids[..i + 1], values0, present0, budget,
                         vs + Values(kids[i].value, kids[i].at, budget), ps + Presents(kids[i].value, kids[i].at, budget))
  {
    hide Values, Presents, WalkOk;
    var a, b := kids[..i], kids[..i + 1];
    assert b[..i] == a && b[i] == kids[i];
    assert ValuesAll(b, budget) == ValuesAll(a, budget) + Values(kids[i].value, kids[i].at, budget);
    assert PresentsAll(b, budget) == PresentsAll(a, budget) + Presents(kids[i].value, kids[i].at, budget);
    forall vs, ps | WalkedKids(a, values0, present0, budget, vs, ps)
      ensures WalkedKids(b, values0, present0, budget,
                         vs + Values(kids[i].value, kids[i].at, budget), ps + Presents(kids[i].value, kids[i].at, budget))
    {
      forall j | 0 <= j < |b| ensures WalkOk(b[j].value, b[j].at, budget) { if j < i { assert b[j] == a[j]; } }
    }
  }

  datatype Flat = Flat(pairs: set<(Bytes, Bytes)>, present: set<Bytes>)

  function PairsOf(values: seq<Item>): set<(Bytes, Bytes)>
    requires forall i | 0 <= i < |values| :: WellFormed(values[i].scalar)
  {
    if values == [] then {}
    else PairsOf(values[..|values| - 1]) + {(values[|values| - 1].at, Encode(values[|values| - 1].scalar))}
  }

  lemma {:induction false} PairsOfMember(values: seq<Item>, p: (Bytes, Bytes))
    requires forall i | 0 <= i < |values| :: WellFormed(values[i].scalar)
    ensures p in PairsOf(values) <==> exists x :: x in values && WellFormed(x.scalar) && p == (x.at, Encode(x.scalar))
  {
    hide Encode, WellFormed;
    if values != [] {
      var n := |values| - 1;
      PairsOfMember(values[..n], p);
      assert forall x :: x in values <==> x in values[..n] || x == values[n];
    }
  }

  /** Flattens metadata; `None` when a key, a path, the depth or the number of
      distinct entries is over a limit. */
  method Flatten(meta: Value) returns (r: Option<Flat>)
    requires Proper(meta)
    ensures r.Some? <==> FlattenOk(meta)
    ensures r.Some? ==> r.value == Flat(Pairs(meta), PresentsOf(meta))
  {
    hide WalkOk, Values, Presents, Encode;
    var ok, values, present := Walk(meta, [], [], {}, MAX_DEPTH);
    if !ok { return None; }
    assert values == Values(meta, [], MAX_DEPTH);
    forall i | 0 <= i < |values| ensures WellFormed(values[i].scalar) { ItemWellFormed(meta, [], MAX_DEPTH, values[i]); }
    var pairs: set<(Bytes, Bytes)> := {};
    for i := 0 to |values|
      invariant pairs == PairsOf(values[..i])
    {
      assert values[..i + 1][..i] == values[..i];
      pairs := pairs + {(values[i].at, Encode(values[i].scalar))};
    }
    assert values[..|values|] == values;
    assert pairs == Pairs(meta) by { ListedPairs(meta, values); }
    if |pairs| + |present| > MAX_INDEXED_VALUES { return None; }
    r := Some(Flat(pairs, present));
  }

  lemma ListedPairs(meta: Value, values: seq<Item>)
    requires values == Values(meta, [], MAX_DEPTH) && forall i | 0 <= i < |values| :: WellFormed(values[i].scalar)
    ensures PairsOf(values) == Pairs(meta)
  {
    hide Values, Encode, WellFormed;
    forall p ensures p in PairsOf(values) <==> p in Pairs(meta) {
      PairsOfMember(values, p);
      if p in PairsOf(values) {
        var x :| x in values && WellFormed(x.scalar) && p == (x.at, Encode(x.scalar));
        assert x in ItemsOf(meta);
      }
      if p in Pairs(meta) {
        var x :| x in ItemsOf(meta) && p == (x.at, Encode(x.scalar));
        assert x in values && WellFormed(x.scalar);
      }
    }
  }

  // ---- staging one document ------------------------------------------------

  function MarkAll(keys: set<Bytes>): Db {
    map k | k in keys :: Mark
  }

  function Dropped(db: Db, id: Bytes, meta: Value): Db {
    db - IndexKeys(meta, id) - {DocKey(id), IdKey(id)}
  }

  function Added(db: Db, id: Bytes, meta: Value): Db {
    db[DocKey(id) := Record(meta)][IdKey(id) := Mark] + MarkAll(IndexKeys(meta, id))
  }

  lemma IndexKeysAreMeta(meta: Value, id: Bytes)
    requires WalkOk(meta, [], MAX_DEPTH)
    ensures MetaKeysOf(IndexKeys(meta, id), id)
  {
    hide IndexKeys, KeyId, WalkOk;
    forall k | k in IndexKeys(meta, id) ensures k != [] && k[0] == META && KeyId(k) == id { KeyOwner(meta, id, k); }
  }

  lemma GoodOne(docs: Docs, id: Bytes)
    requires GoodDocs(docs) && id in docs
    ensures GoodMeta(docs[id]) && WalkOk(docs[id], [], MAX_DEPTH)
  {
    hide Proper, WalkOk, Pairs, PresentsOf;
  }

  ghost predicate MetaKeysOf(keys: set<Bytes>, id: Bytes) {
    forall k | k in keys :: k != [] && k[0] == META && KeyId(k) == id
  }

  lemma DropRecords(db: Db, docs: Docs, id: Bytes, keys: set<Bytes>)
    requires RecordsOk(db, docs) && MetaKeysOf(keys, id)
    ensures RecordsOk(db - keys - {DocKey(id), IdKey(id)}, docs - {id})
  {
    hide KeyId;
    var db', docs' := db - keys - {DocKey(id), IdKey(id)}, docs - {id};
    forall k | k in db' && k != [] && k[0] == DOC ensures k[1..] in docs' { assert k == DocKey(k[1..]); }
  }

  lemma DropIds(db: Db, docs: Docs, id: Bytes, keys: set<Bytes>)
    requires IdsListed(db, docs) && MetaKeysOf(keys, id)
    ensures IdsListed(db - keys - {DocKey(id), IdKey(id)}, docs - {id})
  {
    hide KeyId;
    var db', docs' := db - keys - {DocKey(id), IdKey(id)}, docs - {id};
    forall k | k in db' && k != [] && k[0] == IDS ensures k[1..] in docs' { assert k == IdKey(k[1..]); }
  }

  lemma DropMeta(db: Db, docs: Docs, id: Bytes)
    requires MetaOk(db, docs) && id in docs && MetaKeysOf(IndexKeys(docs[id], id), id)
    ensures MetaOk(Dropped(db, id, docs[id]), docs - {id})
  {
    hide KeyId, IndexKeys;
  }

  lemma DropKeepsIndex(db: Db, docs: Docs, id: Bytes)
    requires IndexOk(db, docs) && id in docs
    ensures IndexOk(Dropped(db, id, docs[id]), docs - {id})
  {
    GoodOne(docs, id);
    IndexKeysAreMeta(docs[id], id);
    assert GoodDocs(docs - {id}) by { hide RecordsOk, IdsListed, MetaOk, GoodMeta, ValidId, IndexKeys; }
    hide GoodDocs, IndexKeys, KeyId, RecordsOk, IdsListed, MetaOk;
    DropRecords(db, docs, id, IndexKeys(docs[id], id));
    DropIds(db, docs, id, IndexKeys(docs[id], id));
    DropMeta(db, docs, id);
  }

  lemma AddRecords(db: Db, docs: Docs, id: Bytes, meta: Value, keys: set<Bytes>)
    requires RecordsOk(db, docs) && MetaKeysOf(keys, id)
    ensures RecordsOk(db[DocKey(id) := Record(meta)][IdKey(id) := Mark] + MarkAll(keys), docs[id := meta])
  {
    hide KeyId;
    var db', docs' := db[DocKey(id) := Record(meta)][IdKey(id) := Mark] + MarkAll(keys), docs[id := meta];
    forall x | x in docs' ensures DocKey(x) in db' && db'[DocKey(x)] == Record(docs'[x]) {
      assert DocKey(x)[1..] == x && DocKey(id)[1..] == id && DocKey(x)[0] == DOC && IdKey(id)[0] == IDS;
    }
    forall k | k in db' && k != [] && k[0] == DOC ensures k[1..] in docs' { assert k == DocKey(k[1..]); }
  }

  lemma AddIds(db: Db, docs: Docs, id: Bytes, meta: Value, keys: set<Bytes>)
    requires IdsListed(db, docs) && MetaKeysOf(keys, id)
    ensures IdsListed(db[DocKey(id) := Record(meta)][IdKey(id) := Mark] + MarkAll(keys), docs[id := meta])
  {
    hide KeyId;
    var db', docs' := db[DocKey(id) := Record(meta)][IdKey(id) := Mark] + MarkAll(keys), docs[id := meta];
    forall k | k in db' && k != [] && k[0] == IDS ensures k[1..] in docs' { assert k == IdKey(k[1..]); }
  }

  lemma AddMeta(db: Db, docs: Docs, id: Bytes, meta: Value)
    requires MetaOk(db, docs) && id !in docs && MetaKeysOf(IndexKeys(meta, id), id)
    ensures MetaOk(Added(db, id, meta), docs[id := meta])
  {
    hide KeyId, IndexKeys;
  }

  lemma AddKeepsIndex(db: Db, docs: Docs, id: Bytes, meta: Value)
    requires IndexOk(db, docs) && id !in docs && ValidId(id) && GoodMeta(meta)
    ensures IndexOk(Added(db, id, meta), docs[id := meta])
  {
    hide GoodMeta, ValidId, IndexKeys, KeyId, RecordsOk, IdsListed, MetaOk, MetaKeysOf;
    assert WalkOk(meta, [], MAX_DEPTH) by { GoodWalk(meta); }
    IndexKeysAreMeta(meta, id);
    assert GoodDocs(docs[id := meta]);
    hide GoodDocs;
    AddRecords(db, docs, id, meta, IndexKeys(meta, id));
    AddIds(db, docs, id, meta, IndexKeys(meta, id));
    AddMeta(db, docs, id, meta);
  }

  lemma GoodWalk(meta: Value)
    requires GoodMeta(meta)
    ensures WalkOk(meta, [], MAX_DEPTH)
  {
    hide WalkOk, Proper;
  }

  /** Replacing a document in place is removing it and adding the new one. */
  lemma ReplaceIsDropAdd(db: Db, id: Bytes, old_: Value, meta: Value)
    ensures Added(db - IndexKeys(old_, id), id, meta) == Added(Dropped(db, id, old_), id, meta)
  {
    hide IndexKeys;
  }

  lemma ReplaceKeepsIndex(db: Db, docs: Docs, id: Bytes, meta: Value)
    requires IndexOk(db, docs) && ValidId(id) && GoodMeta(meta) && id in docs
    ensures IndexOk(Added(db - IndexKeys(docs[id], id), id, meta), docs[id := meta])
  {
    hide IndexOk, ValidId, GoodMeta, Added, Dropped;
    DropKeepsIndex(db, docs, id);
    AddKeepsIndex(Dropped(db, id, docs[id]), docs - {id}, id, meta);
    ReplaceIsDropAdd(db, id, docs[id], meta);
    assert (docs - {id})[id := meta] == docs[id := meta];
  }

  lemma StatsKeepsIndex(db: Db, docs: Docs, n: nat)
    requires IndexOk(db, docs)
    ensures IndexOk(db[STATS_KEY := Stats(n)], docs)
  {
    hide IndexOf, GoodDocs;
  }

  function Counter(db: Db): nat {
    if STATS_KEY in db && db[STATS_KEY].Stats? then db[STATS_KEY].docs else 0
  }

  // ---- batches -------------------------------------------------------------

  datatype Document = Document(id: Bytes, metadata: Value)

  predicate Acceptable(d: Document) {
    ValidId(d.id) && IsDocument(d.metadata) && FlattenOk(d.metadata)
  }

  /** The documents after a batch of upserts; the last version of an id wins. */
  function Upserted(docs: Docs, batch: seq<Document>): Docs {
    if batch == [] then docs
    else Upserted(docs, batch[..|batch| - 1])[batch[|batch| - 1].id := batch[|batch| - 1].metadata]
  }

  function Deleted(docs: Docs, ids: seq<Bytes>): Docs {
    if ids == [] then docs else Deleted(docs, ids[..|ids| - 1]) - {ids[|ids| - 1]}
  }

  /** No later document of the batch has the same id. */
  predicate LastOfItsId(batch: seq<Document>, i: nat)
    requires i < |batch|
  {
    forall j | i < j < |batch| :: batch[j].id != batch[i].id
  }

  predicate Names(batch: seq<Document>, id: Bytes) {
    exists i :: 0 <= i < |batch| && batch[i].id == id
  }

  /** `now` is `was` with the batch's last version of each id, and nothing else changed. */
  ghost predicate Replaces(was: Docs, now: Docs, batch: seq<Document>) {
    && (forall id :: id in now <==> id in was || Names(batch, id))
    && (forall i: nat | i < |batch| && LastOfItsId(batch, i) :: batch[i].id in now && now[batch[i].id] == batch[i].metadata)
    && (forall id | id in was && !Names(batch, id) :: id in now && now[id] == was[id])
  }

  lemma {:induction false} UpsertedReplaces(docs: Docs, batch: seq<Document>)
    ensures Replaces(docs, Upserted(docs, batch), batch)
  {
    if batch != [] {
      var n := |batch| - 1;
      var most, last := batch[..n], batch[n];
      UpsertedReplaces(docs, most);
      forall id ensures Names(batch, id) <==> Names(most, id) || id == last.id { NamesLast(batch, id); }
      var now := Upserted(docs, batch);
      forall i: nat | i < |batch| && LastOfItsId(batch, i) ensures batch[i].id in now && now[batch[i].id] == batch[i].metadata {
        if i < n {
          assert batch[n].id != batch[i].id;
          assert LastOfItsId(most, i) && most[i] == batch[i];
        }
      }
    }
  }

  lemma NamesLast(batch: seq<Document>, id: Bytes)
    requires batch != []
    ensures Names(batch, id) <==> Names(batch[..|batch| - 1], id) || id == batch[|batch| - 1].id
  {
    var n := |batch| - 1;
    if Names(batch, id) {
      var i :| 0 <= i < |batch| && batch[i].id == id;
      if i < n { assert batch[..n][i].id == id; }
    }
    if Names(batch[..n], id) {
      var i :| 0 <= i < n && batch[..n][i].id == id;
      assert batch[i].id == id;
    }
    if id == batch[n].id { assert 0 <= n < |batch| && batch[n].id == id; }
  }

  lemma {:induction false} DeletedRemoves(docs: Docs, ids: seq<Bytes>)
    ensures Deleted(docs, ids) == docs - set id | id in ids
  {
    if ids != [] {
      var n := |ids| - 1;
      DeletedRemoves(docs, ids[..n]);
      assert (set id | id in ids) == (set id | id in ids[..n]) + {ids[n]};
    }
  }

  lemma RecordPresent(db: Db, docs: Docs, id: Bytes)
    requires IndexOk(db, docs)
    ensures DocKey(id) in db <==> id in docs
    ensures id in docs ==> db[DocKey(id)] == Record(docs[id])
  {
    hide GoodDocs, IdsListed, MetaOk;
    if DocKey(id) in db { assert DocKey(id)[1..] == id; }
  }

  /** Stages one document into a transaction's view of the store. */
  method Stage(staged: Db, ghost held: Docs, count: nat, d: Document, flat: Flat) returns (next: Db, n: nat)
    requires IndexOk(staged, held) && count == |held| && Acceptable(d) && Proper(d.metadata)
    requires flat == Flat(Pairs(d.metadata), PresentsOf(d.metadata))
    ensures IndexOk(next, held[d.id := d.metadata]) && n == |held[d.id := d.metadata]|
  {
    hide IndexOk, ValidId, FlattenOk, Pairs, PresentsOf;
    RecordPresent(staged, held, d.id);
    n := count;
    next := staged;
    if DocKey(d.id) in staged {
      next, n := Unindex(staged, held, count, d.id);
      ReplaceKeepsIndex(staged, held, d.id, d.metadata);
    } else {
      AddKeepsIndex(staged, held, d.id, d.metadata);
    }
    next := next[DocKey(d.id) := Record(d.metadata)][IdKey(d.id) := Mark];
    var values := set p | p in flat.pairs :: Base(p.0) + (p.1 + d.id);
    var presences := set q | q in flat.present :: PresentKey(q, d.id);
    next := next + MarkAll(values + presences);
    n := n + 1;
  }

  /** Removes the index entries of the stored version of a document. */
  method Unindex(staged: Db, ghost held: Docs, count: nat, id: Bytes) returns (next: Db, n: nat)
    requires IndexOk(staged, held) && count == |held| && id in held
    ensures next == staged - IndexKeys(held[id], id) && n + 1 == count
  {
    hide IndexOk, Pairs, PresentsOf, FlattenOk, Proper;
    RecordPresent(staged, held, id);
    var stored := staged[DocKey(id)].metadata;
    assert GoodMeta(stored) by { StoredGood(staged, held, id); }
    var flat := Flatten(stored);
    var values := set p | p in flat.value.pairs :: Base(p.0) + (p.1 + id);
    var presences := set q | q in flat.value.present :: PresentKey(q, id);
    next := staged - (values + presences);
    n := count - 1;
  }

  /** Stages the deletion of one document, if it exists. */
  method StageDelete(staged: Db, ghost held: Docs, count: nat, id: Bytes) returns (hit: bool, next: Db, n: nat)
    requires IndexOk(staged, held) && count == |held|
    ensures hit == (id in held) && IndexOk(next, held - {id}) && n == |held - {id}|
    ensures |held - {id}| == |held| - (if hit then 1 else 0)
  {
    hide IndexOk, IndexKeys;
    RecordPresent(staged, held, id);
    hit := DocKey(id) in staged;
    if !hit {
      assert held - {id} == held;
      return hit, staged, count;
    }
    next, n := Unindex(staged, held, count, id);
    DropKeepsIndex(staged, held, id);
    RemoveOne(held, id);
    next := next - {DocKey(id), IdKey(id)};
  }

  method StageDeletes(db: Db, ghost docs: Docs, before: nat, ids: seq<Bytes>) returns (removed: nat, staged: Db, count: nat)
    requires IndexOk(db, docs) && before == |docs|
    ensures IndexOk(staged, Deleted(docs, ids)) && count == |Deleted(docs, ids)| && removed + count == |docs|
  {
    hide IndexOk;
    staged, count, removed := db, before, 0;
    for i := 0 to |ids|
      invariant IndexOk(staged, Deleted(docs, ids[..i])) && count == |Deleted(docs, ids[..i])|
      invariant removed + count == |docs|
    {
      assert ids[..i + 1][..i] == ids[..i];
      ghost var held := Deleted(docs, ids[..i]);
      assert Deleted(docs, ids[..i + 1]) == held - {ids[i]};
      var hit, next, n := StageDelete(staged, held, count, ids[i]);
      staged, count := next, n;
      if hit { removed := removed + 1; }
    }
    assert ids[..|ids|] == ids;
  }

  /** A collection: its committed store and, for the statements, its documents. */
  class Documents {
    var db: Db
    ghost var docs: Docs

    ghost predicate Valid()
      reads this
    {
      IndexOk(db, docs) && Counter(db) == |docs|
    }

    constructor ()
      ensures Valid() && docs == map[]
    {
      db, docs := map[], map[];
    }

    /** Inserts or replaces documents: all of them, or none. */
    method Upsert(batch: seq<Document>) returns (ok: bool)
      requires Valid() && forall i | 0 <= i < |batch| :: Proper(batch[i].metadata)
      modifies this
      ensures Valid()
      ensures ok <==> forall i | 0 <= i < |batch| :: Acceptable(batch[i])
      ensures docs == if ok then Upserted(old(docs), batch) else old(docs)
      ensures ok ==> Replaces(old(docs), docs, batch)
    {
      UpsertedReplaces(docs, batch);
      hide Replaces;
      hide IndexOk, ValidId, FlattenOk, Proper, Pairs, PresentsOf;
      if batch == [] {
        assert Upserted(docs, batch) == docs;
        return true;
      }
      var flats: seq<Flat> := [];
      for i := 0 to |batch|
        invariant Valid() && db == old(db) && docs == old(docs)
        invariant |flats| == i && forall j | 0 <= j < i :: Acceptable(batch[j])
        invariant forall j | 0 <= j < i :: flats[j] == Flat(Pairs(batch[j].metadata), PresentsOf(batch[j].metadata))
      {
        if !ValidId(batch[i].id) || !IsDocument(batch[i].metadata) { return false; }
        var flat := Flatten(batch[i].metadata);
        if flat.None? { return false; }
        flats := flats + [flat.value];
      }
      var staged, count := db, Counter(db);
      ghost var held := docs;
      for i := 0 to |batch|
        invariant held == Upserted(docs, batch[..i])
        invariant IndexOk(staged, held) && count == |held|
        invariant db == old(db) && docs == old(docs)
      {
        assert batch[..i + 1][..i] == batch[..i];
        assert Acceptable(batch[i]) && Proper(batch[i].metadata);
        staged, count := Stage(staged, held, count, batch[i], flats[i]);
        held := held[batch[i].id := batch[i].metadata];
      }
      assert batch[..|batch|] == batch;
      StatsKeepsIndex(staged, held, count);
      db, docs := staged[STATS_KEY := Stats(count)], held;
      ok := true;
    }

    /** Deletes documents by id and reports how many existed. */
    method Delete(ids: seq<Bytes>) returns (removed: nat)
      requires Valid()
      modifies this
      ensures Valid() && docs == Deleted(old(docs), ids) && removed == |old(docs)| - |docs|
      ensures docs == old(docs) - set id | id in ids
    {
      DeletedRemoves(docs, ids);
      hide IndexOk, Deleted;
      var staged, count;
      removed, staged, count := StageDeletes(db, docs, Counter(db), ids);
      ghost var held := Deleted(docs, ids);
      StatsKeepsIndex(staged, held, count);
      db, docs := staged[STATS_KEY := Stats(count)], held;
    }

    /** Ids matching a filter: the reference semantics, read from the index. */
    method Find(f: Filter) returns (ids: set<Bytes>)
      requires Valid() && Parsed(f)
      ensures ids == Selected(docs, f)
    {
      hide IndexOk;
      var r, cache := Eval(db, docs, f, None);
      ids := r.value;
    }

    /** Number of documents, or of those matching a filter. */
    method Count(f: Option<Filter>) returns (n: nat)
      requires Valid() && (f.Some? ==> Parsed(f.value))
      ensures n == if f.Some? then |Selected(docs, f.value)| else |docs|
    {
      hide IndexOk, Matches;
      if f.None? || f.value.All? {
        AllSelects(docs);
        assert |docs.Keys| == |docs|;
        return Counter(db);
      }
      var ids := Find(f.value);
      n := |ids|;
    }
  }

  lemma RemoveOne(docs: Docs, id: Bytes)
    requires id in docs
    ensures |docs - {id}| == |docs| - 1
  {
    assert (docs - {id}).Keys == docs.Keys - {id};
    assert |docs.Keys| == |docs| && |(docs - {id}).Keys| == |docs - {id}|;
  }

  lemma StoredGood(db: Db, docs: Docs, id: Bytes)
    requires IndexOk(db, docs) && id in docs
    ensures GoodMeta(docs[id])
  {
    GoodOne(docs, id);
  }
}
