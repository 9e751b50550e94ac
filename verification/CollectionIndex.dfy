/** The metadata index inside the document store, and filter evaluation over it. */
module CollectionIndex {
  import opened Bytes
  import opened PageLayout
  import opened Wrappers
  import opened Scalar
  import opened Metadata
  import opened Filter

  /** What the store keeps under a key: a document record, counters, or nothing
      (index and id entries). */
  datatype Cell = Mark | Record(metadata: Value) | Stats(docs: nat)

  type Db = map<Bytes, Cell>
  type Docs = map<Bytes, Value>

  const MAX_INDEXED_VALUES: nat := 1024
  const STATS_KEY: Bytes := [0x10, 115, 116, 97, 116, 115]

  function DocKey(id: Bytes): Bytes { [DOC] + id }
  function IdKey(id: Bytes): Bytes { [IDS] + id }

  // ---- what one document indexes -------------------------------------------

  function ItemsOf(meta: Value): set<Item> {
    set x | x in Values(meta, [], MAX_DEPTH) && WellFormed(x.scalar)
  }

  function PresentsOf(meta: Value): set<Bytes> {
    Presents(meta, [], MAX_DEPTH)
  }

  /** Indexed values, one per path and encoding. */
  function Pairs(meta: Value): set<(Bytes, Bytes)> {
    set x | x in ItemsOf(meta) :: (x.at, Encode(x.scalar))
  }

  predicate FlattenOk(meta: Value) {
    WalkOk(meta, [], MAX_DEPTH) && |Pairs(meta)| + |PresentsOf(meta)| <= MAX_INDEXED_VALUES
  }

  function IndexKeys(meta: Value, id: Bytes): set<Bytes> {
    (set p | p in Pairs(meta) :: Base(p.0) + (p.1 + id)) + (set q | q in PresentsOf(meta) :: PresentKey(q, id))
  }

  /** Control characters, as UTF-8 bytes. */
  predicate HasControl(id: Bytes) {
    || (exists i :: 0 <= i < |id| && (id[i] < 0x20 || id[i] == 0x7F))
    || (exists i :: 0 <= i < |id| - 1 && id[i] == 0xC2 && 0x80 <= id[i + 1] < 0xA0)
  }

  predicate ValidId(id: Bytes) {
    1 <= |id| <= MAX_ID_LEN && !HasControl(id)
  }

  ghost predicate GoodMeta(meta: Value) {
    Proper(meta) && IsDocument(meta) && FlattenOk(meta)
  }

  lemma {:induction false} ItemPath(v: Value, at: Bytes, budget: nat, x: Item)
    requires WalkOk(v, at, budget) && |at| <= MAX_FIELD_PATH && 0 !in at && x in Values(v, at, budget)
    ensures ValidField(x.at) && Indexable(x.scalar)
    decreases budget
  {
    hide Indexable, Values, WalkOk, Kids;
    PositiveBudget(v, at, budget);
    if v.Leaf? {
      LeafValues(v, at, budget);
    } else {
      var i := ValueKid(v, at, budget, x);
      KidWalk(v, at, budget, i);
      KidPath(v, at, budget, i);
      ItemPath(Kids(v, at)[i].value, Kids(v, at)[i].at, budget - 1, x);
    }
  }

  /** Paths stay within the limit and free of NUL on the way down. */
  lemma KidPath(v: Value, at: Bytes, budget: nat, i: nat)
    requires WalkOk(v, at, budget) && |at| <= MAX_FIELD_PATH && 0 !in at && i < |Kids(v, at)|
    ensures |Kids(v, at)[i].at| <= MAX_FIELD_PATH && 0 !in Kids(v, at)[i].at
  {
  }

  lemma {:induction false} PresentPath(v: Value, at: Bytes, budget: nat, q: Bytes)
    requires WalkOk(v, at, budget) && |at| <= MAX_FIELD_PATH && 0 !in at && q in Presents(v, at, budget)
    ensures ValidField(q)
    decreases budget
  {
    hide Presents, WalkOk, Kids;
    PositiveBudget(v, at, budget);
    if !(at != [] && !v.Array? && q == at) {
      var i := PresentsKid(v, at, budget, q);
      KidWalk(v, at, budget, i);
      KidPath(v, at, budget, i);
      PresentPath(Kids(v, at)[i].value, Kids(v, at)[i].at, budget - 1, q);
    }
  }

  lemma {:induction false} ItemWellFormed(v: Value, at: Bytes, budget: nat, x: Item)
    requires Proper(v) && x in Values(v, at, budget)
    ensures WellFormed(x.scalar)
    decreases budget
  {
    hide WellFormed, Indexable, Values, Kids;
    if v.Leaf? {
      if budget > 0 { LeafValues(v, at, budget); } else { NoBudget(v, at); }
    } else {
      hide Proper;
      var i := ValueKid(v, at, budget, x);
      KidProper(v, at, i);
      ItemWellFormed(Kids(v, at)[i].value, Kids(v, at)[i].at, budget - 1, x);
    }
  }

  lemma NoBudget(v: Value, at: Bytes)
    ensures Values(v, at, 0) == []
  {
  }

  /** What an index key is: a value entry or a presence entry of a valid field. */
  lemma IndexKeyShape(meta: Value, id: Bytes, k: Bytes) returns (value: bool, x: Item)
    requires WalkOk(meta, [], MAX_DEPTH) && k in IndexKeys(meta, id)
    ensures ValidField(x.at)
    ensures value ==> x in ItemsOf(meta) && WellFormed(x.scalar) && Indexable(x.scalar) && k == ValueKey(x.at, x.scalar, id)
    ensures !value ==> x.at in PresentsOf(meta) && k == PresentKey(x.at, id)
  {
    hide Values, Presents, WalkOk, Encode, Indexable;
    if q :| q in PresentsOf(meta) && k == PresentKey(q, id) {
      value, x := false, Item(q, Null);
      PresentPath(meta, [], MAX_DEPTH, q);
    } else {
      var p :| p in Pairs(meta) && k == Base(p.0) + (p.1 + id);
      x :| x in ItemsOf(meta) && p == (x.at, Encode(x.scalar));
      value := true;
      ItemPath(meta, [], MAX_DEPTH, x);
    }
  }

  /** An index key names the document it belongs to. */
  lemma KeyOwner(meta: Value, id: Bytes, k: Bytes)
    requires WalkOk(meta, [], MAX_DEPTH) && k in IndexKeys(meta, id)
    ensures k != [] && k[0] == META && KeyId(k) == id
  {
    hide WalkOk, Encode, IndexKeys, KeyId;
    var value, x := IndexKeyShape(meta, id, k);
    if value { ValueKeyParts(x.at, x.scalar, id); } else { PresentKeyParts(x.at, id); }
  }

  /** Every index key fits the store's key limit. */
  lemma IndexKeyFits(meta: Value, id: Bytes, k: Bytes)
    requires WalkOk(meta, [], MAX_DEPTH) && ValidId(id) && k in IndexKeys(meta, id)
    ensures |k| <= MAX_KEY_SIZE
  {
    hide WalkOk, Encode, IndexKeys;
    var value, x := IndexKeyShape(meta, id, k);
    if value { EncodedLimit(x.scalar); }
  }

  // ---- the index invariant -------------------------------------------------

  ghost predicate IndexOf(docs: Docs, k: Bytes)
    requires k != []
  {
    KeyId(k) in docs && k in IndexKeys(docs[KeyId(k)], KeyId(k))
  }

  ghost predicate GoodDocs(docs: Docs) {
    forall id | id in docs :: ValidId(id) && GoodMeta(docs[id])
  }

  ghost predicate RecordsOk(db: Db, docs: Docs) {
    && (forall id | id in docs :: DocKey(id) in db && db[DocKey(id)] == Record(docs[id]))
    && (forall k | k in db && k != [] && k[0] == DOC :: k[1..] in docs)
  }

  ghost predicate IdsListed(db: Db, docs: Docs) {
    && (forall id | id in docs :: IdKey(id) in db)
    && (forall k | k in db && k != [] && k[0] == IDS :: k[1..] in docs)
  }

  ghost predicate MetaOk(db: Db, docs: Docs) {
    forall k: Bytes | k != [] && k[0] == META :: k in db <==> IndexOf(docs, k)
  }

  /** The store holds exactly the documents, their ids and their index entries. */
  ghost predicate IndexOk(db: Db, docs: Docs) {
    GoodDocs(docs) && RecordsOk(db, docs) && IdsListed(db, docs) && MetaOk(db, docs)
  }

  /** A metadata key in the store is one its document indexes. */
  lemma MetaKeyOwner(db: Db, docs: Docs, k: Bytes)
    requires IndexOk(db, docs) && k in db && k != [] && k[0] == META
    ensures KeyId(k) in docs && k in IndexKeys(docs[KeyId(k)], KeyId(k)) && GoodMeta(docs[KeyId(k)])
  {
    hide KeyId, IndexKeys, GoodMeta, ValidId, RecordsOk, IdsListed;
    assert IndexOf(docs, k);
  }

  /** What a document indexes is in the store. */
  lemma IndexedInStore(db: Db, docs: Docs, id: Bytes, k: Bytes)
    requires IndexOk(db, docs) && id in docs && k in IndexKeys(docs[id], id)
    ensures k in db && k != [] && KeyId(k) == id
  {
    hide KeyId, IndexKeys, ValidId, RecordsOk, IdsListed, Proper, WalkOk;
    assert GoodMeta(docs[id]);
    KeyOwner(docs[id], id, k);
    assert IndexOf(docs, k);
  }

  // ---- comparisons as key ranges -------------------------------------------

  /** Equality, or one of the range operators. */
  datatype Comparison = IsEqual | Ordered(op: RangeOp)

  predicate Holds(c: Comparison, x: Scalar, v: Scalar) {
    match c
    case IsEqual => Compare(x, v) == Some(Equal)
    case Ordered(op) => OpHolds(op, Compare(x, v))
  }

  function KeyBounds(c: Comparison, v: Scalar): (Bytes, Bytes)
    requires WellFormed(v)
  {
    match c
    case IsEqual =>
      var next := Successor(Encode(v));
      (Encode(v), if next.Some? then next.value else Encode(v))
    case Ordered(op) => Bounds(op, v)
  }

  lemma BoundsSelect(c: Comparison, s: Scalar, v: Scalar, id: Bytes)
    requires WellFormed(s) && WellFormed(v)
    ensures Within(Encode(s) + id, KeyBounds(c, v).0, KeyBounds(c, v).1) <==> Holds(c, s, v)
  {
    hide Encode, Compare, Less, AtMost, Bounds;
    match c
    case IsEqual => EntryPosition(s, v, id);
    case Ordered(op) => RangeSelects(op, s, v, id);
  }

  /** Presence entries sort below every value. */
  lemma PresenceBelow(c: Comparison, v: Scalar, id: Bytes)
    requires WellFormed(v)
    ensures !Within([PRESENT] + id, KeyBounds(c, v).0, KeyBounds(c, v).1)
  {
    hide Encode, Successor, Less, AtMost, Compare;
    FirstByte(v);
    EntryPosition(v, v, []);
    var x, e := [PRESENT] + id, Encode(v);
    FirstByteLess(x, e);
    var after := Successor(e).value;
    LessThenAtMost(x, e, after);
    NotBelow(x, e);
    NotBelow(x, after);
    FirstByteLess(x, [Tag(v)]);
    NotBelow(x, [Tag(v)]);
  }

  ghost predicate Satisfies(meta: Value, field: Bytes, c: Comparison, v: Scalar) {
    exists x :: x in ValuesAt(meta, field) && Holds(c, x, v)
  }

  function KeyLo(field: Bytes, c: Comparison, v: Scalar): Bytes
    requires WellFormed(v)
  {
    Base(field) + KeyBounds(c, v).0
  }

  function KeyHi(field: Bytes, c: Comparison, v: Scalar): Bytes
    requires WellFormed(v)
  {
    Base(field) + KeyBounds(c, v).1
  }

  lemma SamePrefixWithin(p: Bytes, x: Bytes, lo: Bytes, hi: Bytes)
    ensures Within(p + x, p + lo, p + hi) <==> Within(x, lo, hi)
  {
    hide Less;
    LessSamePrefix(p, lo, x);
    LessSamePrefix(p, x, hi);
    if p + lo == p + x { assert lo == (p + lo)[|p|..] == (p + x)[|p|..] == x; }
  }

  /** A key the scan meets is a value entry of the field, and its document
      satisfies the comparison. */
  lemma ScannedKey(db: Db, docs: Docs, field: Bytes, c: Comparison, v: Scalar, k: Bytes)
    requires IndexOk(db, docs) && ValidField(field) && WellFormed(v)
    requires k in db && Within(k, KeyLo(field, c, v), KeyHi(field, c, v))
    ensures IsPrefix(Base(field), k) && KeyId(k) in docs && Satisfies(docs[KeyId(k)], field, c, v)
    ensures var rest := k[|Base(field)|..];
            EncodedEnd(rest).Some? && EncodedEnd(rest).value <= |rest| && KeyId(k) == rest[EncodedEnd(rest).value..]
  {
    assert IsPrefix(Base(field), k) by { BetweenContinues(Base(field), KeyBounds(c, v).0, KeyBounds(c, v).1, k); }
    UnderBase(field, k);
    var id, rest := KeyId(k), KeyRest(k);
    MetaKeyOwner(db, docs, k);
    hide IndexOk, IndexKeys, KeyId, KeyField, KeyRest, WalkOk, Encode, KeyBounds, Within, Base;
    SamePrefixWithin(Base(field), rest, KeyBounds(c, v).0, KeyBounds(c, v).1);
    var value, x := IndexKeyShape(docs[id], id, k);
    if value {
      ValueKeyParts(x.at, x.scalar, id);
      BoundsSelect(c, x.scalar, v, id);
      EncodedEndFound(x.scalar, id);
      ItemReached(docs[id], field, x.scalar);
    } else {
      PresentKeyParts(x.at, id);
      PresenceBelow(c, v, id);
    }
  }

  lemma ItemReached(meta: Value, field: Bytes, s: Scalar)
    requires GoodMeta(meta) && ValidField(field)
    ensures Item(field, s) in ItemsOf(meta) <==> s in ValuesAt(meta, field)
  {
    hide Values, Collected, Split, WalkOk, Proper, Presents;
    FlattenAgrees(meta, field, s);
    if Item(field, s) in Values(meta, [], MAX_DEPTH) { ItemWellFormed(meta, [], MAX_DEPTH, Item(field, s)); }
  }

  /** A document that satisfies the comparison has a key in the range. */
  lemma KeyForMatch(db: Db, docs: Docs, field: Bytes, c: Comparison, v: Scalar, id: Bytes) returns (k: Bytes)
    requires IndexOk(db, docs) && ValidField(field) && WellFormed(v)
    requires id in docs && Satisfies(docs[id], field, c, v)
    ensures k in db && Within(k, KeyLo(field, c, v), KeyHi(field, c, v)) && k != [] && KeyId(k) == id
  {
    var s :| s in ValuesAt(docs[id], field) && Holds(c, s, v);
    var meta := docs[id];
    assert GoodMeta(meta) by { hide GoodMeta, RecordsOk, IdsListed, MetaOk, ValidId; }
    hide IndexOk;
    ItemReached(meta, field, s);
    var x := Item(field, s);
    assert x in ItemsOf(meta) && WellFormed(s);
    k := ValueKey(field, s, id);
    assert (field, Encode(s)) in Pairs(meta);
    assert k in IndexKeys(meta, id);
    hide IndexKeys, KeyId, Encode, KeyBounds, Within, Holds, GoodMeta, ValuesAt;
    IndexedInStore(db, docs, id, k);
    BoundsSelect(c, s, v, id);
    SamePrefixWithin(Base(field), Encode(s) + id, KeyBounds(c, v).0, KeyBounds(c, v).1);
  }

  // ---- scanning ------------------------------------------------------------

  function Scanned(db: Db, lo: Bytes, hi: Bytes): set<Bytes> {
    set k | k in db && Within(k, lo, hi)
  }

  ghost function Matching(docs: Docs, field: Bytes, c: Comparison, v: Scalar): set<Bytes> {
    set id | id in docs && Satisfies(docs[id], field, c, v)
  }

  function Suffix(k: Bytes, n: nat): Bytes {
    if n <= |k| then k[n..] else []
  }

  /** What follows the first `n` bytes of each key. */
  function Suffixes(keys: seq<Bytes>, n: nat): set<Bytes> {
    if keys == [] then {} else Suffixes(keys[..|keys| - 1], n) + {Suffix(keys[|keys| - 1], n)}
  }

  /** The id after an encoded value. */
  function IdAfter(rest: Bytes): Bytes {
    var n := EncodedEnd(rest);
    if n.Some? then Suffix(rest, n.value) else []
  }

  function DecodedIds(keys: seq<Bytes>, n: nat): set<Bytes> {
    if keys == [] then {} else DecodedIds(keys[..|keys| - 1], n) + {IdAfter(Suffix(keys[|keys| - 1], n))}
  }

  lemma {:induction false} SuffixesMember(keys: seq<Bytes>, n: nat, id: Bytes)
    ensures id in Suffixes(keys, n) <==> exists k :: k in keys && Suffix(k, n) == id
  {
    hide Suffix;
    if keys != [] {
      SuffixesMember(keys[..|keys| - 1], n, id);
      assert forall k :: k in keys <==> k in keys[..|keys| - 1] || k == keys[|keys| - 1];
    }
  }

  lemma {:induction false} DecodedIdsMember(keys: seq<Bytes>, n: nat, id: Bytes)
    ensures id in DecodedIds(keys, n) <==> exists k :: k in keys && IdAfter(Suffix(k, n)) == id
  {
    hide IdAfter, Suffix;
    if keys != [] {
      DecodedIdsMember(keys[..|keys| - 1], n, id);
      assert forall k :: k in keys <==> k in keys[..|keys| - 1] || k == keys[|keys| - 1];
    }
  }

  /** Ids behind the keys in a range; `None` reports a malformed key. */
  method IdsInRange(db: Db, field: Bytes, lo: Bytes, hi: Bytes) returns (r: Option<set<Bytes>>, ghost keys: seq<Bytes>)
    ensures forall k :: k in keys <==> k in Scanned(db, lo, hi)
    ensures r == if forall i | 0 <= i < |keys| :: EncodedEnd(Suffix(keys[i], |Base(field)|)).Some?
                 then Some(DecodedIds(keys, |Base(field)|)) else None
  {
    hide EncodedEnd, Within;
    var n := |Base(field)|;
    var found := InOrder(Scanned(db, lo, hi));
    keys := found;
    var ids: set<Bytes> := {};
    for i := 0 to |found|
      invariant forall j | 0 <= j < i :: EncodedEnd(Suffix(found[j], n)).Some?
      invariant ids == DecodedIds(found[..i], n)
    {
      assert found[..i + 1][..i] == found[..i];
      var suffix := Suffix(found[i], n);
      var end := EncodedLen(suffix);
      if end.None? { return None, found; }
      ids := ids + {suffix[end.value..]};
    }
    assert found[..|found|] == found;
    r := Some(ids);
  }

  /** One comparison, answered from the index. */
  method Compared(db: Db, ghost docs: Docs, field: Bytes, lo: Bytes, hi: Bytes, ghost c: Comparison, ghost v: Scalar)
    returns (r: Option<set<Bytes>>)
    requires IndexOk(db, docs) && ValidField(field) && WellFormed(v)
    requires lo == KeyLo(field, c, v) && hi == KeyHi(field, c, v)
    ensures r == Some(Matching(docs, field, c, v))
  {
    hide IndexOk, KeyBounds, Within, Satisfies, KeyId, EncodedEnd, IsPrefix, IdAfter, Suffix, DecodedIds;
    ghost var keys;
    r, keys := IdsInRange(db, field, lo, hi);
    forall k | k in keys
      ensures EncodedEnd(Suffix(k, |Base(field)|)).Some?
      ensures IdAfter(Suffix(k, |Base(field)|)) in Matching(docs, field, c, v)
      ensures k != [] && IdAfter(Suffix(k, |Base(field)|)) == KeyId(k)
    {
      ScannedDecodes(db, docs, field, c, v, k);
    }
    forall i | 0 <= i < |keys| ensures EncodedEnd(Suffix(keys[i], |Base(field)|)).Some? { assert keys[i] in keys; }
    forall id ensures id in DecodedIds(keys, |Base(field)|) <==> id in Matching(docs, field, c, v) {
      DecodedIdsMember(keys, |Base(field)|, id);
      if id in Matching(docs, field, c, v) {
        var k := KeyForMatch(db, docs, field, c, v, id);
        assert k in keys;
      }
    }
    assert DecodedIds(keys, |Base(field)|) == Matching(docs, field, c, v);
  }

  lemma AfterKey(field: Bytes, v: Scalar)
    requires WellFormed(v)
    ensures Successor(Encode(v)).Some? && Successor(Base(field) + Encode(v)) == Some(Base(field) + Successor(Encode(v)).value)
  {
    hide Successor, Encode;
    FirstByte(v);
    SuccessorOf(Base(field), Encode(v));
  }

  method IdsEq(db: Db, ghost docs: Docs, field: Bytes, v: Scalar) returns (r: Option<set<Bytes>>)
    requires IndexOk(db, docs) && ValidField(field) && WellFormed(v)
    ensures r == Some(Matching(docs, field, IsEqual, v))
  {
    hide IndexOk, Encode, Successor, Matching;
    var prefix := Base(field) + Encode(v);
    var end := PrefixSuccessor(prefix);
    AfterKey(field, v);
    r := Compared(db, docs, field, prefix, end.value, IsEqual, v);
  }

  method IdsOrdered(db: Db, ghost docs: Docs, field: Bytes, op: RangeOp, v: Scalar) returns (r: Option<set<Bytes>>)
    requires IndexOk(db, docs) && ValidField(field) && WellFormed(v)
    ensures r == Some(Matching(docs, field, Ordered(op), v))
  {
    hide IndexOk, Encode, Successor, Matching;
    var base := Base(field);
    var at := base + Encode(v);
    var next := PrefixSuccessor(at);
    AfterKey(field, v);
    var after := if next.Some? then next.value else at;
    var typeLo, typeHi := base + [Tag(v)], base + [Tag(v) + 1];
    var lo, hi := typeLo, typeHi;
    match op {
      case Gt => lo := after;
      case Gte => lo := at;
      case Lt => hi := at;
      case Lte => hi := after;
    }
    r := Compared(db, docs, field, lo, hi, Ordered(op), v);
  }

  lemma ScannedDecodes(db: Db, docs: Docs, field: Bytes, c: Comparison, v: Scalar, k: Bytes)
    requires IndexOk(db, docs) && ValidField(field) && WellFormed(v)
    requires k in Scanned(db, KeyLo(field, c, v), KeyHi(field, c, v))
    ensures EncodedEnd(Suffix(k, |Base(field)|)).Some?
    ensures k != [] && IdAfter(Suffix(k, |Base(field)|)) == KeyId(k)
    ensures IdAfter(Suffix(k, |Base(field)|)) in Matching(docs, field, c, v)
  {
    hide IndexOk, KeyBounds, Within, Satisfies, KeyId, EncodedEnd, KeyLo, KeyHi;
    ScannedKey(db, docs, field, c, v, k);
    assert |Base(field)| <= |k|;
  }

  /** Documents in which the field is present. */
  method IdsPresent(db: Db, ghost docs: Docs, field: Bytes) returns (ids: set<Bytes>)
    requires IndexOk(db, docs) && ValidField(field)
    ensures ids == set id | id in docs && Present(docs[id], Split(field), MAX_DEPTH)
  {
    hide IndexOk, Within, Present, Split, Successor, Suffix, Suffixes, KeyId;
    var prefix := Base(field) + [PRESENT];
    var next := PrefixSuccessor(prefix);
    assert next.Some? by { SuccessorOf(Base(field), [PRESENT]); }
    ghost var keys;
    ids, keys := ScanSuffixes(db, prefix, next.value, |prefix|);
    forall id ensures id in ids <==> id in docs && Present(docs[id], Split(field), MAX_DEPTH) {
      SuffixesMember(keys, |prefix|, id);
      if id in ids {
        var k :| k in keys && Suffix(k, |prefix|) == id;
        PresentScanned(db, docs, field, k);
      }
      if id in docs && Present(docs[id], Split(field), MAX_DEPTH) {
        PresentListed(db, docs, field, id);
      }
    }
  }

  /** Scans keys in a range, handing over what follows their first `strip` bytes. */
  method ScanSuffixes(db: Db, lo: Bytes, hi: Bytes, strip: nat) returns (r: set<Bytes>, ghost keys: seq<Bytes>)
    ensures forall k :: k in keys <==> k in Scanned(db, lo, hi)
    ensures r == Suffixes(keys, strip)
  {
    hide Within;
    var found := InOrder(Scanned(db, lo, hi));
    keys := found;
    r := {};
    for i := 0 to |found|
      invariant r == Suffixes(found[..i], strip)
    {
      assert found[..i + 1][..i] == found[..i];
      r := r + {Suffix(found[i], strip)};
    }
    assert found[..|found|] == found;
  }

  lemma PresentScanned(db: Db, docs: Docs, field: Bytes, k: Bytes)
    requires IndexOk(db, docs) && ValidField(field)
    requires Successor(Base(field) + [PRESENT]).Some?
    requires k in Scanned(db, Base(field) + [PRESENT], Successor(Base(field) + [PRESENT]).value)
    ensures var id := Suffix(k, |Base(field)| + 1);
            id in docs && Present(docs[id], Split(field), MAX_DEPTH)
  {
    hide IndexOk, Successor, Present, Split;
    var prefix := Base(field) + [PRESENT];
    SuccessorSelects(prefix, k);
    var id := k[|prefix|..];
    assert k == PresentKey(field, id);
    PresentKeyOwner(db, docs, field, id);
  }

  lemma PresentKeyOwner(db: Db, docs: Docs, field: Bytes, id: Bytes)
    requires IndexOk(db, docs) && ValidField(field) && PresentKey(field, id) in db
    ensures id in docs && Present(docs[id], Split(field), MAX_DEPTH)
  {
    hide IndexOk, IndexKeys, KeyId, KeyField, KeyRest, WalkOk, Encode, Presents, Present, Split, Proper;
    var k := PresentKey(field, id);
    PresentKeyParts(field, id);
    MetaKeyOwner(db, docs, k);
    var value, x := IndexKeyShape(docs[id], id, k);
    assert ([PRESENT] + id)[0] == PRESENT;
    if value {
      FirstByte(x.scalar);
      assert (Encode(x.scalar) + id)[0] == Tag(x.scalar);
      ValueKeyParts(x.at, x.scalar, id);
    } else {
      PresentKeyParts(x.at, id);
      PresenceAgrees(docs[id], field);
    }
  }

  lemma PresentListed(db: Db, docs: Docs, field: Bytes, id: Bytes)
    requires IndexOk(db, docs) && ValidField(field) && id in docs && Present(docs[id], Split(field), MAX_DEPTH)
    ensures var prefix := Base(field) + [PRESENT];
            && Successor(prefix).Some? && PresentKey(field, id) in Scanned(db, prefix, Successor(prefix).value)
            && Suffix(PresentKey(field, id), |prefix|) == id
  {
    hide IndexOk, Present, Split, Successor, Less;
    var k, prefix := PresentKey(field, id), Base(field) + [PRESENT];
    PresentKeyStored(db, docs, field, id);
    SuccessorOf(Base(field), [PRESENT]);
    assert k == prefix + id && k[..|prefix|] == prefix;
    SuccessorSelects(prefix, k);
  }

  lemma PresentKeyStored(db: Db, docs: Docs, field: Bytes, id: Bytes)
    requires IndexOk(db, docs) && ValidField(field) && id in docs && Present(docs[id], Split(field), MAX_DEPTH)
    ensures PresentKey(field, id) in db
  {
    hide Present, Split, Presents, WalkOk, KeyId, Proper, RecordsOk, IdsListed, MetaOk, ValidId;
    assert GoodMeta(docs[id]);
    hide IndexOk;
    PresenceAgrees(docs[id], field);
    assert field in PresentsOf(docs[id]) && PresentKey(field, id) in IndexKeys(docs[id], id);
    IndexedInStore(db, docs, id, PresentKey(field, id));
  }

  /** Every id in the collection. */
  method AllIds(db: Db, ghost docs: Docs) returns (ids: set<Bytes>)
    requires IndexOk(db, docs)
    ensures ids == docs.Keys
  {
    hide Within, Successor, GoodDocs, RecordsOk, MetaOk, Suffixes;
    var next := PrefixSuccessor([IDS]);
    OneByteSuccessor();
    ghost var keys;
    ids, keys := ScanSuffixes(db, [IDS], [IDS + 1], 1);
    forall id ensures id in ids <==> id in docs {
      SuffixesMember(keys, 1, id);
      if id in docs {
        IdPrefix(IdKey(id));
        assert IdKey(id) in keys && Suffix(IdKey(id), 1) == id;
      }
      if id in ids {
        var k :| k in keys && Suffix(k, 1) == id;
        IdPrefix(k);
      }
    }
  }

  lemma OneByteSuccessor()
    ensures Successor([IDS]) == Some([IDS + 1])
  {
    assert [IDS][..0] == [] && [] + [IDS + 1] == [IDS + 1];
  }

  lemma IdPrefix(k: Bytes)
    ensures Within(k, [IDS], [IDS + 1]) <==> k != [] && k[0] == IDS
  {
    OneByte(IDS, k);
  }
}
