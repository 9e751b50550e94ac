/** Documents with indexed metadata: filter evaluation over the index agrees with
    the reference semantics after any sequence of upserts and deletes. */
module Collection {
  import opened Bytes
  import opened Wrappers
  import opened Scalar
  import opened Metadata
  import opened Filter
  import opened CollectionIndex

  // ---- evaluation ----------------------------------------------------------

  /** The documents a filter selects, by its reference semantics. */
  ghost function Selected(docs: Docs, f: Filter): set<Bytes> {
    set id | id in docs && Matches(f, docs[id])
  }

  // Filters combine as sets of documents do.

  /** `And` starts from everything and narrows. */
  lemma AndNarrows(docs: Docs, fs: seq<Filter>, f: Filter)
    ensures Selected(docs, And([])) == docs.Keys == Selected(docs, All)
    ensures Selected(docs, And(fs + [f])) == Selected(docs, And(fs)) * Selected(docs, f)
  {
    forall id | id in docs { BothMatch(fs, f, docs[id]); }
    hide Matches;
  }

  /** `Or` starts from nothing and widens. */
  lemma OrWidens(docs: Docs, fs: seq<Filter>, f: Filter)
    ensures Selected(docs, Or([])) == {}
    ensures Selected(docs, Or(fs + [f])) == Selected(docs, Or(fs)) + Selected(docs, f)
  {
    forall id | id in docs { EitherMatches(fs, f, docs[id]); }
    hide Matches;
  }

  /** `In` is the union of its equalities. */
  lemma InWidens(docs: Docs, field: Bytes, vs: seq<Scalar>, v: Scalar)
    ensures Selected(docs, In(field, [])) == {}
    ensures Selected(docs, In(field, vs + [v])) == Selected(docs, In(field, vs)) + Selected(docs, Eq(field, v))
  {
    forall id | id in docs { OneListed(field, vs, v, docs[id]); }
    hide Matches;
  }

  /** The negative forms take exactly what the positive ones leave. */
  lemma NotTakesTheRest(docs: Docs, f: Filter, field: Bytes, v: Scalar, vs: seq<Scalar>)
    ensures Selected(docs, Not(f)) == docs.Keys - Selected(docs, f)
    ensures Selected(docs, Ne(field, v)) == docs.Keys - Selected(docs, Eq(field, v))
    ensures Selected(docs, Nin(field, vs)) == docs.Keys - Selected(docs, In(field, vs))
    ensures Selected(docs, Exists(field, false)) == docs.Keys - Selected(docs, Exists(field, true))
  {
    forall id | id in docs { Negations(docs[id], f, field, v, vs); }
    hide Matches;
  }

  lemma Negations(m: Value, f: Filter, field: Bytes, v: Scalar, vs: seq<Scalar>)
    ensures Matches(Not(f), m) == !Matches(f, m) && Matches(Ne(field, v), m) == !Matches(Eq(field, v), m)
    ensures Matches(Nin(field, vs), m) == !Matches(In(field, vs), m)
    ensures Matches(Exists(field, false), m) == !Matches(Exists(field, true), m)
  {
    hide AnyEqual, ValuesAt, Present, Split;
  }

  lemma BothMatch(fs: seq<Filter>, f: Filter, m: Value)
    ensures Matches(And([]), m) && Matches(All, m)
    ensures Matches(And(fs + [f]), m) <==> Matches(And(fs), m) && Matches(f, m)
  {
    var all := fs + [f];
    if Matches(And(all), m) {
      assert Matches(all[|fs|], m);
      forall i | 0 <= i < |fs| ensures Matches(fs[i], m) { assert all[i] == fs[i]; }
    }
  }

  lemma EitherMatches(fs: seq<Filter>, f: Filter, m: Value)
    ensures !Matches(Or([]), m)
    ensures Matches(Or(fs + [f]), m) <==> Matches(Or(fs), m) || Matches(f, m)
  {
    var all := fs + [f];
    if Matches(Or(fs), m) {
      var i :| 0 <= i < |fs| && Matches(fs[i], m);
      assert Matches(all[i], m);
    }
    if Matches(f, m) { assert Matches(all[|fs|], m); }
  }

  lemma OneListed(field: Bytes, vs: seq<Scalar>, v: Scalar, m: Value)
    ensures !Matches(In(field, []), m)
    ensures Matches(In(field, vs + [v]), m) <==> Matches(In(field, vs), m) || Matches(Eq(field, v), m)
  {
    hide AnyEqual, ValuesAt;
    var all, have := vs + [v], ValuesAt(m, field);
    if Matches(In(field, vs), m) {
      var i :| 0 <= i < |vs| && AnyEqual(have, vs[i]);
      assert AnyEqual(have, all[i]);
    }
    if Matches(Eq(field, v), m) { assert AnyEqual(have, all[|vs|]); }
  }

  lemma EqualSelects(docs: Docs, field: Bytes, v: Scalar)
    ensures Matching(docs, field, IsEqual, v) == Selected(docs, Eq(field, v))
    ensures docs.Keys - Matching(docs, field, IsEqual, v) == Selected(docs, Ne(field, v))
  {
    hide ValuesAt, Compare;
    forall id | id in docs ensures Satisfies(docs[id], field, IsEqual, v) <==> AnyEqual(ValuesAt(docs[id], field), v) {
      SatisfiesEqual(docs[id], field, v);
    }
  }

  lemma SatisfiesEqual(meta: Value, field: Bytes, v: Scalar)
    ensures Satisfies(meta, field, IsEqual, v) <==> AnyEqual(ValuesAt(meta, field), v)
  {
    hide ValuesAt, Compare;
    var have := ValuesAt(meta, field);
    if x :| x in have && Holds(IsEqual, x, v) {
      var i :| 0 <= i < |have| && have[i] == x;
    }
    if i :| 0 <= i < |have| && Compare(have[i], v) == Some(Equal) { assert Holds(IsEqual, have[i], v); }
  }

  lemma RangeMatches(docs: Docs, field: Bytes, op: RangeOp, v: Scalar)
    ensures Matching(docs, field, Ordered(op), v) == Selected(docs, Range(field, op, v))
  {
    hide ValuesAt, Compare, OpHolds;
    forall id | id in docs
      ensures Satisfies(docs[id], field, Ordered(op), v) <==> AnyInRange(ValuesAt(docs[id], field), op, v)
    {
      var have := ValuesAt(docs[id], field);
      if x :| x in have && Holds(Ordered(op), x, v) {
        var i :| 0 <= i < |have| && have[i] == x;
      }
      if i :| 0 <= i < |have| && OpHolds(op, Compare(have[i], v)) { assert Holds(Ordered(op), have[i], v); }
    }
  }

  ghost predicate Universe(docs: Docs, all: Option<set<Bytes>>) {
    all.Some? ==> all.value == docs.Keys
  }

  /** Every id, loaded at most once per evaluation. */
  method LoadUniverse(db: Db, ghost docs: Docs, all: Option<set<Bytes>>) returns (ids: set<Bytes>, cache: Option<set<Bytes>>)
    requires IndexOk(db, docs) && Universe(docs, all)
    ensures ids == docs.Keys && cache == Some(ids)
  {
    hide IndexOk;
    if all.None? {
      ids := AllIds(db, docs);
    } else {
      ids := all.value;
    }
    cache := Some(ids);
  }

  method EvalIn(db: Db, ghost docs: Docs, field: Bytes, vs: seq<Scalar>) returns (r: Option<set<Bytes>>)
    requires IndexOk(db, docs) && Parsed(In(field, vs))
    ensures r == Some(Selected(docs, In(field, vs)))
  {
    hide IndexOk, ValuesAt, AnyEqual;
    var out: set<Bytes> := {};
    for i := 0 to |vs|
      invariant out == Selected(docs, In(field, vs[..i]))
    {
      var ids := IdsEq(db, docs, field, vs[i]);
      if ids.None? { return None; }
      EqualSelects(docs, field, vs[i]);
      InStep(docs, field, vs, i);
      out := out + ids.value;
    }
    assert vs[..|vs|] == vs;
    r := Some(out);
  }

  lemma InStep(docs: Docs, field: Bytes, vs: seq<Scalar>, i: nat)
    requires i < |vs|
    ensures Selected(docs, In(field, vs[..i + 1])) == Selected(docs, In(field, vs[..i])) + Selected(docs, Eq(field, vs[i]))
  {
    hide ValuesAt, AnyEqual;
    forall id | id in docs
      ensures Matches(In(field, vs[..i + 1]), docs[id]) <==> Matches(In(field, vs[..i]), docs[id]) || Matches(Eq(field, vs[i]), docs[id])
    {
      OneMore(docs[id], field, vs, i);
    }
  }

  lemma OneMore(meta: Value, field: Bytes, vs: seq<Scalar>, i: nat)
    requires i < |vs|
    ensures Matches(In(field, vs[..i + 1]), meta) <==> Matches(In(field, vs[..i]), meta) || Matches(Eq(field, vs[i]), meta)
  {
    hide ValuesAt, AnyEqual;
    var have, a, b := ValuesAt(meta, field), vs[..i], vs[..i + 1];
    assert forall j | 0 <= j < i :: a[j] == b[j];
    assert b[i] == vs[i];
    if j :| 0 <= j < |a| && AnyEqual(have, a[j]) { assert AnyEqual(have, b[j]); }
    if j :| 0 <= j < |b| && AnyEqual(have, b[j]) {
      if j < i { assert AnyEqual(have, a[j]); }
    }
  }

  lemma AndStep(docs: Docs, fs: seq<Filter>, i: nat)
    requires i < |fs|
    ensures Selected(docs, And(fs[..i + 1])) == Selected(docs, And(fs[..i])) * Selected(docs, fs[i])
    ensures Selected(docs, Or(fs[..i + 1])) == Selected(docs, Or(fs[..i])) + Selected(docs, fs[i])
  {
    forall id | id in docs
      ensures Matches(And(fs[..i + 1]), docs[id]) <==> Matches(And(fs[..i]), docs[id]) && Matches(fs[i], docs[id])
      ensures Matches(Or(fs[..i + 1]), docs[id]) <==> Matches(Or(fs[..i]), docs[id]) || Matches(fs[i], docs[id])
    {
      Conjunct(fs, i, docs[id]);
    }
  }

  lemma Conjunct(fs: seq<Filter>, i: nat, meta: Value)
    requires i < |fs|
    ensures Matches(And(fs[..i + 1]), meta) <==> Matches(And(fs[..i]), meta) && Matches(fs[i], meta)
    ensures Matches(Or(fs[..i + 1]), meta) <==> Matches(Or(fs[..i]), meta) || Matches(fs[i], meta)
  {
    hide Matches;
    var a, b := fs[..i], fs[..i + 1];
    MatchesParts(a, meta);
    MatchesParts(b, meta);
    assert forall j | 0 <= j < i :: a[j] == b[j];
    assert b[i] == fs[i];
    if j :| 0 <= j < |a| && Matches(a[j], meta) { assert Matches(b[j], meta); }
    if j :| 0 <= j < |b| && Matches(b[j], meta) {
      if j < i { assert Matches(a[j], meta); }
    }
  }

  lemma MatchesParts(fs: seq<Filter>, meta: Value)
    ensures Matches(And(fs), meta) <==> forall i | 0 <= i < |fs| :: Matches(fs[i], meta)
    ensures Matches(Or(fs), meta) <==> exists i :: 0 <= i < |fs| && Matches(fs[i], meta)
  {
  }

  /** Once a conjunction is empty it stays empty. */
  lemma {:induction false} AndEmpty(docs: Docs, fs: seq<Filter>, i: nat)
    requires i <= |fs| && Selected(docs, And(fs[..i])) == {}
    ensures Selected(docs, And(fs)) == {}
    decreases |fs| - i
  {
    hide Selected;
    if i < |fs| {
      AndStep(docs, fs, i);
      AndEmpty(docs, fs, i + 1);
    } else {
      assert fs[..i] == fs;
    }
  }

  /** Evaluates a filter from the index: exactly the ids whose metadata match. */
  method Eval(db: Db, ghost docs: Docs, f: Filter, all: Option<set<Bytes>>)
    returns (r: Option<set<Bytes>>, cache: Option<set<Bytes>>)
    requires IndexOk(db, docs) && Parsed(f) && Universe(docs, all)
    ensures r == Some(Selected(docs, f)) && Universe(docs, cache)
    decreases f, 1
  {
    hide IndexOk, Selected, Matches, Present, Split, Matching;
    cache := all;
    match f {
      case All =>
        var ids;
        ids, cache := LoadUniverse(db, docs, all);
        r := Some(ids);
        AllSelects(docs);
      case Eq(field, v) =>
        r := IdsEq(db, docs, field, v);
        EqualSelects(docs, field, v);
      case Ne(field, v) =>
        var hit := IdsEq(db, docs, field, v);
        EqualSelects(docs, field, v);
        if hit.None? { return None, cache; }
        r, cache := Complement(db, docs, hit.value, cache);
      case Range(field, op, v) =>
        r := IdsOrdered(db, docs, field, op, v);
        RangeMatches(docs, field, op, v);
      case In(field, vs) =>
        r := EvalIn(db, docs, field, vs);
      case Nin(field, vs) =>
        var hit := EvalIn(db, docs, field, vs);
        if hit.None? { return None, cache; }
        r, cache := Complement(db, docs, hit.value, cache);
        NegationSelects(docs, In(field, vs), f);
      case Exists(field, want) =>
        var ids := IdsPresent(db, docs, field);
        ExistsSelects(docs, field, ids);
        if want { return Some(ids), cache; }
        r, cache := Complement(db, docs, ids, cache);
      case And(fs) => r, cache := EvalAnd(db, docs, f, cache);
      case Or(fs) => r, cache := EvalOr(db, docs, f, cache);
      case Not(g) =>
        var hit;
        hit, cache := Eval(db, docs, g, cache);
        if hit.None? { return None, cache; }
        r, cache := Complement(db, docs, hit.value, cache);
        NegationSelects(docs, g, f);
    }
  }

  lemma AllSelects(docs: Docs)
    ensures Selected(docs, All) == docs.Keys
  {
  }

  lemma ExistsSelects(docs: Docs, field: Bytes, ids: set<Bytes>)
    requires ids == set id | id in docs && Present(docs[id], Split(field), MAX_DEPTH)
    ensures ids == Selected(docs, Exists(field, true)) && docs.Keys - ids == Selected(docs, Exists(field, false))
  {
    hide Present, Split;
  }

  lemma NegationSelects(docs: Docs, g: Filter, f: Filter)
    requires (f.Not? && f.part == g) || (f.Nin? && g == In(f.field, f.values))
    ensures docs.Keys - Selected(docs, g) == Selected(docs, f)
  {
    forall id | id in docs ensures Matches(f, docs[id]) <==> !Matches(g, docs[id]) {
      if f.Nin? {
        hide ValuesAt, AnyEqual;
        assert Matches(f, docs[id]) <==> !Matches(In(f.field, f.values), docs[id]);
      }
    }
  }

  method Complement(db: Db, ghost docs: Docs, hit: set<Bytes>, all: Option<set<Bytes>>)
    returns (r: Option<set<Bytes>>, cache: Option<set<Bytes>>)
    requires IndexOk(db, docs) && Universe(docs, all)
    ensures r == Some(docs.Keys - hit) && Universe(docs, cache)
  {
    hide IndexOk;
    var ids;
    ids, cache := LoadUniverse(db, docs, all);
    r := Some(ids - hit);
  }

  method EvalAnd(db: Db, ghost docs: Docs, f: Filter, all: Option<set<Bytes>>)
    returns (r: Option<set<Bytes>>, cache: Option<set<Bytes>>)
    requires IndexOk(db, docs) && Parsed(f) && f.And? && Universe(docs, all)
    ensures r == Some(Selected(docs, f)) && Universe(docs, cache)
    decreases f, 0
  {
    hide IndexOk, Selected, Matches;
    var fs := f.parts;
    cache := all;
    if fs == [] {
      var ids;
      ids, cache := LoadUniverse(db, docs, all);
      EmptyAnd(docs);
      return Some(ids), cache;
    }
    var acc: Option<set<Bytes>> := None;
    EmptyAnd(docs);
    for i := 0 to |fs|
      invariant Universe(docs, cache) && (acc.None? <==> i == 0)
      invariant acc.Some? ==> acc.value == Selected(docs, And(fs[..i]))
    {
      var hit;
      hit, cache := Eval(db, docs, fs[i], cache);
      if hit.None? { return None, cache; }
      AndStep(docs, fs, i);
      if acc.None? { SelectedWithin(docs, fs[i]); }
      var next := if acc.None? then hit.value else acc.value * hit.value;
      acc := Some(next);
      if next == {} {
        AndEmpty(docs, fs, i + 1);
        return acc, cache;
      }
    }
    assert fs[..|fs|] == fs;
    r := acc;
  }

  lemma EmptyAnd(docs: Docs)
    ensures Selected(docs, And([])) == docs.Keys && Selected(docs, Or([])) == {}
  {
  }

  lemma SelectedWithin(docs: Docs, f: Filter)
    ensures docs.Keys * Selected(docs, f) == Selected(docs, f)
    ensures forall fs: seq<Filter> :: Selected(docs, And(fs[..0])) == docs.Keys
  {
    hide Matches;
    forall fs: seq<Filter> ensures Selected(docs, And(fs[..0])) == docs.Keys {
      assert fs[..0] == [];
      EmptyAnd(docs);
    }
  }

  method EvalOr(db: Db, ghost docs: Docs, f: Filter, all: Option<set<Bytes>>)
    returns (r: Option<set<Bytes>>, cache: Option<set<Bytes>>)
    requires IndexOk(db, docs) && Parsed(f) && f.Or? && Universe(docs, all)
    ensures r == Some(Selected(docs, f)) && Universe(docs, cache)
    decreases f, 0
  {
    hide IndexOk, Selected, Matches;
    var fs := f.parts;
    cache := all;
    var acc: set<Bytes> := {};
    EmptyAnd(docs);
    assert fs[..0] == [];
    for i := 0 to |fs|
      invariant Universe(docs, cache) && acc == Selected(docs, Or(fs[..i]))
    {
      var hit;
      hit, cache := Eval(db, docs, fs[i], cache);
      if hit.None? { return None, cache; }
      AndStep(docs, fs, i);
      acc := acc + hit.value;
    }
    assert fs[..|fs|] == fs;
    r := Some(acc);
  }
}
