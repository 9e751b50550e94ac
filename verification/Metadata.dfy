/** Document metadata: what a dot path reaches (the reference semantics of the
    filter language) and how metadata is flattened into indexed entries. */
module Metadata {
  import opened Bytes
  import opened Wrappers
  import opened Scalar

  /** A JSON value; objects list their fields once each. */
  datatype Value =
    | Leaf(scalar: Scalar)
    | Array(items: seq<Value>)
    | Object(fields: seq<Field>)

  datatype Field = Field(key: Bytes, value: Value)

  const DOT: Byte := 46
  const MAX_DEPTH: nat := 64
  const MAX_FIELD_PATH: nat := 256

  /** What every JSON value satisfies: finite numbers, unique keys. */
  ghost predicate Proper(v: Value) {
    match v
    case Leaf(s) => WellFormed(s)
    case Array(items) => forall i | 0 <= i < |items| :: Proper(items[i])
    case Object(fields) =>
      && (forall i | 0 <= i < |fields| :: Proper(fields[i].value))
      && (forall i, j | 0 <= i < j < |fields| :: fields[i].key != fields[j].key)
  }

  function Get(fields: seq<Field>, k: Bytes): (r: Option<Value>)
    ensures r.Some? <==> exists i :: 0 <= i < |fields| && fields[i].key == k
    ensures r.Some? ==> exists i :: 0 <= i < |fields| && fields[i].key == k && fields[i].value == r.value
  {
    if fields == [] then None
    else
      var n := |fields| - 1;
      var rest := Get(fields[..n], k);
      if rest.Some? then
        assert exists i :: 0 <= i < n && fields[..n][i].key == k && fields[..n][i].value == rest.value;
        assert exists i :: 0 <= i < |fields| && fields[i].key == k && fields[i].value == rest.value;
        rest
      else if fields[n].key == k then Some(fields[n].value)
      else
        assert forall i | 0 <= i < n :: fields[..n][i].key != k;
        None
  }

  // ---- reference walks -----------------------------------------------------

  /** Every indexable scalar at a path; arrays contribute each element. */
  function Collected(v: Value, path: seq<Bytes>, budget: nat): seq<Scalar>
    decreases budget, 0
  {
    if budget == 0 then []
    else
      match v
      case Array(items) => CollectedAll(items, path, budget - 1)
      case Object(fields) =>
        if path == [] then []
        else
          var child := Get(fields, path[0]);
          if child.None? then [] else Collected(child.value, path[1..], budget - 1)
      case Leaf(s) => if path == [] && Indexable(s) then [s] else []
  }

  function CollectedAll(items: seq<Value>, path: seq<Bytes>, budget: nat): seq<Scalar>
    decreases budget, |items|
  {
    if items == [] then []
    else CollectedAll(items[..|items| - 1], path, budget) + Collected(items[|items| - 1], path, budget)
  }

  /** Whether the path reaches a value that is not an array. */
  predicate Present(v: Value, path: seq<Bytes>, budget: nat)
    decreases budget
  {
    if budget == 0 then false
    else
      match v
      case Array(items) => exists i :: 0 <= i < |items| && Present(items[i], path, budget - 1)
      case Object(fields) =>
        if path == [] then true
        else
          var child := Get(fields, path[0]);
          child.Some? && Present(child.value, path[1..], budget - 1)
      case Leaf(_) => path == []
  }

  /** The accumulating walk. */
  method CollectAt(v: Value, path: seq<Bytes>, before: seq<Scalar>, budget: nat) returns (out: seq<Scalar>)
    ensures out == before + Collected(v, path, budget)
    decreases budget
  {
    out := before;
    if budget == 0 { return; }
    match v
    case Array(items) =>
      for i := 0 to |items|
        invariant out == before + CollectedAll(items[..i], path, budget - 1)
      {
        assert items[..i + 1][..i] == items[..i];
        out := CollectAt(items[i], path, out, budget - 1);
      }
      assert items[..|items|] == items;
    case Object(fields) =>
      if path != [] {
        var child := Get(fields, path[0]);
        if child.Some? { out := CollectAt(child.value, path[1..], out, budget - 1); }
      }
    case Leaf(s) =>
      if path == [] && Indexable(s) { out := out + [s]; }
  }

  lemma {:induction false} CollectedAllMember(items: seq<Value>, path: seq<Bytes>, budget: nat, s: Scalar)
    ensures s in CollectedAll(items, path, budget) <==> exists i :: 0 <= i < |items| && s in Collected(items[i], path, budget)
    decreases |items|
  {
    hide Collected;
    if items != [] {
      var n := |items| - 1;
      CollectedAllMember(items[..n], path, budget, s);
      if s in CollectedAll(items[..n], path, budget) {
        var i :| 0 <= i < n && s in Collected(items[..n][i], path, budget);
        assert s in Collected(items[i], path, budget);
      }
      if i :| 0 <= i < |items| && s in Collected(items[i], path, budget) {
        if i < n { assert s in Collected(items[..n][i], path, budget); }
      }
    }
  }

  // ---- routes --------------------------------------------------------------

  /** One turn on the way down: an array element or an object's field. */
  datatype Turn = Elem(index: nat) | Into(key: Bytes)

  function Follow(v: Value, route: seq<Turn>): Option<Value>
    decreases |route|
  {
    if route == [] then Some(v)
    else
      match route[0]
      case Elem(i) => if v.Array? && i < |v.items| then Follow(v.items[i], route[1..]) else None
      case Into(k) => if v.Object? && Get(v.fields, k).Some? then Follow(Get(v.fields, k).value, route[1..]) else None
  }

  /** The fields a route goes through; array elements do not count. */
  function KeysOn(route: seq<Turn>): seq<Bytes> {
    if route == [] then [] else (if route[0].Into? then [route[0].key] else []) + KeysOn(route[1..])
  }

  /** `route` leads from `v` to `x` along `path` in fewer than `budget` turns. */
  ghost predicate Leads(v: Value, path: seq<Bytes>, budget: nat, route: seq<Turn>, x: Value) {
    |route| < budget && KeysOn(route) == path && Follow(v, route) == Some(x)
  }

  lemma LeadsElem(items: seq<Value>, i: nat, path: seq<Bytes>, budget: nat, route: seq<Turn>, x: Value)
    requires i < |items| && Leads(items[i], path, budget, route, x)
    ensures Leads(Array(items), path, budget + 1, [Elem(i)] + route, x)
  {
    assert ([Elem(i)] + route)[1..] == route;
  }

  lemma LeadsInto(fields: seq<Field>, k: Bytes, path: seq<Bytes>, budget: nat, route: seq<Turn>, x: Value)
    requires Get(fields, k).Some? && Leads(Get(fields, k).value, path, budget, route, x)
    ensures Leads(Object(fields), [k] + path, budget + 1, [Into(k)] + route, x)
  {
    assert ([Into(k)] + route)[1..] == route;
  }

  lemma LeadsOn(v: Value, path: seq<Bytes>, budget: nat, route: seq<Turn>, x: Value)
    requires Leads(v, path, budget, route, x) && route != []
    ensures v.Array? && route[0].Elem? ==> route[0].index < |v.items| && Leads(v.items[route[0].index], path, budget - 1, route[1..], x)
    ensures v.Object? && route[0].Into? ==>
              path != [] && path[0] == route[0].key && Get(v.fields, path[0]).Some?
              && Leads(Get(v.fields, path[0]).value, path[1..], budget - 1, route[1..], x)
    ensures (v.Array? && route[0].Elem?) || (v.Object? && route[0].Into?)
  {
    if route[0].Into? { assert ([route[0].key] + KeysOn(route[1..]))[1..] == KeysOn(route[1..]); }
    else { assert [] + KeysOn(route[1..]) == KeysOn(route[1..]); }
  }

  /** Every collected scalar lies at the end of a route along the path. */
  lemma {:induction false} CollectedLies(v: Value, path: seq<Bytes>, budget: nat, s: Scalar) returns (route: seq<Turn>)
    requires s in Collected(v, path, budget)
    ensures Leads(v, path, budget, route, Leaf(s)) && Indexable(s)
    decreases budget
  {
    hide Leads, CollectedAll;
    match v
    case Leaf(_) => {
      route := [];
      assert Leads(v, path, budget, [], v) by { LeadsHere(v, budget); }
    }
    case Array(items) => {
      CollectedAllMember(items, path, budget - 1, s);
      var i :| 0 <= i < |items| && s in Collected(items[i], path, budget - 1);
      var rest := CollectedLies(items[i], path, budget - 1, s);
      route := [Elem(i)] + rest;
      LeadsElem(items, i, path, budget - 1, rest, Leaf(s));
    }
    case Object(fields) => {
      var rest := CollectedLies(Get(fields, path[0]).value, path[1..], budget - 1, s);
      route := [Into(path[0])] + rest;
      LeadsInto(fields, path[0], path[1..], budget - 1, rest, Leaf(s));
      assert [path[0]] + path[1..] == path;
    }
  }

  lemma LeadsHere(v: Value, budget: nat)
    requires budget > 0
    ensures Leads(v, [], budget, [], v)
  {
  }

  /** And every indexable scalar at the end of such a route is collected. */
  lemma {:induction false} LyingCollected(v: Value, path: seq<Bytes>, budget: nat, route: seq<Turn>, s: Scalar)
    requires Leads(v, path, budget, route, Leaf(s)) && Indexable(s)
    ensures s in Collected(v, path, budget)
    decreases budget
  {
    hide CollectedAll, Indexable;
    if route != [] {
      LeadsOn(v, path, budget, route, Leaf(s));
      hide Leads;
      if v.Array? {
        var i := route[0].index;
        LyingCollected(v.items[i], path, budget - 1, route[1..], s);
        CollectedAllMember(v.items, path, budget - 1, s);
      } else {
        LyingCollected(Get(v.fields, path[0]).value, path[1..], budget - 1, route[1..], s);
      }
    }
  }

  /** The values at a path are the indexable scalars that some route along it leads to,
      through any array elements, in fewer turns than the depth limit. */
  lemma CollectedMeans(v: Value, path: seq<Bytes>, budget: nat, s: Scalar)
    ensures s in Collected(v, path, budget) <==> Indexable(s) && exists route :: Leads(v, path, budget, route, Leaf(s))
  {
    hide Collected, Indexable, Leads;
    if s in Collected(v, path, budget) { var route := CollectedLies(v, path, budget, s); }
    if Indexable(s) && exists route :: Leads(v, path, budget, route, Leaf(s)) {
      var route :| Leads(v, path, budget, route, Leaf(s));
      LyingCollected(v, path, budget, route, s);
    }
  }

  lemma {:induction false} PresentLies(v: Value, path: seq<Bytes>, budget: nat) returns (route: seq<Turn>, x: Value)
    requires Present(v, path, budget)
    ensures Leads(v, path, budget, route, x) && !x.Array?
    decreases budget
  {
    hide Leads;
    if v.Array? {
      var i :| 0 <= i < |v.items| && Present(v.items[i], path, budget - 1);
      var rest;
      rest, x := PresentLies(v.items[i], path, budget - 1);
      route := [Elem(i)] + rest;
      LeadsElem(v.items, i, path, budget - 1, rest, x);
    } else if path == [] {
      route, x := [], v;
      LeadsHere(v, budget);
    } else {
      var rest;
      rest, x := PresentLies(Get(v.fields, path[0]).value, path[1..], budget - 1);
      route := [Into(path[0])] + rest;
      LeadsInto(v.fields, path[0], path[1..], budget - 1, rest, x);
      assert [path[0]] + path[1..] == path;
    }
  }

  lemma {:induction false} LyingPresent(v: Value, path: seq<Bytes>, budget: nat, route: seq<Turn>, x: Value)
    requires Leads(v, path, budget, route, x) && !x.Array?
    ensures Present(v, path, budget)
    decreases budget
  {
    if route != [] {
      LeadsOn(v, path, budget, route, x);
      hide Leads;
      if v.Array? {
        LyingPresent(v.items[route[0].index], path, budget - 1, route[1..], x);
      } else {
        LyingPresent(Get(v.fields, path[0]).value, path[1..], budget - 1, route[1..], x);
      }
    }
  }

  /** A path is present if and only if some route along it ends at something other than an
      array. */
  lemma PresentMeans(v: Value, path: seq<Bytes>, budget: nat)
    ensures Present(v, path, budget) <==> exists route, x: Value :: Leads(v, path, budget, route, x) && !x.Array?
  {
    hide Present, Leads;
    if Present(v, path, budget) { var route, x := PresentLies(v, path, budget); }
    if exists route, x: Value :: Leads(v, path, budget, route, x) && !x.Array? {
      var route, x: Value :| Leads(v, path, budget, route, x) && !x.Array?;
      LyingPresent(v, path, budget, route, x);
    }
  }

  // ---- paths ---------------------------------------------------------------

  predicate NoDot(k: Bytes) { DOT !in k }

  /** Field names a filter may use. */
  predicate ValidField(k: Bytes) {
    1 <= |k| <= MAX_FIELD_PATH && 0 !in k
  }

  predicate ValidKey(k: Bytes) {
    ValidField(k) && NoDot(k)
  }

  ghost predicate ValidKeys(path: seq<Bytes>) {
    forall i | 0 <= i < |path| :: ValidKey(path[i])
  }

  function FirstDot(q: Bytes): (i: nat)
    ensures i <= |q| && NoDot(q[..i]) && (i < |q| ==> q[i] == DOT)
  {
    if q == [] || q[0] == DOT then 0
    else
      var i := FirstDot(q[1..]);
      assert q[..i + 1] == [q[0]] + q[1..][..i];
      i + 1
  }

  /** A dot path cut at its dots. */
  function Split(q: Bytes): (path: seq<Bytes>)
    ensures path != []
    decreases |q|
  {
    var i := FirstDot(q);
    if i == |q| then [q] else [q[..i]] + Split(q[i + 1..])
  }

  function Child(at: Bytes, k: Bytes): Bytes {
    if at == [] then k else at + [DOT] + k
  }

  function Extend(at: Bytes, path: seq<Bytes>): Bytes
    decreases |path|
  {
    if path == [] then at else Extend(Child(at, path[0]), path[1..])
  }

  function Tails(path: seq<Bytes>): Bytes {
    if path == [] then [] else [DOT] + path[0] + Tails(path[1..])
  }

  lemma {:induction false} ExtendTails(at: Bytes, path: seq<Bytes>)
    requires at != []
    ensures Extend(at, path) == at + Tails(path)
    decreases |path|
  {
    if path != [] { ExtendTails(at + [DOT] + path[0], path[1..]); }
  }

  lemma {:induction false} SplitJoin(q: Bytes)
    ensures q == Split(q)[0] + Tails(Split(q)[1..])
    decreases |q|
  {
    hide Tails, FirstDot;
    var i := FirstDot(q);
    if i < |q| {
      var rest := q[i + 1..];
      var path := Split(rest);
      SplitJoin(rest);
      assert q == q[..i] + [DOT] + rest;
      assert Split(q) == [q[..i]] + path;
      assert Split(q)[1..] == path && Split(q)[0] == q[..i];
      assert Tails(path) == [DOT] + path[0] + Tails(path[1..]) by { TailsStep(path); }
      assert [DOT] + rest == Tails(path);
    } else {
      assert Split(q) == [q];
      assert Split(q)[1..] == [];
      TailsStep([]);
    }
  }

  lemma TailsStep(path: seq<Bytes>)
    ensures Tails(path) == if path == [] then [] else [DOT] + path[0] + Tails(path[1..])
  {
  }

  lemma {:induction false} FirstDotOf(k: Bytes, rest: Bytes)
    requires NoDot(k)
    ensures FirstDot(k) == |k| && FirstDot(k + [DOT] + rest) == |k|
  {
    if k == [] {
      assert k + [DOT] + rest == [DOT] + rest;
    } else {
      FirstDotOf(k[1..], rest);
      assert (k + [DOT] + rest)[1..] == k[1..] + [DOT] + rest;
    }
  }

  lemma {:induction false} SplitTails(k: Bytes, path: seq<Bytes>)
    requires NoDot(k) && forall i | 0 <= i < |path| :: NoDot(path[i])
    ensures Split(k + Tails(path)) == [k] + path
    decreases |path|
  {
    hide NoDot, Tails, FirstDot;
    TailsStep(path);
    if path == [] {
      FirstDotOf(k, []);
      assert k + Tails(path) == k;
    } else {
      var rest := path[0] + Tails(path[1..]);
      FirstDotOf(k, rest);
      SplitTails(path[0], path[1..]);
      assert k + Tails(path) == k + [DOT] + rest;
      SplitAt(k, rest);
      assert [path[0]] + path[1..] == path;
    }
  }

  lemma SplitAt(k: Bytes, rest: Bytes)
    requires FirstDot(k + [DOT] + rest) == |k|
    ensures Split(k + [DOT] + rest) == [k] + Split(rest)
  {
    hide FirstDot;
    var q := k + [DOT] + rest;
    assert q[..|k|] == k && q[|k| + 1..] == rest;
  }

  /** Joining valid keys with dots and splitting again is the identity. */
  lemma SplitExtend(path: seq<Bytes>)
    requires ValidKeys(path) && path != []
    ensures Extend([], path) != [] && Split(Extend([], path)) == path
  {
    hide Split, Tails, Extend;
    assert ValidKey(path[0]);
    ExtendStep([], path);
    ExtendTails(path[0], path[1..]);
    assert forall i | 0 <= i < |path| :: ValidKey(path[i]) && NoDot(path[i]);
    SplitTails(path[0], path[1..]);
    assert [path[0]] + path[1..] == path;
  }

  lemma ExtendStep(at: Bytes, path: seq<Bytes>)
    requires path != []
    ensures Extend(at, path) == Extend(Child(at, path[0]), path[1..])
  {
  }

  lemma ExtendSplit(q: Bytes)
    requires ValidKeys(Split(q))
    ensures Extend([], Split(q)) == q
  {
    hide Split, Tails, Extend;
    var path := Split(q);
    assert ValidKey(path[0]);
    ExtendStep([], path);
    ExtendTails(path[0], path[1..]);
    SplitJoin(q);
  }

  // ---- flattening ----------------------------------------------------------

  /** A value found below another one, with the dot path it is found at. */
  datatype Kid = Kid(at: Bytes, value: Value)

  function Kids(v: Value, at: Bytes): seq<Kid> {
    match v
    case Leaf(_) => []
    case Array(items) => seq(|items|, i requires 0 <= i < |items| => Kid(at, items[i]))
    case Object(fields) => seq(|fields|, i requires 0 <= i < |fields| => Kid(Child(at, fields[i].key), fields[i].value))
  }

  predicate KeysOk(v: Value, at: Bytes) {
    v.Object? ==> forall i | 0 <= i < |v.fields| ::
                    ValidKey(v.fields[i].key) && |Child(at, v.fields[i].key)| <= MAX_FIELD_PATH
  }

  /** No key is refused and no nesting is too deep. */
  predicate WalkOk(v: Value, at: Bytes, budget: nat)
    decreases budget
  {
    budget > 0 && KeysOk(v, at)
    && forall i | 0 <= i < |Kids(v, at)| :: WalkOk(Kids(v, at)[i].value, Kids(v, at)[i].at, budget - 1)
  }

  datatype Item = Item(at: Bytes, scalar: Scalar)

  function Own(v: Value, at: Bytes): seq<Item> {
    if v.Leaf? && at != [] && Indexable(v.scalar) then [Item(at, v.scalar)] else []
  }

  function Values(v: Value, at: Bytes, budget: nat): seq<Item>
    decreases budget, 0
  {
    if budget == 0 then [] else Own(v, at) + ValuesAll(Kids(v, at), budget - 1)
  }

  function ValuesAll(kids: seq<Kid>, budget: nat): seq<Item>
    decreases budget, |kids|
  {
    if kids == [] then []
    else ValuesAll(kids[..|kids| - 1], budget) + Values(kids[|kids| - 1].value, kids[|kids| - 1].at, budget)
  }

  function Presents(v: Value, at: Bytes, budget: nat): set<Bytes>
    decreases budget, 0
  {
    if budget == 0 then {} else (if at != [] && !v.Array? then {at} else {}) + PresentsAll(Kids(v, at), budget - 1)
  }

  function PresentsAll(kids: seq<Kid>, budget: nat): set<Bytes>
    decreases budget, |kids|
  {
    if kids == [] then {}
    else PresentsAll(kids[..|kids| - 1], budget) + Presents(kids[|kids| - 1].value, kids[|kids| - 1].at, budget)
  }

  lemma {:induction false} ValuesAllMember(kids: seq<Kid>, budget: nat, x: Item)
    ensures x in ValuesAll(kids, budget) <==> exists i :: 0 <= i < |kids| && x in Values(kids[i].value, kids[i].at, budget)
    decreases |kids|
  {
    hide Values;
    if kids != [] {
      var n := |kids| - 1;
      ValuesAllMember(kids[..n], budget, x);
      if x in ValuesAll(kids[..n], budget) {
        var i :| 0 <= i < n && x in Values(kids[..n][i].value, kids[..n][i].at, budget);
        assert x in Values(kids[i].value, kids[i].at, budget);
      }
      if i :| 0 <= i < |kids| && x in Values(kids[i].value, kids[i].at, budget) {
        if i < n { assert x in Values(kids[..n][i].value, kids[..n][i].at, budget); }
      }
    }
  }

  lemma {:induction false} PresentsAllMember(kids: seq<Kid>, budget: nat, q: Bytes)
    ensures q in PresentsAll(kids, budget) <==> exists i :: 0 <= i < |kids| && q in Presents(kids[i].value, kids[i].at, budget)
    decreases |kids|
  {
    hide Presents;
    if kids != [] {
      var n := |kids| - 1;
      PresentsAllMember(kids[..n], budget, q);
      if q in PresentsAll(kids[..n], budget) {
        var i :| 0 <= i < n && q in Presents(kids[..n][i].value, kids[..n][i].at, budget);
        assert q in Presents(kids[i].value, kids[i].at, budget);
      }
      if i :| 0 <= i < |kids| && q in Presents(kids[i].value, kids[i].at, budget) {
        if i < n { assert q in Presents(kids[..n][i].value, kids[..n][i].at, budget); }
      }
    }
  }

  // ---- flattening agrees with the reference walks --------------------------

  lemma ConsValid(k: Bytes, path: seq<Bytes>)
    requires ValidKey(k) && ValidKeys(path)
    ensures ValidKeys([k] + path)
  {
    hide ValidKey;
  }

  // One level of each walk.

  lemma KidAt(v: Value, at: Bytes, i: nat)
    requires !v.Leaf? && i < (if v.Array? then |v.items| else |v.fields|)
    ensures i < |Kids(v, at)|
    ensures v.Array? ==> Kids(v, at)[i] == Kid(at, v.items[i])
    ensures v.Object? ==> Kids(v, at)[i] == Kid(Child(at, v.fields[i].key), v.fields[i].value)
  {
  }

  lemma KidWalk(v: Value, at: Bytes, budget: nat, i: nat)
    requires WalkOk(v, at, budget) && i < |Kids(v, at)|
    ensures budget > 0 && WalkOk(Kids(v, at)[i].value, Kids(v, at)[i].at, budget - 1)
    ensures v.Object? ==> i < |v.fields| && ValidKey(v.fields[i].key)
    ensures v.Array? ==> i < |v.items|
    ensures !v.Leaf?
  {
    hide ValidKey;
  }

  lemma KidProper(v: Value, at: Bytes, i: nat)
    requires Proper(v) && i < |Kids(v, at)|
    ensures Proper(Kids(v, at)[i].value)
    ensures v.Object? ==> i < |v.fields| && Get(v.fields, v.fields[i].key) == Some(v.fields[i].value)
  {
    if v.Object? { GetUnique(v.fields, i); }
  }

  lemma KidValue(v: Value, at: Bytes, budget: nat, i: nat, x: Item)
    requires budget > 0 && i < |Kids(v, at)| && x in Values(Kids(v, at)[i].value, Kids(v, at)[i].at, budget - 1)
    ensures x in Values(v, at, budget)
  {
    hide ValuesAll, Kids;
    ValuesAllMember(Kids(v, at), budget - 1, x);
  }

  lemma ValueKid(v: Value, at: Bytes, budget: nat, x: Item) returns (i: nat)
    requires x in Values(v, at, budget) && !v.Leaf?
    ensures budget > 0 && i < |Kids(v, at)| && x in Values(Kids(v, at)[i].value, Kids(v, at)[i].at, budget - 1)
  {
    hide ValuesAll, Kids;
    ValuesAllMember(Kids(v, at), budget - 1, x);
    i :| 0 <= i < |Kids(v, at)| && x in Values(Kids(v, at)[i].value, Kids(v, at)[i].at, budget - 1);
  }

  lemma LeafValues(v: Value, at: Bytes, budget: nat)
    requires v.Leaf? && budget > 0
    ensures Values(v, at, budget) == Own(v, at) && Collected(v, [], budget) == (if Indexable(v.scalar) then [v.scalar] else [])
    ensures forall path: seq<Bytes> | path != [] :: Collected(v, path, budget) == []
  {
    hide Indexable;
  }

  lemma ArrayCollected(v: Value, path: seq<Bytes>, budget: nat, s: Scalar)
    requires v.Array? && budget > 0
    ensures s in Collected(v, path, budget) <==> exists i :: 0 <= i < |v.items| && s in Collected(v.items[i], path, budget - 1)
  {
    hide CollectedAll;
    CollectedAllMember(v.items, path, budget - 1, s);
  }

  lemma ObjectCollected(v: Value, path: seq<Bytes>, budget: nat)
    requires v.Object? && budget > 0
    ensures path == [] ==> Collected(v, path, budget) == []
    ensures path != [] ==> Collected(v, path, budget) ==
                             if Get(v.fields, path[0]).None? then [] else Collected(Get(v.fields, path[0]).value, path[1..], budget - 1)
  {
    hide Get;
  }

  lemma FieldAt(fields: seq<Field>, k: Bytes) returns (i: nat)
    requires Get(fields, k).Some?
    ensures i < |fields| && fields[i].key == k && fields[i].value == Get(fields, k).value
  {
    i :| 0 <= i < |fields| && fields[i].key == k && fields[i].value == Get(fields, k).value;
  }

  lemma PositiveBudget(v: Value, at: Bytes, budget: nat)
    requires WalkOk(v, at, budget)
    ensures budget > 0
  {
  }

  /** What a path reaches is indexed under that path. */
  lemma {:induction false} ReachedIsIndexed(v: Value, at: Bytes, path: seq<Bytes>, budget: nat, s: Scalar)
    requires WalkOk(v, at, budget) && s in Collected(v, path, budget)
    ensures ValidKeys(path)
    ensures Extend(at, path) != [] ==> Item(Extend(at, path), s) in Values(v, at, budget)
    decreases budget
  {
    hide ValidKey, Extend, Indexable, Values, Collected, WalkOk, Kids, Get;
    PositiveBudget(v, at, budget);
    match v
    case Leaf(_) =>
      LeafValues(v, at, budget);
      ExtendNothing(at);
    case Array(items) =>
      ArrayCollected(v, path, budget, s);
      var i :| 0 <= i < |items| && s in Collected(items[i], path, budget - 1);
      KidAt(v, at, i);
      KidWalk(v, at, budget, i);
      ReachedIsIndexed(items[i], at, path, budget - 1, s);
      if Extend(at, path) != [] { KidValue(v, at, budget, i, Item(Extend(at, path), s)); }
    case Object(fields) =>
      ObjectCollected(v, path, budget);
      var i := FieldAt(fields, path[0]);
      KidAt(v, at, i);
      KidWalk(v, at, budget, i);
      ReachedIsIndexed(fields[i].value, Child(at, path[0]), path[1..], budget - 1, s);
      ConsValid(path[0], path[1..]);
      assert [path[0]] + path[1..] == path;
      ExtendStep(at, path);
      if Extend(at, path) != [] { KidValue(v, at, budget, i, Item(Extend(at, path), s)); }
  }

  lemma ExtendNothing(at: Bytes)
    ensures Extend(at, []) == at
  {
  }

  /** What is indexed under a path is reached by it. */
  lemma {:induction false} IndexedIsReached(v: Value, at: Bytes, budget: nat, x: Item) returns (path: seq<Bytes>)
    requires Proper(v) && WalkOk(v, at, budget) && x in Values(v, at, budget)
    ensures ValidKeys(path) && x.at == Extend(at, path) && x.at != [] && x.scalar in Collected(v, path, budget)
    decreases budget
  {
    hide ValidKey, Extend, Indexable, Values, Collected, WalkOk, Kids, Get, Proper;
    PositiveBudget(v, at, budget);
    path := [];
    match v
    case Leaf(_) =>
      LeafValues(v, at, budget);
      ExtendNothing(at);
    case Array(items) =>
      var i := ValueKid(v, at, budget, x);
      KidWalk(v, at, budget, i);
      KidAt(v, at, i);
      KidProper(v, at, i);
      path := IndexedIsReached(items[i], at, budget - 1, x);
      ArrayCollected(v, path, budget, x.scalar);
    case Object(fields) =>
      var i := ValueKid(v, at, budget, x);
      KidWalk(v, at, budget, i);
      KidAt(v, at, i);
      KidProper(v, at, i);
      var k := fields[i].key;
      var rest := IndexedIsReached(fields[i].value, Child(at, k), budget - 1, x);
      path := [k] + rest;
      ConsValid(k, rest);
      ExtendStep(at, path);
      assert path[1..] == rest;
      ObjectCollected(v, path, budget);
  }

  lemma GetUnique(fields: seq<Field>, i: nat)
    requires i < |fields| && forall a, b | 0 <= a < b < |fields| :: fields[a].key != fields[b].key
    ensures Get(fields, fields[i].key) == Some(fields[i].value)
  {
  }

  lemma KidPresents(v: Value, at: Bytes, budget: nat, i: nat, q: Bytes)
    requires budget > 0 && i < |Kids(v, at)| && q in Presents(Kids(v, at)[i].value, Kids(v, at)[i].at, budget - 1)
    ensures q in Presents(v, at, budget)
  {
    hide PresentsAll, Kids;
    PresentsAllMember(Kids(v, at), budget - 1, q);
  }

  lemma PresentsKid(v: Value, at: Bytes, budget: nat, q: Bytes) returns (i: nat)
    requires q in Presents(v, at, budget) && !(at != [] && !v.Array? && q == at)
    ensures budget > 0 && i < |Kids(v, at)| && q in Presents(Kids(v, at)[i].value, Kids(v, at)[i].at, budget - 1)
  {
    hide PresentsAll, Kids;
    PresentsAllMember(Kids(v, at), budget - 1, q);
    i :| 0 <= i < |Kids(v, at)| && q in Presents(Kids(v, at)[i].value, Kids(v, at)[i].at, budget - 1);
  }

  lemma OwnPresence(v: Value, at: Bytes, budget: nat)
    requires budget > 0 && !v.Array?
    ensures at != [] ==> at in Presents(v, at, budget)
    ensures Present(v, [], budget)
    ensures v.Leaf? ==> forall path: seq<Bytes> | path != [] :: !Present(v, path, budget)
  {
    hide PresentsAll, Kids;
  }

  lemma ArrayPresent(v: Value, path: seq<Bytes>, budget: nat)
    requires v.Array? && budget > 0
    ensures Present(v, path, budget) <==> exists i :: 0 <= i < |v.items| && Present(v.items[i], path, budget - 1)
  {
  }

  lemma ObjectPresent(v: Value, path: seq<Bytes>, budget: nat)
    requires v.Object? && budget > 0 && path != []
    ensures Present(v, path, budget) <==> Get(v.fields, path[0]).Some? && Present(Get(v.fields, path[0]).value, path[1..], budget - 1)
  {
    hide Get;
  }

  lemma {:induction false} PresentIsListed(v: Value, at: Bytes, path: seq<Bytes>, budget: nat)
    requires WalkOk(v, at, budget) && Present(v, path, budget)
    ensures ValidKeys(path)
    ensures Extend(at, path) != [] ==> Extend(at, path) in Presents(v, at, budget)
    decreases budget
  {
    hide ValidKey, Extend, Presents, Present, WalkOk, Kids, Get;
    PositiveBudget(v, at, budget);
    if v.Array? {
      ArrayPresent(v, path, budget);
      var i :| 0 <= i < |v.items| && Present(v.items[i], path, budget - 1);
      KidAt(v, at, i);
      KidWalk(v, at, budget, i);
      PresentIsListed(v.items[i], at, path, budget - 1);
      if Extend(at, path) != [] { KidPresents(v, at, budget, i, Extend(at, path)); }
    } else {
      OwnPresence(v, at, budget);
      ExtendNothing(at);
      if path != [] {
        ObjectPresent(v, path, budget);
        var i := FieldAt(v.fields, path[0]);
        KidAt(v, at, i);
        KidWalk(v, at, budget, i);
        PresentIsListed(v.fields[i].value, Child(at, path[0]), path[1..], budget - 1);
        ConsValid(path[0], path[1..]);
        assert [path[0]] + path[1..] == path;
        ExtendStep(at, path);
        if Extend(at, path) != [] { KidPresents(v, at, budget, i, Extend(at, path)); }
      }
    }
  }

  lemma {:induction false} ListedIsPresent(v: Value, at: Bytes, budget: nat, q: Bytes) returns (path: seq<Bytes>)
    requires Proper(v) && WalkOk(v, at, budget) && q in Presents(v, at, budget)
    ensures ValidKeys(path) && q == Extend(at, path) && q != [] && Present(v, path, budget)
    decreases budget
  {
    hide ValidKey, Extend, Presents, Present, WalkOk, Kids, Get, Proper;
    PositiveBudget(v, at, budget);
    path := [];
    ExtendNothing(at);
    if at != [] && !v.Array? && q == at {
      OwnPresence(v, at, budget);
    } else {
      var i := PresentsKid(v, at, budget, q);
      KidWalk(v, at, budget, i);
      KidAt(v, at, i);
      KidProper(v, at, i);
      if v.Array? {
        path := ListedIsPresent(v.items[i], at, budget - 1, q);
        ArrayPresent(v, path, budget);
      } else {
        var k := v.fields[i].key;
        var rest := ListedIsPresent(v.fields[i].value, Child(at, k), budget - 1, q);
        path := [k] + rest;
        ConsValid(k, rest);
        ExtendStep(at, path);
        assert path[1..] == rest;
        ObjectPresent(v, path, budget);
      }
    }
  }

  /** A metadata document is an object, or nothing. */
  predicate IsDocument(v: Value) {
    v.Object? || v == Leaf(Null)
  }

  /** The indexed entries are exactly what each path reaches. */
  lemma FlattenAgrees(v: Value, q: Bytes, s: Scalar)
    requires Proper(v) && IsDocument(v) && WalkOk(v, [], MAX_DEPTH) && q != []
    ensures Item(q, s) in Values(v, [], MAX_DEPTH) <==> s in Collected(v, Split(q), MAX_DEPTH)
  {
    hide Proper, WalkOk, Values, Collected, Split, Extend;
    if Item(q, s) in Values(v, [], MAX_DEPTH) {
      var path := IndexedIsReached(v, [], MAX_DEPTH, Item(q, s));
      if path == [] { ExtendNothing([]); } else { SplitExtend(path); }
    }
    if s in Collected(v, Split(q), MAX_DEPTH) {
      ReachedIsIndexed(v, [], Split(q), MAX_DEPTH, s);
      ExtendSplit(q);
    }
  }

  lemma PresenceAgrees(v: Value, q: Bytes)
    requires Proper(v) && IsDocument(v) && WalkOk(v, [], MAX_DEPTH) && q != []
    ensures q in Presents(v, [], MAX_DEPTH) <==> Present(v, Split(q), MAX_DEPTH)
  {
    hide Proper, WalkOk, Presents, Present, Split, Extend;
    if q in Presents(v, [], MAX_DEPTH) {
      var path := ListedIsPresent(v, [], MAX_DEPTH, q);
      if path == [] { ExtendNothing([]); } else { SplitExtend(path); }
    }
    if Present(v, Split(q), MAX_DEPTH) {
      PresentIsListed(v, [], Split(q), MAX_DEPTH);
      ExtendSplit(q);
    }
  }
}
