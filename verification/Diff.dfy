/** Models src/services/diff.ts: the segmentation of two entity lists by id. */
module Diff {

  /** A JavaScript Map: insertion order of the keys, last value set for each. */
  datatype JsMap<V> = JsMap(keys: seq<string>, vals: map<string, V>) {
    ghost predicate Valid() {
      && (forall i, j :: 0 <= i < j < |keys| ==> keys[i] != keys[j])
      && forall k :: k in keys <==> k in vals
    }

    /** Every key has a value. */
    ghost predicate Keyed() { forall i :: 0 <= i < |keys| ==> keys[i] in vals }

    function Set(k: string, v: V): JsMap<V> { JsMap(if k in vals then keys else keys + [k], vals[k := v]) }

    function Values(): seq<V> { Lookup(keys, vals) }
  }

  function Lookup<V>(keys: seq<string>, vals: map<string, V>): seq<V> {
    if keys == [] then []
    else
      var k := keys[|keys| - 1];
      Lookup(keys[..|keys| - 1], vals) + if k in vals then [vals[k]] else []
  }

  datatype Delta<E> = Delta(dbOnly: seq<E>, cloudOnly: seq<E>, changed: seq<(E, E)>)

  /** `new Map(list.map(e => [idGen(e), e]))`: of two entities with one id the later wins. */
  function FromList<E>(es: seq<E>, idGen: E -> string): JsMap<E> {
    if es == [] then JsMap([], map[])
    else FromList(es[..|es| - 1], idGen).Set(idGen(es[|es| - 1]), es[|es| - 1])
  }

  /** The entities of a list by id. */
  function ById<E>(es: seq<E>, idGen: E -> string): map<string, E> {
    if es == [] then map[] else ById(es[..|es| - 1], idGen)[idGen(es[|es| - 1]) := es[|es| - 1]]
  }

  lemma {:induction false} FromListById<E>(es: seq<E>, idGen: E -> string)
    ensures FromList(es, idGen).Valid() && FromList(es, idGen).vals == ById(es, idGen)
  {
    if es != [] { FromListById(es[..|es| - 1], idGen); }
  }

  lemma {:induction false} LookupAll<V>(keys: seq<string>, vals: map<string, V>)
    requires forall k :: k in keys ==> k in vals
    ensures |Lookup(keys, vals)| == |keys| && forall i :: 0 <= i < |keys| ==> Lookup(keys, vals)[i] == vals[keys[i]]
  {
    if keys != [] { LookupAll(keys[..|keys| - 1], vals); }
  }

  lemma {:induction false} ByIdHasIds<E>(es: seq<E>, idGen: E -> string, k: string)
    requires k in ById(es, idGen)
    ensures idGen(ById(es, idGen)[k]) == k
  {
    if es != [] && idGen(es[|es| - 1]) != k { ByIdHasIds(es[..|es| - 1], idGen, k); }
  }

  /** The index holds, for each id of the list, the last entity with that id. */
  lemma {:induction false} ByIdIsLatest<E>(es: seq<E>, idGen: E -> string, k: string)
    ensures k in ById(es, idGen) <==> exists i :: 0 <= i < |es| && idGen(es[i]) == k
    ensures k in ById(es, idGen) ==> exists i :: IsLatest(es, idGen, k, i) && ById(es, idGen)[k] == es[i]
  {
    if es != [] {
      var n := |es| - 1;
      ByIdIsLatest(es[..n], idGen, k);
      if idGen(es[n]) == k {
        assert IsLatest(es, idGen, k, n);
      } else if k in ById(es[..n], idGen) {
        var i :| IsLatest(es[..n], idGen, k, i) && ById(es[..n], idGen)[k] == es[..n][i];
        assert IsLatest(es, idGen, k, i);
      } else {
        forall i | 0 <= i < |es| ensures idGen(es[i]) != k { assert i < n ==> es[..n][i] == es[i]; }
      }
    }
  }

  ghost predicate IsLatest<E>(es: seq<E>, idGen: E -> string, k: string, i: int) {
    0 <= i < |es| && idGen(es[i]) == k && forall j :: i < j < |es| ==> idGen(es[j]) != k
  }

  function Without(keys: seq<string>, drop: set<string>): seq<string> {
    if keys == [] then []
    else
      var k := keys[|keys| - 1];
      Without(keys[..|keys| - 1], drop) + if k in drop then [] else [k]
  }

  lemma {:induction false} WithoutMeans(keys: seq<string>, drop: set<string>)
    requires forall i, j :: 0 <= i < j < |keys| ==> keys[i] != keys[j]
    ensures forall k :: k in Without(keys, drop) <==> k in keys && k !in drop
    ensures forall i, j :: 0 <= i < j < |Without(keys, drop)| ==> Without(keys, drop)[i] != Without(keys, drop)[j]
  {
    if keys != [] {
      WithoutMeans(keys[..|keys| - 1], drop);
      assert keys == keys[..|keys| - 1] + [keys[|keys| - 1]];
      var ks := Without(keys[..|keys| - 1], drop);
      forall i | 0 <= i < |ks| ensures ks[i] != keys[|keys| - 1] { assert ks[i] in ks; }
    }
  }

  /** Entries of `a` whose key `b` lacks, in the order of `a`. */
  function OnlyIn<V>(a: JsMap<V>, b: JsMap<V>): JsMap<V> { Sub(a, Without(a.keys, b.vals.Keys)) }

  /** The entries of `a` at the given keys, set one after the other. */
  function Sub<V>(a: JsMap<V>, ks: seq<string>): JsMap<V> {
    if ks == [] then JsMap([], map[])
    else
      var k, rest := ks[|ks| - 1], Sub(a, ks[..|ks| - 1]);
      if k in a.vals then rest.Set(k, a.vals[k]) else rest
  }

  /** Entries of both maps, paired, in the order of `a`. */
  function Both<V>(a: JsMap<V>, b: JsMap<V>): JsMap<(V, V)> {
    Pairs(a, b, Without(a.keys, a.vals.Keys - b.vals.Keys))
  }

  function Pairs<V>(a: JsMap<V>, b: JsMap<V>, ks: seq<string>): JsMap<(V, V)> {
    if ks == [] then JsMap([], map[])
    else
      var k, rest := ks[|ks| - 1], Pairs(a, b, ks[..|ks| - 1]);
      if k in a.vals && k in b.vals then rest.Set(k, (a.vals[k], b.vals[k])) else rest
  }

  lemma {:induction false} SubMeans<V>(a: JsMap<V>, ks: seq<string>)
    requires forall k :: k in ks ==> k in a.vals
    requires forall i, j :: 0 <= i < j < |ks| ==> ks[i] != ks[j]
    ensures Sub(a, ks).keys == ks && Sub(a, ks).vals.Keys == (set k | k in ks)
    ensures forall k :: k in ks ==> Sub(a, ks).vals[k] == a.vals[k]
  {
    if ks != [] { SubMeans(a, ks[..|ks| - 1]); }
  }

  lemma {:induction false} PairsMean<V>(a: JsMap<V>, b: JsMap<V>, ks: seq<string>)
    requires forall k :: k in ks ==> k in a.vals && k in b.vals
    requires forall i, j :: 0 <= i < j < |ks| ==> ks[i] != ks[j]
    ensures Pairs(a, b, ks).keys == ks && Pairs(a, b, ks).vals.Keys == (set k | k in ks)
    ensures forall k :: k in ks ==> Pairs(a, b, ks).vals[k] == (a.vals[k], b.vals[k])
  {
    if ks != [] { PairsMean(a, b, ks[..|ks| - 1]); }
  }

  /** One key further, one entry more unless it is dropped. */
  lemma SubNext<V>(a: JsMap<V>, keys: seq<string>, drop: set<string>, i: nat)
    requires i < |keys| && keys[i] in a.vals
    ensures Sub(a, Without(keys[..i + 1], drop)) ==
              var s := Sub(a, Without(keys[..i], drop));
              if keys[i] in drop then s else s.Set(keys[i], a.vals[keys[i]])
  {
    var w := Without(keys[..i], drop);
    assert keys[..i + 1][..i] == keys[..i];
    if keys[i] in drop { assert w + [] == w; } else { assert (w + [keys[i]])[..|w|] == w; }
  }

  lemma PairsNext<V>(a: JsMap<V>, b: JsMap<V>, keys: seq<string>, drop: set<string>, i: nat)
    requires i < |keys| && keys[i] in a.vals && (keys[i] !in drop ==> keys[i] in b.vals)
    ensures Pairs(a, b, Without(keys[..i + 1], drop)) ==
              var s := Pairs(a, b, Without(keys[..i], drop));
              if keys[i] in drop then s else s.Set(keys[i], (a.vals[keys[i]], b.vals[keys[i]]))
  {
    var w := Without(keys[..i], drop);
    assert keys[..i + 1][..i] == keys[..i];
    if keys[i] in drop { assert w + [] == w; } else { assert (w + [keys[i]])[..|w|] == w; }
  }

  method MapSegmentation<Y>(a: JsMap<Y>, b: JsMap<Y>)
      returns (left: JsMap<Y>, intersect: JsMap<(Y, Y)>, right: JsMap<Y>)
    requires a.Keyed() && b.Keyed()
    ensures left == OnlyIn(a, b) && intersect == Both(a, b) && right == OnlyIn(b, a)
  {
    left := JsMap([], map[]);
    intersect := JsMap([], map[]);
    for i := 0 to |a.keys|
      invariant left == Sub(a, Without(a.keys[..i], b.vals.Keys))
      invariant intersect == Pairs(a, b, Without(a.keys[..i], a.vals.Keys - b.vals.Keys))
    {
      var k := a.keys[i];
      SubNext(a, a.keys, b.vals.Keys, i);
      PairsNext(a, b, a.keys, a.vals.Keys - b.vals.Keys, i);
      if k in b.vals {
        intersect := intersect.Set(k, (a.vals[k], b.vals[k]));
      } else {
        left := left.Set(k, a.vals[k]);
      }
    }
    assert a.keys[..|a.keys|] == a.keys;
    right := OnlyEntries(b, a);
  }

  /** The second loop: entries of `b` that `a` lacks. */
  method OnlyEntries<Y>(b: JsMap<Y>, a: JsMap<Y>) returns (right: JsMap<Y>)
    requires a.Keyed() && b.Keyed()
    ensures right == OnlyIn(b, a)
  {
    right := JsMap([], map[]);
    for i := 0 to |b.keys|
      invariant right == Sub(b, Without(b.keys[..i], a.vals.Keys))
    {
      var k := b.keys[i];
      SubNext(b, b.keys, a.vals.Keys, i);
      if k !in a.vals {
        right := right.Set(k, b.vals[k]);
      }
    }
    assert b.keys[..|b.keys|] == b.keys;
  }

  /** The pairs that the comparator tells apart, in order. */
  function Changed<E>(pairs: seq<(E, E)>, comparator: (E, E) -> bool): seq<(E, E)> {
    if pairs == [] then []
    else
      var p := pairs[|pairs| - 1];
      Changed(pairs[..|pairs| - 1], comparator) + if comparator(p.0, p.1) then [] else [p]
  }

  function DiffOf<E>(db: seq<E>, cloud: seq<E>, idGen: E -> string, comparator: (E, E) -> bool): Delta<E> {
    var a, b := FromList(db, idGen), FromList(cloud, idGen);
    Delta(OnlyIn(a, b).Values(), OnlyIn(b, a).Values(), Changed(Both(a, b).Values(), comparator))
  }

  method FindDiff<E>(dbEntities: seq<E>, cloudEntities: seq<E>, idGen: E -> string, comparator: (E, E) -> bool)
    returns (d: Delta<E>)
    ensures d == DiffOf(dbEntities, cloudEntities, idGen, comparator)
  {
    var a, b := FromList(dbEntities, idGen), FromList(cloudEntities, idGen);
    FromListById(dbEntities, idGen);
    FromListById(cloudEntities, idGen);
    var dbOnly, remaining, cloudOnly := MapSegmentation(a, b);
    var entitiesChanged := DetectChanges(remaining.Values(), comparator);
    d := Delta(dbOnly.Values(), cloudOnly.Values(), entitiesChanged);
  }

  method DetectChanges<E>(records: seq<(E, E)>, comparator: (E, E) -> bool) returns (entitiesChanged: seq<(E, E)>)
    ensures entitiesChanged == Changed(records, comparator)
  {
    entitiesChanged := [];
    for i := 0 to |records|
      invariant entitiesChanged == Changed(records[..i], comparator)
    {
      assert records[..i + 1][..i] == records[..i];
      var (dbEnt, cloudEnt) := records[i];
      if !comparator(dbEnt, cloudEnt) { entitiesChanged := entitiesChanged + [(dbEnt, cloudEnt)]; }
    }
    assert records[..|records|] == records;
  }

  // What the difference means --------------------------------------------------------------------

  ghost predicate DistinctIds<E>(es: seq<E>, idGen: E -> string) {
    forall i, j :: 0 <= i < j < |es| ==> idGen(es[i]) != idGen(es[j])
  }

  ghost predicate DistinctPairs<E>(ps: seq<(E, E)>, idGen: E -> string) {
    forall i, j :: 0 <= i < j < |ps| ==> idGen(ps[i].0) != idGen(ps[j].0)
  }

  /** The entities of index `a` whose id index `b` lacks, each once. */
  ghost predicate IsOnly<E(!new)>(only: seq<E>, a: map<string, E>, b: map<string, E>, idGen: E -> string) {
    && DistinctIds(only, idGen)
    && forall e :: e in only <==> idGen(e) in a && a[idGen(e)] == e && idGen(e) !in b
  }

  /** Pairs of entities with one id, taken from both indexes, each id once. */
  ghost predicate IsShared<E(!new)>(p: (E, E), a: map<string, E>, b: map<string, E>, idGen: E -> string) {
    && idGen(p.0) == idGen(p.1)
    && idGen(p.0) in a && a[idGen(p.0)] == p.0
    && idGen(p.1) in b && b[idGen(p.1)] == p.1
  }

  ghost predicate IsChanged<E(!new)>(ps: seq<(E, E)>, a: map<string, E>, b: map<string, E>, idGen: E -> string,
                               comparator: (E, E) -> bool) {
    && DistinctPairs(ps, idGen)
    && forall p :: p in ps <==> IsShared(p, a, b, idGen) && !comparator(p.0, p.1)
  }

  /** The two id sets are split into db-only, cloud-only and shared; of the shared ids exactly those that
      the comparator tells apart are reported. */
  ghost predicate IsDelta<E(!new)>(d: Delta<E>, a: map<string, E>, b: map<string, E>, idGen: E -> string,
                             comparator: (E, E) -> bool) {
    IsOnly(d.dbOnly, a, b, idGen) && IsOnly(d.cloudOnly, b, a, idGen) && IsChanged(d.changed, a, b, idGen, comparator)
  }

  /** Every entity of an index is filed under its own id. */
  ghost predicate Indexed<E(!new)>(a: map<string, E>, idGen: E -> string) { forall k :: k in a ==> idGen(a[k]) == k }

  lemma ByIdIndexed<E(!new)>(es: seq<E>, idGen: E -> string)
    ensures Indexed(ById(es, idGen), idGen)
  {
    forall k | k in ById(es, idGen) ensures idGen(ById(es, idGen)[k]) == k { ByIdHasIds(es, idGen, k); }
  }

  /** Looking up distinct keys gives distinct values, when every value is filed under its own id. */
  lemma LookupMeans<V(!new)>(keys: seq<string>, vals: map<string, V>, idOf: V -> string)
    requires forall k :: k in keys ==> k in vals && idOf(vals[k]) == k
    requires forall i, j :: 0 <= i < j < |keys| ==> keys[i] != keys[j]
    ensures DistinctIds(Lookup(keys, vals), idOf)
    ensures forall e :: e in Lookup(keys, vals) <==> idOf(e) in keys && vals[idOf(e)] == e
  {
    LookupAll(keys, vals);
    var es := Lookup(keys, vals);
    forall i | 0 <= i < |keys| ensures es[i] == vals[keys[i]] && idOf(es[i]) == keys[i] { assert keys[i] in keys; }
    forall e | idOf(e) in keys && vals[idOf(e)] == e ensures e in es {
      var i :| 0 <= i < |keys| && keys[i] == idOf(e);
      assert es[i] == e;
    }
  }

  lemma OnlyInMeans<E(!new)>(a: JsMap<E>, b: JsMap<E>, idGen: E -> string)
    requires a.Valid() && Indexed(a.vals, idGen)
    ensures IsOnly(OnlyIn(a, b).Values(), a.vals, b.vals, idGen)
  {
    var m := OnlyIn(a, b);
    WithoutMeans(a.keys, b.vals.Keys);
    SubMeans(a, Without(a.keys, b.vals.Keys));
    LookupMeans(m.keys, m.vals, idGen);
  }

  lemma {:induction false} ChangedMeans<E(!new)>(ps: seq<(E, E)>, comparator: (E, E) -> bool, idGen: E -> string)
    requires DistinctPairs(ps, idGen)
    ensures DistinctPairs(Changed(ps, comparator), idGen)
    ensures forall p :: p in Changed(ps, comparator) <==> p in ps && !comparator(p.0, p.1)
    decreases |ps|
  {
    if ps != [] {
      var n := |ps| - 1;
      ChangedMeans(ps[..n], comparator, idGen);
      assert ps == ps[..n] + [ps[n]];
      var c := Changed(ps[..n], comparator);
      forall i | 0 <= i < |c| ensures idGen(c[i].0) != idGen(ps[n].0) {
        assert c[i] in c;
        assert c[i] in ps[..n];
      }
    }
  }

  lemma BothMeans<E(!new)>(a: JsMap<E>, b: JsMap<E>, idGen: E -> string)
    requires a.Valid() && Indexed(a.vals, idGen) && Indexed(b.vals, idGen)
    ensures var both := Both(a, b).Values();
            DistinctPairs(both, idGen) && forall p :: p in both <==> IsShared(p, a.vals, b.vals, idGen)
  {
    var m := Both(a, b);
    WithoutMeans(a.keys, a.vals.Keys - b.vals.Keys);
    PairsMean(a, b, Without(a.keys, a.vals.Keys - b.vals.Keys));
    var idOf := (p: (E, E)) => idGen(p.0);
    LookupMeans(m.keys, m.vals, idOf);
    var both := m.Values();
    forall p ensures p in both <==> IsShared(p, a.vals, b.vals, idGen) {
      assert p in both <==> idOf(p) in m.keys && m.vals[idOf(p)] == p;
    }
    forall i, j | 0 <= i < j < |both| ensures idGen(both[i].0) != idGen(both[j].0) {
      assert idOf(both[i]) != idOf(both[j]);
    }
  }

  /** findDiff partitions the ids; of two entities with one id the later counts. */
  lemma DiffPartitions<E(!new)>(db: seq<E>, cloud: seq<E>, idGen: E -> string, comparator: (E, E) -> bool)
    ensures IsDelta(DiffOf(db, cloud, idGen, comparator), ById(db, idGen), ById(cloud, idGen), idGen, comparator)
  {
    var a, b := FromList(db, idGen), FromList(cloud, idGen);
    FromListById(db, idGen);
    FromListById(cloud, idGen);
    ByIdIndexed(db, idGen);
    ByIdIndexed(cloud, idGen);
    OnlyInMeans(a, b, idGen);
    OnlyInMeans(b, a, idGen);
    BothMeans(a, b, idGen);
    ChangedMeans(Both(a, b).Values(), comparator, idGen);
  }

  /** The indexes agree id by id. */
  ghost predicate InStep<E(!new)>(a: map<string, E>, b: map<string, E>, comparator: (E, E) -> bool) {
    a.Keys == b.Keys && forall k :: k in a && k in b ==> comparator(a[k], b[k])
  }

  lemma EmptyDelta<E(!new)>(d: Delta<E>, a: map<string, E>, b: map<string, E>, idGen: E -> string,
                           comparator: (E, E) -> bool)
    requires IsDelta(d, a, b, idGen, comparator) && Indexed(a, idGen) && Indexed(b, idGen)
    ensures d == Delta([], [], []) <==> InStep(a, b, comparator)
  {
    if d == Delta([], [], []) {
      forall k | k in a ensures k in b { assert a[k] !in d.dbOnly; }
      forall k | k in b ensures k in a { assert b[k] !in d.cloudOnly; }
      forall k | k in a && k in b ensures comparator(a[k], b[k]) {
        assert (a[k], b[k]) !in d.changed;
        assert IsShared((a[k], b[k]), a, b, idGen);
      }
    } else if d.dbOnly != [] {
      assert d.dbOnly[0] in d.dbOnly;
    } else if d.cloudOnly != [] {
      assert d.cloudOnly[0] in d.cloudOnly;
    } else {
      assert d.changed[0] in d.changed;
      assert IsShared(d.changed[0], a, b, idGen);
    }
  }

  /** The difference is empty exactly when the lists agree. */
  lemma EmptyIffInStep<E(!new)>(db: seq<E>, cloud: seq<E>, idGen: E -> string, comparator: (E, E) -> bool)
    ensures DiffOf(db, cloud, idGen, comparator) == Delta([], [], [])
       <==> InStep(ById(db, idGen), ById(cloud, idGen), comparator)
  {
    DiffPartitions(db, cloud, idGen, comparator);
    ByIdIndexed(db, idGen);
    ByIdIndexed(cloud, idGen);
    EmptyDelta(DiffOf(db, cloud, idGen, comparator), ById(db, idGen), ById(cloud, idGen), idGen, comparator);
  }

  /** The cloud list after the difference has been carried out on it. */
  ghost function Patch<E>(cloud: seq<E>, d: Delta<E>, idGen: E -> string): (es: seq<E>) {
    var gone := set e | e in d.cloudOnly :: idGen(e);
    Kept(cloud, gone, idGen) + Firsts(d.changed) + d.dbOnly
  }

  function Kept<E>(es: seq<E>, gone: set<string>, idGen: E -> string): seq<E> {
    if es == [] then []
    else
      var e := es[|es| - 1];
      Kept(es[..|es| - 1], gone, idGen) + if idGen(e) in gone then [] else [e]
  }

  function Firsts<E>(ps: seq<(E, E)>): (es: seq<E>)
    ensures |es| == |ps| && forall i :: 0 <= i < |es| ==> es[i] == ps[i].0
  {
    seq(|ps|, i requires 0 <= i < |ps| => ps[i].0)
  }

  lemma {:induction false} KeptById<E>(es: seq<E>, gone: set<string>, idGen: E -> string)
    ensures ById(Kept(es, gone, idGen), idGen) == ById(es, idGen) - gone
    decreases |es|
  {
    if es != [] {
      var n := |es| - 1;
      KeptById(es[..n], gone, idGen);
      ByIdConcat(Kept(es[..n], gone, idGen), if idGen(es[n]) in gone then [] else [es[n]], idGen);
      assert ById([es[n]], idGen) == map[idGen(es[n]) := es[n]];
    }
  }

  lemma {:induction false} ByIdConcat<E>(a: seq<E>, b: seq<E>, idGen: E -> string)
    ensures ById(a + b, idGen) == ById(a, idGen) + ById(b, idGen)
    decreases |b|
  {
    if b == [] {
      assert a + b == a;
    } else {
      var n := |b| - 1;
      var e := b[n];
      ByIdConcat(a, b[..n], idGen);
      assert (a + b)[..|a + b| - 1] == a + b[..n] && (a + b)[|a + b| - 1] == e;
      assert ById(a + b, idGen) == ById(a + b[..n], idGen)[idGen(e) := e];
      assert ById(b, idGen) == ById(b[..n], idGen)[idGen(e) := e];
    }
  }

  /** Looking one id up after the patch. */
  lemma PatchedLookup<E(!new)>(d: Delta<E>, a: map<string, E>, b: map<string, E>, idGen: E -> string,
                              comparator: (E, E) -> bool, m: map<string, E>, k: string)
    requires IsDelta(d, a, b, idGen, comparator) && Indexed(a, idGen) && Indexed(b, idGen)
    requires m == b - (set e | e in d.cloudOnly :: idGen(e)) + ById(Firsts(d.changed), idGen) + ById(d.dbOnly, idGen)
    ensures k in m <==> k in a
    ensures k in m ==> m[k] == a[k] || (k in b && comparator(a[k], b[k]) && m[k] == b[k])
  {
    var firsts := Firsts(d.changed);
    ByIdIsLatest(firsts, idGen, k);
    ByIdIsLatest(d.dbOnly, idGen, k);
    if k in a && k !in b {
      var i :| 0 <= i < |d.dbOnly| && d.dbOnly[i] == a[k];
    } else if k in a && !comparator(a[k], b[k]) {
      assert IsShared((a[k], b[k]), a, b, idGen);
      var i :| 0 <= i < |d.changed| && d.changed[i] == (a[k], b[k]);
      assert idGen(firsts[i]) == k;
    } else if k in b && k !in a {
      assert b[k] in d.cloudOnly;
    }
    if k in ById(d.dbOnly, idGen) {
      var i :| IsLatest(d.dbOnly, idGen, k, i) && ById(d.dbOnly, idGen)[k] == d.dbOnly[i];
      assert d.dbOnly[i] in d.dbOnly;
    } else if k in ById(firsts, idGen) {
      var i :| IsLatest(firsts, idGen, k, i) && ById(firsts, idGen)[k] == firsts[i];
      assert d.changed[i] in d.changed;
      assert IsShared(d.changed[i], a, b, idGen);
    }
  }

  lemma PatchedInStep<E(!new)>(d: Delta<E>, a: map<string, E>, b: map<string, E>, idGen: E -> string,
                              comparator: (E, E) -> bool, m: map<string, E>)
    requires IsDelta(d, a, b, idGen, comparator) && Indexed(a, idGen) && Indexed(b, idGen)
    requires m == b - (set e | e in d.cloudOnly :: idGen(e)) + ById(Firsts(d.changed), idGen) + ById(d.dbOnly, idGen)
    requires forall e :: comparator(e, e)
    ensures InStep(a, m, comparator)
  {
    forall k ensures k in m <==> k in a
             ensures k in m && k in a ==> comparator(a[k], m[k])
    {
      PatchedLookup(d, a, b, idGen, comparator, m, k);
    }
  }

  lemma PatchById<E(!new)>(cloud: seq<E>, d: Delta<E>, idGen: E -> string)
    ensures ById(Patch(cloud, d, idGen), idGen)
         == ById(cloud, idGen) - (set e | e in d.cloudOnly :: idGen(e))
            + ById(Firsts(d.changed), idGen) + ById(d.dbOnly, idGen)
  {
    var gone := set e | e in d.cloudOnly :: idGen(e);
    KeptById(cloud, gone, idGen);
    ByIdConcat(Kept(cloud, gone, idGen) + Firsts(d.changed), d.dbOnly, idGen);
    ByIdConcat(Kept(cloud, gone, idGen), Firsts(d.changed), idGen);
  }

  /** Carrying out the difference on the cloud list leaves nothing to do, for a reflexive comparator. */
  lemma PatchSettles<E(!new)>(db: seq<E>, cloud: seq<E>, idGen: E -> string, comparator: (E, E) -> bool)
    requires forall e :: comparator(e, e)
    ensures var d := DiffOf(db, cloud, idGen, comparator);
            DiffOf(db, Patch(cloud, d, idGen), idGen, comparator) == Delta([], [], [])
  {
    var d := DiffOf(db, cloud, idGen, comparator);
    DiffPartitions(db, cloud, idGen, comparator);
    ByIdIndexed(db, idGen);
    ByIdIndexed(cloud, idGen);
    PatchById(cloud, d, idGen);
    PatchedInStep(d, ById(db, idGen), ById(cloud, idGen), idGen, comparator, ById(Patch(cloud, d, idGen), idGen));
    EmptyIffInStep(db, Patch(cloud, d, idGen), idGen, comparator);
  }

  /** Swapping the inputs swaps the outputs, for a symmetric comparator. */
  lemma SwapSwaps<E(!new)>(db: seq<E>, cloud: seq<E>, idGen: E -> string, comparator: (E, E) -> bool)
    requires forall x, y :: comparator(x, y) == comparator(y, x)
    ensures var d, s := DiffOf(db, cloud, idGen, comparator), DiffOf(cloud, db, idGen, comparator);
            && s.dbOnly == d.cloudOnly && s.cloudOnly == d.dbOnly
            && forall x, y :: (x, y) in s.changed <==> (y, x) in d.changed
  {
    DiffPartitions(db, cloud, idGen, comparator);
    DiffPartitions(cloud, db, idGen, comparator);
    var d, s := DiffOf(db, cloud, idGen, comparator), DiffOf(cloud, db, idGen, comparator);
    var a, b := ById(db, idGen), ById(cloud, idGen);
    forall x, y ensures (x, y) in s.changed <==> (y, x) in d.changed {
      assert IsShared((x, y), b, a, idGen) <==> IsShared((y, x), a, b, idGen);
    }
  }
}
