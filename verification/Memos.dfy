/** What `memo` of `Crud` in src/modules/interfaces.ts computes, on any kind of reference: a table from ids to
    canonical objects, over objects that alias one another in any way. */
module Memos {

  /** The properties of an entity that are set. */
  type Fields = map<string, string>

  // What memo computes, on any kind of reference ------------------------------------------------------

  /** The objects' fields, the memo table and the output slots so far. */
  datatype Memoized<R(==)> = Memoized(heap: map<R, Fields>, table: map<string, R>, slots: seq<R>) {
    function Get(r: R): Fields { if r in heap then heap[r] else map[] }

    /** One turn of `es.forEach`. */
    function Take(idOf: Fields -> string, e: R): Memoized<R> {
      var id := idOf(Get(e));
      if id !in table then Memoized(heap, table[id := e], slots + [e])
      else
        var canonical := table[id];
        Memoized(heap[canonical := Get(canonical) + Get(e)], table, slots + [canonical])
    }

    function TakeAll(idOf: Fields -> string, es: seq<R>): Memoized<R> {
      if es == [] then this else TakeAll(idOf, es[..|es| - 1]).Take(idOf, es[|es| - 1])
    }
  }

  /** Overwriting an entity by one with the same id keeps the id. */
  ghost predicate Stable(idOf: Fields -> string) {
    forall a, b :: idOf(a) == idOf(b) ==> idOf(a + b) == idOf(b)
  }

  /** Every memoized object is filed under its id, or is an empty placeholder. */
  ghost predicate Filed<R>(s: Memoized<R>, idOf: Fields -> string) {
    && (forall k :: k in s.table ==> s.Get(s.table[k]) == map[] || idOf(s.Get(s.table[k])) == k)
    && forall k, l :: k in s.table && l in s.table && s.table[k] == s.table[l] ==> k == l
  }

  /** Whatever aliases there are: memoized objects stay where they are. */
  lemma {:induction false} CanonicalStays<R>(s: Memoized<R>, idOf: Fields -> string, es: seq<R>)
    ensures |s.TakeAll(idOf, es).slots| == |s.slots| + |es|
    ensures s.slots <= s.TakeAll(idOf, es).slots
    ensures forall k :: k in s.table ==> k in s.TakeAll(idOf, es).table && s.TakeAll(idOf, es).table[k] == s.table[k]
    decreases |es|
  {
    if es != [] { CanonicalStays(s, idOf, es[..|es| - 1]); }
  }

  /** The fields of the entry `c` of id `k`, overwritten in order by those inputs that have the id and are
      not `c` itself. */
  function Over<R>(s: Memoized<R>, idOf: Fields -> string, c: R, es: seq<R>, k: string): Fields {
    if es == [] then s.Get(c)
    else
      var e, f := es[|es| - 1], Over(s, idOf, c, es[..|es| - 1], k);
      if e != c && idOf(s.Get(e)) == k then f + s.Get(e) else f
  }

  /** Every entry holds its own fields overwritten by the inputs with its id, in order. */
  ghost predicate Overlaid<R>(s: Memoized<R>, t: Memoized<R>, idOf: Fields -> string, es: seq<R>) {
    forall k :: k in t.table ==> t.Get(t.table[k]) == Over(s, idOf, t.table[k], es, k)
  }

  ghost predicate Entry<R>(t: Memoized<R>, r: R) { exists k :: k in t.table && t.table[k] == r }

  /** Objects that are not memoized are as they were. */
  ghost predicate OthersKept<R>(s: Memoized<R>, t: Memoized<R>) {
    forall r :: r in s.heap ==> Entry(t, r) || t.Get(r) == s.Get(r)
  }

  /** Slot i holds the entry of the id of input i; entries are old ones or inputs. */
  ghost predicate Slotted<R>(s: Memoized<R>, t: Memoized<R>, idOf: Fields -> string, es: seq<R>) {
    && |t.slots| == |es|
    && (forall i :: 0 <= i < |es| ==> var id := idOf(s.Get(es[i])); id in t.table && t.slots[i] == t.table[id])
    && (forall k :: k in s.table ==> k in t.table && t.table[k] == s.table[k])
    && (forall k :: k in t.table ==> k in s.table || exists i :: Brings(s, t, idOf, es, k, i))
  }

  /** The entry of `k` is input i, which has that id. */
  ghost predicate Brings<R>(s: Memoized<R>, t: Memoized<R>, idOf: Fields -> string, es: seq<R>, k: string, i: int) {
    0 <= i < |es| && k in t.table && t.table[k] == es[i] && idOf(s.Get(es[i])) == k
  }

  /** Objects with fields keep having some, and their id. */
  ghost predicate IdsKept<R>(s: Memoized<R>, t: Memoized<R>, idOf: Fields -> string) {
    forall r :: r in s.heap && s.Get(r) != map[] ==> t.Get(r) != map[] && idOf(t.Get(r)) == idOf(s.Get(r))
  }

  /** For inputs with some field, whatever aliases there are among them and with the memo: every slot holds
      the memo entry of its input's id, so that equal ids share one reference; memoized objects stay; every
      entry's fields are its own overwritten by the inputs with its id in order; all other objects are as they
      were; and nothing changes its id. */
  lemma {:induction false} MemoMeans<R>(s: Memoized<R>, idOf: Fields -> string, es: seq<R>)
    requires Stable(idOf) && Filed(s, idOf) && s.slots == [] && forall e :: e in es ==> s.Get(e) != map[]
    ensures var t := s.TakeAll(idOf, es);
            Filed(t, idOf) && Slotted(s, t, idOf, es) && Overlaid(s, t, idOf, es) && OthersKept(s, t)
                && IdsKept(s, t, idOf)
    decreases |es|
  {
    if es != [] {
      var n := |es| - 1;
      var e := es[n];
      MemoMeans(s, idOf, es[..n]);
      var t := s.TakeAll(idOf, es[..n]);
      assert e in es;
      assert t.Get(e) != map[] && idOf(t.Get(e)) == idOf(s.Get(e));
      TakeFiled(t, idOf, e);
      TakeKeepsIds(s, t, idOf, e);
      TakeOthers(s, t, idOf, e);
      TakeSlotted(s, t, idOf, es, e);
      TakeOverlaid(s, t, idOf, es, e);
    }
  }

  lemma TakeFiled<R>(t: Memoized<R>, idOf: Fields -> string, e: R)
    requires Stable(idOf) && Filed(t, idOf) && t.Get(e) != map[]
    ensures Filed(t.Take(idOf, e), idOf)
  {
    var u, id := t.Take(idOf, e), idOf(t.Get(e));
    if id in t.table {
      var c := t.table[id];
      MergedId(idOf, t.Get(c), t.Get(e));
      forall k | k in u.table && k != id ensures u.Get(u.table[k]) == t.Get(t.table[k]) { assert t.table[k] != c; }
    } else {
      forall k | k in t.table ensures t.table[k] != e {}
    }
  }

  /** An entity overwritten by one with its id keeps the id; so does a placeholder that is filled. */
  lemma MergedId(idOf: Fields -> string, a: Fields, b: Fields)
    requires Stable(idOf) && (a == map[] || idOf(a) == idOf(b)) && b != map[]
    ensures a + b != map[] && idOf(a + b) == idOf(b)
  {
    var k :| k in b;
    assert k in a + b;
    if a == map[] { assert a + b == b; }
  }

  lemma TakeKeepsIds<R>(s: Memoized<R>, t: Memoized<R>, idOf: Fields -> string, e: R)
    requires Stable(idOf) && Filed(t, idOf) && IdsKept(s, t, idOf) && t.Get(e) != map[]
    ensures IdsKept(s, t.Take(idOf, e), idOf)
  {
    var id := idOf(t.Get(e));
    if id in t.table { MergedId(idOf, t.Get(t.table[id]), t.Get(e)); }
  }

  lemma TakeOthers<R>(s: Memoized<R>, t: Memoized<R>, idOf: Fields -> string, e: R)
    requires OthersKept(s, t)
    ensures OthersKept(s, t.Take(idOf, e))
  {
    var u := t.Take(idOf, e);
    forall r | r in s.heap ensures Entry(u, r) || u.Get(r) == s.Get(r) {
      if Entry(t, r) {
        var k :| k in t.table && t.table[k] == r;
        assert k in u.table && u.table[k] == r;
      } else if idOf(t.Get(e)) in t.table {
        assert t.table[idOf(t.Get(e))] != r;
      }
    }
  }

  lemma TakeSlotted<R>(s: Memoized<R>, t: Memoized<R>, idOf: Fields -> string, es: seq<R>, e: R)
    requires es != [] && e == es[|es| - 1] && idOf(t.Get(e)) == idOf(s.Get(e)) && Slotted(s, t, idOf, es[..|es| - 1])
    ensures Slotted(s, t.Take(idOf, e), idOf, es)
  {
    var u, n := t.Take(idOf, e), |es| - 1;
    assert es == es[..n] + [e];
    assert u.table[idOf(s.Get(e))] == u.slots[n];
    forall i | 0 <= i < n ensures var id := idOf(s.Get(es[i])); id in u.table && u.slots[i] == u.table[id] {
      assert es[..n][i] == es[i];
    }
    forall k | k in u.table && k !in s.table ensures exists i :: Brings(s, u, idOf, es, k, i) {
      if k in t.table {
        var i :| Brings(s, t, idOf, es[..n], k, i);
        assert Brings(s, u, idOf, es, k, i);
      } else {
        assert Brings(s, u, idOf, es, k, n);
      }
    }
  }

  /** Without an input of its id an entry has the fields it had. */
  lemma {:induction false} OverNone<R>(s: Memoized<R>, idOf: Fields -> string, c: R, es: seq<R>, k: string)
    requires forall i :: 0 <= i < |es| ==> idOf(s.Get(es[i])) != k
    ensures Over(s, idOf, c, es, k) == s.Get(c)
    decreases |es|
  {
    if es != [] { OverNone(s, idOf, c, es[..|es| - 1], k); }
  }

  lemma OverNext<R>(s: Memoized<R>, idOf: Fields -> string, c: R, es: seq<R>, k: string)
    requires es != []
    ensures var f, e := Over(s, idOf, c, es[..|es| - 1], k), es[|es| - 1];
            Over(s, idOf, c, es, k) == if e != c && idOf(s.Get(e)) == k then f + s.Get(e) else f
  {
  }

  lemma TakeOverlaid<R>(s: Memoized<R>, t: Memoized<R>, idOf: Fields -> string, es: seq<R>, e: R)
    requires es != [] && e == es[|es| - 1] && e in s.heap && t.Get(e) != map[] && idOf(t.Get(e)) == idOf(s.Get(e))
    requires Filed(t, idOf) && OthersKept(s, t) && Slotted(s, t, idOf, es[..|es| - 1])
    requires Overlaid(s, t, idOf, es[..|es| - 1])
    ensures Overlaid(s, t.Take(idOf, e), idOf, es)
  {
    var u, id, n := t.Take(idOf, e), idOf(s.Get(e)), |es| - 1;
    forall k | k in u.table ensures u.Get(u.table[k]) == Over(s, idOf, u.table[k], es, k) {
      OverNext(s, idOf, u.table[k], es, k);
      if k != id {
        assert t.table[k] == u.table[k] && u.Get(u.table[k]) == t.Get(t.table[k]);
      } else if id in t.table {
        EntryOverlaid(s, t, idOf, es, e);
      } else {
        forall i | 0 <= i < n ensures idOf(s.Get(es[..n][i])) != id {}
        OverNone(s, idOf, e, es[..n], id);
        assert !Entry(t, e);
      }
    }
  }

  /** The step for an id that has an entry. */
  lemma EntryOverlaid<R>(s: Memoized<R>, t: Memoized<R>, idOf: Fields -> string, es: seq<R>, e: R)
    requires es != [] && e == es[|es| - 1] && e in s.heap && t.Get(e) != map[] && idOf(t.Get(e)) == idOf(s.Get(e))
    requires Filed(t, idOf) && OthersKept(s, t) && Overlaid(s, t, idOf, es[..|es| - 1]) && idOf(s.Get(e)) in t.table
    ensures var u, id := t.Take(idOf, e), idOf(s.Get(e));
            u.Get(u.table[id]) == Over(s, idOf, u.table[id], es, id)
  {
    var id := idOf(s.Get(e));
    var c := t.table[id];
    OverNext(s, idOf, c, es, id);
    if e == c {
      assert t.Get(c) + t.Get(e) == t.Get(c);
    } else {
      assert !Entry(t, e);
    }
  }

  lemma TakeNext<R>(s: Memoized<R>, idOf: Fields -> string, es: seq<R>, i: nat)
    requires i < |es|
    ensures s.TakeAll(idOf, es[..i + 1]) == s.TakeAll(idOf, es[..i]).Take(idOf, es[i])
  {
    assert es[..i + 1][..i] == es[..i];
  }

  // In front of a store, on any kind of reference -------------------------------------------------------

  /** Entries hold what the store has; those of the ids in `open` are only partly filled. */
  ghost predicate Backs<R>(
    t: Memoized<R>, idOf: Fields -> string, columns: set<string>, store: map<string, Fields>, open: set<string>)
  {
    && (forall k :: k in t.table ==>
          if k in open then t.Get(t.table[k]).Keys <= columns else k in store && t.Get(t.table[k]) == store[k])
    && forall k, l :: k in t.table && l in t.table && t.table[k] == t.table[l] ==> k == l
  }

  /** The store after writing these entities in order. */
  function Stored(store: map<string, Fields>, idOf: Fields -> string, written: seq<Fields>): map<string, Fields> {
    if written == [] then store
    else
      var w := written[|written| - 1];
      Stored(store, idOf, written[..|written| - 1])[idOf(w) := w]
  }

  function Ids(idOf: Fields -> string, es: seq<Fields>): set<string> { set e | e in es :: idOf(e) }

  function FieldsOf<R>(s: Memoized<R>, es: seq<R>): (fs: seq<Fields>)
    ensures |fs| == |es| && forall i :: 0 <= i < |fs| ==> fs[i] == s.Get(es[i])
  {
    seq(|es|, i requires 0 <= i < |es| => s.Get(es[i]))
  }

  /** Objects that are neither memoized nor listed twice, with all properties set. */
  ghost predicate Arrived<R>(s: Memoized<R>, es: seq<R>, columns: set<string>) {
    && (forall i, j :: 0 <= i < j < |es| ==> es[i] != es[j])
    && (forall i :: 0 <= i < |es| ==> es[i] in s.heap && !Entry(s, es[i]) && s.Get(es[i]).Keys == columns)
  }

  ghost predicate Full(store: map<string, Fields>, columns: set<string>) {
    forall k :: k in store ==> store[k].Keys == columns
  }

  /** Entries stay, the given ids are there, and new entries are inputs. */
  ghost predicate Moved<R>(s: Memoized<R>, t: Memoized<R>, es: seq<R>, ids: set<string>) {
    && t.table.Keys == s.table.Keys + ids
    && (forall k :: k in s.table ==> k in t.table && t.table[k] == s.table[k])
    && (forall k :: k in t.table ==> k in s.table || t.table[k] in es)
  }

  lemma Overwrites(a: Fields, b: Fields)
    requires a.Keys <= b.Keys
    ensures a + b == b
  {
  }

  /** One turn, for an object with all properties set. */
  lemma TakeIsFull<R>(t: Memoized<R>, idOf: Fields -> string, columns: set<string>,
                            store: map<string, Fields>, open: set<string>, e: R)
    requires Backs(t, idOf, columns, store, open) && Full(store, columns)
    requires !Entry(t, e) && t.Get(e).Keys == columns
    ensures var u, id := t.Take(idOf, e), idOf(t.Get(e));
            && u.table == (if id in t.table then t.table else t.table[id := e])
            && u.Get(u.table[id]) == t.Get(e)
            && forall k :: k in t.table && k != id ==> u.Get(t.table[k]) == t.Get(t.table[k])
  {
    var id := idOf(t.Get(e));
    if id in t.table { Overwrites(t.Get(t.table[id]), t.Get(e)); }
  }

  lemma TakeArrived<R>(t: Memoized<R>, idOf: Fields -> string, columns: set<string>,
                             store: map<string, Fields>, open: set<string>, e: R)
    requires Backs(t, idOf, columns, store, open) && Full(store, columns)
    requires !Entry(t, e) && t.Get(e).Keys == columns
    ensures var id := idOf(t.Get(e));
            Backs(t.Take(idOf, e), idOf, columns, store[id := t.Get(e)], open - {id})
  {
    var u, id := t.Take(idOf, e), idOf(t.Get(e));
    TakeIsFull(t, idOf, columns, store, open, e);
    forall k, l | k in u.table && l in u.table && u.table[k] == u.table[l] ensures k == l {
      assert k in t.table ==> t.table[k] != e;
      assert l in t.table ==> t.table[l] != e;
    }
  }

  /** The objects are memoized over `s`: the entries hold what the store has now, and no object has moved. */
  ghost predicate Landed<R>(s: Memoized<R>, t: Memoized<R>, idOf: Fields -> string, columns: set<string>,
                            store: map<string, Fields>, open: set<string>, es: seq<R>, ids: set<string>)
  {
    && Backs(t, idOf, columns, store, open) && Full(store, columns)
    && Moved(s, t, es, ids) && OthersKept(s, t)
  }

  lemma ArrivedStep<R>(s: Memoized<R>, t: Memoized<R>, idOf: Fields -> string, columns: set<string>,
                       store: map<string, Fields>, open: set<string>, es: seq<R>, ids: set<string>)
    requires es != [] && Arrived(s, es, columns) && Landed(s, t, idOf, columns, store, open, es[..|es| - 1], ids)
    ensures var e := es[|es| - 1];
            var f := s.Get(e);
            Landed(s, t.Take(idOf, e), idOf, columns, store[idOf(f) := f], open - {idOf(f)}, es, ids + {idOf(f)})
  {
    var e := es[|es| - 1];
    var f := s.Get(e);
    LateComer(s, t, es, ids);
    assert t.Get(e) == f;
    TakeIsFull(t, idOf, columns, store, open, e);
    TakeArrived(t, idOf, columns, store, open, e);
    TakeOthers(s, t, idOf, e);
    assert Moved(s, t.Take(idOf, e), es, ids + {idOf(f)}) by { MovedNext(s, t, t.Take(idOf, e), es, ids, idOf(f)); }
  }

  /** Slot i holds the entry of the id of input i. */
  ghost predicate SlotsHold<R>(s: Memoized<R>, t: Memoized<R>, idOf: Fields -> string, es: seq<R>) {
    |t.slots| == |es| && forall i :: 0 <= i < |es| ==> SlotHolds(t, idOf(s.Get(es[i])), i)
  }

  ghost predicate SlotHolds<R>(t: Memoized<R>, id: string, i: nat) {
    i < |t.slots| && id in t.table && t.slots[i] == t.table[id]
  }

  lemma SlotsNext<R>(s: Memoized<R>, t: Memoized<R>, idOf: Fields -> string, es: seq<R>)
    requires es != [] && SlotsHold(s, t, idOf, es[..|es| - 1]) && t.Get(es[|es| - 1]) == s.Get(es[|es| - 1])
    ensures SlotsHold(s, t.Take(idOf, es[|es| - 1]), idOf, es)
  {
    var u, n := t.Take(idOf, es[|es| - 1]), |es| - 1;
    forall i | 0 <= i < n ensures SlotHolds(u, idOf(s.Get(es[i])), i) {
      assert es[..n][i] == es[i];
      assert SlotHolds(t, idOf(s.Get(es[i])), i);
    }
  }

  lemma {:induction false} ArrivedSlots<R>(s: Memoized<R>, idOf: Fields -> string, columns: set<string>,
                                           store: map<string, Fields>, open: set<string>, es: seq<R>)
    requires Backs(s, idOf, columns, store, open) && Arrived(s, es, columns) && Full(store, columns) && s.slots == []
    ensures SlotsHold(s, s.TakeAll(idOf, es), idOf, es)
    decreases |es|
  {
    if es != [] {
      var n := |es| - 1;
      ArrivedPrefix(s, es, columns);
      ArrivedSlots(s, idOf, columns, store, open, es[..n]);
      MemoArrived(s, idOf, columns, store, open, es[..n]);
      var t := s.TakeAll(idOf, es[..n]);
      LateComer(s, t, es, Ids(idOf, FieldsOf(s, es[..n])));
      SlotsNext(s, t, idOf, es);
    }
  }

  lemma ArrivedPrefix<R>(s: Memoized<R>, es: seq<R>, columns: set<string>)
    requires es != [] && Arrived(s, es, columns)
    ensures Arrived(s, es[..|es| - 1], columns) && FieldsOf(s, es[..|es| - 1]) == FieldsOf(s, es)[..|es| - 1]
  {
  }

  /** Memoizing what the store returned closes the gaps, and moves no object. */
  lemma {:induction false} MemoArrived<R>(s: Memoized<R>, idOf: Fields -> string, columns: set<string>,
                                          store: map<string, Fields>, open: set<string>, es: seq<R>)
    requires Backs(s, idOf, columns, store, open) && Arrived(s, es, columns) && Full(store, columns) && s.slots == []
    ensures var fs := FieldsOf(s, es);
            Landed(s, s.TakeAll(idOf, es), idOf, columns, Stored(store, idOf, fs), open - Ids(idOf, fs), es,
                Ids(idOf, fs))
    decreases |es|
  {
    if es != [] {
      var n, fs := |es| - 1, FieldsOf(s, es);
      ArrivedPrefix(s, es, columns);
      MemoArrived(s, idOf, columns, store, open, es[..n]);
      ArrivedStep(s, s.TakeAll(idOf, es[..n]), idOf, columns, Stored(store, idOf, fs[..n]),
                  open - Ids(idOf, fs[..n]), es, Ids(idOf, fs[..n]));
      IdsNext(idOf, fs);
      assert open - Ids(idOf, fs[..n]) - {idOf(fs[n])} == open - Ids(idOf, fs);
    } else {
      assert open - {} == open;
    }
  }

  lemma MovedNext<R>(s: Memoized<R>, t: Memoized<R>, u: Memoized<R>, es: seq<R>, ids: set<string>, id: string)
    requires es != [] && Moved(s, t, es[..|es| - 1], ids)
    requires u.table == if id in t.table then t.table else t.table[id := es[|es| - 1]]
    ensures Moved(s, u, es, ids + {id})
  {
    forall k | k in u.table && k !in s.table ensures u.table[k] in es {
      if k in t.table { assert t.table[k] in es[..|es| - 1]; }
    }
  }

  lemma LateComer<R>(s: Memoized<R>, t: Memoized<R>, es: seq<R>, ids: set<string>)
    requires es != [] && !Entry(s, es[|es| - 1]) && forall i, j :: 0 <= i < j < |es| ==> es[i] != es[j]
    requires Moved(s, t, es[..|es| - 1], ids)
    ensures !Entry(t, es[|es| - 1])
  {
    forall k | k in t.table ensures t.table[k] != es[|es| - 1] {
      if t.table[k] in es[..|es| - 1] {
        var i :| 0 <= i < |es| - 1 && es[i] == t.table[k];
      }
    }
  }

  /** Every entity of the store is full and filed under its id. */
  ghost predicate FiledFull(store: map<string, Fields>, idOf: Fields -> string, columns: set<string>) {
    Full(store, columns) && forall id :: id in store ==> idOf(store[id]) == id
  }

  lemma {:induction false} WrittenStore(store: map<string, Fields>, idOf: Fields -> string, columns: set<string>,
                                        written: seq<Fields>)
    requires FiledFull(store, idOf, columns) && forall w :: w in written ==> w.Keys == columns
    ensures FiledFull(Stored(store, idOf, written), idOf, columns)
    decreases |written|
  {
    if written != [] {
      WrittenStore(store, idOf, columns, written[..|written| - 1]);
      assert written[|written| - 1] in written;
    }
  }

  lemma IdsNext(idOf: Fields -> string, fs: seq<Fields>)
    requires fs != []
    ensures Ids(idOf, fs) == Ids(idOf, fs[..|fs| - 1]) + {idOf(fs[|fs| - 1])}
  {
    assert fs == fs[..|fs| - 1] + [fs[|fs| - 1]];
  }

  lemma IdIn<R>(s: Memoized<R>, idOf: Fields -> string, es: seq<R>, k: string)
    ensures k in Ids(idOf, FieldsOf(s, es)) <==> exists i :: 0 <= i < |es| && idOf(s.Get(es[i])) == k
  {
    var fs := FieldsOf(s, es);
    if i :| 0 <= i < |es| && idOf(s.Get(es[i])) == k { assert fs[i] in fs; }
    if k in Ids(idOf, fs) {
      var f :| f in fs && idOf(f) == k;
      var i :| 0 <= i < |fs| && fs[i] == f;
      assert idOf(s.Get(es[i])) == k;
    }
  }

  /** Memoizing inputs before they are written leaves only their ids open. */
  lemma MemoOpens<R>(s: Memoized<R>, idOf: Fields -> string, columns: set<string>, store: map<string, Fields>,
                           es: seq<R>)
    requires Stable(idOf) && Filed(s, idOf) && s.slots == [] && Backs(s, idOf, columns, store, {})
    requires Full(store, columns)
    requires forall e :: e in es ==> s.Get(e) != map[] && s.Get(e).Keys <= columns
    ensures var t, ids := s.TakeAll(idOf, es), Ids(idOf, FieldsOf(s, es));
            && Backs(t, idOf, columns, store, ids) && t.table.Keys == s.table.Keys + ids
            && Filed(t, idOf) && Slotted(s, t, idOf, es) && IdsKept(s, t, idOf)
  {
    var t := s.TakeAll(idOf, es);
    MemoMeans(s, idOf, es);
    OpenKeys(s, t, idOf, es);
    OpenEntries(s, t, idOf, columns, store, es);
  }

  lemma OpenKeys<R>(s: Memoized<R>, t: Memoized<R>, idOf: Fields -> string, es: seq<R>)
    requires Slotted(s, t, idOf, es)
    ensures t.table.Keys == s.table.Keys + Ids(idOf, FieldsOf(s, es))
  {
    forall k ensures k in t.table <==> k in s.table || k in Ids(idOf, FieldsOf(s, es)) {
      IdIn(s, idOf, es, k);
      if k in t.table && k !in s.table { var i :| Brings(s, t, idOf, es, k, i); }
    }
  }

  lemma OpenEntries<R>(s: Memoized<R>, t: Memoized<R>, idOf: Fields -> string, columns: set<string>,
                             store: map<string, Fields>, es: seq<R>)
    requires Backs(s, idOf, columns, store, {}) && Full(store, columns)
    requires Filed(t, idOf) && Slotted(s, t, idOf, es) && Overlaid(s, t, idOf, es)
    requires forall e :: e in es ==> s.Get(e).Keys <= columns
    ensures Backs(t, idOf, columns, store, Ids(idOf, FieldsOf(s, es)))
  {
    forall k | k in t.table
      ensures if k in Ids(idOf, FieldsOf(s, es)) then t.Get(t.table[k]).Keys <= columns
              else k in store && t.Get(t.table[k]) == store[k]
    {
      OpenEntry(s, t, idOf, columns, store, es, k);
    }
  }

  lemma OpenEntry<R>(s: Memoized<R>, t: Memoized<R>, idOf: Fields -> string, columns: set<string>,
                           store: map<string, Fields>, es: seq<R>, k: string)
    requires Backs(s, idOf, columns, store, {}) && Full(store, columns)
    requires Slotted(s, t, idOf, es) && Overlaid(s, t, idOf, es) && k in t.table
    requires forall e :: e in es ==> s.Get(e).Keys <= columns
    ensures if k in Ids(idOf, FieldsOf(s, es)) then t.Get(t.table[k]).Keys <= columns
            else k in store && t.Get(t.table[k]) == store[k]
  {
    IdIn(s, idOf, es, k);
    if k !in s.table { var i :| Brings(s, t, idOf, es, k, i); }
    OverKeys(s, idOf, t.table[k], es, k, columns);
    if k !in Ids(idOf, FieldsOf(s, es)) { OverNone(s, idOf, t.table[k], es, k); }
  }

  lemma {:induction false} OverKeys<R>(s: Memoized<R>, idOf: Fields -> string, c: R, es: seq<R>, k: string,
      columns: set<string>)
    requires s.Get(c).Keys <= columns && forall i :: 0 <= i < |es| ==> s.Get(es[i]).Keys <= columns
    ensures Over(s, idOf, c, es, k).Keys <= columns
    decreases |es|
  {
    if es != [] { OverKeys(s, idOf, c, es[..|es| - 1], k, columns); }
  }

  /** New objects `es` were memoized: no entry moves, their ids are there, new entries are among them, and
      every slot holds the entry of its id. */
  ghost predicate Entered<R>(idOf: Fields -> string, memo: map<string, R>, memo': map<string, R>,
                             es: seq<R>, written: seq<Fields>, slots: seq<R>)
  {
    && memo'.Keys == memo.Keys + Ids(idOf, written)
    && (forall k :: k in memo' ==> if k in memo then memo'[k] == memo[k] else memo'[k] in es)
    && |slots| == |written|
    && forall i :: 0 <= i < |written| ==> idOf(written[i]) in memo' && slots[i] == memo'[idOf(written[i])]
  }

  /** Memoizing new objects that cover the open ids, over a store that has what they hold. */
  lemma EnteredValues<R>(s: Memoized<R>, idOf: Fields -> string, columns: set<string>, store: map<string, Fields>,
                         open: set<string>, es: seq<R>, written: seq<Fields>)
    requires Backs(s, idOf, columns, store, open) && Arrived(s, es, columns) && FieldsOf(s, es) == written
    requires s.slots == [] && FiledFull(store, idOf, columns) && open <= Ids(idOf, written)
    ensures var t := s.TakeAll(idOf, es);
            && Backs(t, idOf, columns, Stored(store, idOf, written), {})
            && Entered(idOf, s.table, t.table, es, written, t.slots)
    ensures FiledFull(Stored(store, idOf, written), idOf, columns)
  {
    var t := s.TakeAll(idOf, es);
    MemoArrived(s, idOf, columns, store, open, es);
    ArrivedSlots(s, idOf, columns, store, open, es);
    assert open - Ids(idOf, written) == {};
    forall w | w in written ensures w.Keys == columns { var i :| 0 <= i < |written| && written[i] == w; }
    WrittenStore(store, idOf, columns, written);
    SlotsEntered(s, t, idOf, es, written);
  }

  lemma SlotsEntered<R>(s: Memoized<R>, t: Memoized<R>, idOf: Fields -> string, es: seq<R>, written: seq<Fields>)
    requires Moved(s, t, es, Ids(idOf, written)) && SlotsHold(s, t, idOf, es) && FieldsOf(s, es) == written
    ensures Entered(idOf, s.table, t.table, es, written, t.slots)
  {
    forall i | 0 <= i < |written| ensures idOf(written[i]) in t.table && t.slots[i] == t.table[idOf(written[i])] {
      assert SlotHolds(t, idOf(s.Get(es[i])), i);
    }
  }

  /** Memoized ids stay on their objects. */
  ghost predicate Stays<R>(memo: map<string, R>, memo': map<string, R>) {
    forall k :: k in memo ==> k in memo' && memo'[k] == memo[k]
  }

  /** Every slot holds the entry of its id. */
  ghost predicate SlotsAre<R>(idOf: Fields -> string, memo: map<string, R>, written: seq<Fields>, slots: seq<R>) {
    |slots| == |written| && forall i :: 0 <= i < |written| ==>
        idOf(written[i]) in memo && slots[i] == memo[idOf(written[i])]
  }

  ghost predicate AllIn<R>(memo: map<string, R>, slots: seq<R>) { forall o :: o in slots ==> o in memo.Values }

  lemma SlotsAreIn<R>(idOf: Fields -> string, memo: map<string, R>, written: seq<Fields>, slots: seq<R>)
    requires SlotsAre(idOf, memo, written, slots)
    ensures AllIn(memo, slots)
  {
    forall o | o in slots ensures o in memo.Values {
      var i :| 0 <= i < |slots| && slots[i] == o;
      assert idOf(written[i]) in memo;
    }
  }

  lemma EnteredStays<R>(idOf: Fields -> string, memo: map<string, R>, memo': map<string, R>,
                        es: seq<R>, written: seq<Fields>, slots: seq<R>)
    requires Entered(idOf, memo, memo', es, written, slots)
    ensures Stays(memo, memo') && SlotsAre(idOf, memo', written, slots)
    ensures forall o :: o in memo'.Values ==> o in memo.Values || o in es
  {
    forall o | o in memo'.Values ensures o in memo.Values || o in es {
      var k :| k in memo' && memo'[k] == o;
      if k in memo { assert memo[k] in memo.Values; }
    }
  }

  /** Inputs `es` were memoized before they are written: no entry moves, their ids are there, new entries are
      among them, and every slot holds the entry of its id, which still has that id. */
  ghost predicate Reserved<R>(s: Memoized<R>, t: Memoized<R>, idOf: Fields -> string, es: seq<R>) {
    && t.table.Keys == s.table.Keys + Ids(idOf, FieldsOf(s, es))
    && (forall k :: k in t.table ==> if k in s.table then t.table[k] == s.table[k] else t.table[k] in es)
    && |t.slots| == |es| && forall i :: 0 <= i < |es| ==> SlotReserved(s, t, idOf, es, i)
  }

  ghost predicate SlotReserved<R>(s: Memoized<R>, t: Memoized<R>, idOf: Fields -> string, es: seq<R>, i: nat)
    requires i < |es| == |t.slots|
  {
    var id := idOf(s.Get(es[i]));
    id in t.table && t.slots[i] == t.table[id] && idOf(t.Get(t.slots[i])) == id
  }

  lemma ReservedValues<R>(s: Memoized<R>, idOf: Fields -> string, columns: set<string>, store: map<string, Fields>,
                          es: seq<R>)
    requires Stable(idOf) && Backs(s, idOf, columns, store, {}) && FiledFull(store, idOf, columns) && s.slots == []
    requires forall e :: e in es ==> e in s.heap && s.Get(e) != map[] && s.Get(e).Keys <= columns
    ensures var t := s.TakeAll(idOf, es);
            Backs(t, idOf, columns, store, Ids(idOf, FieldsOf(s, es))) && Reserved(s, t, idOf, es)
  {
    BackedFiled(s, idOf, columns, store);
    MemoOpens(s, idOf, columns, store, es);
    ReservedSlots(s, idOf, es);
  }

  lemma BackedFiled<R>(s: Memoized<R>, idOf: Fields -> string, columns: set<string>, store: map<string, Fields>)
    requires Backs(s, idOf, columns, store, {}) && FiledFull(store, idOf, columns)
    ensures Filed(s, idOf)
  {
  }

  lemma ReservedSlots<R>(s: Memoized<R>, idOf: Fields -> string, es: seq<R>)
    requires Stable(idOf) && Filed(s, idOf) && s.slots == []
    requires forall e :: e in es ==> e in s.heap && s.Get(e) != map[]
    requires s.TakeAll(idOf, es).table.Keys == s.table.Keys + Ids(idOf, FieldsOf(s, es))
    ensures Reserved(s, s.TakeAll(idOf, es), idOf, es)
  {
    var t := s.TakeAll(idOf, es);
    MemoMeans(s, idOf, es);
    SlottedEntries(s, t, idOf, es);
    forall i | 0 <= i < |es| ensures SlotReserved(s, t, idOf, es, i) { SlotFilled(s, t, idOf, es, i); }
  }

  lemma SlottedEntries<R>(s: Memoized<R>, t: Memoized<R>, idOf: Fields -> string, es: seq<R>)
    requires Slotted(s, t, idOf, es)
    ensures forall k :: k in t.table ==> if k in s.table then t.table[k] == s.table[k] else t.table[k] in es
  {
    forall k | k in t.table && k !in s.table ensures t.table[k] in es { var i :| Brings(s, t, idOf, es, k, i); }
  }

  /** The entry that a slot holds has the id of its input. */
  lemma SlotFilled<R>(s: Memoized<R>, t: Memoized<R>, idOf: Fields -> string, es: seq<R>, i: nat)
    requires i < |es| && Slotted(s, t, idOf, es) && Filed(t, idOf)
    requires Overlaid(s, t, idOf, es) && forall e :: e in es ==> e in s.heap && s.Get(e) != map[]
    ensures SlotReserved(s, t, idOf, es, i)
  {
    var id := idOf(s.Get(es[i]));
    var c := t.table[id];
    OverFilled(s, idOf, c, es, id, i);
  }

  /** An entry that an input of its id overwrote is not empty. */
  lemma {:induction false} OverFilled<R>(s: Memoized<R>, idOf: Fields -> string, c: R, es: seq<R>, k: string, i: nat)
    requires i < |es| && idOf(s.Get(es[i])) == k && s.Get(es[i]) != map[]
    ensures Over(s, idOf, c, es, k) != map[]
    decreases |es|
  {
    var n := |es| - 1;
    OverNext(s, idOf, c, es, k);
    if i < n { OverFilled(s, idOf, c, es[..n], k, i); }
    OverGrows(s, idOf, c, es[..n], k);
    var l :| l in s.Get(es[i]);
    if i == n && es[i] == c { assert l in Over(s, idOf, c, es[..n], k); }
    if i == n && es[i] != c { assert l in Over(s, idOf, c, es, k); }
    if i < n {
      var m :| m in Over(s, idOf, c, es[..n], k);
      assert m in Over(s, idOf, c, es, k);
    }
  }

  lemma {:induction false} OverGrows<R>(s: Memoized<R>, idOf: Fields -> string, c: R, es: seq<R>, k: string)
    ensures s.Get(c).Keys <= Over(s, idOf, c, es, k).Keys
    decreases |es|
  {
    if es != [] { OverGrows(s, idOf, c, es[..|es| - 1], k); }
  }

  /** `written` lists the store without the ids in `rest`. */
  ghost predicate Lists(store: map<string, Fields>, idOf: Fields -> string, written: seq<Fields>, rest: set<string>) {
    && rest <= store.Keys && |written| + |rest| == |store.Keys| && Ids(idOf, written) == store.Keys - rest
    && forall w :: w in written ==> idOf(w) in store && store[idOf(w)] == w
  }

  lemma ListsNext(store: map<string, Fields>, idOf: Fields -> string, written: seq<Fields>, rest: set<string>,
      id: string)
    requires Lists(store, idOf, written, rest) && id in rest && idOf(store[id]) == id
    ensures Lists(store, idOf, written + [store[id]], rest - {id})
  {
    var next := written + [store[id]];
    IdsNext(idOf, next);
    assert next[..|written|] == written;
  }

  /** Writing what the store has already changes nothing. */
  lemma {:induction false} StoredSame(store: map<string, Fields>, idOf: Fields -> string, written: seq<Fields>)
    requires forall w :: w in written ==> idOf(w) in store && store[idOf(w)] == w
    ensures Stored(store, idOf, written) == store
    decreases |written|
  {
    if written != [] {
      StoredSame(store, idOf, written[..|written| - 1]);
      assert written[|written| - 1] in written;
    }
  }
}
