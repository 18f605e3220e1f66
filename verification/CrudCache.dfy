/** Models the memo of `Crud` in src/modules/interfaces.ts: an identity-preserving cache of entities by id
    in front of functions that read and write a backing store. */
module CrudCache {
  import opened Memos

  class Entity {
    var fields: Fields

    constructor (fields: Fields)
      ensures this.fields == fields
    {
      this.fields := fields;
    }
  }

  // The cache in front of a store ----------------------------------------------------------------------

  ghost function View(objs: set<Entity>): map<Entity, Fields>
    reads objs`fields
  {
    map o | o in objs :: o.fields
  }

  /** Every other id is memoized by the object it was memoized by. */
  ghost predicate SameBut(m: map<string, Entity>, m': map<string, Entity>, id: string) {
    forall k :: k != id ==> (k in m' <==> k in m) && (k in m' ==> m'[k] == m[k])
  }

  lemma SameButDropped(m: map<string, Entity>, m': map<string, Entity>, id: string)
    requires SameBut(m, m', id)
    ensures m' - {id} == m - {id}
  {
  }

  lemma SameButKeys(m: map<string, Entity>, m': map<string, Entity>, id: string)
    requires SameBut(m, m', id)
    ensures m'.Keys == if id in m' then m.Keys + {id} else m.Keys - {id}
    ensures forall o :: o in m'.Values ==> o in m.Values || (id in m' && o == m'[id])
  {
    forall o | o in m'.Values ensures o in m.Values || (id in m' && o == m'[id]) {
      var k :| k in m' && m'[k] == o;
      assert k != id ==> m[k] in m.Values;
    }
  }

  /** The object an id is memoized by, if any. */
  ghost function At(m: map<string, Entity>, id: string): set<Entity> { if id in m then {m[id]} else {} }

  /** One entity kind on one side: the memo, and a backing store that the functions of the mapper read and
      write.  `reads` counts the calls of readFn. */
  class Crud {
    const entityId: Fields -> string
    const columns: set<string>
    var memo: map<string, Entity>
    var store: map<string, Fields>
    var readCalls: nat

    constructor (entityId: Fields -> string, columns: set<string>, store: map<string, Fields>)
      requires columns != {} && forall id :: id in store ==> entityId(store[id]) == id && store[id].Keys == columns
      ensures Valid() && memo == map[] && this.store == store && readCalls == 0
      ensures this.entityId == entityId && this.columns == columns
    {
      this.entityId := entityId;
      this.columns := columns;
      this.memo := map[];
      this.store := store;
      this.readCalls := 0;
    }

    /** The memo holds one full, up-to-date object per id. */
    ghost predicate Valid()
      reads this, memo.Values`fields
    {
      && columns != {}
      && (forall id :: id in store ==> entityId(store[id]) == id && store[id].Keys == columns)
      && (forall id :: id in memo ==> id in store && memo[id].fields == store[id])
      && forall a, b :: a in memo && b in memo && memo[a] == memo[b] ==> a == b
    }

    /** As Valid, but the entry of `id` may be partly filled. */
    ghost predicate ValidBut(id: string)
      reads this, memo.Values`fields
    {
      && columns != {}
      && (forall k :: k in store ==> entityId(store[k]) == k && store[k].Keys == columns)
      && (forall k :: k in memo && k != id ==> k in store && memo[k].fields == store[k])
      && (id in memo ==> memo[id].fields.Keys <= columns)
      && forall a, b :: a in memo && b in memo && memo[a] == memo[b] ==> a == b
    }

    /** The first `i` turns of `es.forEach` have led to `s`; `given` is what the array held at first. */
    ghost predicate Mirrors(es: array<Entity>, i: nat, given: seq<Entity>, objs: set<Entity>, s: Memoized<Entity>)
      reads this, es, objs`fields
    {
      && i <= es.Length == |given| && es[..i] == s.slots && es[i..] == given[i..]
      && memo.Values <= objs && (forall e :: e in given ==> e in objs)
      && memo == s.table && View(objs) == s.heap
    }

    /** One turn of `es.forEach` in `memo`. */
    method MemoSlot(es: array<Entity>, i: nat, ghost given: seq<Entity>, ghost objs: set<Entity>,
        ghost s: Memoized<Entity>)
      requires i < es.Length && Mirrors(es, i, given, objs, s)
      modifies this`memo, es, memo.Values`fields
      ensures Mirrors(es, i + 1, given, objs, s.Take(entityId, given[i]))
    {
      var e := es[i];
      assert e == es[i..][0] == given[i] && e in given;
      var id := entityId(e.fields);
      assert s.Get(e) == e.fields;
      if id !in memo {
        memo := memo[id := e];
        assert forall x :: x in memo.Values ==> x == e || x in old(memo).Values;
      } else {
        var realE := memo[id];
        assert realE in memo.Values;
        realE.fields := realE.fields + e.fields;
        es[i] := realE;
        assert View(objs) == s.heap[realE := s.Get(realE) + s.Get(e)];
      }
      assert es[..i + 1] == es[..i] + [es[i]];
      assert es[i + 1..] == given[i..][1..] == given[i + 1..];
    }

    /** `memo` on an array: slots are redirected to the memoized objects in place. */
    method Memo(es: array<Entity>)
      modifies this`memo, es, es[..]`fields, memo.Values`fields
      ensures var objs := old(memo).Values + set e | e in old(es[..]);
              var s := Memoized(old(View(objs)), old(memo), []).TakeAll(entityId, old(es[..]));
              es[..] == s.slots && memo == s.table && View(objs) == s.heap
    {
      ghost var given := es[..];
      ghost var objs := memo.Values + set e | e in given;
      ghost var s0 := Memoized(View(objs), memo, []);
      for i := 0 to es.Length
        invariant Mirrors(es, i, given, objs, s0.TakeAll(entityId, given[..i]))
      {
        MemoSlot(es, i, given, objs, s0.TakeAll(entityId, given[..i]));
        TakeNext(s0, entityId, given, i);
      }
      assert given[..es.Length] == given && es[..es.Length] == es[..];
    }

    /** `memo` on a single entity. */
    method MemoOne(e: Entity) returns (r: Entity)
      modifies this`memo, At(memo, entityId(e.fields))`fields
      ensures var id := old(entityId(e.fields));
              && SameBut(old(memo), memo, id) && id in memo && memo[id] == r
              && r == (if id in old(memo) then old(memo)[id] else e)
              && r.fields == (if id in old(memo) then old(r.fields) + old(e.fields) else old(e.fields))
    {
      var id := entityId(e.fields);
      if id !in memo {
        memo := memo[id := e];
        r := e;
      } else {
        r := memo[id];
        assert r in memo.Values;
        r.fields := r.fields + e.fields;
      }
    }

    /** `unmemo`: also drops an entry that is only partly filled. */
    method Unmemo(id: string)
      requires ValidBut(id)
      modifies this`memo
      ensures Valid() && memo == old(memo) - {id}
    {
      memo := memo - {id};
    }

    /** Memoizes an object before the mapper's function runs, so that its id is reserved. */
    method Reserve(e: Entity) returns (canonical: Entity)
      requires Valid() && e.fields.Keys <= columns
      modifies this`memo, At(memo, entityId(e.fields))`fields
      ensures var id := old(entityId(e.fields));
              && ValidBut(id) && SameBut(old(memo), memo, id) && id in memo && memo[id] == canonical
              && canonical == if id in old(memo) then old(memo)[id] else e
    {
      canonical := MemoOne(e);
    }

    /** Stores an empty entity before a read, so that circular reads end. */
    method Hold(id: string) returns (placeholder: Entity)
      requires Valid() && id !in memo
      modifies this`memo
      ensures fresh(placeholder) && placeholder.fields == map[] && memo == old(memo)[id := placeholder]
      ensures ValidBut(id)
    {
      placeholder := new Entity(map[]);
      memo := memo[id := placeholder];
    }

    /** Takes over what the store returned for `id`. */
    method Absorb(id: string, written: Fields) returns (r: Entity)
      requires ValidBut(id) && written.Keys == columns && entityId(written) == id
      modifies this`memo, this`store, At(memo, id)`fields
      ensures Valid() && SameBut(old(memo), memo, id) && store == old(store)[id := written]
      ensures id in memo && memo[id] == r && r.fields == written
      ensures if id in old(memo) then r == old(memo)[id] else fresh(r)
    {
      store := store[id := written];
      if id in memo {
        r := Refresh(id, written);
      } else {
        r := new Entity(written);
        memo := memo[id := r];
      }
    }

    /** Overwrites the memoized object by what the store has. */
    method Refresh(id: string, written: Fields) returns (r: Entity)
      requires ValidBut(id) && id in memo && id in store && store[id] == written
      modifies At(memo, id)`fields
      ensures Valid() && memo[id] == r && r.fields == written
    {
      r := memo[id];
      assert r in memo.Values;
      assert r.fields + written == written;
      r.fields := r.fields + written;
    }

    /** `read` of one id.  `fails` stands for readFn throwing.  A hit gives the memoized object without a call;
        a miss calls readFn once and memoizes what the store has. */
    method Read(id: string, fails: bool) returns (r: Entity?, threw: bool)
      requires Valid()
      modifies this`memo, this`readCalls
      ensures Valid() && SameBut(old(memo), memo, id)
      ensures id in old(memo) ==> r == old(memo)[id] && !threw && memo == old(memo) && readCalls == old(readCalls)
      ensures id !in old(memo) ==> readCalls == old(readCalls) + 1 && threw == fails
      ensures id !in old(memo) && (fails || id !in store) ==> r == null && memo == old(memo)
      ensures id !in old(memo) && !fails && id in store ==> r != null && fresh(r) && id in memo && memo[id] == r
      ensures r != null ==> id in store && r.fields == store[id]
    {
      if id in memo && memo[id].fields != map[] { return memo[id], false; }
      assert forall k :: k in memo ==> memo[k].fields.Keys == columns;
      r, threw := ReadMiss(id, fails);
    }

    method ReadMiss(id: string, fails: bool) returns (r: Entity?, threw: bool)
      requires Valid() && id !in memo
      modifies this`memo, this`readCalls
      ensures Valid() && SameBut(old(memo), memo, id)
      ensures readCalls == old(readCalls) + 1 && threw == fails
      ensures fails || id !in store ==> r == null && memo == old(memo)
      ensures !fails && id in store ==> r != null && fresh(r) && id in memo && memo[id] == r && r.fields == store[id]
    {
      readCalls := readCalls + 1;
      threw := fails;
      if fails || id !in store {
        HoldAndDrop(id);
        r := null;
      } else {
        r := HoldAndFill(id);
      }
    }

    method HoldAndDrop(id: string)
      requires Valid() && id !in memo
      modifies this`memo
      ensures Valid() && memo == old(memo)
    {
      var _ := Hold(id);
      Unmemo(id);
    }

    method HoldAndFill(id: string) returns (r: Entity)
      requires Valid() && id !in memo && id in store
      modifies this`memo
      ensures Valid() && SameBut(old(memo), memo, id)
      ensures fresh(r) && id in memo && memo[id] == r && r.fields == store[id]
    {
      var placeholder := Hold(id);
      r := Fill(id, placeholder);
    }

    method Fill(id: string, placeholder: Entity) returns (r: Entity)
      requires ValidBut(id) && id in store && id in memo && memo[id] == placeholder
      modifies placeholder`fields
      ensures Valid() && r == placeholder && r.fields == store[id]
    {
      placeholder.fields := placeholder.fields + store[id];
      assert placeholder.fields == store[id];
      r := placeholder;
    }

    /** `create` of one entity; `written` is what the store has afterwards and createFn returns. */
    method Create(e: Entity, written: Fields, fails: bool) returns (r: Entity?, threw: bool)
      requires Valid()
      requires e.fields.Keys <= columns && written.Keys == columns && entityId(written) == entityId(e.fields)
      modifies this`memo, this`store, e`fields, At(memo, entityId(e.fields))`fields
      ensures Valid() && SameBut(old(memo), memo, old(entityId(e.fields))) && threw == fails
      ensures var id := old(entityId(e.fields));
              if fails then memo == old(memo) - {id} && store == old(store) && r == null
              else store == old(store)[id := written] && r != null && id in memo && memo[id] == r && r.fields == written
                   && r == if id in old(memo) then old(memo)[id] else e
    {
      threw := fails;
      if fails {
        ReserveAndDrop(e);
        r := null;
      } else {
        r := ReserveAndFill(e, written);
      }
    }

    method ReserveAndDrop(e: Entity)
      requires Valid() && e.fields.Keys <= columns
      modifies this`memo, At(memo, entityId(e.fields))`fields
      ensures Valid() && memo == old(memo) - {old(entityId(e.fields))}
    {
      var id := entityId(e.fields);
      var _ := Reserve(e);
      SameButDropped(old(memo), memo, id);
      Unmemo(id);
    }

    method ReserveAndFill(e: Entity, written: Fields) returns (r: Entity)
      requires Valid()
      requires e.fields.Keys <= columns && written.Keys == columns && entityId(written) == entityId(e.fields)
      modifies this`memo, this`store, e`fields, At(memo, entityId(e.fields))`fields
      ensures var id := entityId(written);
              && SameBut(old(memo), memo, id) && store == old(store)[id := written]
              && id in memo && memo[id] == r && r.fields == written && r == if id in old(memo) then old(memo)[id] else e
      ensures Valid()
    {
      var id := entityId(e.fields);
      r := Reserve(e);
      r := Absorb(id, written);
    }

    /** `update` of one entity; `written` is what the store has afterwards and updateFn returns. */
    method Update(written: Fields, fails: bool) returns (r: Entity?, threw: bool)
      requires Valid() && written.Keys == columns
      modifies this`memo, this`store, memo.Values`fields
      ensures Valid() && SameBut(old(memo), memo, entityId(written)) && threw == fails
      ensures var id := entityId(written);
              if fails then memo == old(memo) && store == old(store) && r == null
              else store == old(store)[id := written] && r != null && id in memo && memo[id] == r && r.fields == written
                   && (if id in old(memo) then r == old(memo)[id] else fresh(r))
    {
      threw := fails;
      if fails { return null, true; }
      r := Absorb(entityId(written), written);
    }

    method Delete(id: string, fails: bool) returns (threw: bool)
      requires Valid()
      modifies this`memo, this`store
      ensures Valid() && SameBut(old(memo), memo, id) && threw == fails
      ensures if fails then memo == old(memo) && store == old(store)
              else memo == old(memo) - {id} && store == old(store) - {id}
    {
      threw := fails;
      if !fails {
        Unmemo(id);
        store := store - {id};
      }
    }

    /** `context.memo.db = {}` */
    method Flush()
      requires Valid()
      modifies this`memo
      ensures Valid() && memo == map[] && store == old(store) && readCalls == old(readCalls)
    {
      memo := map[];
    }

    // Lists --------------------------------------------------------------------------------------------

    ghost predicate StoreValid()
      reads this`store
    {
      columns != {} && FiledFull(store, entityId, columns)
    }

    /** As Valid, but the entries of these ids may be partly filled. */
    ghost predicate Backed(open: set<string>)
      reads this`store, this`memo, memo.Values`fields
    {
      && StoreValid()
      && (forall k :: k in memo ==>
            if k in open then memo[k].fields.Keys <= columns else k in store && memo[k].fields == store[k])
      && forall k, l :: k in memo && l in memo && memo[k] == memo[l] ==> k == l
    }

    /** The heap objects read as values. */
    ghost predicate Shows(objs: set<Entity>, t: Memoized<Entity>)
      reads this`memo, objs`fields
    {
      memo.Values <= objs && View(objs) == t.heap && memo == t.table
    }

    lemma ShownFields(objs: set<Entity>, t: Memoized<Entity>)
      requires Shows(objs, t)
      ensures forall k :: k in memo ==> t.Get(t.table[k]) == memo[k].fields
    {
      forall k | k in memo ensures t.Get(t.table[k]) == memo[k].fields { assert memo[k] in memo.Values; }
    }

    lemma ShownBacked(objs: set<Entity>, t: Memoized<Entity>, open: set<string>)
      requires Shows(objs, t) && StoreValid()
      ensures Backed(open) <==> Backs(t, entityId, columns, store, open)
    {
      ShownFields(objs, t);
    }

    /** What a function of the mapper returns: new objects with these fields. */
    method Fetch(written: seq<Fields>) returns (es: array<Entity>)
      ensures fresh(es) && es.Length == |written|
      ensures forall i :: 0 <= i < es.Length ==> fresh(es[i]) && es[i].fields == written[i]
      ensures forall i, j :: 0 <= i < j < es.Length ==> es[i] != es[j]
    {
      var l: seq<Entity> := [];
      for n := 0 to |written|
        invariant |l| == n && forall i :: 0 <= i < n ==> fresh(l[i]) && l[i].fields == written[i]
        invariant forall i, j :: 0 <= i < j < n ==> l[i] != l[j]
      {
        var e := new Entity(written[n]);
        l := l + [e];
      }
      es := new Entity[|l|](i requires 0 <= i < |l| => l[i]);
    }

    /** Takes over what the store returned: the ids in `open` among it are filled, no entry moves. */
    method AbsorbAll(written: seq<Fields>, ghost open: set<string>) returns (out: array<Entity>)
      requires Backed(open) && (forall w :: w in written ==> w.Keys == columns) && open <= Ids(entityId, written)
      modifies this`memo, this`store, memo.Values`fields
      ensures Valid() && store == Stored(old(store), entityId, written)
      ensures memo.Keys == old(memo).Keys + Ids(entityId, written) && Stays(old(memo), memo)
      ensures forall o :: o in memo.Values ==> o in old(memo).Values || fresh(o)
      ensures fresh(out) && SlotsAre(entityId, memo, written, out[..])
    {
      out := Fetch(written);
      ghost var es := out[..];
      forall i | 0 <= i < |es| ensures es[i] !in memo.Values && written[i].Keys == columns {
        assert written[i] in written;
      }
      Enter(out, written, open);
      EnteredStays(entityId, old(memo), memo, es, written, out[..]);
    }

    /** Memoizes new objects, and the store has what they hold. */
    method Enter(out: array<Entity>, written: seq<Fields>, ghost open: set<string>)
      requires Backed(open) && open <= Ids(entityId, written) && IsNew(out[..], written)
      modifies this`memo, this`store, out, out[..]`fields, memo.Values`fields
      ensures Valid() && store == Stored(old(store), entityId, written)
      ensures Entered(entityId, old(memo), memo, old(out[..]), written, out[..])
    {
      ghost var es, objs, before := out[..], memo.Values + (set e | e in out[..]), store;
      ghost var s := Memoized(View(objs), memo, []);
      ghost var t := s.TakeAll(entityId, es);
      NewArrived(objs, es, written, open);
      MemoTo(out, objs, t);
      StoreAll(written, out, objs);
      EnteredValues(s, entityId, columns, before, open, es, written);
      WithinObjects(s.table, t.table, es, objs);
      ShownBacked(objs, t, {});
    }

    /** The store changes, and no object does. */
    method StoreAll(written: seq<Fields>, ghost out: array<Entity>, ghost objs: set<Entity>)
      modifies this`store
      ensures store == Stored(old(store), entityId, written) && memo == old(memo)
      ensures out[..] == old(out[..]) && View(objs) == old(View(objs))
    {
      store := Stored(store, entityId, written);
    }

    lemma NewArrived(objs: set<Entity>, es: seq<Entity>, written: seq<Fields>, open: set<string>)
      requires Backed(open) && IsNew(es, written) && objs == memo.Values + set e | e in es
      ensures var s := Memoized(View(objs), memo, []);
              Backs(s, entityId, columns, store, open) && Arrived(s, es, columns) && FieldsOf(s, es) == written
    {
      var s := Memoized(View(objs), memo, []);
      ShownBacked(objs, s, open);
      forall i | 0 <= i < |es| ensures es[i] in s.heap && !Entry(s, es[i]) && s.Get(es[i]).Keys == columns {
        assert es[i] in es;
      }
      assert FieldsOf(s, es) == written;
    }

    lemma WithinObjects(before: map<string, Entity>, after: map<string, Entity>, es: seq<Entity>, objs: set<Entity>)
      requires before.Values <= objs && forall e :: e in es ==> e in objs
      requires forall k :: k in after ==> if k in before then after[k] == before[k] else after[k] in es
      ensures after.Values <= objs
    {
      forall o | o in after.Values ensures o in objs {
        var k :| k in after && after[k] == o;
        if k in before { assert before[k] in before.Values; }
      }
    }

    /** Distinct objects that are not memoized, with these fields, all properties set. */
    ghost predicate IsNew(es: seq<Entity>, written: seq<Fields>)
      reads this, es`fields
    {
      && |es| == |written| && (forall i, j :: 0 <= i < j < |es| ==> es[i] != es[j])
      && forall i :: 0 <= i < |es| ==> es[i].fields == written[i] && written[i].Keys == columns && es[i] !in memo.Values
    }

    /** `memo`, naming the outcome. */
    method MemoTo(es: array<Entity>, ghost objs: set<Entity>, ghost t: Memoized<Entity>)
      requires objs == memo.Values + (set e | e in es[..])
                && t == Memoized(View(objs), memo, []).TakeAll(entityId, es[..])
      modifies this`memo, es, objs`fields
      ensures memo == t.table && View(objs) == t.heap && es[..] == t.slots && store == old(store)
    {
      Memo(es);
    }

    /** What readFn gives without an id: one entity per id of the store. */
    method ListStore() returns (written: seq<Fields>)
      requires StoreValid()
      ensures Ids(entityId, written) == store.Keys && |written| == |store|
      ensures Stored(store, entityId, written) == store && forall w :: w in written ==> w.Keys == columns
    {
      written := [];
      var rest := store.Keys;
      while rest != {}
        invariant Lists(store, entityId, written, rest)
        decreases rest
      {
        var id :| id in rest;
        ListsNext(store, entityId, written, rest, id);
        written := written + [store[id]];
        rest := rest - {id};
      }
      StoredSame(store, entityId, written);
      assert |store.Keys| == |store|;
    }

    /** `read` without an id.  `fails` stands for readFn throwing.  Every id of the store ends up memoized, and
        no memoized object is replaced. */
    method ReadAll(fails: bool) returns (out: array?<Entity>, threw: bool)
      requires Valid()
      modifies this`memo, this`readCalls, this`store, memo.Values`fields
      ensures Valid() && store == old(store) && readCalls == old(readCalls) + 1 && threw == fails
      ensures fails ==> out == null && memo == old(memo)
      ensures !fails ==> memo.Keys == store.Keys && Stays(old(memo), memo)
      ensures !fails ==> out != null && out.Length == |store| && AllIn(memo, out[..])
      ensures forall o :: o in memo.Values ==> o in old(memo).Values || fresh(o)
    {
      readCalls := readCalls + 1;
      if fails { return null, true; }
      assert memo.Keys + store.Keys == store.Keys;
      ghost var written;
      out, written := ReadListed();
      SlotsAreIn(entityId, memo, written, out[..]);
      threw := false;
    }

    method ReadListed() returns (out: array<Entity>, ghost written: seq<Fields>)
      requires Valid()
      modifies this`memo, this`store, memo.Values`fields
      ensures Valid() && store == Stored(old(store), entityId, written) == old(store)
      ensures memo.Keys == old(memo).Keys + Ids(entityId, written) && Stays(old(memo), memo)
      ensures Ids(entityId, written) == old(store).Keys && |written| == |old(store)|
      ensures SlotsAre(entityId, memo, written, out[..])
      ensures forall o :: o in memo.Values ==> o in old(memo).Values || fresh(o)
    {
      var listed := ListStore();
      written := listed;
      out := AbsorbAll(listed, {});
    }

    /** `update` of a list; `written` is what the store has afterwards and updateFn returns. */
    method UpdateAll(written: seq<Fields>, fails: bool) returns (out: array?<Entity>, threw: bool)
      requires Valid() && forall w :: w in written ==> w.Keys == columns
      modifies this`memo, this`store, memo.Values`fields
      ensures Valid() && threw == fails && Stays(old(memo), memo)
      ensures fails ==> out == null && memo == old(memo) && store == old(store)
      ensures !fails ==>
                store == Stored(old(store), entityId, written) && memo.Keys == old(memo).Keys + Ids(entityId, written)
      ensures !fails ==> out != null && SlotsAre(entityId, memo, written, out[..])
      ensures forall o :: o in memo.Values ==> o in old(memo).Values || fresh(o)
    {
      threw := fails;
      if fails { return null, true; }
      out := AbsorbAll(written, {});
    }

    /** `unmemo` of a list: also drops entries that are only partly filled. */
    method UnmemoAll(ids: set<string>, ghost open: set<string>)
      requires Backed(open) && open <= ids
      modifies this`memo
      ensures Valid() && memo == old(memo) - ids
    {
      memo := memo - ids;
    }

    method DeleteAll(ids: set<string>, fails: bool) returns (threw: bool)
      requires Valid()
      modifies this`memo, this`store
      ensures Valid() && threw == fails
      ensures if fails then memo == old(memo) && store == old(store)
              else memo == old(memo) - ids && store == old(store) - ids
    {
      threw := fails;
      if !fails {
        UnmemoAll(ids, {});
        store := store - ids;
      }
    }

    /** Memoizes a list before the mapper's function runs, so that its ids are reserved. */
    method ReserveAll(es: array<Entity>) returns (ghost s: Memoized<Entity>, ghost t: Memoized<Entity>,
        ghost objs: set<Entity>)
      requires Valid() && Stable(entityId)
      requires forall e :: e in es[..] ==> e.fields != map[] && e.fields.Keys <= columns
      modifies this`memo, es, es[..]`fields, memo.Values`fields
      ensures store == old(store) && Shows(objs, t) && es[..] == t.slots && Reserved(s, t, entityId, old(es[..]))
      ensures s.table == old(memo) && forall e :: e in old(es[..]) ==> s.Get(e) == old(e.fields)
      ensures Backed(Ids(entityId, FieldsOf(s, old(es[..]))))
    {
      ghost var given := es[..];
      objs := memo.Values + set e | e in given;
      s := Memoized(View(objs), memo, []);
      t := s.TakeAll(entityId, given);
      Reserving(objs, given);
      MemoTo(es, objs, t);
      ReservedShows(objs, s, t, given);
    }

    lemma Reserving(objs: set<Entity>, given: seq<Entity>)
      requires Valid() && Stable(entityId) && objs == memo.Values + set e | e in given
      requires forall e :: e in given ==> e.fields != map[] && e.fields.Keys <= columns
      ensures var s := Memoized(View(objs), memo, []);
              var t := s.TakeAll(entityId, given);
              && Backs(t, entityId, columns, store, Ids(entityId, FieldsOf(s, given)))
                  && Reserved(s, t, entityId, given)
              && forall e :: e in given ==> s.Get(e) == e.fields
      ensures StoreValid()
    {
      var s := Memoized(View(objs), memo, []);
      ShownBacked(objs, s, {});
      ReservedValues(s, entityId, columns, store, given);
    }

    lemma ReservedShows(objs: set<Entity>, s: Memoized<Entity>, t: Memoized<Entity>, given: seq<Entity>)
      requires StoreValid() && View(objs) == t.heap && memo == t.table && Reserved(s, t, entityId, given)
      requires s.table.Values <= objs && forall e :: e in given ==> e in objs
      requires Backs(t, entityId, columns, store, Ids(entityId, FieldsOf(s, given)))
      ensures Shows(objs, t) && Backed(Ids(entityId, FieldsOf(s, given)))
    {
      WithinObjects(s.table, t.table, given, objs);
      ShownBacked(objs, t, Ids(entityId, FieldsOf(s, given)));
    }

    /** The ids of the objects that the slots hold now. */
    method IdsNow(es: array<Entity>) returns (ids: set<string>)
      ensures forall k :: k in ids <==> exists i :: 0 <= i < es.Length && entityId(es[i].fields) == k
    {
      ids := {};
      for n := 0 to es.Length
        invariant forall k :: k in ids <==> exists i :: 0 <= i < n && entityId(es[i].fields) == k
      {
        ids := ids + {entityId(es[n].fields)};
      }
    }

    lemma ReservedIds(es: seq<Entity>, given: seq<Entity>, s: Memoized<Entity>, t: Memoized<Entity>,
        objs: set<Entity>, ids: set<string>)
      requires Shows(objs, t) && es == t.slots && Reserved(s, t, entityId, given)
      requires forall k :: k in ids <==> exists i :: 0 <= i < |es| && entityId(es[i].fields) == k
      ensures ids == Ids(entityId, FieldsOf(s, given))
    {
      ShownFields(objs, t);
      forall i | 0 <= i < |es| ensures entityId(es[i].fields) == entityId(s.Get(given[i])) {
        assert SlotReserved(s, t, entityId, given, i);
      }
      forall k ensures k in ids <==> k in Ids(entityId, FieldsOf(s, given)) { IdIn(s, entityId, given, k); }
    }

    /** `create` of a list, with any aliases in it and with the memo; `written` is what the store has
        afterwards and createFn returns. */
    method CreateAll(es: array<Entity>, written: seq<Fields>, fails: bool) returns (out: array?<Entity>, threw: bool)
      requires Valid() && Stable(entityId)
      requires forall e :: e in es[..] ==> e.fields != map[] && e.fields.Keys <= columns
      requires |written| == es.Length && forall w :: w in written ==> w.Keys == columns
      requires forall i :: 0 <= i < es.Length ==> entityId(written[i]) == entityId(es[i].fields)
      modifies this`memo, this`store, es, es[..]`fields, memo.Values`fields
      ensures Valid() && threw == fails
      ensures fails ==> out == null && memo == old(memo) - Ids(entityId, written) && store == old(store)
      ensures !fails ==>
                store == Stored(old(store), entityId, written) && memo.Keys == old(memo).Keys + Ids(entityId, written)
      ensures !fails ==> Stays(old(memo), memo) && out != null && SlotsAre(entityId, memo, written, out[..])
      ensures forall o :: o in memo.Values ==> o in old(memo).Values || o in old(es[..]) || fresh(o)
    {
      threw := fails;
      if fails {
        ReserveAllAndDrop(es, written);
        out := null;
      } else {
        out := ReserveAllAndFill(es, written);
      }
    }

    method ReserveAllAndDrop(es: array<Entity>, ghost written: seq<Fields>)
      requires Valid() && Stable(entityId)
      requires forall e :: e in es[..] ==> e.fields != map[] && e.fields.Keys <= columns
      requires |written| == es.Length && forall i :: 0 <= i < es.Length ==>
                entityId(written[i]) == entityId(es[i].fields)
      modifies this`memo, es, es[..]`fields, memo.Values`fields
      ensures Valid() && store == old(store) && memo == old(memo) - Ids(entityId, written)
    {
      ghost var given := es[..];
      ghost var s, t, objs := ReserveAll(es);
      GivenIds(s, given, written);
      ReservedValuesIn(s, t, given);
      var ids := IdsNow(es);
      ReservedIds(es[..], given, s, t, objs, ids);
      UnmemoAll(ids, ids);
    }

    method ReserveAllAndFill(es: array<Entity>, written: seq<Fields>) returns (out: array<Entity>)
      requires Valid() && Stable(entityId)
      requires forall e :: e in es[..] ==> e.fields != map[] && e.fields.Keys <= columns
      requires |written| == es.Length && forall w :: w in written ==> w.Keys == columns
      requires forall i :: 0 <= i < es.Length ==> entityId(written[i]) == entityId(es[i].fields)
      modifies this`memo, this`store, es, es[..]`fields, memo.Values`fields
      ensures Valid() && store == Stored(old(store), entityId, written)
      ensures memo.Keys == old(memo).Keys + Ids(entityId, written) && Stays(old(memo), memo)
      ensures SlotsAre(entityId, memo, written, out[..])
      ensures forall o :: o in memo.Values ==> o in old(memo).Values || o in old(es[..]) || fresh(o)
    {
      ghost var given := es[..];
      ghost var s, t, objs := ReserveAll(es);
      GivenIds(s, given, written);
      ReservedValuesIn(s, t, given);
      out := AbsorbAll(written, Ids(entityId, written));
    }

    lemma GivenIds(s: Memoized<Entity>, given: seq<Entity>, written: seq<Fields>)
      requires |written| == |given| && forall i :: 0 <= i < |given| ==>
                entityId(written[i]) == entityId(s.Get(given[i]))
      ensures Ids(entityId, written) == Ids(entityId, FieldsOf(s, given))
    {
      forall k ensures k in Ids(entityId, written) <==> k in Ids(entityId, FieldsOf(s, given)) {
        IdIn(s, entityId, given, k);
        if k in Ids(entityId, written) {
          var w :| w in written && entityId(w) == k;
          var i :| 0 <= i < |written| && written[i] == w;
          assert entityId(s.Get(given[i])) == k;
        }
        if i :| 0 <= i < |given| && entityId(s.Get(given[i])) == k { assert written[i] in written; }
      }
    }

    lemma ReservedValuesIn(s: Memoized<Entity>, t: Memoized<Entity>, given: seq<Entity>)
      requires Reserved(s, t, entityId, given)
      ensures Stays(s.table, t.table) && t.table.Keys == s.table.Keys + Ids(entityId, FieldsOf(s, given))
      ensures t.table - Ids(entityId, FieldsOf(s, given)) == s.table - Ids(entityId, FieldsOf(s, given))
      ensures forall o :: o in t.table.Values ==> o in s.table.Values || o in given
    {
      forall o | o in t.table.Values ensures o in s.table.Values || o in given {
        var k :| k in t.table && t.table[k] == o;
        if k in s.table { assert s.table[k] in s.table.Values; }
      }
    }

    method CreateNew(fields: Fields, written: Fields, fails: bool)
      requires Valid()
      requires fields.Keys <= columns && written.Keys == columns && entityId(written) == entityId(fields)
      modifies this`memo, this`store, memo.Values`fields
      ensures Valid() && SameBut(old(memo), memo, entityId(fields))
      ensures store == if fails then old(store) else old(store)[entityId(fields) := written]
      ensures memo.Keys == if fails then old(memo).Keys - {entityId(fields)} else old(memo).Keys + {entityId(fields)}
      ensures forall o :: o in memo.Values ==> o in old(memo).Values || fresh(o)
      ensures !fails && entityId(fields) in old(memo) ==>
                entityId(fields) in memo && memo[entityId(fields)] == old(memo)[entityId(fields)]
    {
      var e := new Entity(fields);
      var _, _ := Create(e, written, fails);
      SameButKeys(old(memo), memo, entityId(fields));
    }

    /** A list of new objects. */
    method CreateAllNew(fields: seq<Fields>, written: seq<Fields>, fails: bool)
      requires Valid() && Stable(entityId) && |written| == |fields|
      requires forall i :: 0 <= i < |fields| ==>
                 fields[i] != map[] && fields[i].Keys <= columns && written[i].Keys == columns
                 && entityId(written[i]) == entityId(fields[i])
      modifies this`memo, this`store, memo.Values`fields
      ensures Valid() && forall o :: o in memo.Values ==> o in old(memo).Values || fresh(o)
      ensures store == if fails then old(store) else Stored(old(store), entityId, written)
      ensures if fails then memo == old(memo) - Ids(entityId, written)
              else Stays(old(memo), memo) && memo.Keys == old(memo).Keys + Ids(entityId, written)
    {
      var es := FetchSome(fields);
      var _, _ := CreateAll(es, written, fails);
    }

    /** New objects with some property set. */
    method FetchSome(fields: seq<Fields>) returns (es: array<Entity>)
      requires forall i :: 0 <= i < |fields| ==> fields[i] != map[] && fields[i].Keys <= columns
      ensures fresh(es) && es.Length == |fields| && forall i :: 0 <= i < es.Length ==> es[i].fields == fields[i]
      ensures forall e :: e in es[..] ==> fresh(e) && e.fields != map[] && e.fields.Keys <= columns
    {
      es := Fetch(fields);
      forall e | e in es[..] ensures fresh(e) && e.fields != map[] && e.fields.Keys <= columns {
        var i :| 0 <= i < es.Length && es[i] == e;
      }
    }

    /** `Read`, on the whole memo. */
    method ReadOne(id: string, fails: bool)
      requires Valid()
      modifies this`memo, this`readCalls
      ensures Valid() && forall o :: o in memo.Values ==> o in old(memo).Values || fresh(o)
      ensures forall k :: k in old(memo) ==> k in memo && memo[k] == old(memo)[k]
      ensures memo.Keys == if fails || id !in store then old(memo).Keys else old(memo).Keys + {id}
    {
      var _, _ := Read(id, fails);
      SameButKeys(old(memo), memo, id);
    }

    /** `Update`, on the whole memo. */
    method UpdateOne(written: Fields, fails: bool)
      requires Valid() && written.Keys == columns
      modifies this`memo, this`store, memo.Values`fields
      ensures Valid() && forall o :: o in memo.Values ==> o in old(memo).Values || fresh(o)
      ensures forall k :: k in old(memo) ==> k in memo && memo[k] == old(memo)[k]
      ensures store == if fails then old(store) else old(store)[entityId(written) := written]
      ensures memo.Keys == if fails then old(memo).Keys else old(memo).Keys + {entityId(written)}
    {
      var _, _ := Update(written, fails);
      SameButKeys(old(memo), memo, entityId(written));
    }

    /** One call on a single entity. */
    method PerformOne(c: Call)
      requires Valid() && c.Fits(this) && !c.OnList()
      modifies this, memo.Values`fields
      ensures Valid() && forall o :: o in memo.Values ==> o in old(memo).Values || fresh(o)
      ensures forall k :: k in old(memo) && !c.Evicts(this, k) ==> k in memo && memo[k] == old(memo)[k]
      ensures store == c.StoreAfter(entityId, old(store))
      ensures memo.Keys == c.IdsAfter(entityId, old(memo).Keys, old(store).Keys)
    {
      match c
      case Reading(k, fails) => ReadOne(k, fails);
      case Creating(f, written, fails) => CreateNew(f, written, fails);
      case Updating(written, fails) => UpdateOne(written, fails);
      case Deleting(k, fails) => var _ := Delete(k, fails);
      case Flushing => Flush();
    }

    /** One call on a list. */
    method PerformAll(c: Call)
      requires Valid() && c.Fits(this) && c.OnList()
      modifies this, memo.Values`fields
      ensures Valid() && forall o :: o in memo.Values ==> o in old(memo).Values || fresh(o)
      ensures forall k :: k in old(memo) && !c.Evicts(this, k) ==> k in memo && memo[k] == old(memo)[k]
      ensures store == c.StoreAfter(entityId, old(store))
      ensures memo.Keys == c.IdsAfter(entityId, old(memo).Keys, old(store).Keys)
    {
      match c
      case ReadingAll(fails) => var _, _ := ReadAll(fails);
      case CreatingAll(fs, written, fails) => CreateAllNew(fs, written, fails);
      case UpdatingAll(written, fails) => var _, _ := UpdateAll(written, fails);
      case DeletingAll(ids, fails) => var _ := DeleteAll(ids, fails);
    }

    /** One call of a run. */
    method Perform(c: Call)
      requires Valid() && c.Fits(this)
      modifies this, memo.Values`fields
      ensures Valid() && forall o :: o in memo.Values ==> o in old(memo).Values || fresh(o)
      ensures forall k :: k in old(memo) && !c.Evicts(this, k) ==> k in memo && memo[k] == old(memo)[k]
      ensures store == c.StoreAfter(entityId, old(store))
      ensures memo.Keys == c.IdsAfter(entityId, old(memo).Keys, old(store).Keys)
    {
      if c.OnList() { PerformAll(c); } else { PerformOne(c); }
    }

    /** Any run of calls: the memo agrees with the store throughout, and an id that is memoized and that no
        delete, flush or failed create hits stays memoized by the same object, so that reading it again gives
        that object, with the fields the store has, and without a call of readFn. */
    method RunKeeps(calls: seq<Call>, id: string) returns (r: Entity?, ghost callsOfReadFn: int)
      requires Valid() && id in memo && forall c :: c in calls ==> c.Fits(this) && !c.Evicts(this, id)
      modifies this, memo.Values`fields
      ensures Valid() && callsOfReadFn == 0
      ensures r == old(memo)[id] && id in memo && memo[id] == r && id in store && r.fields == store[id]
    {
      for i := 0 to |calls|
        invariant Valid() && id in memo && memo[id] == old(memo)[id]
        invariant forall o :: o in memo.Values ==> o in old(memo).Values || fresh(o)
      {
        assert calls[i] in calls;
        Perform(calls[i]);
      }
      ghost var before := readCalls;
      var threw: bool;
      r, threw := Read(id, true);
      callsOfReadFn := readCalls - before;
    }
  }

  datatype Call =
    | Reading(id: string, fails: bool) | ReadingAll(fails: bool)
    | Creating(fields: Fields, written: Fields, fails: bool)
    | CreatingAll(all: seq<Fields>, writtenAll: seq<Fields>, fails: bool)
    | Updating(written: Fields, fails: bool) | UpdatingAll(writtenAll: seq<Fields>, fails: bool)
    | Deleting(id: string, fails: bool) | DeletingAll(ids: set<string>, fails: bool)
    | Flushing
  {
    predicate OnList() { ReadingAll? || CreatingAll? || UpdatingAll? || DeletingAll? }

    /** The call meets what the store promises: full fields and an unchanged id. */
    ghost predicate Fits(c: Crud) {
      match this
      case Creating(f, w, _) => f.Keys <= c.columns && w.Keys == c.columns && c.entityId(w) == c.entityId(f)
      case CreatingAll(fs, ws, _) =>
        && Stable(c.entityId) && |ws| == |fs|
        && forall i :: 0 <= i < |fs| ==> fs[i] != map[] && fs[i].Keys <= c.columns && ws[i].Keys == c.columns
                                         && c.entityId(ws[i]) == c.entityId(fs[i])
      case Updating(w, _) => w.Keys == c.columns
      case UpdatingAll(ws, _) => forall w :: w in ws ==> w.Keys == c.columns
      case _ => true
    }

    /** What the store has after the call. */
    ghost function StoreAfter(idOf: Fields -> string, store: map<string, Fields>): map<string, Fields> {
      match this
      case Creating(_, w, fails) => if fails then store else store[idOf(w) := w]
      case CreatingAll(_, ws, fails) => if fails then store else Stored(store, idOf, ws)
      case Updating(w, fails) => if fails then store else store[idOf(w) := w]
      case UpdatingAll(ws, fails) => if fails then store else Stored(store, idOf, ws)
      case Deleting(k, fails) => if fails then store else store - {k}
      case DeletingAll(ids, fails) => if fails then store else store - ids
      case _ => store
    }

    /** The memoized ids after the call. */
    ghost function IdsAfter(idOf: Fields -> string, memo: set<string>, store: set<string>): set<string> {
      match this
      case Reading(k, fails) => if fails || k !in store then memo else memo + {k}
      case ReadingAll(fails) => if fails then memo else store
      case Creating(_, w, fails) => if fails then memo - {idOf(w)} else memo + {idOf(w)}
      case CreatingAll(_, ws, fails) => if fails then memo - Ids(idOf, ws) else memo + Ids(idOf, ws)
      case Updating(w, fails) => if fails then memo else memo + {idOf(w)}
      case UpdatingAll(ws, fails) => if fails then memo else memo + Ids(idOf, ws)
      case Deleting(k, fails) => if fails then memo else memo - {k}
      case DeletingAll(ids, fails) => if fails then memo else memo - ids
      case Flushing => {}
    }

    predicate Evicts(c: Crud, id: string) {
      match this
      case Creating(f, _, fails) => fails && c.entityId(f) == id
      case CreatingAll(_, ws, fails) => fails && id in Ids(c.entityId, ws)
      case Deleting(k, fails) => !fails && k == id
      case DeletingAll(ids, fails) => !fails && id in ids
      case Flushing => true
      case _ => false
    }
  }
}
