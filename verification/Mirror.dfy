/** The smallest cloud that meets the assumptions of Convergence: one table of items, each an id and a value,
    whose operations do what they say as soon as the ids they depend on agree.  It shows that the assumptions
    can be met, and what convergence then comes to. */
module Mirror {
  import opened Diff
  import opened DiffLoop
  import opened Reconcile
  import opened Convergence
  import LazyDep

  type Item = (string, string)

  datatype Sides = Sides(db: seq<Item>, cloud: seq<Item>) {
    function Truth(d: Direction): seq<Item> { if d == Apply then db else cloud }

    function Changing(d: Direction): seq<Item> { if d == Apply then cloud else db }

    function Set(d: Direction, items: seq<Item>): Sides { if d == Apply then Sides(db, items) else Sides(items, cloud) }
  }

  function IdOf(x: Item): string { x.0 }

  function Index(items: seq<Item>): map<string, Item> { ById(items, IdOf) }

  predicate InStepAt(w: Sides, id: string) {
    (id in Index(w.db) <==> id in Index(w.cloud)) && (id in Index(w.db) ==> Index(w.db)[id] == Index(w.cloud)[id])
  }

  function Dropped(items: seq<Item>, id: string): seq<Item> {
    if items == [] then []
    else Dropped(items[..|items| - 1], id) + if items[|items| - 1].0 == id then [] else [items[|items| - 1]]
  }

  /** What an operation is about. */
  function Target(op: Op<Item>): string { if op.Update? then op.db.0 else op.e.0 }

  function Operate(d: Direction, w: Sides, op: Op<Item>): Sides {
    match op
    case Create(_, x) => w.Set(d, w.Changing(d) + [x])
    case Update(_, x, y) => w.Set(d, w.Changing(d) + [if d == Apply then x else y])
    case Delete(_, x) => w.Set(d, Dropped(w.Changing(d), x.0))
  }

  function Exec(d: Direction, deps: string -> set<string>): (Sides, Op<Item>) -> (Sides, LazyDep.Outcome) {
    (w: Sides, op: Op<Item>) =>
      if forall i :: i in deps(Target(op)) ==> InStepAt(w, i) then (Operate(d, w, op), LazyDep.Resolved)
      else (w, LazyDep.Rejected)
  }

  function TheEngine(d: Direction, deps: string -> set<string>): Engine<Sides, Item> {
    Engine(d, false, 1, (_, x: Item) => x.0, (_, x: Item, y: Item) => x == y, (_, _, _) => true, (x: Item) => x.0,
           (w, _) => w, (w, _, _) => (w, LazyDep.Resolved),
           (w: Sides, t) => if t == 0 then w.db else [], (w: Sides, t) => if t == 0 then w.cloud else [],
           (_, _, _) => true, Exec(d, deps))
  }

  /** Worlds with the given truth. */
  ghost function TheBehaviour(d: Direction, deps: string -> set<string>, truth: seq<Item>): Behaviour<Sides> {
    Behaviour((k: Key) => if k.0 == 0 then set i | i in deps(k.1) :: (0, i) else {},
              (w: Sides) => w.Truth(d) == truth, iset k: Key | k.0 == 0)
  }

  // The engine's indexes -----------------------------------------------------------------------------

  lemma {:induction false} SameIndex(items: seq<Item>, f: Item -> string)
    requires forall x :: f(x) == x.0
    ensures ById(items, f) == Index(items)
  {
    if items != [] { SameIndex(items[..|items| - 1], f); }
  }

  lemma EngineIndexes(d: Direction, deps: string -> set<string>, w: Sides)
    ensures var e := TheEngine(d, deps);
            && e.DbMap(w, 0) == Index(w.db) && e.CloudMap(w, 0) == Index(w.cloud)
            && (forall t: nat :: t > 0 ==> e.DbMap(w, t) == map[] && e.CloudMap(w, t) == map[])
            && (forall k: Key :: e.Agrees(w, k) <==> k.0 > 0 || InStepAt(w, k.1))
  {
    var e := TheEngine(d, deps);
    SameIndex(w.db, e.IdGen(0));
    SameIndex(w.cloud, e.IdGen(0));
  }

  lemma {:induction false} DroppedIndex(items: seq<Item>, id: string)
    ensures Index(Dropped(items, id)) == Index(items) - {id}
  {
    if items != [] {
      var n := |items| - 1;
      DroppedIndex(items[..n], id);
      if items[n].0 == id {
        assert Dropped(items, id) == Dropped(items[..n], id);
      } else {
        AddedIndex(Dropped(items[..n], id), items[n]);
        assert (Index(items[..n]) - {id})[items[n].0 := items[n]] == Index(items) - {id};
      }
    }
  }

  lemma AddedIndex(items: seq<Item>, x: Item)
    ensures Index(items + [x]) == Index(items)[x.0 := x]
  {
    assert (items + [x])[..|items|] == items;
  }

  /** What an operation does to the index of the side it changes. */
  lemma OperateIndex(d: Direction, deps: string -> set<string>, w: Sides, op: Op<Item>)
    requires op.table == 0 && TheEngine(d, deps).Due(w, op)
    ensures var w', id := Operate(d, w, op), Target(op);
            && w'.Truth(d) == w.Truth(d)
            && TheEngine(d, deps).KeyOf(op) == (0, id)
            && (forall i :: i != id ==>
                  (i in Index(w'.Changing(d)) <==> i in Index(w.Changing(d)))
                  && (i in Index(w.Changing(d)) ==> Index(w'.Changing(d))[i] == Index(w.Changing(d))[i]))
            && InStepAt(w', id)
  {
    EngineIndexes(d, deps, w);
    match op
    case Create(_, x) => AddedIndex(w.Changing(d), x);
    case Update(_, x, y) => AddedIndex(w.Changing(d), if d == Apply then x else y);
    case Delete(_, x) => DroppedIndex(w.Changing(d), x.0);
  }

  // The assumptions hold -----------------------------------------------------------------------------

  lemma BlockedMeans(d: Direction, deps: string -> set<string>, truth: seq<Item>, w: Sides, id: string)
    ensures Blocked(TheEngine(d, deps), TheBehaviour(d, deps, truth), w, (0, id)) <==>
            !(forall i :: i in deps(id) ==> InStepAt(w, i))
  {
    EngineIndexes(d, deps, w);
    var e, b := TheEngine(d, deps), TheBehaviour(d, deps, truth);
    if i :| i in deps(id) && !InStepAt(w, i) {
      assert (0, i) in b.needs((0, id)) && !e.Agrees(w, (0, i));
    }
  }

  ghost predicate SameEntry(a: map<string, Item>, a': map<string, Item>, id: string) {
    (id in a <==> id in a') && (id in a ==> a[id] == a'[id])
  }

  lemma OthersStayAt(d: Direction, deps: string -> set<string>, w: Sides, op: Op<Item>, id: string)
    requires op.table == 0 && TheEngine(d, deps).Due(w, op) && id != Target(op)
    ensures SameEntry(Index(w.db), Index(Operate(d, w, op).db), id)
    ensures SameEntry(Index(w.cloud), Index(Operate(d, w, op).cloud), id)
  {
    OperateIndex(d, deps, w, op);
  }

  /** An operation leaves every other key alone. */
  lemma OthersStay(d: Direction, deps: string -> set<string>, w: Sides, op: Op<Item>, k: Key)
    requires op.table == 0 && TheEngine(d, deps).Due(w, op) && k != (0, Target(op))
    ensures SameAt(TheEngine(d, deps), w, Operate(d, w, op), k)
  {
    EngineIndexes(d, deps, w);
    EngineIndexes(d, deps, Operate(d, w, op));
    if k.0 == 0 { OthersStayAt(d, deps, w, op, k.1); }
  }

  ghost predicate Obliges(e: Engine<Sides, Item>, b: Behaviour<Sides>, w: Sides, op: Op<Item>) {
    var (w', o) := e.exec(w, op);
    && b.live(w') && !o.RejectedNonObject?
    && (forall k :: k != e.KeyOf(op) ==> SameAt(e, w, w', k))
    && (o.Resolved? ==> e.Agrees(w', e.KeyOf(op)))
    && (o.Rejected? ==> SameAt(e, w, w', e.KeyOf(op)) && Blocked(e, b, w, e.KeyOf(op)))
    && (Blocked(e, b, w, e.KeyOf(op)) ==> o.Rejected?)
  }

  lemma OperationObliges(d: Direction, deps: string -> set<string>, truth: seq<Item>, w: Sides, op: Op<Item>)
    requires w.Truth(d) == truth && op.table == 0 && TheEngine(d, deps).Due(w, op)
    ensures Obliges(TheEngine(d, deps), TheBehaviour(d, deps, truth), w, op)
  {
    var e, b := TheEngine(d, deps), TheBehaviour(d, deps, truth);
    OperateIndex(d, deps, w, op);
    BlockedMeans(d, deps, truth, w, Target(op));
    var (w', o) := e.exec(w, op);
    if o.Resolved? {
      assert w' == Operate(d, w, op);
      forall k | k != e.KeyOf(op) ensures SameAt(e, w, w', k) { OthersStay(d, deps, w, op, k); }
      EngineIndexes(d, deps, w');
    }
  }

  lemma {:induction false} AllResolved(call: LazyDep.Call<Sides, nat>, gens: seq<nat>, w: Sides)
    requires forall g :: call(w, g) == (w, LazyDep.Resolved)
    ensures LazyDep.RunPass(call, gens, w).w == w && LazyDep.RunPass(call, gens, w).rerun == []
    ensures !LazyDep.RunPass(call, gens, w).crashed
    decreases |gens|
  {
    if gens != [] { AllResolved(call, gens[..|gens| - 1], w); }
  }

  lemma ReadsInPlace(d: Direction, deps: string -> set<string>, w: Sides, side: Direction)
    ensures TheEngine(d, deps).Acquire(w, side) == Read(w, true)
  {
    var e := TheEngine(d, deps);
    AllResolved((w': Sides, t: nat) => e.read(w', side, t), Indices(1), w);
  }

  /** The mirror meets every assumption of Convergence. */
  lemma MeetsAssumptions(d: Direction, deps: string -> set<string>, truth: seq<Item>)
    ensures var e, b := TheEngine(d, deps), TheBehaviour(d, deps, truth);
            Obliging(e, b) && Exacting(e, b) && Steady(e, b)
  {
    var e, b := TheEngine(d, deps), TheBehaviour(d, deps, truth);
    forall w, op: Op<Item> {:trigger e.exec(w, op)} | b.live(w) && op.table < e.tables && e.Due(w, op)
      ensures Obliges(e, b, w, op)
    {
      OperationObliges(d, deps, truth, w, op);
    }
    forall w {:trigger SteadyAt(e, b, w)} | b.live(w) ensures SteadyAt(e, b, w) {
      ReadsInPlace(d, deps, w, d);
      ReadsInPlace(d, deps, w, d.Other());
    }
  }

  lemma MirrorReachable(d: Direction, deps: string -> set<string>, rank: string -> nat, w: Sides)
    requires forall id, i :: i in deps(id) ==> InStepAt(w, i) || rank(i) < rank(id)
    ensures Reachable(TheEngine(d, deps), TheBehaviour(d, deps, w.Truth(d)), w)
  {
    var e, b := TheEngine(d, deps), TheBehaviour(d, deps, w.Truth(d));
    MeetsAssumptions(d, deps, w.Truth(d));
    EngineIndexes(d, deps, w);
    AcyclicReachable(e, b, w, (k: Key) => rank(k.1));
  }

  /** With acyclic dependencies, both directions end, within three passes, with two equal sides. */
  lemma MirrorConverges(d: Direction, deps: string -> set<string>, rank: string -> nat, w: Sides, crupdes: seq<Row>)
    requires forall id, i :: i in deps(id) ==> InStepAt(w, i) || rank(i) < rank(id)
    ensures var s := Passes(TheEngine(d, deps).Loops(), Running(Start(w, crupdes)), 3);
            s.Returned? && s.w.Truth(d) == w.Truth(d) && Index(s.w.db) == Index(s.w.cloud)
  {
    var e, b := TheEngine(d, deps), TheBehaviour(d, deps, w.Truth(d));
    MeetsAssumptions(d, deps, w.Truth(d));
    MirrorReachable(d, deps, rank, w);
    ReadsInPlace(d, deps, w, d);
    ReadsInPlace(d, deps, w, d.Other());
    Converges(e, b, w, crupdes, w);
    AllAgree(d, deps, w.Truth(d), Passes(e.Loops(), Running(Start(w, crupdes)), 3).w);
  }

  lemma AllAgree(d: Direction, deps: string -> set<string>, truth: seq<Item>, w: Sides)
    requires forall k :: !Open(TheEngine(d, deps), TheBehaviour(d, deps, truth), w, k)
    ensures Index(w.db) == Index(w.cloud)
  {
    EngineIndexes(d, deps, w);
    var a, b := Index(w.db), Index(w.cloud);
    forall id ensures (id in a <==> id in b) && (id in a ==> a[id] == b[id]) {
      assert !Open(TheEngine(d, deps), TheBehaviour(d, deps, truth), w, (0, id));
      assert InStepAt(w, id);
    }
  }
}
