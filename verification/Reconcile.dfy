/** Models what one pass of `apply` and `sync` (src/modules/iasql_functions/iasql.ts) sees and does: read the
    two sides through the mappers, run findDiff table by table, filter, and turn the difference into
    generators for the lazy loader.

    The two functions are one engine read in two directions.  Everything outside it (mappers, reads, clocks,
    users writing meanwhile) is packed into an arbitrary world `W`. */
module Reconcile {
  import opened Bags
  import opened Diff
  import opened DiffLoop
  import LazyDep

  datatype Direction = Apply | Sync {
    function Other(): Direction { if Apply? then Sync else Apply }
  }

  /** One generator of a pass.  Entities are those of the list they were found in. */
  datatype Op<E> = Create(table: nat, e: E) | Update(table: nat, db: E, cloud: E) | Delete(table: nat, e: E)

  datatype Engine<!W, !E> = Engine(
    direction: Direction,
    dryRun: bool,
    tables: nat,
    entityId: (nat, E) -> string,
    equals: (nat, E, E) -> bool,
    isUpdate: (nat, E, E) -> bool,                             // updateOrReplace(cloud, db) === 'update'
    rowId: E -> string,
    flush: (W, Direction) -> W,                                // Apply names the database side, Sync the cloud
    read: (W, Direction, nat) -> (W, LazyDep.Outcome),
    db: (W, nat) -> seq<E>,
    cloud: (W, nat) -> seq<E>,
    keep: (W, nat, string) -> bool,                            // survives the filter on user changes
    exec: (W, Op<E>) -> (W, LazyDep.Outcome))
  {
    function IdGen(t: nat): E -> string { e => entityId(t, e) }

    function Comparator(t: nat): (E, E) -> bool { (a, b) => equals(t, a, b) }

    /** Flush one side of the memo and read it again, every mapper through the lazy loader. */
    function Acquire(w: W, side: Direction): Read<W> {
      var r := LazyDep.Run((w': W, t: nat) => read(w', side, t), Indices(tables), flush(w, side));
      Read(r.w, r.status.Loaded?)
    }

    /** The reads that this takes, each with the world it starts from. */
    function ReadCalls(w: W, side: Direction): seq<(W, nat)> {
      LazyDep.RunCalls((w': W, t: nat) => read(w', side, t), Indices(tables), flush(w, side))
    }

    /** findDiff on one table, filtered. */
    function DeltaOf(w: W, t: nat): Delta<E> {
      var d := DiffOf(db(w, t), cloud(w, t), IdGen(t), Comparator(t));
      Delta(Select(d.dbOnly, (e: E) => keep(w, t, entityId(t, e))),
            Select(d.cloudOnly, (e: E) => keep(w, t, entityId(t, e))),
            Select(d.changed, (p: (E, E)) => keep(w, t, entityId(t, p.0))))
    }

    function Deltas(w: W): (ds: seq<Delta<E>>)
      ensures |ds| == tables && forall t :: 0 <= t < tables ==> ds[t] == DeltaOf(w, t)
    {
      seq(tables, t requires 0 <= t < tables => DeltaOf(w, t))
    }

    function Creates(t: nat, d: Delta<E>): seq<Op<E>> {
      Image(if direction == Apply then d.dbOnly else d.cloudOnly, (e: E) => Create(t, e))
    }

    function Updates(t: nat, d: Delta<E>): seq<Op<E>> { Image(d.changed, (p: (E, E)) => Update(t, p.0, p.1)) }

    function Deletes(t: nat, d: Delta<E>): seq<Op<E>> {
      Image(if direction == Apply then d.cloudOnly else d.dbOnly, (e: E) => Delete(t, e))
    }

    /** Creates and updates, table by table. */
    function Forward(ds: seq<Delta<E>>): seq<Op<E>> {
      if ds == [] then []
      else
        var t := |ds| - 1;
        Forward(ds[..t]) + (Creates(t, ds[t]) + Updates(t, ds[t]))
    }

    /** Deletes, in the reverse order of the tables. */
    function Backward(ds: seq<Delta<E>>): seq<Op<E>> {
      if ds == [] then []
      else
        var t := |ds| - 1;
        Deletes(t, ds[t]) + Backward(ds[..t])
    }

    function Generators(ds: seq<Delta<E>>): seq<Op<E>> { Forward(ds) + Backward(ds) }

    /** What one table adds to the plan. */
    function PlanRows(t: nat, d: Delta<E>): seq<Row> {
      if direction == Apply then
        Image(d.dbOnly, (e: E) => Row(ToCreate, t, rowId(e), entityId(t, e)))
        + Image(d.cloudOnly, (e: E) => Row(ToDelete, t, rowId(e), entityId(t, e)))
        + Image(d.changed, (p: (E, E)) =>
                Row(if isUpdate(t, p.1, p.0) then ToUpdate else ToReplace, t, rowId(p.0), entityId(t, p.0)))
      else
        Image(d.dbOnly, (e: E) => Row(ToDelete, t, rowId(e), entityId(t, e)))
        + Image(d.cloudOnly, (e: E) => Row(ToCreate, t, rowId(e), entityId(t, e)))
        + Image(d.changed, (p: (E, E)) => Row(ToUpdate, t, rowId(p.1), entityId(t, p.1)))
    }

    /** The record that announces an operation. */
    function RowOf(op: Op<E>): Row {
      match op
      case Create(t, x) => Row(ToCreate, t, rowId(x), entityId(t, x))
      case Delete(t, x) => Row(ToDelete, t, rowId(x), entityId(t, x))
      case Update(t, x, y) =>
        var told := if direction == Apply then x else y;
        Row(if direction == Sync || isUpdate(t, y, x) then ToUpdate else ToReplace, t, rowId(told), entityId(t, told))
    }

    function AllRows(ds: seq<Delta<E>>): seq<Row> {
      if ds == [] then [] else AllRows(ds[..|ds| - 1]) + PlanRows(|ds| - 1, ds[|ds| - 1])
    }

    function Carry(w: W): Carried<W> {
      var r := LazyDep.Run(exec, Generators(Deltas(w)), w);
      Carried(r.w, r.status.Loaded?, if r.status.Halted? then Left(|r.status.generatorsToRun|) else Unknown)
    }

    /** The loop of `apply` or `sync` with these mappers. */
    function Loops(): Machine<W> {
      Machine(dryRun, tables == 0,
              w => Acquire(w, direction),
              w => Acquire(w, direction.Other()),
              w => AllRows(Deltas(w)),
              w => RecordCount(Deltas(w)),
              w => Generators(Deltas(w)) == [],
              w => Carry(w))
    }

    // Positions and their state --------------------------------------------------------------------

    function DbMap(w: W, t: nat): map<string, E> { ById(db(w, t), IdGen(t)) }

    function CloudMap(w: W, t: nat): map<string, E> { ById(cloud(w, t), IdGen(t)) }

    /** The two sides agree on one id of one table. */
    predicate Agrees(w: W, k: Key) {
      var a, b := DbMap(w, k.0), CloudMap(w, k.0);
      (k.1 in a <==> k.1 in b) && (k.1 in a && k.1 in b ==> equals(k.0, a[k.1], b[k.1]))
    }

    function KeyOf(op: Op<E>): Key {
      match op
      case Create(t, x) => (t, entityId(t, x))
      case Update(t, x, _) => (t, entityId(t, x))
      case Delete(t, x) => (t, entityId(t, x))
    }

    /** The operation is what the two sides call for in this world. */
    ghost predicate Due(w: W, op: Op<E>) {
      var a, b := DbMap(w, op.table), CloudMap(w, op.table);
      var (truth, changing) := if direction == Apply then (a, b) else (b, a);
      var id := KeyOf(op).1;
      match op
      case Create(t, x) => id in truth && truth[id] == x && id !in changing
      case Delete(t, x) => id in changing && changing[id] == x && id !in truth
      case Update(t, x, y) => id in a && a[id] == x && entityId(t, y) == id && id in b && b[id] == y && !equals(t, x, y)
    }
  }

  /** A table and an id in it. */
  type Key = (nat, string)

  function Indices(n: nat): seq<nat> { seq(n, i requires 0 <= i < n => i) }

  /** recordCount. */
  function RecordCount<E>(ds: seq<Delta<E>>): (c: Counts)
    ensures 0 <= c.db && 0 <= c.cloud && 0 <= c.both
  {
    if ds == [] then Counts(0, 0, 0)
    else
      var c, d := RecordCount(ds[..|ds| - 1]), ds[|ds| - 1];
      Counts(c.db + |d.dbOnly|, c.cloud + |d.cloudOnly|, c.both + |d.changed|)
  }

  // Members and lengths ------------------------------------------------------------------------------

  lemma {:induction false} SelectMembers<T(!new)>(s: seq<T>, p: T -> bool)
    ensures forall x :: x in Select(s, p) <==> x in s && p(x)
  {
    if s != [] {
      SelectMembers(s[..|s| - 1], p);
      assert s == s[..|s| - 1] + [s[|s| - 1]];
    }
  }

  ghost predicate NoDup<T(!new)>(s: seq<T>) { forall i, j :: 0 <= i < j < |s| ==> s[i] != s[j] }

  lemma {:induction false} SelectNoDup<T(!new)>(s: seq<T>, p: T -> bool)
    requires NoDup(s)
    ensures NoDup(Select(s, p))
    decreases |s|
  {
    if s != [] {
      SelectNoDup(s[..|s| - 1], p);
      SelectMembers(s[..|s| - 1], p);
      var f := Select(s[..|s| - 1], p);
      forall i | 0 <= i < |f| ensures f[i] != s[|s| - 1] { assert f[i] in f; }
    }
  }

  lemma AppendNoDup<T(!new)>(a: seq<T>, b: seq<T>)
    requires NoDup(a) && NoDup(b) && forall x :: x in a ==> x !in b
    ensures NoDup(a + b)
  {
    forall i, j | 0 <= i < j < |a + b| ensures (a + b)[i] != (a + b)[j] {
      if i < |a| <= j { assert a[i] in a && b[j - |a|] in b; }
    }
  }

  lemma NoDupCount<T(!new)>(s: seq<T>, x: T)
    requires NoDup(s) && x in s
    ensures multiset(s)[x] == 1
    decreases |s|
  {
    var n := |s| - 1;
    assert s == s[..n] + [s[n]];
    if x == s[n] {
      assert x !in s[..n];
    } else {
      NoDupCount(s[..n], x);
    }
  }

  /** After filtering, a table's difference holds exactly the kept disagreements, each once. */
  lemma DeltaMembers<W(!new), E(!new)>(e: Engine<W, E>, w: W, t: nat)
    ensures NoDupDelta(e.DeltaOf(w, t))
    ensures forall x :: x in e.DeltaOf(w, t).dbOnly <==> OneSided(e.DbMap(w, t), e.CloudMap(w, t), e, w, t, x)
    ensures forall x :: x in e.DeltaOf(w, t).cloudOnly <==> OneSided(e.CloudMap(w, t), e.DbMap(w, t), e, w, t, x)
    ensures forall p :: p in e.DeltaOf(w, t).changed <==> TwoSided(e, w, t, p)
  {
    var d := DiffOf(e.db(w, t), e.cloud(w, t), e.IdGen(t), e.Comparator(t));
    DiffPartitions(e.db(w, t), e.cloud(w, t), e.IdGen(t), e.Comparator(t));
    var one := (x: E) => e.keep(w, t, e.entityId(t, x));
    var two := (p: (E, E)) => e.keep(w, t, e.entityId(t, p.0));
    DistinctNoDup(d.dbOnly, e.IdGen(t));
    DistinctNoDup(d.cloudOnly, e.IdGen(t));
    assert NoDup(d.changed);
    SelectMembers(d.dbOnly, one);
    SelectMembers(d.cloudOnly, one);
    SelectMembers(d.changed, two);
    SelectNoDup(d.dbOnly, one);
    SelectNoDup(d.cloudOnly, one);
    SelectNoDup(d.changed, two);
    SelectedMembers(e, w, t, d, one, two);
  }

  lemma DistinctNoDup<E(!new)>(es: seq<E>, idGen: E -> string)
    requires DistinctIds(es, idGen)
    ensures NoDup(es)
  {
  }

  lemma SelectedMembers<W(!new), E(!new)>(e: Engine<W, E>, w: W, t: nat, d: Delta<E>,
                                                    one: E -> bool, two: ((E, E)) -> bool)
    requires IsDelta(d, e.DbMap(w, t), e.CloudMap(w, t), e.IdGen(t), e.Comparator(t))
    requires forall x :: one(x) == e.keep(w, t, e.entityId(t, x))
    requires forall p :: two(p) == e.keep(w, t, e.entityId(t, p.0))
    requires forall x :: x in e.DeltaOf(w, t).dbOnly <==> x in d.dbOnly && one(x)
    requires forall x :: x in e.DeltaOf(w, t).cloudOnly <==> x in d.cloudOnly && one(x)
    requires forall p :: p in e.DeltaOf(w, t).changed <==> p in d.changed && two(p)
    ensures forall x :: x in e.DeltaOf(w, t).dbOnly <==> OneSided(e.DbMap(w, t), e.CloudMap(w, t), e, w, t, x)
    ensures forall x :: x in e.DeltaOf(w, t).cloudOnly <==> OneSided(e.CloudMap(w, t), e.DbMap(w, t), e, w, t, x)
    ensures forall p :: p in e.DeltaOf(w, t).changed <==> TwoSided(e, w, t, p)
  {
    forall p ensures p in e.DeltaOf(w, t).changed <==> TwoSided(e, w, t, p) {
      assert e.Comparator(t)(p.0, p.1) == e.equals(t, p.0, p.1);
    }
    forall x ensures e.IdGen(t)(x) == e.entityId(t, x) {}
  }

  /** The entity is kept and is filed in `a` under an id that `b` lacks. */
  ghost predicate OneSided<W, E>(a: map<string, E>, b: map<string, E>, e: Engine<W, E>, w: W, t: nat, x: E) {
    var id := e.entityId(t, x);
    id in a && a[id] == x && id !in b && e.keep(w, t, id)
  }

  /** The pair is kept, shares its id and differs. */
  ghost predicate TwoSided<W, E(!new)>(e: Engine<W, E>, w: W, t: nat, p: (E, E)) {
    && IsShared(p, e.DbMap(w, t), e.CloudMap(w, t), e.IdGen(t))
    && !e.equals(t, p.0, p.1) && e.keep(w, t, e.entityId(t, p.0))
  }

  lemma ImageMembers<T(!new), U(!new)>(s: seq<T>, f: T -> U)
    requires forall x, y :: f(x) == f(y) ==> x == y
    ensures forall u :: u in Image(s, f) <==> exists x :: x in s && f(x) == u
    ensures NoDup(s) ==> NoDup(Image(s, f))
  {
    forall x | x in s ensures f(x) in Image(s, f) {
      var i :| 0 <= i < |s| && s[i] == x;
      assert Image(s, f)[i] == f(x);
    }
  }

  /** The operations that one table asks for. */
  ghost predicate TableOp<W(!new), E(!new)>(e: Engine<W, E>, t: nat, d: Delta<E>, op: Op<E>) {
    op.table == t &&
    match op
    case Create(_, x) => x in if e.direction == Apply then d.dbOnly else d.cloudOnly
    case Delete(_, x) => x in if e.direction == Apply then d.cloudOnly else d.dbOnly
    case Update(_, x, y) => (x, y) in d.changed
  }

  ghost predicate NoDupDelta<E(!new)>(d: Delta<E>) { NoDup(d.dbOnly) && NoDup(d.cloudOnly) && NoDup(d.changed) }

  lemma TableMembers<W(!new), E(!new)>(e: Engine<W, E>, t: nat, d: Delta<E>)
    requires NoDupDelta(d)
    ensures NoDup(e.Creates(t, d) + e.Updates(t, d)) && NoDup(e.Deletes(t, d))
    ensures forall op :: op in e.Creates(t, d) + e.Updates(t, d) <==> !op.Delete? && TableOp(e, t, d, op)
    ensures forall op :: op in e.Deletes(t, d) <==> op.Delete? && TableOp(e, t, d, op)
  {
    ImageMembers(if e.direction == Apply then d.dbOnly else d.cloudOnly, (x: E) => Create(t, x));
    ImageMembers(d.changed, (p: (E, E)) => Update(t, p.0, p.1));
    ImageMembers(if e.direction == Apply then d.cloudOnly else d.dbOnly, (x: E) => Delete(t, x));
    AppendNoDup(e.Creates(t, d), e.Updates(t, d));
  }

  /** The operation is asked for by its table. */
  ghost predicate Asked<W(!new), E(!new)>(e: Engine<W, E>, ds: seq<Delta<E>>, op: Op<E>) {
    op.table < |ds| && TableOp(e, op.table, ds[op.table], op)
  }

  ghost predicate NoDupDeltas<E(!new)>(ds: seq<Delta<E>>) { forall t :: 0 <= t < |ds| ==> NoDupDelta(ds[t]) }

  lemma AskedLast<W(!new), E(!new)>(e: Engine<W, E>, ds: seq<Delta<E>>, op: Op<E>)
    requires ds != []
    ensures Asked(e, ds, op) <==> Asked(e, ds[..|ds| - 1], op) || TableOp(e, |ds| - 1, ds[|ds| - 1], op)
  {
  }

  lemma {:induction false} ForwardMembers<W(!new), E(!new)>(e: Engine<W, E>, ds: seq<Delta<E>>)
    requires NoDupDeltas(ds)
    ensures NoDup(e.Forward(ds)) && forall op :: op in e.Forward(ds) <==> !op.Delete? && Asked(e, ds, op)
    decreases |ds|
  {
    if ds != [] {
      var t := |ds| - 1;
      var before, here := e.Forward(ds[..t]), e.Creates(t, ds[t]) + e.Updates(t, ds[t]);
      ForwardMembers(e, ds[..t]);
      TableMembers(e, t, ds[t]);
      forall op: Op<E> ensures op in before + here <==> !op.Delete? && Asked(e, ds, op) { AskedLast(e, ds, op); }
      AppendNoDup(before, here);
    }
  }

  lemma {:induction false} BackwardMembers<W(!new), E(!new)>(e: Engine<W, E>, ds: seq<Delta<E>>)
    requires NoDupDeltas(ds)
    ensures NoDup(e.Backward(ds)) && forall op :: op in e.Backward(ds) <==> op.Delete? && Asked(e, ds, op)
    decreases |ds|
  {
    if ds != [] {
      var t := |ds| - 1;
      var here, before := e.Deletes(t, ds[t]), e.Backward(ds[..t]);
      BackwardMembers(e, ds[..t]);
      TableMembers(e, t, ds[t]);
      forall op: Op<E> ensures op in here + before <==> op.Delete? && Asked(e, ds, op) { AskedLast(e, ds, op); }
      AppendNoDup(here, before);
    }
  }

  /** The generators of a pass are exactly the kept operations that the two sides call for, each once. */
  lemma GeneratorsAreDue<W(!new), E(!new)>(e: Engine<W, E>, w: W)
    ensures NoDup(e.Generators(e.Deltas(w)))
    ensures forall op :: op in e.Generators(e.Deltas(w)) <==>
              op.table < e.tables && e.Due(w, op) && e.keep(w, op.table, e.KeyOf(op).1)
  {
    var ds := e.Deltas(w);
    forall t | 0 <= t < |ds| ensures NoDupDelta(ds[t]) { DeltaMembers(e, w, t); }
    ForwardMembers(e, ds);
    BackwardMembers(e, ds);
    AppendNoDup(e.Forward(ds), e.Backward(ds));
    forall op: Op<E>
      ensures op in e.Generators(ds) <==> op.table < e.tables && e.Due(w, op) && e.keep(w, op.table, e.KeyOf(op).1)
    {
      if op.table < e.tables { TableOpIsDue(e, w, op); }
    }
  }

  lemma TableOpIsDue<W(!new), E(!new)>(e: Engine<W, E>, w: W, op: Op<E>)
    ensures TableOp(e, op.table, e.DeltaOf(w, op.table), op) <==>
              e.Due(w, op) && e.keep(w, op.table, e.KeyOf(op).1)
  {
    DeltaMembers(e, w, op.table);
    TableOpMeans(e, w, op, e.DeltaOf(w, op.table), e.DbMap(w, op.table), e.CloudMap(w, op.table));
  }

  lemma TableOpMeans<W(!new), E(!new)>(e: Engine<W, E>, w: W, op: Op<E>, d: Delta<E>, a: map<string, E>,
      b: map<string, E>)
    requires a == e.DbMap(w, op.table) && b == e.CloudMap(w, op.table)
    requires forall x :: x in d.dbOnly <==> OneSided(a, b, e, w, op.table, x)
    requires forall x :: x in d.cloudOnly <==> OneSided(b, a, e, w, op.table, x)
    requires forall p :: p in d.changed <==> TwoSided(e, w, op.table, p)
    ensures TableOp(e, op.table, d, op) <==> e.Due(w, op) && e.keep(w, op.table, e.KeyOf(op).1)
  {
    if op.Update? { UpdateIsShared(e, w, op.table, op.db, op.cloud); }
  }

  lemma UpdateIsShared<W(!new), E(!new)>(e: Engine<W, E>, w: W, t: nat, x: E, y: E)
    ensures TwoSided(e, w, t, (x, y)) <==> e.Due(w, Update(t, x, y)) && e.keep(w, t, e.entityId(t, x))
  {
    assert e.IdGen(t)(x) == e.entityId(t, x) && e.IdGen(t)(y) == e.entityId(t, y);
  }

  /** A key that is kept and on which the sides disagree has an operation. */
  lemma DisagreementHasOp<W(!new), E(!new)>(e: Engine<W, E>, w: W, k: Key) returns (op: Op<E>)
    requires k.0 < e.tables && !e.Agrees(w, k) && e.keep(w, k.0, k.1)
    ensures op in e.Generators(e.Deltas(w)) && e.KeyOf(op) == k
  {
    GeneratorsAreDue(e, w);
    var a, b := e.DbMap(w, k.0), e.CloudMap(w, k.0);
    ByIdIndexed(e.db(w, k.0), e.IdGen(k.0));
    ByIdIndexed(e.cloud(w, k.0), e.IdGen(k.0));
    if k.1 in a && k.1 in b {
      assert e.IdGen(k.0)(a[k.1]) == k.1 && e.IdGen(k.0)(b[k.1]) == k.1;
      op := Update(k.0, a[k.1], b[k.1]);
    } else if k.1 in a {
      assert e.IdGen(k.0)(a[k.1]) == k.1;
      op := if e.direction == Apply then Create(k.0, a[k.1]) else Delete(k.0, a[k.1]);
    } else {
      assert e.IdGen(k.0)(b[k.1]) == k.1;
      op := if e.direction == Apply then Delete(k.0, b[k.1]) else Create(k.0, b[k.1]);
    }
    assert e.Due(w, op);
  }

  lemma DueDisagrees<W(!new), E(!new)>(e: Engine<W, E>, w: W, op: Op<E>)
    requires e.Due(w, op)
    ensures !e.Agrees(w, e.KeyOf(op))
  {
  }

  /** There is nothing to run exactly when the sides agree on every kept id of every table. */
  lemma IdleIffAgreed<W(!new), E(!new)>(e: Engine<W, E>, w: W)
    ensures e.Generators(e.Deltas(w)) == [] <==>
            forall k: Key :: k.0 < e.tables && e.keep(w, k.0, k.1) ==> e.Agrees(w, k)
  {
    GeneratorsAreDue(e, w);
    var ops := e.Generators(e.Deltas(w));
    if ops == [] {
      forall k: Key | k.0 < e.tables && e.keep(w, k.0, k.1) ensures e.Agrees(w, k) {
        if !e.Agrees(w, k) { var op := DisagreementHasOp(e, w, k); }
      }
    } else {
      assert ops[0] in ops;
      DueDisagrees(e, w, ops[0]);
      assert !e.Agrees(w, e.KeyOf(ops[0]));
    }
  }

  // What is counted, and in which order operations run ------------------------------------------------

  /** Distinct elements are as many as their keys. */
  lemma {:induction false} KeysCounted<T(!new)>(s: seq<T>, f: T -> Key, keys: set<Key>)
    requires NoDup(s) && forall x, y :: x in s && y in s && f(x) == f(y) ==> x == y
    requires forall k :: k in keys <==> exists x :: x in s && f(x) == k
    ensures |keys| == |s|
    decreases |s|
  {
    if s == [] {
      assert keys == {};
    } else {
      var n := |s| - 1;
      var k := f(s[n]);
      assert s == s[..n] + [s[n]] && s[n] in s && k in keys;
      forall x | x in s[..n] ensures f(x) != k { assert x in s; }
      forall l ensures l in keys - {k} <==> exists x :: x in s[..n] && f(x) == l {
        if x :| x in s && f(x) == l && l != k { assert x in s[..n]; }
      }
      KeysCounted(s[..n], f, keys - {k});
    }
  }

  function Part(keys: set<Key>, t: nat): set<Key> { set k | k in keys && k.0 == t }

  /** The kept ids that `a` has and `b` lacks. */
  ghost predicate AreOneSided<W, E(!new)>(
      e: Engine<W, E>, w: W, a: nat -> map<string, E>, b: nat -> map<string, E>, keys: set<Key>)
  {
    forall k: Key :: k in keys <==> k.0 < e.tables && k.1 in a(k.0) && k.1 !in b(k.0) && e.keep(w, k.0, k.1)
  }

  /** The kept ids that both sides have, with entities that differ. */
  ghost predicate AreDifferent<W, E(!new)>(e: Engine<W, E>, w: W, keys: set<Key>) {
    forall k: Key :: k in keys <==>
      && k.0 < e.tables && k.1 in e.DbMap(w, k.0) && k.1 in e.CloudMap(w, k.0)
      && !e.equals(k.0, e.DbMap(w, k.0)[k.1], e.CloudMap(w, k.0)[k.1]) && e.keep(w, k.0, k.1)
  }

  ghost predicate AreCounted<W(!new), E(!new)>(
      e: Engine<W, E>, w: W, dbOnly: set<Key>, cloudOnly: set<Key>, changed: set<Key>)
  {
    && AreOneSided(e, w, (t: nat) => e.DbMap(w, t), (t: nat) => e.CloudMap(w, t), dbOnly)
    && AreOneSided(e, w, (t: nat) => e.CloudMap(w, t), (t: nat) => e.DbMap(w, t), cloudOnly)
    && AreDifferent(e, w, changed)
  }

  lemma SideCounted<W(!new), E(!new)>(
      e: Engine<W, E>, w: W, t: nat, a: map<string, E>, b: map<string, E>, xs: seq<E>, keys: set<Key>)
    requires NoDup(xs) && Indexed(a, e.IdGen(t)) && forall x :: x in xs <==> OneSided(a, b, e, w, t, x)
    requires forall k: Key :: k in keys <==> k.0 == t && k.1 in a && k.1 !in b && e.keep(w, t, k.1)
    ensures |keys| == |xs|
  {
    var f := (x: E) => (t, e.entityId(t, x));
    forall k: Key | k in keys ensures exists x :: x in xs && f(x) == k {
      assert e.IdGen(t)(a[k.1]) == k.1;
      assert OneSided(a, b, e, w, t, a[k.1]);
    }
    KeysCounted(xs, f, keys);
  }

  lemma PairsCounted<W(!new), E(!new)>(e: Engine<W, E>, w: W, t: nat, ps: seq<(E, E)>, keys: set<Key>)
    requires NoDup(ps) && forall p :: p in ps <==> TwoSided(e, w, t, p)
    requires Indexed(e.DbMap(w, t), e.IdGen(t)) && Indexed(e.CloudMap(w, t), e.IdGen(t))
    requires forall k: Key :: k in keys <==>
               && k.0 == t && k.1 in e.DbMap(w, t) && k.1 in e.CloudMap(w, t)
               && !e.equals(t, e.DbMap(w, t)[k.1], e.CloudMap(w, t)[k.1]) && e.keep(w, t, k.1)
    ensures |keys| == |ps|
  {
    var f := (p: (E, E)) => (t, e.entityId(t, p.0));
    var a, b := e.DbMap(w, t), e.CloudMap(w, t);
    assert forall x :: e.IdGen(t)(x) == e.entityId(t, x);
    forall k: Key | k in keys ensures exists p :: p in ps && f(p) == k {
      assert e.IdGen(t)(a[k.1]) == k.1 && e.IdGen(t)(b[k.1]) == k.1;
      assert TwoSided(e, w, t, (a[k.1], b[k.1])) && f((a[k.1], b[k.1])) == k;
    }
    KeysCounted(ps, f, keys);
  }

  /** The lengths of one table's difference. */
  predicate Measures<E>(d: Delta<E>, dbOnly: set<Key>, cloudOnly: set<Key>, changed: set<Key>, t: nat) {
    |Part(dbOnly, t)| == |d.dbOnly| && |Part(cloudOnly, t)| == |d.cloudOnly| && |Part(changed, t)| == |d.changed|
  }

  /** What one table adds to the counts. */
  lemma TableCounted<W(!new), E(!new)>(
      e: Engine<W, E>, w: W, dbOnly: set<Key>, cloudOnly: set<Key>, changed: set<Key>, t: nat)
    requires AreCounted(e, w, dbOnly, cloudOnly, changed) && t < e.tables
    ensures Measures(e.DeltaOf(w, t), dbOnly, cloudOnly, changed, t)
  {
    var a, b, d := e.DbMap(w, t), e.CloudMap(w, t), e.DeltaOf(w, t);
    DeltaMembers(e, w, t);
    ByIdIndexed(e.db(w, t), e.IdGen(t));
    ByIdIndexed(e.cloud(w, t), e.IdGen(t));
    SideCounted(e, w, t, a, b, d.dbOnly, Part(dbOnly, t));
    SideCounted(e, w, t, b, a, d.cloudOnly, Part(cloudOnly, t));
    PairsCounted(e, w, t, d.changed, Part(changed, t));
  }

  function Below(keys: set<Key>, n: nat): set<Key> { set k | k in keys && k.0 < n }

  lemma BelowNext(keys: set<Key>, n: nat)
    ensures |Below(keys, n + 1)| == |Below(keys, n)| + |Part(keys, n)|
  {
    assert Below(keys, n + 1) == Below(keys, n) + Part(keys, n);
    assert Below(keys, n) !! Part(keys, n);
  }

  lemma {:induction false} CountsUpTo<E>(
      ds: seq<Delta<E>>, dbOnly: set<Key>, cloudOnly: set<Key>, changed: set<Key>)
    requires forall t :: 0 <= t < |ds| ==> Measures(ds[t], dbOnly, cloudOnly, changed, t)
    ensures RecordCount(ds) == Counts(|Below(dbOnly, |ds|)|, |Below(cloudOnly, |ds|)|, |Below(changed, |ds|)|)
    decreases |ds|
  {
    if ds == [] {
      assert Below(dbOnly, 0) == {} && Below(cloudOnly, 0) == {} && Below(changed, 0) == {};
    } else {
      var n := |ds| - 1;
      CountsUpTo(ds[..n], dbOnly, cloudOnly, changed);
      BelowNext(dbOnly, n);
      BelowNext(cloudOnly, n);
      BelowNext(changed, n);
      assert Measures(ds[n], dbOnly, cloudOnly, changed, n);
    }
  }

  /** The three numbers of recordCount: the kept ids of all tables that only the database has, that only the
      cloud has, and that both have with entities that differ. */
  lemma RecordCountMeans<W(!new), E(!new)>(
      e: Engine<W, E>, w: W, dbOnly: set<Key>, cloudOnly: set<Key>, changed: set<Key>)
    requires AreCounted(e, w, dbOnly, cloudOnly, changed)
    ensures e.Loops().counts(w) == Counts(|dbOnly|, |cloudOnly|, |changed|)
  {
    forall t | 0 <= t < e.tables ensures Measures(e.Deltas(w)[t], dbOnly, cloudOnly, changed, t) {
      TableCounted(e, w, dbOnly, cloudOnly, changed, t);
    }
    CountsUpTo(e.Deltas(w), dbOnly, cloudOnly, changed);
    assert Below(dbOnly, e.tables) == dbOnly && Below(cloudOnly, e.tables) == cloudOnly;
    assert Below(changed, e.tables) == changed;
  }

  /** What may come before what: creates and updates table by table, creates first, and then deletes in the
      reverse order of the tables. */
  predicate MayPrecede<E>(a: Op<E>, b: Op<E>) {
    if b.Delete? then !a.Delete? || a.table >= b.table
    else !a.Delete? && (a.table < b.table || (a.table == b.table && (a.Create? || b.Update?)))
  }

  ghost predicate InTurn<E(!new)>(ops: seq<Op<E>>) { forall i, j :: 0 <= i < j < |ops| ==> MayPrecede(ops[i], ops[j]) }

  lemma JoinedInTurn<E(!new)>(a: seq<Op<E>>, b: seq<Op<E>>)
    requires InTurn(a) && InTurn(b) && forall i, j :: 0 <= i < |a| && 0 <= j < |b| ==> MayPrecede(a[i], b[j])
    ensures InTurn(a + b)
  {
  }

  lemma {:induction false} ForwardInTurn<W(!new), E(!new)>(e: Engine<W, E>, ds: seq<Delta<E>>)
    ensures InTurn(e.Forward(ds))
    ensures forall i :: 0 <= i < |e.Forward(ds)| ==> !e.Forward(ds)[i].Delete? && e.Forward(ds)[i].table < |ds|
    decreases |ds|
  {
    if ds != [] {
      var t := |ds| - 1;
      ForwardInTurn(e, ds[..t]);
      JoinedInTurn(e.Creates(t, ds[t]), e.Updates(t, ds[t]));
      JoinedInTurn(e.Forward(ds[..t]), e.Creates(t, ds[t]) + e.Updates(t, ds[t]));
    }
  }

  lemma {:induction false} BackwardInTurn<W(!new), E(!new)>(e: Engine<W, E>, ds: seq<Delta<E>>)
    ensures InTurn(e.Backward(ds))
    ensures forall i :: 0 <= i < |e.Backward(ds)| ==> e.Backward(ds)[i].Delete? && e.Backward(ds)[i].table < |ds|
    decreases |ds|
  {
    if ds != [] {
      var t := |ds| - 1;
      BackwardInTurn(e, ds[..t]);
      JoinedInTurn(e.Deletes(t, ds[t]), e.Backward(ds[..t]));
    }
  }

  /** The order of the generators. */
  lemma GeneratorsInTurn<W(!new), E(!new)>(e: Engine<W, E>, w: W)
    ensures InTurn(e.Generators(e.Deltas(w)))
  {
    ForwardInTurn(e, e.Deltas(w));
    BackwardInTurn(e, e.Deltas(w));
    JoinedInTurn(e.Forward(e.Deltas(w)), e.Backward(e.Deltas(w)));
  }

  /** The round succeeds if and only if all `n` operations resolve.  What a failing round leaves is the number of
      those that did not, unless the loader itself broke. */
  ghost predicate Accounts<W, E>(c: Carried<W>, r: LazyDep.Load<W, Op<E>>, n: nat) {
    && c.w == r.w
    && (c.ok ==> |r.resolved| == n)
    && (!c.ok && !r.status.Crashed? ==> |r.resolved| < n && c.remaining == Left(n - |r.resolved|))
    && (r.status.Crashed? ==> !c.ok && c.remaining == Unknown)
  }

  lemma CarryMeans<W(!new), E(!new)>(e: Engine<W, E>, w: W)
    ensures var ops := e.Generators(e.Deltas(w));
            Accounts(e.Loops().carry(w), LazyDep.Run(e.exec, ops, w), |ops|)
  {
    var ops := e.Generators(e.Deltas(w));
    var run := LazyDep.Run(e.exec, ops, w);
    LazyDep.ResolvedCount(e.exec, ops, w);
    CarryIs(e, w, run);
    CarriedMeans(e.Loops().carry(w), run, |ops|);
  }

  lemma CarryIs<W, E>(e: Engine<W, E>, w: W, r: LazyDep.Load<W, Op<E>>)
    requires r == LazyDep.Run(e.exec, e.Generators(e.Deltas(w)), w)
    ensures e.Loops().carry(w) ==
              Carried(r.w, r.status.Loaded?, if r.status.Halted? then Left(|r.status.generatorsToRun|) else Unknown)
  {
  }

  lemma CarriedMeans<W, E>(c: Carried<W>, r: LazyDep.Load<W, Op<E>>, n: nat)
    requires c == Carried(r.w, r.status.Loaded?, if r.status.Halted? then Left(|r.status.generatorsToRun|) else Unknown)
    requires r.status.Loaded? ==> |r.resolved| == n
    requires r.status.Halted? ==> |r.resolved| + |r.status.generatorsToRun| == n && r.status.generatorsToRun != []
    ensures Accounts(c, r, n)
  {
  }

  /** How many operations due in this world do not resolve; none is known when the loader breaks. */
  function Unresolved<W, E>(e: Engine<W, E>, w: W): FailureCount {
    var ops := e.Generators(e.Deltas(w));
    var r := LazyDep.Run(e.exec, ops, w);
    if r.status.Crashed? || |r.resolved| > |ops| then Unknown else Left(|ops| - |r.resolved|)
  }

  /** Whatever the mappers do, `apply` and `sync` end with stuck operations only in the second of two successive
      failing rounds, after which equally many operations were unresolved. */
  lemma StuckLeavesEquallyMany<W(!new), E(!new)>(e: Engine<W, E>, w: W, crupdes: seq<Row>, n: nat)
    returns (j: nat, i: nat)
    requires !e.dryRun && e.tables > 0
    requires var s := Passes(e.Loops(), Running(Start(w, crupdes)), n); s.Threw? && s.error == OperationsStuck
    ensures var m, l := e.Loops(), Start(w, crupdes);
            && i < n && FailsAt(m, l, i) && LatestFailure(m, l, j, i)
            && Unresolved(e, SeenBy(m, At(m, l, j))) == Unresolved(e, SeenBy(m, At(m, l, i))) != Left(0)
  {
    assert Counting(e.Loops());
    j, i := StuckOnlyByRepeat(e.Loops(), w, crupdes, n);
    LeavesUnresolved(e, Start(w, crupdes), j);
    LeavesUnresolved(e, Start(w, crupdes), i);
  }

  lemma LeavesUnresolved<W(!new), E(!new)>(e: Engine<W, E>, l: Loop<W>, i: nat)
    requires FailsAt(e.Loops(), l, i)
    ensures LeftAt(e.Loops(), l, i) == Unresolved(e, SeenBy(e.Loops(), At(e.Loops(), l, i))) != Left(0)
  {
    FailedCarry(e.Loops(), l, i);
    CarryUnresolved(e, SeenBy(e.Loops(), At(e.Loops(), l, i)));
  }

  lemma CarryUnresolved<W(!new), E(!new)>(e: Engine<W, E>, w: W)
    ensures !e.Loops().carry(w).ok ==> e.Loops().carry(w).remaining == Unresolved(e, w) != Left(0)
  {
    CarryMeans(e, w);
  }

  /** One of these calls reads the table, and succeeds. */
  ghost predicate TableRead<W(!new), E(!new)>(e: Engine<W, E>, side: Direction, calls: seq<(W, nat)>, t: nat) {
    exists c :: c in calls && c.1 == t && e.read(c.0, side, t).1.Resolved?
  }

  /** Reading a side succeeds only when a read of every table has resolved, and fails only when a read of some
      table has not. */
  lemma AcquireMeans<W(!new), E(!new)>(e: Engine<W, E>, w: W, side: Direction)
    ensures var calls := e.ReadCalls(w, side);
            if e.Acquire(w, side).ok then forall t: nat :: t < e.tables ==> TableRead(e, side, calls, t)
            else exists c: (W, nat) :: c in calls && c.1 < e.tables && !e.read(c.0, side, c.1).1.Resolved?
  {
    var call: LazyDep.Call<W, nat> := (v: W, t: nat) => e.read(v, side, t);
    var calls := e.ReadCalls(w, side);
    LazyDep.LoadedMeans(call, Indices(e.tables), e.flush(w, side));
    LazyDep.CallsAreGiven(call, Indices(e.tables), e.flush(w, side));
    if e.Acquire(w, side).ok {
      forall t: nat | t < e.tables ensures TableRead(e, side, calls, t) {
        assert Indices(e.tables)[t] == t && t in Indices(e.tables);
        var c :| c in calls && c.1 == t && LazyDep.Resolves(call, c);
      }
    } else {
      var c :| c in calls && !LazyDep.Resolves(call, c);
    }
  }

  /** A read starts from a flushed memo: what it sees, and whether it succeeds, depends on nothing that the
      flush of its side forgets. */
  lemma AcquireForgets<W(!new), E(!new)>(e: Engine<W, E>, w: W, w': W, side: Direction)
    requires e.flush(w, side) == e.flush(w', side)
    ensures e.Acquire(w, side) == e.Acquire(w', side)
  {
  }

  // The plan of a preview -----------------------------------------------------------------------------

  lemma TableRows<W(!new), E(!new)>(e: Engine<W, E>, t: nat, d: Delta<E>, r: Row)
    ensures r in e.PlanRows(t, d) <==> exists op :: TableOp(e, t, d, op) && e.RowOf(op) == r
  {
    var create, delete := (x: E) => e.RowOf(Create(t, x)), (x: E) => e.RowOf(Delete(t, x));
    var change := (p: (E, E)) => e.RowOf(Update(t, p.0, p.1));
    var (made, gone) := if e.direction == Apply then (d.dbOnly, d.cloudOnly) else (d.cloudOnly, d.dbOnly);
    assert e.PlanRows(t, d) == (if e.direction == Apply then Image(made, create) + Image(gone, delete)
                                else Image(gone, delete) + Image(made, create)) + Image(d.changed, change);
    ImageHas(made, create, r);
    ImageHas(gone, delete, r);
    ImageHas(d.changed, change, r);
    if x :| x in made && create(x) == r { assert TableOp(e, t, d, Create(t, x)); }
    if x :| x in gone && delete(x) == r { assert TableOp(e, t, d, Delete(t, x)); }
    if p :| p in d.changed && change(p) == r { assert TableOp(e, t, d, Update(t, p.0, p.1)); }
    if op :| TableOp(e, t, d, op) && e.RowOf(op) == r {
      match op
      case Create(_, x) => assert x in made && create(x) == r;
      case Delete(_, x) => assert x in gone && delete(x) == r;
      case Update(_, x, y) => assert (x, y) in d.changed && change((x, y)) == r;
    }
  }

  lemma {:induction false} RowsAsked<W(!new), E(!new)>(e: Engine<W, E>, ds: seq<Delta<E>>, r: Row)
    ensures r in e.AllRows(ds) <==> exists op :: Asked(e, ds, op) && e.RowOf(op) == r
    decreases |ds|
  {
    if ds != [] {
      var t := |ds| - 1;
      RowsAsked(e, ds[..t], r);
      TableRows(e, t, ds[t], r);
      forall op: Op<E> ensures Asked(e, ds, op) <==> Asked(e, ds[..t], op) || TableOp(e, t, ds[t], op) {
        AskedLast(e, ds, op);
      }
    }
  }

  /** A preview whose reads succeed lists exactly the operations that the two sides call for: a record is in
      its plan if and only if it was there before or announces a kept operation that is due. */
  lemma PreviewListsOperations<W(!new), E(!new)>(e: Engine<W, E>, w: W, crupdes: seq<Row>, n: nat)
    requires e.dryRun && e.tables > 0 && n > 0 && Reads(e.Loops(), w)
    ensures var s, seen := Passes(e.Loops(), Running(Start(w, crupdes)), n), Seen(e.Loops(), w);
            && s.Returned? && s.w == seen
            && forall r :: r in s.plan <==> r in crupdes || exists op :: DueAndKept(e, seen, op) && e.RowOf(op) == r
  {
    var m := e.Loops();
    var seen := Seen(m, w);
    PreviewOnlyReads(m, w, crupdes, n);
    PlanGrows(crupdes, m.rows(seen));
    forall r ensures r in m.rows(seen) <==> exists op :: DueAndKept(e, seen, op) && e.RowOf(op) == r {
      RowsAnnounce(e, seen, r);
    }
  }

  /** The records of one pass. */
  lemma RowsAnnounce<W(!new), E(!new)>(e: Engine<W, E>, w: W, r: Row)
    ensures r in e.Loops().rows(w) <==> exists op :: DueAndKept(e, w, op) && e.RowOf(op) == r
  {
    RowsAsked(e, e.Deltas(w), r);
    forall op: Op<E> ensures Asked(e, e.Deltas(w), op) <==> DueAndKept(e, w, op) {
      if op.table < e.tables { TableOpIsDue(e, w, op); }
    }
  }

  /** The sides call for the operation and the filter keeps it. */
  ghost predicate DueAndKept<W(!new), E(!new)>(e: Engine<W, E>, w: W, op: Op<E>) {
    op.table < e.tables && e.Due(w, op) && e.keep(w, op.table, e.KeyOf(op).1)
  }

  // Results for arbitrary mappers ---------------------------------------------------------------------

  /** Exit condition.  Whatever the mappers do, `apply` and `sync` return normally (outside a preview) only
      from a world just read on both sides in which these agree on every id that the filter keeps. */
  lemma ReturnsOnlyInAgreement<W(!new), E(!new)>(e: Engine<W, E>, start: W, crupdes: seq<Row>, n: nat)
    requires !e.dryRun && e.tables > 0
    requires Passes(e.Loops(), Running(Start(start, crupdes)), n).Returned?
    ensures var w := Passes(e.Loops(), Running(Start(start, crupdes)), n).w;
            && JustRead(e.Loops(), w)
            && forall k: Key :: k.0 < e.tables && e.keep(w, k.0, k.1) ==> e.Agrees(w, k)
  {
    ReturnsOnlyIdle(e.Loops(), Start(start, crupdes), n);
    var w := Passes(e.Loops(), Running(Start(start, crupdes)), n).w;
    assert e.Loops().idle(w) == (e.Generators(e.Deltas(w)) == []);
    IdleIffAgreed(e, w);
  }

  /** Operations touch only their own key; reads touch nothing. */
  ghost predicate Local<W(!new), E(!new), V(!new)>(e: Engine<W, E>, at: (W, Key) -> V) {
    && (forall w, op, k :: k != e.KeyOf(op) ==> at(e.exec(w, op).0, k) == at(w, k))
    && (forall w, side, k :: at(e.flush(w, side), k) == at(w, k))
    && (forall w, side, t, k :: at(e.read(w, side, t).0, k) == at(w, k))
  }

  lemma AcquireFrame<W(!new), E(!new), V(!new)>(e: Engine<W, E>, at: (W, Key) -> V, w: W, side: Direction, k: Key)
    requires Local(e, at)
    ensures at(e.Acquire(w, side).w, k) == at(w, k)
  {
    LazyDep.RunKeeps((w': W, t: nat) => e.read(w', side, t), Indices(e.tables), v => at(v, k) == at(w, k),
                     Indices(e.tables), e.flush(w, side));
  }

  lemma CarryFrame<W(!new), E(!new), V(!new)>(e: Engine<W, E>, at: (W, Key) -> V, changed: iset<Key>, w: W, k: Key)
    requires Local(e, at) && k !in changed
    requires forall t: nat, id :: e.keep(w, t, id) ==> (t, id) in changed
    ensures at(e.Carry(w).w, k) == at(w, k)
  {
    GeneratorsAreDue(e, w);
    var ops := e.Generators(e.Deltas(w));
    forall op | op in ops ensures e.KeyOf(op) != k { assert e.keep(w, op.table, e.KeyOf(op).1); }
    LazyDep.RunKeeps(e.exec, ops, v => at(v, k) == at(w, k), ops, w);
  }

  /** Frame.  Over any run, with any successes, failures and retries, nothing changes outside the ids that
      the filter can keep: `apply` for a non-empty change list touches only the changed entities. */
  lemma UnchangedOutsideFilter<W(!new), E(!new), V(!new)>(
    e: Engine<W, E>, at: (W, Key) -> V, changed: iset<Key>, s: State<W>, n: nat, k: Key)
    requires Local(e, at) && k !in changed
    requires forall w, t: nat, id :: e.keep(w, t, id) ==> (t, id) in changed
    ensures at(Passes(e.Loops(), s, n).World(), k) == at(s.World(), k)
  {
    var v := at(s.World(), k);
    var inv := (w: W) => at(w, k) == v;
    var m := e.Loops();
    forall w | inv(w) ensures inv(m.reload(w).w) && inv(m.refresh(w).w) && inv(m.carry(w).w) {
      AcquireFrame(e, at, w, e.direction, k);
      AcquireFrame(e, at, w, e.direction.Other(), k);
      CarryFrame(e, at, changed, w, k);
    }
    PassesKeep(m, inv, s, n);
  }
}
