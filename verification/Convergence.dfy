/** Convergence of `apply` and `sync` (src/modules/iasql_functions/iasql.ts) for mappers that do their job:
    what a run ends in when operations wait for one another. */
module Convergence {
  import opened Fixpoint
  import opened Diff
  import opened DiffLoop
  import opened Reconcile
  import LazyDep

  /** How the mappers behave: the keys that must agree before a key can be operated on, the worlds that
      have been read and are still intact, and the keys that the filter keeps. */
  datatype Behaviour<!W> = Behaviour(needs: Key -> set<Key>, live: W -> bool, kept: iset<Key>)

  /** Both sides hold at this key what they held before. */
  ghost predicate SameAt<W, E>(e: Engine<W, E>, w: W, w': W, k: Key) {
    && (k.1 in e.DbMap(w, k.0) <==> k.1 in e.DbMap(w', k.0))
    && (k.1 in e.DbMap(w, k.0) ==> e.DbMap(w, k.0)[k.1] == e.DbMap(w', k.0)[k.1])
    && (k.1 in e.CloudMap(w, k.0) <==> k.1 in e.CloudMap(w', k.0))
    && (k.1 in e.CloudMap(w, k.0) ==> e.CloudMap(w, k.0)[k.1] == e.CloudMap(w', k.0)[k.1])
  }

  ghost predicate Blocked<W, E>(e: Engine<W, E>, b: Behaviour<W>, w: W, k: Key) {
    exists d :: d in b.needs(k) && !e.Agrees(w, d)
  }

  /** A due operation changes its own key only; when it resolves the sides agree there, and it is rejected,
      without effect, only while something it needs is not in agreement. */
  ghost predicate Obliging<W(!new), E(!new)>(e: Engine<W, E>, b: Behaviour<W>) {
    forall w, op: Op<E> {:trigger e.exec(w, op)} :: b.live(w) && op.table < e.tables && e.Due(w, op) ==>
      var (w', o) := e.exec(w, op);
      && b.live(w') && !o.RejectedNonObject?
      && (forall k :: k != e.KeyOf(op) ==> SameAt(e, w, w', k))
      && (o.Resolved? ==> e.Agrees(w', e.KeyOf(op)))
      && (o.Rejected? ==> SameAt(e, w, w', e.KeyOf(op)) && Blocked(e, b, w, e.KeyOf(op)))
  }

  /** In addition it resolves only when everything it needs is in agreement. */
  ghost predicate Exacting<W(!new), E(!new)>(e: Engine<W, E>, b: Behaviour<W>) {
    forall w, op: Op<E> {:trigger e.exec(w, op)} :: b.live(w) && op.table < e.tables && e.Due(w, op) ==>
      (Blocked(e, b, w, e.KeyOf(op)) ==> e.exec(w, op).1.Rejected?)
  }

  /** Reading a live world again succeeds and shows agreement and disagreement where they were. */
  ghost predicate Rereads<W(!new), E(!new)>(e: Engine<W, E>, b: Behaviour<W>, w: W, r: Read<W>) {
    r.ok && b.live(r.w) && forall k :: e.Agrees(r.w, k) <==> e.Agrees(w, k)
  }

  ghost predicate SteadyAt<W(!new), E(!new)>(e: Engine<W, E>, b: Behaviour<W>, w: W) {
    && Rereads(e, b, w, e.Acquire(w, e.direction.Other()))
    && e.Acquire(w, e.direction).ok
    && Rereads(e, b, w, e.Acquire(e.Acquire(w, e.direction).w, e.direction.Other()))
    && forall k: Key :: k.0 < e.tables ==> (e.keep(w, k.0, k.1) <==> k in b.kept)
  }

  ghost predicate Steady<W(!new), E(!new)>(e: Engine<W, E>, b: Behaviour<W>) {
    forall w {:trigger SteadyAt(e, b, w)} :: b.live(w) ==> SteadyAt(e, b, w)
  }

  /** The kept keys on which the sides disagree. */
  ghost predicate Open<W, E>(e: Engine<W, E>, b: Behaviour<W>, w: W, k: Key) {
    k.0 < e.tables && k in b.kept && !e.Agrees(w, k)
  }

  ghost function TaskOf<W(!new), E(!new)>(e: Engine<W, E>, b: Behaviour<W>): LazyDep.Task<W, Op<E>, Key> {
    LazyDep.Task(op => e.KeyOf(op), b.needs, w => iset k: Key | e.Agrees(w, k))
  }

  function Ops<W, E>(e: Engine<W, E>, w: W): seq<Op<E>> { e.Generators(e.Deltas(w)) }

  /** What the operations of one pass keep: each is carried out or still due. */
  ghost predicate Underway<W(!new), E(!new)>(e: Engine<W, E>, b: Behaviour<W>, ops: seq<Op<E>>, w: W) {
    b.live(w) && forall op :: op in ops ==> e.Agrees(w, e.KeyOf(op)) || e.Due(w, op)
  }

  lemma DueIsUnique<W(!new), E(!new)>(e: Engine<W, E>, w: W, op: Op<E>, op': Op<E>)
    requires e.Due(w, op) && e.Due(w, op') && e.KeyOf(op) == e.KeyOf(op')
    ensures op == op'
  {
  }

  lemma SameAtSameStatus<W(!new), E(!new)>(e: Engine<W, E>, w: W, w': W, op: Op<E>)
    requires SameAt(e, w, w', e.KeyOf(op))
    ensures e.Agrees(w, e.KeyOf(op)) <==> e.Agrees(w', e.KeyOf(op))
    ensures e.Due(w, op) <==> e.Due(w', op)
  {
  }

  lemma OpsPending<W(!new), E(!new)>(e: Engine<W, E>, b: Behaviour<W>, w: W)
    requires b.live(w) && Steady(e, b)
    ensures LazyDep.Pending(TaskOf(e, b), Ops(e, w), w)
    ensures Underway(e, b, Ops(e, w), w)
    ensures forall op :: op in Ops(e, w) ==> op.table < e.tables && Open(e, b, w, e.KeyOf(op))
    ensures forall k :: Open(e, b, w, k) ==> exists op :: op in Ops(e, w) && e.KeyOf(op) == k
  {
    GeneratorsAreDue(e, w);
    assert SteadyAt(e, b, w);
    forall op | op in Ops(e, w)
      ensures multiset(Ops(e, w))[op] == 1 && Open(e, b, w, e.KeyOf(op))
    {
      NoDupCount(Ops(e, w), op);
      DueDisagrees(e, w, op);
    }
    forall op, op' | op in Ops(e, w) && op' in Ops(e, w) && e.KeyOf(op) == e.KeyOf(op') ensures op == op' {
      DueIsUnique(e, w, op, op');
    }
    forall k | Open(e, b, w, k) ensures exists op :: op in Ops(e, w) && e.KeyOf(op) == k {
      var op := DisagreementHasOp(e, w, k);
    }
  }

  lemma OpsCooperate<W(!new), E(!new)>(e: Engine<W, E>, b: Behaviour<W>, ops: seq<Op<E>>)
    requires Obliging(e, b) && forall op :: op in ops ==> op.table < e.tables
    ensures LazyDep.Cooperative(TaskOf(e, b), e.exec, ops, w => Underway(e, b, ops, w))
  {
    var t := TaskOf(e, b);
    forall w, op {:trigger e.exec(w, op)} | Underway(e, b, ops, w) && op in ops && t.key(op) !in t.done(w)
      ensures var (w', o) := e.exec(w, op);
              && Underway(e, b, ops, w') && !o.RejectedNonObject?
              && (o.Resolved? ==> t.done(w') == t.done(w) + iset{t.key(op)})
              && (o.Rejected? ==> t.done(w') == t.done(w) && t.Waits(w, op))
    {
      OpCooperates(e, b, ops, w, op);
    }
  }

  lemma OpCooperates<W(!new), E(!new)>(e: Engine<W, E>, b: Behaviour<W>, ops: seq<Op<E>>, w: W, op: Op<E>)
    requires Obliging(e, b) && Underway(e, b, ops, w) && op in ops && op.table < e.tables
    requires !e.Agrees(w, e.KeyOf(op))
    ensures var t, (w', o) := TaskOf(e, b), e.exec(w, op);
            && Underway(e, b, ops, w') && !o.RejectedNonObject?
            && (o.Resolved? ==> t.done(w') == t.done(w) + iset{t.key(op)})
            && (o.Rejected? ==> t.done(w') == t.done(w) && t.Waits(w, op))
  {
    var (w', o) := e.exec(w, op);
    assert e.Due(w, op);
    forall op' | op' in ops ensures e.Agrees(w', e.KeyOf(op')) || e.Due(w', op') {
      if e.KeyOf(op') != e.KeyOf(op) {
        SameAtSameStatus(e, w, w', op');
      } else {
        DueIsUnique(e, w, op, op');
        if o.Rejected? { SameAtSameStatus(e, w, w', op); }
      }
    }
    forall k: Key | k != e.KeyOf(op) || o.Rejected? ensures e.Agrees(w, k) <==> e.Agrees(w', k) {
      assert SameAt(e, w, w', k);
    }
    if o.Rejected? {
      var d :| d in b.needs(e.KeyOf(op)) && !e.Agrees(w, d);
      assert d !in TaskOf(e, b).done(w);
    }
  }

  /** Effect of the operations of one pass: agreement is only gained, and where it is missing at the end an
      operation was left over. */
  lemma CarryEffect<W(!new), E(!new)>(e: Engine<W, E>, b: Behaviour<W>, w: W)
    requires Obliging(e, b) && Steady(e, b) && b.live(w)
    ensures var r := LazyDep.Run(e.exec, Ops(e, w), w);
            && b.live(r.w) && !r.status.Crashed?
            && (forall k :: e.Agrees(r.w, k) <==> e.Agrees(w, k) || k in LazyDep.KeysOf(TaskOf(e, b), r.resolved))
  {
    var t, ops := TaskOf(e, b), Ops(e, w);
    OpsPending(e, b, w);
    OpsCooperate(e, b, ops);
    LazyDep.RunCooperates(t, e.exec, ops, v => Underway(e, b, ops, v), ops, w);
    var r := LazyDep.Run(e.exec, ops, w);
    forall k ensures e.Agrees(r.w, k) <==> e.Agrees(w, k) || k in LazyDep.KeysOf(t, r.resolved) {
      assert k in t.done(r.w) <==> k in t.done(w) || k in LazyDep.KeysOf(t, r.resolved);
    }
  }

  /** Prerequisites are acyclic: what an open key needs agrees already or is an open key of smaller rank. */
  ghost predicate Acyclic<W(!new), E(!new)>(e: Engine<W, E>, b: Behaviour<W>, w: W, rank: Key -> nat) {
    forall k, d :: Open(e, b, w, k) && d in b.needs(k) ==>
      e.Agrees(w, d) || (Open(e, b, w, d) && rank(d) < rank(k))
  }

  ghost predicate Reachable<W(!new), E(!new)>(e: Engine<W, E>, b: Behaviour<W>, w: W) {
    AllFire(TaskOf(e, b).Rules(Ops(e, w)), TaskOf(e, b).done(w))
  }

  lemma AcyclicReachable<W(!new), E(!new)>(e: Engine<W, E>, b: Behaviour<W>, w: W, rank: Key -> nat)
    requires Steady(e, b) && b.live(w) && Acyclic(e, b, w, rank)
    ensures Reachable(e, b, w)
  {
    var t, ops := TaskOf(e, b), Ops(e, w);
    var rules, base := t.Rules(ops), t.done(w);
    OpsPending(e, b, w);
    forall r, k | r in rules && k in r.body && k !in base ensures rank(k) < rank(r.head) && k in Heads(rules) {
      BodyRanked(e, b, w, rank, ops, r, k);
    }
    forall r | r in rules ensures Fires(rules, base, r) { RankedFires(rules, base, rank, r); }
  }

  lemma BodyRanked<W(!new), E(!new)>(e: Engine<W, E>, b: Behaviour<W>, w: W, rank: Key -> nat,
                                     ops: seq<Op<E>>, r: Rule<Key>, k: Key)
    requires Acyclic(e, b, w, rank) && r in TaskOf(e, b).Rules(ops) && k in r.body && !e.Agrees(w, k)
    requires forall op :: op in ops ==> Open(e, b, w, e.KeyOf(op))
    requires forall k :: Open(e, b, w, k) ==> exists op :: op in ops && e.KeyOf(op) == k
    ensures rank(k) < rank(r.head) && k in Heads(TaskOf(e, b).Rules(ops))
  {
    var t := TaskOf(e, b);
    var i :| 0 <= i < |ops| && t.Rules(ops)[i] == r;
    assert ops[i] in ops && r == t.RuleOf(ops[i]);
    assert Open(e, b, w, k);
    var op :| op in ops && e.KeyOf(op) == k;
    t.RuleIn(ops, op);
  }

  /** When everything is reachable one round of operations leaves nothing open. */
  lemma CarrySettles<W(!new), E(!new)>(e: Engine<W, E>, b: Behaviour<W>, w: W)
    requires Obliging(e, b) && Steady(e, b) && b.live(w) && Reachable(e, b, w)
    ensures var r := LazyDep.Run(e.exec, Ops(e, w), w);
            && r.status.Loaded? && b.live(r.w)
            && (forall k :: e.Agrees(w, k) ==> e.Agrees(r.w, k))
            && (forall k :: !Open(e, b, r.w, k))
  {
    var t, ops := TaskOf(e, b), Ops(e, w);
    var r := LazyDep.Run(e.exec, ops, w);
    CarryEffect(e, b, w);
    OpsPending(e, b, w);
    LazyDep.ResolvedOnce(e.exec, ops, w);
    if r.status.Halted? { LeftoverUnreachable(e, b, w, r.status.generatorsToRun[0]); }
    LazyDep.Members(r.resolved, [], ops);
    forall k ensures !Open(e, b, r.w, k) {
      if Open(e, b, w, k) {
        var op :| op in ops && e.KeyOf(op) == k;
        assert t.key(op) in LazyDep.KeysOf(t, r.resolved);
      }
    }
  }

  lemma LeftoverUnreachable<W(!new), E(!new)>(e: Engine<W, E>, b: Behaviour<W>, w: W, g: Op<E>)
    requires Obliging(e, b) && Steady(e, b) && b.live(w)
    requires LazyDep.Run(e.exec, Ops(e, w), w).status.Halted?
    requires g in LazyDep.Run(e.exec, Ops(e, w), w).status.generatorsToRun
    ensures !Reachable(e, b, w)
  {
    var t, ops := TaskOf(e, b), Ops(e, w);
    var r := LazyDep.Run(e.exec, ops, w);
    OpsPending(e, b, w);
    OpsCooperate(e, b, ops);
    LazyDep.NoneLeftBehind(t, e.exec, ops, v => Underway(e, b, ops, v), w, g);
    LazyDep.ResolvedOnce(e.exec, ops, w);
    LazyDep.Members(r.resolved, r.status.generatorsToRun, ops);
    t.RuleIn(ops, g);
  }

  lemma AgreedIdle<W(!new), E(!new)>(e: Engine<W, E>, b: Behaviour<W>, w: W)
    requires Steady(e, b) && b.live(w)
    ensures e.Loops().idle(w) <==> forall k :: !Open(e, b, w, k)
  {
    IdleIffAgreed(e, w);
    assert SteadyAt(e, b, w);
    if forall k :: !Open(e, b, w, k) {
      forall k: Key | k.0 < e.tables && e.keep(w, k.0, k.1) ensures e.Agrees(w, k) { assert !Open(e, b, w, k); }
    }
    if forall k: Key :: k.0 < e.tables && e.keep(w, k.0, k.1) ==> e.Agrees(w, k) {
      forall k ensures !Open(e, b, w, k) {}
    }
  }

  /** Convergence.  With mappers that oblige and prerequisites that are reachable (acyclic ones are), `apply`
      and `sync` return after at most three diff passes, in a world where the two sides agree on every kept
      id and on every id they agreed on before. */
  lemma Converges<W(!new), E(!new)>(e: Engine<W, E>, b: Behaviour<W>, w0: W, crupdes: seq<Row>, w1: W)
    requires Obliging(e, b) && Steady(e, b) && !e.dryRun && e.tables > 0
    requires Sees(e.Loops(), w0, w1) && b.live(w1) && Reachable(e, b, w1)
    ensures var s := Passes(e.Loops(), Running(Start(w0, crupdes)), 3);
            && s.Returned? && b.live(s.w)
            && (forall k :: !Open(e, b, s.w, k))
            && (forall k :: e.Agrees(w1, k) ==> e.Agrees(s.w, k))
  {
    var m := e.Loops();
    AgreedIdle(e, b, w1);
    CarrySettles(e, b, w1);
    var w2 := m.carry(w1).w;
    assert w2 == LazyDep.Run(e.exec, Ops(e, w1), w1).w;
    assert SteadyAt(e, b, w2);
    var w3 := m.refresh(w2).w;
    assert SteadyAt(e, b, w3);
    var w4 := m.refresh(m.reload(w3).w).w;
    StillSettled(e, b, w2, w3);
    StillSettled(e, b, w3, w4);
    ThreePasses(m, w0, crupdes, w1, w3, w4);
  }

  lemma StillSettled<W(!new), E(!new)>(e: Engine<W, E>, b: Behaviour<W>, w: W, w': W)
    requires Steady(e, b) && b.live(w) && b.live(w') && forall k :: e.Agrees(w', k) <==> e.Agrees(w, k)
    requires forall k :: !Open(e, b, w, k)
    ensures e.Loops().idle(w') && forall k :: !Open(e, b, w', k)
  {
    forall k ensures !Open(e, b, w', k) { assert !Open(e, b, w, k); }
    AgreedIdle(e, b, w');
  }

  /** The entities of the side that holds the truth. */
  function Truth<W, E>(e: Engine<W, E>, w: W, t: nat): map<string, E> {
    if e.direction == Apply then e.DbMap(w, t) else e.CloudMap(w, t)
  }

  function Changing<W, E>(e: Engine<W, E>, w: W, t: nat): map<string, E> {
    if e.direction == Apply then e.CloudMap(w, t) else e.DbMap(w, t)
  }

  /** The side that holds the truth is as it was. */
  ghost predicate SameTruth<W, E>(e: Engine<W, E>, w: W, w': W) {
    forall t: nat {:trigger Truth(e, w', t)} :: t < e.tables ==> Truth(e, w', t) == Truth(e, w, t)
  }

  /** The changing side has exactly the kept ids of these entities, equal under the comparator. */
  ghost predicate Holds<W, E>(e: Engine<W, E>, b: Behaviour<W>, w: W, truth: map<string, E>, t: nat, id: string) {
    (t, id) in b.kept ==>
      && (id in Changing(e, w, t) <==> id in truth)
      && (id in truth && id in Changing(e, w, t) ==>
            if e.direction == Apply then e.equals(t, truth[id], Changing(e, w, t)[id])
            else e.equals(t, Changing(e, w, t)[id], truth[id]))
  }

  /** If operations and reads leave the side that holds the truth as it was, the other side ends with exactly
      its kept ids, entity by entity equal under the comparator. */
  lemma ConvergesToTruth<W(!new), E(!new)>(e: Engine<W, E>, b: Behaviour<W>, w0: W, crupdes: seq<Row>, w1: W)
    requires Obliging(e, b) && Steady(e, b) && !e.dryRun && e.tables > 0
    requires Sees(e.Loops(), w0, w1) && b.live(w1) && Reachable(e, b, w1)
    requires forall w {:trigger SameTruth(e, w1, w)} :: b.live(w) ==> SameTruth(e, w1, w)
    ensures var s := Passes(e.Loops(), Running(Start(w0, crupdes)), 3);
            s.Returned? && forall t: nat, id :: t < e.tables ==> Holds(e, b, s.w, Truth(e, w1, t), t, id)
  {
    Converges(e, b, w0, crupdes, w1);
    var w := Passes(e.Loops(), Running(Start(w0, crupdes)), 3).w;
    assert SameTruth(e, w1, w);
    forall t: nat, id | t < e.tables ensures Holds(e, b, w, Truth(e, w1, t), t, id) {
      assert !Open(e, b, w, (t, id));
      SettledHolds(e, b, w, t, id);
    }
  }

  lemma SettledHolds<W, E>(e: Engine<W, E>, b: Behaviour<W>, w: W, t: nat, id: string)
    requires t < e.tables && !Open(e, b, w, (t, id))
    ensures Holds(e, b, w, Truth(e, w, t), t, id)
  {
  }

  // When something is out of reach ----------------------------------------------------------------------

  lemma OpsStrict<W(!new), E(!new)>(e: Engine<W, E>, b: Behaviour<W>, ops: seq<Op<E>>)
    requires Obliging(e, b) && Exacting(e, b) && forall op :: op in ops ==> op.table < e.tables
    ensures LazyDep.Strict(TaskOf(e, b), e.exec, ops, w => Underway(e, b, ops, w))
  {
    var t := TaskOf(e, b);
    forall w, op {:trigger e.exec(w, op)} | Underway(e, b, ops, w) && op in ops && t.key(op) !in t.done(w)
        && t.Waits(w, op)
      ensures e.exec(w, op).1.Rejected?
    {
      var d :| d in b.needs(e.KeyOf(op)) && d !in t.done(w);
      assert !e.Agrees(w, d);
      assert Blocked(e, b, w, e.KeyOf(op));
    }
  }

  /** The agreement that the operations of a pass reach, starting from `w`. */
  ghost predicate Attainable<W(!new), E(!new)>(e: Engine<W, E>, b: Behaviour<W>, w: W, k: Key) {
    Derivable(TaskOf(e, b).Rules(Ops(e, w)), TaskOf(e, b).done(w), k)
  }

  lemma CarryAttains<W(!new), E(!new)>(e: Engine<W, E>, b: Behaviour<W>, w: W)
    requires Obliging(e, b) && Exacting(e, b) && Steady(e, b) && b.live(w)
    ensures var r := LazyDep.Run(e.exec, Ops(e, w), w);
            && b.live(r.w)
            && (r.status.Loaded? <==> Reachable(e, b, w))
            && (!Reachable(e, b, w) ==> r.status.Halted?)
            && (forall k :: e.Agrees(r.w, k) <==> Attainable(e, b, w, k))
  {
    var t, ops := TaskOf(e, b), Ops(e, w);
    CarryEffect(e, b, w);
    OpsPending(e, b, w);
    OpsCooperate(e, b, ops);
    OpsStrict(e, b, ops);
    LazyDep.LeastFixpoint(t, e.exec, ops, v => Underway(e, b, ops, v), w);
    LazyDep.EndsInFixpoint(t, e.exec, ops, v => Underway(e, b, ops, v), w);
    var r := LazyDep.Run(e.exec, ops, w);
    forall k ensures e.Agrees(r.w, k) <==> Attainable(e, b, w, k) {
      assert k in t.done(r.w) <==> Derivable(t.Rules(ops), t.done(w), k);
    }
  }

  /** The leftovers of a round are the keys still open, one each, and all of them are blocked. */
  lemma LeftoversAreOpen<W(!new), E(!new)>(e: Engine<W, E>, b: Behaviour<W>, w: W)
    requires Obliging(e, b) && Steady(e, b) && b.live(w)
    requires LazyDep.Run(e.exec, Ops(e, w), w).status.Halted?
    ensures var r := LazyDep.Run(e.exec, Ops(e, w), w);
            && LazyDep.Distinct(TaskOf(e, b), r.status.generatorsToRun)
            && (forall g :: g in r.status.generatorsToRun ==> Blocked(e, b, r.w, e.KeyOf(g)))
            && (forall k :: Open(e, b, r.w, k) <==> k in LazyDep.KeysOf(TaskOf(e, b), r.status.generatorsToRun))
  {
    var r := LazyDep.Run(e.exec, Ops(e, w), w);
    OpsPending(e, b, w);
    OpsCooperate(e, b, Ops(e, w));
    LazyDep.Leftovers(TaskOf(e, b), e.exec, v => Underway(e, b, Ops(e, w), v), Ops(e, w), w);
    CarryEffect(e, b, w);
    LeftAreBlocked(e, b, w, r.w, r.status.generatorsToRun);
    forall k ensures Open(e, b, r.w, k) <==> k in LazyDep.KeysOf(TaskOf(e, b), r.status.generatorsToRun) {
      OpenIsLeft(e, b, w, r.w, r.resolved, r.status.generatorsToRun, k);
    }
  }

  lemma LeftAreBlocked<W(!new), E(!new)>(e: Engine<W, E>, b: Behaviour<W>, w: W, w': W, left: seq<Op<E>>)
    requires LazyDep.Pending(TaskOf(e, b), left, w') && forall g :: g in left ==> TaskOf(e, b).Waits(w', g)
    requires forall g :: g in left ==> Open(e, b, w, e.KeyOf(g))
    ensures forall g :: g in left ==> Blocked(e, b, w', e.KeyOf(g)) && Open(e, b, w', e.KeyOf(g))
  {
    var t := TaskOf(e, b);
    forall g | g in left ensures Blocked(e, b, w', e.KeyOf(g)) && Open(e, b, w', e.KeyOf(g)) {
      assert t.Waits(w', g) && t.key(g) !in t.done(w');
      var d :| d in t.needs(t.key(g)) && d !in t.done(w');
      assert !e.Agrees(w', d);
    }
  }

  /** After a round the open keys are those of the operations left. */
  lemma OpenIsLeft<W(!new), E(!new)>(
      e: Engine<W, E>, b: Behaviour<W>, w: W, w': W, resolved: seq<Op<E>>, left: seq<Op<E>>, k: Key)
    requires forall op :: op in Ops(e, w) <==> op in resolved || op in left
    requires forall op :: op in Ops(e, w) ==> Open(e, b, w, e.KeyOf(op))
    requires forall l :: Open(e, b, w, l) ==> exists op :: op in Ops(e, w) && e.KeyOf(op) == l
    requires forall l :: e.Agrees(w', l) <==> e.Agrees(w, l) || l in LazyDep.KeysOf(TaskOf(e, b), resolved)
    requires forall g :: g in left ==> Open(e, b, w', e.KeyOf(g))
    ensures Open(e, b, w', k) <==> k in LazyDep.KeysOf(TaskOf(e, b), left)
  {
    var t := TaskOf(e, b);
    if Open(e, b, w', k) {
      assert Open(e, b, w, k);
      var op :| op in Ops(e, w) && e.KeyOf(op) == k;
      assert op in resolved ==> t.key(op) in LazyDep.KeysOf(t, resolved);
    }
    if k in LazyDep.KeysOf(t, left) {
      var g :| g in left && t.key(g) == k;
    }
  }

  /** Distinct operations over the same keys are equally many. */
  lemma SameKeysSameLength<W(!new), E(!new)>(t: LazyDep.Task<W, Op<E>, Key>, a: seq<Op<E>>, c: seq<Op<E>>)
    requires LazyDep.Distinct(t, a) && LazyDep.Distinct(t, c) && LazyDep.KeysOf(t, a) == LazyDep.KeysOf(t, c)
    ensures |a| == |c|
  {
    KeyCount(t, a);
    KeyCount(t, c);
  }

  lemma {:induction false} KeyCount<W(!new), E(!new)>(t: LazyDep.Task<W, Op<E>, Key>, a: seq<Op<E>>)
    requires LazyDep.Distinct(t, a)
    ensures |LazyDep.KeysOf(t, a)| == |a|
    decreases |a|
  {
    if a != [] {
      var n := |a| - 1;
      assert a == a[..n] + [a[n]];
      assert multiset(a) == multiset(a[..n]) + multiset{a[n]};
      forall g | g in a[..n] ensures multiset(a[..n])[g] == 1 && g != a[n] {
        assert multiset(a[..n])[g] >= 1 && multiset(a)[g] == 1;
      }
      KeyCount(t, a[..n]);
      assert LazyDep.KeysOf(t, a) == LazyDep.KeysOf(t, a[..n]) + {t.key(a[n])};
      assert t.key(a[n]) !in LazyDep.KeysOf(t, a[..n]);
    }
  }

  /** With every open key blocked, a round of operations achieves nothing and fails on all of them. */
  lemma BlockedRound<W(!new), E(!new)>(e: Engine<W, E>, b: Behaviour<W>, w: W)
    requires Obliging(e, b) && Exacting(e, b) && Steady(e, b) && b.live(w) && Ops(e, w) != []
    requires forall k :: Open(e, b, w, k) ==> Blocked(e, b, w, k)
    ensures var r := LazyDep.Run(e.exec, Ops(e, w), w);
            && r.status.Halted? && |r.status.generatorsToRun| == |Ops(e, w)|
            && forall k :: e.Agrees(r.w, k) <==> e.Agrees(w, k)
  {
    var t, ops := TaskOf(e, b), Ops(e, w);
    OpsPending(e, b, w);
    OpsCooperate(e, b, ops);
    OpsStrict(e, b, ops);
    forall op | op in ops ensures t.Waits(w, op) {
      assert Open(e, b, w, e.KeyOf(op));
      var d :| d in b.needs(e.KeyOf(op)) && !e.Agrees(w, d);
      assert d in t.needs(t.key(op)) && d !in t.done(w);
    }
    LazyDep.AllWaiting(t, e.exec, ops, v => Underway(e, b, ops, v), w);
    CarryEffect(e, b, w);
  }

  lemma BlockedAfterReread<W(!new), E(!new)>(e: Engine<W, E>, b: Behaviour<W>, w: W, w': W)
    requires forall k :: e.Agrees(w', k) <==> e.Agrees(w, k)
    ensures forall k :: Open(e, b, w', k) <==> Open(e, b, w, k)
    ensures forall k :: Blocked(e, b, w, k) ==> Blocked(e, b, w', k)
  {
    forall k | Blocked(e, b, w, k) ensures Blocked(e, b, w', k) {
      var d :| d in b.needs(k) && !e.Agrees(w, d);
      assert !e.Agrees(w', d);
    }
  }

  /** If something is out of reach, the run throws in its second pass, after bringing into agreement exactly
      what was attainable. */
  lemma StuckThrows<W(!new), E(!new)>(e: Engine<W, E>, b: Behaviour<W>, w0: W, crupdes: seq<Row>, w1: W)
    requires Obliging(e, b) && Exacting(e, b) && Steady(e, b) && !e.dryRun && e.tables > 0
    requires Sees(e.Loops(), w0, w1) && b.live(w1) && !Reachable(e, b, w1)
    ensures var s := Passes(e.Loops(), Running(Start(w0, crupdes)), 2);
            s.Threw? && s.error == OperationsStuck && forall k :: e.Agrees(s.w, k) <==> Attainable(e, b, w1, k)
  {
    var m := e.Loops();
    CarryAttains(e, b, w1);
    var r := LazyDep.Run(e.exec, Ops(e, w1), w1);
    LeftoversAreOpen(e, b, w1);
    assert SteadyAt(e, b, r.w);
    var w3 := m.refresh(m.reload(r.w).w).w;
    BlockedAfterReread(e, b, r.w, w3);
    OpsPending(e, b, w3);
    LeftoverCount(e, b, r.w, w3, r.status.generatorsToRun);
    LazyDep.ResolvedOnce(e.exec, Ops(e, w1), w1);
    BlockedRound(e, b, w3);
    SecondEqualFailureThrows(m, w0, crupdes, w1, w3);
  }

  lemma LeftoverCount<W(!new), E(!new)>(e: Engine<W, E>, b: Behaviour<W>, w: W, w': W, left: seq<Op<E>>)
    requires LazyDep.Distinct(TaskOf(e, b), left) && LazyDep.Distinct(TaskOf(e, b), Ops(e, w'))
    requires forall k :: Open(e, b, w, k) <==> k in LazyDep.KeysOf(TaskOf(e, b), left)
    requires forall k :: Open(e, b, w', k) <==> Open(e, b, w, k)
    requires forall op :: op in Ops(e, w') ==> Open(e, b, w', e.KeyOf(op))
    requires forall k :: Open(e, b, w', k) ==> exists op :: op in Ops(e, w') && e.KeyOf(op) == k
    ensures |Ops(e, w')| == |left|
  {
    var t := TaskOf(e, b);
    forall k ensures k in LazyDep.KeysOf(t, Ops(e, w')) <==> k in LazyDep.KeysOf(t, left) {
      if Open(e, b, w', k) {
        var op :| op in Ops(e, w') && e.KeyOf(op) == k;
        assert t.key(op) == k;
      }
    }
    SameKeysSameLength(t, left, Ops(e, w'));
  }

  /** Exactly when does a run return?  With mappers that resolve exactly when nothing they need is missing,
      `apply` and `sync` return if and only if every open key is reachable; otherwise they throw. */
  lemma ReturnsIffReachable<W(!new), E(!new)>(e: Engine<W, E>, b: Behaviour<W>, w0: W, crupdes: seq<Row>, w1: W)
    requires Obliging(e, b) && Exacting(e, b) && Steady(e, b) && !e.dryRun && e.tables > 0
    requires Sees(e.Loops(), w0, w1) && b.live(w1)
    ensures !Passes(e.Loops(), Running(Start(w0, crupdes)), 3).Running?
    ensures Passes(e.Loops(), Running(Start(w0, crupdes)), 3).Returned? <==> Reachable(e, b, w1)
  {
    if Reachable(e, b, w1) {
      Converges(e, b, w0, crupdes, w1);
    } else {
      StuckThrows(e, b, w0, crupdes, w1);
      Compose(e.Loops(), Running(Start(w0, crupdes)), 2, 1);
    }
  }
}
