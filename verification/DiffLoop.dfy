/** The control flow shared by `apply` and `sync` of src/modules/iasql_functions/iasql.ts: an outer loop that
    reads the side holding the truth, an inner loop that reads the changing side, diffs and operates, a spin
    counter and a failure counter.

    What a pass sees and does is left to an arbitrary machine over an arbitrary world `W`; Reconcile supplies
    the one built from findDiff and the lazy loader. */
module DiffLoop {

  datatype Action = ToCreate | ToUpdate | ToReplace | ToDelete

  /** A record of the commit plan. */
  datatype Row = Row(action: Action, table: nat, id: string, description: string)

  /** The three lengths that recordCount adds up. */
  datatype Counts = Counts(db: int, cloud: int, both: int) {
    function Sum(): int { db + cloud + both }

    predicate AtMost(c: Counts) { db <= c.db && cloud <= c.cloud && both <= c.both }
  }

  /** `failureCount`: -1 at first, then `generatorsToRun?.length` of the last failure. */
  datatype FailureCount = Never | Left(n: nat) | Unknown

  datatype Error = ReadFailed | NoProgress | OperationsStuck

  datatype Read<W> = Read(w: W, ok: bool)

  datatype Carried<W> = Carried(w: W, ok: bool, remaining: FailureCount)

  datatype Machine<!W> = Machine(
    dryRun: bool,
    empty: bool,               // there is no mapper
    reload: W -> Read<W>,      // flush and read the side that holds the truth
    refresh: W -> Read<W>,     // flush and read the side that is changed
    rows: W -> seq<Row>,       // plan records of the filtered differences
    counts: W -> Counts,       // recordCount of the filtered differences
    idle: W -> bool,           // the differences give no generator
    carry: W -> Carried<W>)    // run the generators through the lazy loader

  /** The loop variables between two passes; `outer` when the outer loop is about to start over. */
  datatype Loop<W> = Loop(w: W, outer: bool, ranFullUpdate: bool, failureCount: FailureCount,
                          counts: Counts, spinCount: nat, plan: seq<Row>)

  /** `plan` is what the four objects of the commit plan hold; a mapperless run returns no rows. */
  datatype State<W> = Running(loop: Loop<W>) | Returned(w: W, plan: seq<Row>)
                    | Threw(w: W, error: Error, plan: seq<Row>)
  {
    function World(): W { if Running? then loop.w else w }

    function Plan(): seq<Row> { if Running? then loop.plan else plan }
  }

  function Start<W>(w: W, crupdes: seq<Row>): Loop<W> {
    Loop(w, true, false, Never, Counts(-1, -1, -1), 0, crupdes)
  }

  /** updateCommitPlan: a record is added unless it is there already. */
  function AddRows(plan: seq<Row>, rows: seq<Row>): seq<Row> {
    if rows == [] then plan
    else
      var p, r := AddRows(plan, rows[..|rows| - 1]), rows[|rows| - 1];
      if r in p then p else p + [r]
  }

  method UpdateCommitPlan(crupde: seq<Row>, rows: seq<Row>) returns (plan: seq<Row>)
    ensures plan == AddRows(crupde, rows)
  {
    plan := crupde;
    for i := 0 to |rows|
      invariant plan == AddRows(crupde, rows[..i])
    {
      assert rows[..i + 1][..i] == rows[..i];
      if rows[i] !in plan { plan := plan + [rows[i]]; }
    }
    assert rows[..|rows|] == rows;
  }

  /** A plan never loses a record, gains exactly the new ones, and never holds one twice. */
  lemma {:induction false} PlanGrows(plan: seq<Row>, rows: seq<Row>)
    ensures var p := AddRows(plan, rows);
            && plan <= p
            && (forall r :: r in p <==> r in plan || r in rows)
            && ((forall i, j :: 0 <= i < j < |plan| ==> plan[i] != plan[j])
                ==> (forall i, j :: 0 <= i < j < |p| ==> p[i] != p[j]))
    decreases |rows|
  {
    if rows != [] {
      PlanGrows(plan, rows[..|rows| - 1]);
      assert rows == rows[..|rows| - 1] + [rows[|rows| - 1]];
    }
  }

  // One pass ----------------------------------------------------------------------------------------

  /** The spin counter after a pass that counted `c`. */
  function Spin<W>(l: Loop<W>, c: Counts): nat { if l.counts == c then l.spinCount + 1 else 0 }

  /** One pass of the inner loop. */
  function InnerPass<W>(m: Machine<W>, l: Loop<W>): State<W> {
    var seen := m.refresh(l.w);
    if !seen.ok then Threw(seen.w, ReadFailed, l.plan)
    else if m.empty then Returned(seen.w, [])
    else
      var plan := AddRows(l.plan, m.rows(seen.w));
      if m.dryRun then Returned(seen.w, plan)
      else
        var c := m.counts(seen.w);
        var spin := Spin(l, c);
        if spin == 4 then Threw(seen.w, NoProgress, plan)
        else if m.idle(seen.w) then
          if l.ranFullUpdate then Running(Loop(seen.w, true, true, l.failureCount, c, spin, plan))
          else Returned(seen.w, plan)
        else
          var r := m.carry(seen.w);
          if r.ok then Running(Loop(r.w, false, true, l.failureCount, c, spin, plan))
          else if l.failureCount == r.remaining then Threw(r.w, OperationsStuck, plan)
          else Running(Loop(r.w, true, true, r.remaining, c, spin, plan))
  }

  function Enter<W>(l: Loop<W>, w: W): Loop<W> { l.(w := w, outer := false, ranFullUpdate := false) }

  /** A pass, preceded by the head of the outer loop when that is due. */
  function Pass<W>(m: Machine<W>, l: Loop<W>): State<W> {
    if !l.outer then InnerPass(m, l)
    else
      var r := m.reload(l.w);
      if r.ok then InnerPass(m, Enter(l, r.w)) else Threw(r.w, ReadFailed, l.plan)
  }

  /** The state after `n` passes. */
  function Passes<W>(m: Machine<W>, s: State<W>, n: nat): State<W>
    decreases n
  {
    if n == 0 || !s.Running? then s else Passes(m, Pass(m, s.loop), n - 1)
  }

  lemma {:induction false} Compose<W>(m: Machine<W>, s: State<W>, a: nat, b: nat)
    ensures Passes(m, Passes(m, s, a), b) == Passes(m, s, a + b)
    decreases a
  {
    if a > 0 && s.Running? { Compose(m, Pass(m, s.loop), a - 1, b); }
  }

  // The loops of the source -------------------------------------------------------------------------

  /** Body of the inner loop. */
  method RunInnerPass<W>(m: Machine<W>, l: Loop<W>) returns (s: State<W>)
    ensures s == InnerPass(m, l)
  {
    var seen := m.refresh(l.w);
    var w := seen.w;
    if !seen.ok { return Threw(w, ReadFailed, l.plan); }
    if m.empty { return Returned(w, []); }
    var plan := UpdateCommitPlan(l.plan, m.rows(w));
    if m.dryRun { return Returned(w, plan); }
    var counts, spinCount, failureCount := l.counts, l.spinCount, l.failureCount;
    var ranUpdate, ranFullUpdate := false, l.ranFullUpdate;
    var next := m.counts(w);
    if counts == next {
      spinCount := spinCount + 1;
    } else {
      counts, spinCount := next, 0;
    }
    if spinCount == 4 { return Threw(w, NoProgress, plan); }
    if !m.idle(w) {
      ranUpdate, ranFullUpdate := true, true;
      var r := m.carry(w);
      w := r.w;
      if !r.ok {
        if failureCount == r.remaining { return Threw(w, OperationsStuck, plan); }
        failureCount := r.remaining;
        ranUpdate := false;
      }
    }
    s := if ranUpdate || ranFullUpdate
         then Running(Loop(w, !ranUpdate, ranFullUpdate, failureCount, counts, spinCount, plan))
         else Returned(w, plan);
  }

  /** The nested loops.  They need not end; `passes` is the length of a run that does. */
  method ApplyOrSync<W>(m: Machine<W>, start: W, crupdes: seq<Row>, ghost passes: nat) returns (end: State<W>)
    requires !Passes(m, Running(Start(start, crupdes)), passes).Running?
    ensures end == Passes(m, Running(Start(start, crupdes)), passes)
  {
    var s := Running(Start(start, crupdes));
    ghost var left: nat := passes;
    while s.Running?
      invariant s.Running? ==> s.loop.outer
      invariant Passes(m, s, left) == Passes(m, Running(Start(start, crupdes)), passes)
      decreases left
    {
      var reload := m.reload(s.loop.w);
      if !reload.ok { return Threw(reload.w, ReadFailed, s.loop.plan); }
      s := RunInnerPass(m, Enter(s.loop, reload.w));
      left := left - 1;
      while s.Running? && !s.loop.outer
        invariant Passes(m, s, left) == Passes(m, Running(Start(start, crupdes)), passes)
        decreases left
      {
        s := RunInnerPass(m, s.loop);
        left := left - 1;
      }
    }
    end := s;
  }

  // Properties of every run -------------------------------------------------------------------------

  /** What reads and operations keep, a run keeps. */
  lemma {:induction false} PassesKeep<W(!new)>(m: Machine<W>, inv: W -> bool, s: State<W>, n: nat)
    requires forall w :: inv(w) ==> inv(m.reload(w).w) && inv(m.refresh(w).w) && inv(m.carry(w).w)
    requires inv(s.World())
    ensures inv(Passes(m, s, n).World())
    decreases n
  {
    if n > 0 && s.Running? { PassesKeep(m, inv, Pass(m, s.loop), n - 1); }
  }

  /** `w` was reached by reading both sides afresh, with no operation since. */
  ghost predicate JustRead<W(!new)>(m: Machine<W>, w: W) {
    exists v :: m.reload(v).ok && m.refresh(m.reload(v).w) == Read(w, true)
  }

  /** Between passes the loop is at the head of the outer loop or has operated since it was there. */
  ghost predicate Inv<W>(l: Loop<W>) { (l.outer || l.ranFullUpdate) && l.spinCount < 4 }

  lemma PassKeepsInv<W(!new)>(m: Machine<W>, l: Loop<W>)
    requires Inv(l)
    ensures Pass(m, l).Running? ==> Inv(Pass(m, l).loop)
    ensures Pass(m, l).Returned? && !m.dryRun && !m.empty ==>
              JustRead(m, Pass(m, l).w) && m.idle(Pass(m, l).w)
  {
    if l.outer && m.reload(l.w).ok {
      var r := m.reload(l.w).w;
      assert Pass(m, l) == InnerPass(m, Enter(l, r));
      assert m.refresh(r).ok ==> JustRead(m, m.refresh(r).w);
    }
  }

  /** A normal return that is not a preview happens only after a complete outer iteration that read both
      sides and found nothing to do. */
  lemma {:induction false} ReturnsOnlyIdle<W(!new)>(m: Machine<W>, l: Loop<W>, n: nat)
    requires Inv(l) && !m.dryRun && !m.empty && Passes(m, Running(l), n).Returned?
    ensures JustRead(m, Passes(m, Running(l), n).w) && m.idle(Passes(m, Running(l), n).w)
    decreases n
  {
    PassKeepsInv(m, l);
    var s := Pass(m, l);
    if s.Running? { ReturnsOnlyIdle(m, s.loop, n - 1); }
  }

  /** Both sides can be read from this world. */
  predicate Reads<W>(m: Machine<W>, w: W) { m.reload(w).ok && m.refresh(m.reload(w).w).ok }

  /** The world after reading both sides, as far as that goes. */
  function Seen<W>(m: Machine<W>, w: W): W { if m.reload(w).ok then m.refresh(m.reload(w).w).w else m.reload(w).w }

  /** A preview, run to its end, reads each side at most once and does nothing else: it throws exactly when a
      read fails, and its plan is the given one plus the records of the differences it saw. */
  lemma PreviewOnlyReads<W>(m: Machine<W>, w: W, crupdes: seq<Row>, n: nat)
    requires m.dryRun && n > 0
    ensures var s := Passes(m, Running(Start(w, crupdes)), n);
            && !s.Running? && s.World() == Seen(m, w) && (s.Returned? <==> Reads(m, w))
            && (s.Returned? && !m.empty ==> s.plan == AddRows(crupdes, m.rows(Seen(m, w))))
  {
    var l := Start(w, crupdes);
    assert m.reload(w).ok ==> Pass(m, l) == InnerPass(m, Enter(l, m.reload(w).w));
    assert Passes(m, Running(l), n) == Passes(m, Pass(m, l), n - 1);
  }

  /** The world in which a pass from `l` compares the two sides, and whether it gets to see it. */
  function SeenBy<W>(m: Machine<W>, l: Loop<W>): W { m.refresh(if l.outer then m.reload(l.w).w else l.w).w }

  predicate ReadsFrom<W>(m: Machine<W>, l: Loop<W>) {
    (l.outer ==> m.reload(l.w).ok) && m.refresh(if l.outer then m.reload(l.w).w else l.w).ok
  }

  /** The count that a pass from `l` takes. */
  function Counted<W>(m: Machine<W>, l: Loop<W>): Counts { m.counts(SeenBy(m, l)) }

  lemma PassCounts<W>(m: Machine<W>, l: Loop<W>)
    requires Inv(l) && Pass(m, l).Running?
    ensures Pass(m, l).loop.counts == Counted(m, l)
    ensures Pass(m, l).loop.spinCount == Spin(l, Counted(m, l)) < 4
  {
    if l.outer { assert Pass(m, l) == InnerPass(m, Enter(l, m.reload(l.w).w)); }
  }

  /** The loop before pass `i` of a run. */
  function At<W>(m: Machine<W>, l: Loop<W>, i: nat): Loop<W>
    requires Passes(m, Running(l), i).Running?
  {
    Passes(m, Running(l), i).loop
  }

  lemma RunsUpTo<W>(m: Machine<W>, l: Loop<W>, i: nat, n: nat)
    requires i <= n && Passes(m, Running(l), n).Running?
    ensures Passes(m, Running(l), i).Running?
    ensures i < n ==> Pass(m, At(m, l, i)) == Passes(m, Running(l), i + 1)
  {
    Compose(m, Running(l), i, n - i);
    Compose(m, Running(l), i, 1);
  }

  lemma {:induction false} InvAt<W(!new)>(m: Machine<W>, l: Loop<W>, i: nat)
    requires Inv(l) && Passes(m, Running(l), i).Running?
    ensures Inv(At(m, l, i))
    decreases i
  {
    if i > 0 {
      PassKeepsInv(m, l);
      InvAt(m, Pass(m, l).loop, i - 1);
    }
  }

  lemma SpinStep<W(!new)>(m: Machine<W>, l: Loop<W>, c: Counts, i: nat)
    requires Inv(l) && Passes(m, Running(l), i + 1).Running?
    requires Passes(m, Running(l), i).Running? ==> Counted(m, At(m, l, i)) == c
    ensures Passes(m, Running(l), i).Running?
    ensures At(m, l, i + 1).counts == c && At(m, l, i + 1).spinCount == Spin(At(m, l, i), c) < 4
  {
    RunsUpTo(m, l, i, i + 1);
    InvAt(m, l, i);
    PassCounts(m, At(m, l, i));
  }

  /** When five passes in a row count the same, the fifth throws, and runs no operation. */
  lemma FifthEqualCountThrows<W(!new)>(m: Machine<W>, l: Loop<W>, c: Counts)
    requires Inv(l) && !m.dryRun && !m.empty
    requires forall i: nat :: i <= 4 ==> Passes(m, Running(l), i).Running?
    requires forall i: nat :: i <= 4 && Passes(m, Running(l), i).Running? ==> Counted(m, At(m, l, i)) == c
    ensures var last := At(m, l, 4);
            var w := if last.outer then m.reload(last.w) else Read(last.w, true);
            var s := Passes(m, Running(l), 5);
            && s.Threw? && s.w == (if w.ok then m.refresh(w.w).w else w.w)
            && s.error == if w.ok && m.refresh(w.w).ok then NoProgress else ReadFailed
  {
    SpinStep(m, l, c, 0);
    SpinStep(m, l, c, 1);
    SpinStep(m, l, c, 2);
    SpinStep(m, l, c, 3);
    InvAt(m, l, 4);
    Compose(m, Running(l), 4, 1);
    assert Passes(m, Running(l), 5) == Pass(m, At(m, l, 4));
    if At(m, l, 4).outer && m.reload(At(m, l, 4).w).ok {
      assert Pass(m, At(m, l, 4)) == InnerPass(m, Enter(At(m, l, 4), m.reload(At(m, l, 4).w).w));
    }
  }

  /** While the counts of a run never grow, each pass lowers this measure. */
  function Slack<W>(l: Loop<W>): int { 4 * l.counts.Sum() + 4 - l.spinCount }

  /** What pass `i` of the run counts. */
  function CountAt<W>(m: Machine<W>, l: Loop<W>, i: nat): Counts {
    if Passes(m, Running(l), i).Running? then Counted(m, At(m, l, i)) else Counts(-1, -1, -1)
  }

  /** Pass `i`, if there is one, counts no more than the pass before it. */
  predicate NoMore<W>(m: Machine<W>, l: Loop<W>, i: nat) {
    i > 0 && Passes(m, Running(l), i).Running? ==> CountAt(m, l, i).AtMost(CountAt(m, l, i - 1))
  }

  /** If the three counts never increase from pass to pass, a run ends within 4(d+c+b+1)+1 passes, where
      d, c and b are the first counts. */
  lemma NonIncreasingCountsEnd<W(!new)>(m: Machine<W>, l: Loop<W>, n: nat)
    requires Inv(l) && forall w :: Counts(0, 0, 0).AtMost(m.counts(w))
    requires forall i :: 0 <= i <= n ==> NoMore(m, l, i)
    requires n >= 4 * (Counted(m, l).Sum() + 1) + 1
    ensures !Passes(m, Running(l), n).Running?
  {
    if Passes(m, Running(l), n).Running? {
      SlackShrinks(m, l, n, n - 1);
      RunsUpTo(m, l, 1, n);
      RunsUpTo(m, l, n - 1, n);
      LastPassCounts(m, l, 0);
      SlackIsPositive(m, l, n - 1);
    }
  }

  lemma SlackIsPositive<W(!new)>(m: Machine<W>, l: Loop<W>, i: nat)
    requires Inv(l) && Passes(m, Running(l), i).Running? && Passes(m, Running(l), i + 1).Running?
    requires Counts(0, 0, 0).AtMost(Counted(m, At(m, l, i)))
    ensures Slack(At(m, l, i + 1)) > 0
  {
    LastPassCounts(m, l, i);
  }

  lemma LastPassCounts<W(!new)>(m: Machine<W>, l: Loop<W>, i: nat)
    requires Inv(l) && Passes(m, Running(l), i).Running? && Passes(m, Running(l), i + 1).Running?
    ensures At(m, l, i + 1).counts == Counted(m, At(m, l, i))
    ensures At(m, l, i + 1).spinCount == Spin(At(m, l, i), Counted(m, At(m, l, i))) < 4
  {
    RunsUpTo(m, l, i, i + 1);
    InvAt(m, l, i);
    PassCounts(m, At(m, l, i));
  }

  lemma {:induction false} SlackShrinks<W(!new)>(m: Machine<W>, l: Loop<W>, n: nat, i: nat)
    requires Inv(l) && Passes(m, Running(l), n).Running? && i < n
    requires forall j :: 0 <= j <= n ==> NoMore(m, l, j)
    ensures Passes(m, Running(l), 1).Running? && Passes(m, Running(l), i + 1).Running?
    ensures Slack(At(m, l, i + 1)) <= Slack(At(m, l, 1)) - i
    decreases i
  {
    RunsUpTo(m, l, 1, n);
    RunsUpTo(m, l, i + 1, n);
    if i > 0 {
      SlackShrinks(m, l, n, i - 1);
      RunsUpTo(m, l, i - 1, n);
      RunsUpTo(m, l, i, n);
      assert NoMore(m, l, i);
      SlackFalls(m, l, i - 1);
    }
  }

  /** One pass that counts no more than the pass before it. */
  lemma SlackFalls<W(!new)>(m: Machine<W>, l: Loop<W>, i: nat)
    requires Inv(l) && Passes(m, Running(l), i).Running? && Passes(m, Running(l), i + 1).Running?
    requires Passes(m, Running(l), i + 2).Running?
    requires CountAt(m, l, i + 1).AtMost(CountAt(m, l, i))
    ensures Slack(At(m, l, i + 2)) < Slack(At(m, l, i + 1))
  {
    LastPassCounts(m, l, i);
    LastPassCounts(m, l, i + 1);
  }

  /** What the first pass sees when both reads succeed. */
  ghost predicate Sees<W>(m: Machine<W>, w: W, seen: W) {
    m.reload(w).ok && m.refresh(m.reload(w).w) == Read(seen, true)
  }

  /** One pass that operates and leaves nothing to do, then one that finds the inner loop idle, then one
      that finds a whole outer iteration idle. */
  lemma ThreePasses<W(!new)>(m: Machine<W>, w0: W, crupdes: seq<Row>, w1: W, w3: W, w4: W)
    requires !m.dryRun && !m.empty && m.counts(w1) != Counts(-1, -1, -1) && Sees(m, w0, w1)
    requires !m.idle(w1) ==>
      && m.carry(w1).ok && m.refresh(m.carry(w1).w) == Read(w3, true) && m.idle(w3)
      && Sees(m, w3, w4) && m.idle(w4)
    ensures var s := Passes(m, Running(Start(w0, crupdes)), 3);
            s.Returned? && s.w == if m.idle(w1) then w1 else w4
  {
    var l0 := Start(w0, crupdes);
    assert Pass(m, l0) == InnerPass(m, Enter(l0, m.reload(w0).w));
    if !m.idle(w1) {
      var l1 := Pass(m, l0).loop;
      assert l1.w == m.carry(w1).w && !l1.outer && l1.ranFullUpdate && l1.spinCount == 0;
      var l2 := Pass(m, l1).loop;
      assert l2.w == w3 && l2.outer && l2.spinCount <= 1;
      assert Pass(m, l2) == InnerPass(m, Enter(l2, m.reload(w3).w));
      assert Pass(m, l2).Returned? && Pass(m, l2).w == w4;
      assert Passes(m, Running(l0), 3) == Passes(m, Running(l1), 2) == Passes(m, Running(l2), 1) == Pass(m, l2);
    } else {
      assert Passes(m, Running(l0), 3) == Pass(m, l0);
    }
  }

  /** Two outer iterations that fail on the same number of operations: the second failure is thrown. */
  lemma SecondEqualFailureThrows<W(!new)>(m: Machine<W>, w0: W, crupdes: seq<Row>, w1: W, w3: W)
    requires !m.dryRun && !m.empty && m.counts(w1) != Counts(-1, -1, -1) && Sees(m, w0, w1)
    requires !m.idle(w1) && !m.carry(w1).ok && m.carry(w1).remaining != Never
    requires Sees(m, m.carry(w1).w, w3) && !m.idle(w3) && !m.carry(w3).ok
    requires m.carry(w1).remaining == m.carry(w3).remaining
    ensures var s := Passes(m, Running(Start(w0, crupdes)), 2);
            s.Threw? && s.w == m.carry(w3).w && s.error == OperationsStuck
  {
    var l0 := Start(w0, crupdes);
    assert Pass(m, l0) == InnerPass(m, Enter(l0, m.reload(w0).w));
    var l1 := Pass(m, l0).loop;
    assert l1.w == m.carry(w1).w && l1.outer && l1.spinCount == 0 && l1.failureCount == m.carry(w1).remaining;
    assert Pass(m, l1) == InnerPass(m, Enter(l1, m.reload(l1.w).w));
    assert Passes(m, Running(l0), 2) == Passes(m, Running(l1), 1) == Pass(m, l1);
  }

  // Why a run ends in an error --------------------------------------------------------------------------

  /** Pass `i` of the run comes to see both sides. */
  predicate Looks<W>(m: Machine<W>, l: Loop<W>, i: nat) {
    Passes(m, Running(l), i).Running? && ReadsFrom(m, At(m, l, i))
  }

  /** Pass `i` and the four passes before it count the same. */
  predicate FiveAlike<W>(m: Machine<W>, l: Loop<W>, i: nat) {
    i >= 4 && forall j :: i - 4 <= j < i ==> CountAt(m, l, j) == CountAt(m, l, i)
  }

  /** The operations of pass `i` are run and fail. */
  predicate FailsAt<W>(m: Machine<W>, l: Loop<W>, i: nat) {
    && Looks(m, l, i) && !FiveAlike(m, l, i)
    && var w := SeenBy(m, At(m, l, i)); !m.idle(w) && !m.carry(w).ok
  }

  /** How many operations a failing pass leaves. */
  function LeftAt<W>(m: Machine<W>, l: Loop<W>, i: nat): FailureCount {
    if Passes(m, Running(l), i).Running? then m.carry(SeenBy(m, At(m, l, i))).remaining else Never
  }

  lemma FailedCarry<W>(m: Machine<W>, l: Loop<W>, i: nat)
    requires FailsAt(m, l, i)
    ensures !m.carry(SeenBy(m, At(m, l, i))).ok && LeftAt(m, l, i) == m.carry(SeenBy(m, At(m, l, i))).remaining
  {
  }

  /** Pass `j` is the latest before pass `i` that fails. */
  predicate LatestFailure<W>(m: Machine<W>, l: Loop<W>, j: nat, i: nat) {
    j < i && FailsAt(m, l, j) && forall k :: j < k < i ==> !FailsAt(m, l, k)
  }

  /** Counts are lengths, and so is what a failure leaves. */
  ghost predicate Counting<W(!new)>(m: Machine<W>) {
    && !m.dryRun && !m.empty
    && (forall w :: m.counts(w) != Counts(-1, -1, -1)) && forall w :: m.carry(w).remaining != Never
  }

  /** The run that ends within `n` passes ends in one of them. */
  lemma {:induction false} LastPass<W>(m: Machine<W>, l: Loop<W>, n: nat) returns (i: nat)
    requires !Passes(m, Running(l), n).Running?
    ensures i < n && Passes(m, Running(l), i).Running? && Passes(m, Running(l), i + 1) == Passes(m, Running(l), n)
    ensures Pass(m, At(m, l, i)) == Passes(m, Running(l), n)
    decreases n
  {
    if Passes(m, Running(l), n - 1).Running? {
      i := n - 1;
    } else {
      i := LastPass(m, l, n - 1);
      Compose(m, Running(l), n - 1, 1);
    }
    Compose(m, Running(l), i, 1);
  }

  /** What the spin counter has counted: passes in a row that counted what the last one did. */
  ghost predicate Spun<W>(m: Machine<W>, l: Loop<W>, i: nat)
    requires Passes(m, Running(l), i).Running?
  {
    var a := At(m, l, i);
    if i == 0 then a.spinCount == 0 && a.counts == Counts(-1, -1, -1)
    else
      && a.spinCount < i && a.spinCount < 4
      && (forall j :: i - 1 - a.spinCount <= j < i ==> CountAt(m, l, j) == a.counts)
      && (a.spinCount < i - 1 ==> CountAt(m, l, i - 2 - a.spinCount) != a.counts)
  }

  lemma {:induction false} SpunAt<W(!new)>(m: Machine<W>, w: W, crupdes: seq<Row>, i: nat)
    requires Counting(m) && Passes(m, Running(Start(w, crupdes)), i).Running?
    ensures Spun(m, Start(w, crupdes), i)
    decreases i
  {
    var l := Start(w, crupdes);
    if i > 0 {
      RunsUpTo(m, l, i - 1, i);
      SpunAt(m, w, crupdes, i - 1);
      LastPassCounts(m, l, i - 1);
      SpunNext(m, l, i - 1);
    }
  }

  lemma SpunNext<W>(m: Machine<W>, l: Loop<W>, i: nat)
    requires Passes(m, Running(l), i).Running? && Passes(m, Running(l), i + 1).Running? && Spun(m, l, i)
    requires CountAt(m, l, i) != Counts(-1, -1, -1)
    requires At(m, l, i + 1).counts == CountAt(m, l, i)
    requires At(m, l, i + 1).spinCount == Spin(At(m, l, i), CountAt(m, l, i)) < 4
    ensures Spun(m, l, i + 1)
  {
  }

  /** The fifth of five equal counts, and no other. */
  lemma SpinsOut<W(!new)>(m: Machine<W>, w: W, crupdes: seq<Row>, i: nat)
    requires Counting(m) && Passes(m, Running(Start(w, crupdes)), i).Running?
    ensures var l := Start(w, crupdes);
            Spin(At(m, l, i), CountAt(m, l, i)) == 4 <==> FiveAlike(m, l, i)
  {
    var l := Start(w, crupdes);
    SpunAt(m, w, crupdes, i);
    var a := At(m, l, i);
    if i > 0 && a.spinCount < 3 && a.spinCount < i - 1 { assert i - 4 <= i - 2 - a.spinCount < i; }
    if i > 0 { assert CountAt(m, l, i - 1) == a.counts; }
  }

  /** Forward progress is given up exactly in the fifth pass of five that count the same. */
  lemma NoProgressIff<W(!new)>(m: Machine<W>, w: W, crupdes: seq<Row>, i: nat)
    requires Counting(m) && Looks(m, Start(w, crupdes), i)
    ensures var s := Passes(m, Running(Start(w, crupdes)), i + 1);
            s.Threw? && s.error == NoProgress <==> FiveAlike(m, Start(w, crupdes), i)
  {
    var l := Start(w, crupdes);
    SpinsOut(m, w, crupdes, i);
    PassFrom(m, l, i);
  }

  /** Pass `i`, unfolded. */
  lemma PassFrom<W>(m: Machine<W>, l: Loop<W>, i: nat)
    requires Passes(m, Running(l), i).Running?
    ensures var a := At(m, l, i);
            && Passes(m, Running(l), i + 1) == Pass(m, a)
            && (!ReadsFrom(m, a) ==> Pass(m, a).Threw? && Pass(m, a).error == ReadFailed)
            && (ReadsFrom(m, a) ==>
                  Pass(m, a) == InnerPass(m, if a.outer then Enter(a, m.reload(a.w).w) else a))
  {
    Compose(m, Running(l), i, 1);
  }

  /** The failure counter holds what the latest failure left. */
  ghost predicate Noted<W>(m: Machine<W>, l: Loop<W>, i: nat)
    requires Passes(m, Running(l), i).Running?
  {
    var f := At(m, l, i).failureCount;
    && (f == Never ==> forall j :: 0 <= j < i ==> !FailsAt(m, l, j))
    && (f != Never ==> exists j :: LatestFailure(m, l, j, i) && LeftAt(m, l, j) == f)
  }

  lemma {:induction false} NotedAt<W(!new)>(m: Machine<W>, w: W, crupdes: seq<Row>, i: nat)
    requires Counting(m) && Passes(m, Running(Start(w, crupdes)), i).Running?
    ensures Noted(m, Start(w, crupdes), i)
    decreases i
  {
    var l := Start(w, crupdes);
    if i > 0 {
      RunsUpTo(m, l, i - 1, i);
      NotedAt(m, w, crupdes, i - 1);
      SpinsOut(m, w, crupdes, i - 1);
      PassFrom(m, l, i - 1);
      NotedNext(m, l, i - 1);
    }
  }

  lemma NotedNext<W>(m: Machine<W>, l: Loop<W>, i: nat)
    requires Passes(m, Running(l), i).Running? && Passes(m, Running(l), i + 1).Running? && Noted(m, l, i)
    requires LeftAt(m, l, i) != Never
    requires At(m, l, i + 1).failureCount == if FailsAt(m, l, i) then LeftAt(m, l, i) else At(m, l, i).failureCount
    ensures Noted(m, l, i + 1)
  {
    if FailsAt(m, l, i) {
      assert LatestFailure(m, l, i, i + 1);
    } else if At(m, l, i).failureCount != Never {
      var j :| LatestFailure(m, l, j, i) && LeftAt(m, l, j) == At(m, l, i).failureCount;
      assert LatestFailure(m, l, j, i + 1);
    }
  }

  /** A failing pass: the run ends in its error if and only if the failure before it left as many operations.
      Otherwise the outer loop starts over from the world that the operations have left. */
  lemma StuckIffRepeats<W(!new)>(m: Machine<W>, w: W, crupdes: seq<Row>, i: nat)
    requires Counting(m) && FailsAt(m, Start(w, crupdes), i)
    ensures var l := Start(w, crupdes);
            var s, left := Passes(m, Running(l), i + 1), m.carry(SeenBy(m, At(m, l, i)));
            var repeats := exists j :: LatestFailure(m, l, j, i) && LeftAt(m, l, j) == left.remaining;
            && s.World() == left.w
            && (repeats ==> s.Threw? && s.error == OperationsStuck)
            && (!repeats ==> s.Running? && s.loop.outer)
  {
    var l := Start(w, crupdes);
    NotedAt(m, w, crupdes, i);
    SpinsOut(m, w, crupdes, i);
    PassFrom(m, l, i);
    forall j, k | LatestFailure(m, l, j, i) && LatestFailure(m, l, k, i) ensures j == k { OneLatest(m, l, j, k, i); }
  }

  lemma OneLatest<W>(m: Machine<W>, l: Loop<W>, j: nat, k: nat, i: nat)
    requires LatestFailure(m, l, j, i) && LatestFailure(m, l, k, i)
    ensures j == k
  {
  }

  /** For any mappers and any run: it ends with stuck operations only after two successive failures that left
      equally many. */
  lemma StuckOnlyByRepeat<W(!new)>(m: Machine<W>, w: W, crupdes: seq<Row>, n: nat) returns (j: nat, i: nat)
    requires Counting(m)
    requires var s := Passes(m, Running(Start(w, crupdes)), n); s.Threw? && s.error == OperationsStuck
    ensures var l := Start(w, crupdes);
            && i < n && FailsAt(m, l, i) && LatestFailure(m, l, j, i) && LeftAt(m, l, j) == LeftAt(m, l, i)
            && Passes(m, Running(l), n).w == m.carry(SeenBy(m, At(m, l, i))).w
  {
    var l := Start(w, crupdes);
    i := LastPass(m, l, n);
    SpinsOut(m, w, crupdes, i);
    PassFrom(m, l, i);
    assert FailsAt(m, l, i);
    StuckIffRepeats(m, w, crupdes, i);
    j :| LatestFailure(m, l, j, i) && LeftAt(m, l, j) == LeftAt(m, l, i);
  }

  // What a run writes into the plan -----------------------------------------------------------------------

  /** Pass `i` of the run shows the record. */
  predicate Shows<W>(m: Machine<W>, l: Loop<W>, i: nat, r: Row) {
    Looks(m, l, i) && r in m.rows(SeenBy(m, At(m, l, i)))
  }

  /** At any time, and however the run ends, its plan holds what was there before and the records of the
      differences that its passes have seen. */
  lemma {:induction false} PlanIsShown<W>(m: Machine<W>, l: Loop<W>, n: nat, r: Row)
    requires !m.empty
    ensures r in Passes(m, Running(l), n).Plan() <==> r in l.plan || exists i: nat :: i < n && Shows(m, l, i, r)
    decreases n
  {
    if n > 0 {
      PlanIsShown(m, l, n - 1, r);
      Compose(m, Running(l), n - 1, 1);
      if Passes(m, Running(l), n - 1).Running? {
        PassFrom(m, l, n - 1);
        PassShows(m, l, n - 1, r);
        assert (exists i: nat :: i < n && Shows(m, l, i, r)) <==>
               Shows(m, l, n - 1, r) || exists i: nat :: i < n - 1 && Shows(m, l, i, r);
      } else {
        assert !Shows(m, l, n - 1, r);
      }
    }
  }

  lemma PassShows<W>(m: Machine<W>, l: Loop<W>, i: nat, r: Row)
    requires !m.empty && Passes(m, Running(l), i).Running?
    ensures r in Pass(m, At(m, l, i)).Plan() <==> r in At(m, l, i).plan || Shows(m, l, i, r)
  {
    PassFrom(m, l, i);
    PlanGrows(At(m, l, i).plan, m.rows(SeenBy(m, At(m, l, i))));
  }

  /** Without mappers a run ends in its first pass, with no rows. */
  lemma NothingMapped<W>(m: Machine<W>, w: W, crupdes: seq<Row>, n: nat)
    requires m.empty && n > 0
    ensures var s := Passes(m, Running(Start(w, crupdes)), n);
            if Reads(m, w) then s == Returned(Seen(m, w), []) else s.Threw? && s.error == ReadFailed
  {
    var l := Start(w, crupdes);
    assert m.reload(w).ok ==> Pass(m, l) == InnerPass(m, Enter(l, m.reload(w).w));
    assert Passes(m, Running(l), n) == Passes(m, Pass(m, l), n - 1);
  }
}
