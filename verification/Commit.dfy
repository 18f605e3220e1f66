/** The phases of `commit` in src/modules/iasql_functions/iasql.ts: apply the changed modules, on failure apply
    all, on failure revert, and then sync in any case. */
module Commit {
  import opened DiffLoop
  import opened Options
  import opened Reconcile
  import AuditLog

  /** `affected` when some installed module has changes.  A revert is `undo`, which replays the inverse
      statements, and then an apply of all modules that is never a preview. */
  datatype Phases<!W> = Phases(dryRun: bool, affected: bool, applyChanged: Machine<W>, applyAll: Machine<W>,
                               undo: W -> Read<W>, applyUndone: Machine<W>, syncAll: Machine<W>)
  {
    /** The flag goes to every phase but the revert. */
    predicate Valid() {
      && applyChanged.dryRun == applyAll.dryRun == syncAll.dryRun == dryRun
      && !applyUndone.dryRun
    }
  }

  /** How many passes each loop runs. */
  datatype Course = Course(changed: nat, all: nat, undone: nat, sync: nat)

  datatype End<W> = Finished(w: W, plan: seq<Row>)
                  | Failed(w: W, applyErr: Option<Error>, revertFailed: bool, syncErr: Option<Error>)

  // The run, phase by phase -----------------------------------------------------------------------------

  /** What the four objects of the plan, which all phases share, hold after a loop. */
  function Written<W>(m: Machine<W>, before: seq<Row>, s: State<W>): seq<Row> { if m.empty then before else s.Plan() }

  function Changed<W>(p: Phases<W>, w: W, c: Course): State<W> {
    Passes(p.applyChanged, Running(Start(w, [])), c.changed)
  }

  function ChangedPlan<W>(p: Phases<W>, w: W, c: Course): seq<Row> {
    if p.affected then Written(p.applyChanged, [], Changed(p, w, c)) else []
  }

  function All<W>(p: Phases<W>, w: W, c: Course): State<W> {
    Passes(p.applyAll, Running(Start(Changed(p, w, c).World(), ChangedPlan(p, w, c))), c.all)
  }

  /** A preview that gets its plan from the first apply ends there. */
  predicate Early<W>(p: Phases<W>, w: W, c: Course) { p.affected && p.dryRun && Changed(p, w, c).Returned? }

  predicate Retries<W>(p: Phases<W>, w: W, c: Course) { p.affected && Changed(p, w, c).Threw? }

  function AllPlan<W>(p: Phases<W>, w: W, c: Course): seq<Row> {
    if Retries(p, w, c) then Written(p.applyAll, ChangedPlan(p, w, c), All(p, w, c)) else ChangedPlan(p, w, c)
  }

  predicate Reverts<W>(p: Phases<W>, w: W, c: Course) { Retries(p, w, c) && All(p, w, c).Threw? }

  function Undone<W>(p: Phases<W>, w: W, c: Course): Read<W> { p.undo(All(p, w, c).World()) }

  function Reapplied<W>(p: Phases<W>, w: W, c: Course): State<W> {
    Passes(p.applyUndone, Running(Start(Undone(p, w, c).w, AllPlan(p, w, c))), c.undone)
  }

  predicate RevertFails<W>(p: Phases<W>, w: W, c: Course) { !Undone(p, w, c).ok || Reapplied(p, w, c).Threw? }

  /** What the revert, if there is one, leaves in the plan. */
  function UndonePlan<W>(p: Phases<W>, w: W, c: Course): seq<Row> {
    if Reverts(p, w, c) && Undone(p, w, c).ok then Written(p.applyUndone, AllPlan(p, w, c), Reapplied(p, w, c))
    else AllPlan(p, w, c)
  }

  /** The world that the sync starts from. */
  function Synced<W>(p: Phases<W>, w: W, c: Course): W {
    if !p.affected then w
    else if !Retries(p, w, c) then Changed(p, w, c).World()
    else if !Reverts(p, w, c) then All(p, w, c).World()
    else if !Undone(p, w, c).ok then Undone(p, w, c).w
    else Reapplied(p, w, c).World()
  }

  function Last<W>(p: Phases<W>, w: W, c: Course): State<W> {
    Passes(p.syncAll, Running(Start(Synced(p, w, c), UndonePlan(p, w, c))), c.sync)
  }

  /** Every loop that is entered comes to an end. */
  predicate Ends<W>(p: Phases<W>, w: W, c: Course) {
    && (p.affected ==> !Changed(p, w, c).Running?)
    && (Retries(p, w, c) ==> !All(p, w, c).Running?)
    && (Reverts(p, w, c) && Undone(p, w, c).ok ==> !Reapplied(p, w, c).Running?)
    && (!Early(p, w, c) ==> !Last(p, w, c).Running?)
  }

  function CommitEnd<W>(p: Phases<W>, w: W, c: Course): End<W>
    requires Ends(p, w, c)
  {
    if Early(p, w, c) then Finished(Changed(p, w, c).w, Changed(p, w, c).plan)
    else
      var last := Last(p, w, c);
      if last.Returned? && !Reverts(p, w, c) then Finished(last.w, last.plan)
      else
        Failed(last.w, if Reverts(p, w, c) then Some(All(p, w, c).error) else None,
               Reverts(p, w, c) && RevertFails(p, w, c), if last.Threw? then Some(last.error) else None)
  }

  method Run<W(!new)>(p: Phases<W>, start: W, c: Course) returns (end: End<W>)
    requires p.Valid() && Ends(p, start, c)
    ensures end == CommitEnd(p, start, c)
    ensures !Early(p, start, c) ==>
              (end.Failed? <==>
               Last(p, start, c).Threw? || (p.affected && Changed(p, start, c).Threw? && All(p, start, c).Threw?))
    ensures end.Failed? && end.revertFailed ==> end.applyErr.Some?
    ensures Early(p, start, c) ==> end == Finished(Changed(p, start, c).w, Changed(p, start, c).plan)
    ensures !Early(p, start, c) ==> end.w == Last(p, start, c).World()
    ensures !Early(p, start, c) && end.Finished? ==> end.plan == Last(p, start, c).plan
    ensures end.Failed? ==>
              && end.syncErr == (if Last(p, start, c).Threw? then Some(Last(p, start, c).error) else None)
              && end.applyErr == (if p.affected && Changed(p, start, c).Threw? && All(p, start, c).Threw?
                                  then Some(All(p, start, c).error) else None)
  {
    var w, plan := start, [];
    var applyErr: Option<Error> := None;
    if p.affected {
      var s := ApplyOrSync(p.applyChanged, w, plan, c.changed);
      w, plan := s.w, Written(p.applyChanged, plan, s);
      if s.Returned? {
        if p.dryRun { return Finished(w, s.plan); }
      } else {
        applyErr := Some(s.error);
      }
    }
    if applyErr.Some? {
      var s := ApplyOrSync(p.applyAll, w, plan, c.all);
      w, plan := s.w, Written(p.applyAll, plan, s);
      applyErr := if s.Returned? then None else Some(s.error);
    }
    var revertErr := false;
    if applyErr.Some? {
      w, plan, revertErr := Revert(p, w, plan, c);
    }
    var s := ApplyOrSync(p.syncAll, w, plan, c.sync);
    var syncErr := if s.Threw? then Some(s.error) else None;
    if syncErr.Some? || revertErr || applyErr.Some? { return Failed(s.w, applyErr, revertErr, syncErr); }
    end := Finished(s.w, s.plan);
  }

  /** `revert`: replay the inverse statements, then apply. */
  method Revert<W(!new)>(p: Phases<W>, start: W, crupdes: seq<Row>, c: Course)
    returns (w: W, plan: seq<Row>, failed: bool)
    requires p.Valid()
    requires var undone := p.undo(start);
             undone.ok ==> !Passes(p.applyUndone, Running(Start(undone.w, crupdes)), c.undone).Running?
    ensures var undone := p.undo(start);
            var s := Passes(p.applyUndone, Running(Start(undone.w, crupdes)), c.undone);
            if undone.ok then w == s.World() && failed == s.Threw? && plan == Written(p.applyUndone, crupdes, s)
            else w == undone.w && failed && plan == crupdes
    ensures var undone := p.undo(start);
            !failed && !p.applyUndone.empty ==> JustRead(p.applyUndone, w) && p.applyUndone.idle(w)
  {
    var undone := p.undo(start);
    if !undone.ok { return undone.w, crupdes, true; }
    var s := ApplyOrSync(p.applyUndone, undone.w, crupdes, c.undone);
    w, plan, failed := s.w, Written(p.applyUndone, crupdes, s), s.Threw?;
    if s.Returned? && !p.applyUndone.empty { ReturnsOnlyIdle(p.applyUndone, Start(undone.w, crupdes), c.undone); }
  }

  // What a commit comes to ---------------------------------------------------------------------------------

  /** Whatever the mappers do and whichever phases failed before, a commit that is not a preview returns
      normally only from a world that the sync has just read on both sides, in which these agree on every id
      that its filter keeps; and the last apply that ran had ended the same way. */
  lemma ReturnsInAgreement<W(!new), E(!new), F(!new), G(!new)>(
      p: Phases<W>, changed: Engine<W, E>, all: Engine<W, F>, sync: Engine<W, G>, w: W, c: Course)
    requires p.applyChanged == changed.Loops() && p.applyAll == all.Loops() && p.syncAll == sync.Loops()
    requires p.Valid() && !p.dryRun
    requires changed.tables > 0 && all.tables > 0 && sync.tables > 0
    requires Ends(p, w, c) && CommitEnd(p, w, c).Finished?
    ensures Settled(sync, CommitEnd(p, w, c).w)
    ensures p.affected ==>
              if Retries(p, w, c) then Settled(all, Synced(p, w, c)) else Settled(changed, Synced(p, w, c))
  {
    ReturnsOnlyInAgreement(sync, Synced(p, w, c), UndonePlan(p, w, c), c.sync);
    if Retries(p, w, c) {
      ReturnsOnlyInAgreement(all, Changed(p, w, c).World(), ChangedPlan(p, w, c), c.all);
    } else if p.affected {
      ReturnsOnlyInAgreement(changed, w, [], c.changed);
    }
  }

  /** A commit that has to revert fails, but comes to rest all the same: if its revert succeeds, the sync starts
      from a world in which the sides agree after the undo, and if the sync succeeds the commit ends in one in
      which they agree again. */
  lemma RevertSettles<W(!new), F(!new), G(!new)>(
      p: Phases<W>, undone: Engine<W, F>, sync: Engine<W, G>, w: W, c: Course)
    requires p.applyUndone == undone.Loops() && p.syncAll == sync.Loops() && p.Valid()
    requires undone.tables > 0 && sync.tables > 0 && Ends(p, w, c) && Reverts(p, w, c)
    ensures CommitEnd(p, w, c).Failed? && CommitEnd(p, w, c).applyErr == Some(All(p, w, c).error)
    ensures var undone := p.undo(All(p, w, c).World());
            if undone.ok
            then Synced(p, w, c) == Passes(p.applyUndone, Running(Start(undone.w, AllPlan(p, w, c))), c.undone).World()
            else CommitEnd(p, w, c).revertFailed && Synced(p, w, c) == undone.w
    ensures var undone := p.undo(All(p, w, c).World());
            CommitEnd(p, w, c).revertFailed <==>
              !undone.ok || Passes(p.applyUndone, Running(Start(undone.w, AllPlan(p, w, c))), c.undone).Threw?
    ensures CommitEnd(p, w, c).revertFailed || Settled(undone, Synced(p, w, c))
    ensures !p.dryRun && CommitEnd(p, w, c).syncErr.None? ==> Settled(sync, CommitEnd(p, w, c).w)
  {
    if Undone(p, w, c).ok && Reapplied(p, w, c).Returned? {
      ReturnsOnlyInAgreement(undone, Undone(p, w, c).w, AllPlan(p, w, c), c.undone);
    }
    if !p.dryRun && Last(p, w, c).Returned? {
      ReturnsOnlyInAgreement(sync, Synced(p, w, c), UndonePlan(p, w, c), c.sync);
    }
  }

  /** Both sides were just read and agree on every kept id. */
  ghost predicate Settled<W(!new), E(!new)>(e: Engine<W, E>, w: W) {
    JustRead(e.Loops(), w) && forall k: Key :: k.0 < e.tables && e.keep(w, k.0, k.1) ==> e.Agrees(w, k)
  }

  // What a commit touches ----------------------------------------------------------------------------------

  /** The filter of the first apply keeps only ids of entities that occur in the rows claimed by the commit at
      row `start`; `touched` gives the ids that a row stands for. */
  ghost predicate KeepsWindow<W(!new), E(!new)>(
      e: Engine<W, E>, log: seq<AuditLog.Entry>, start: nat, touched: nat -> iset<Key>)
    requires start < |log|
  {
    forall w, t: nat, id :: e.keep(w, t, id) ==> Claims(log, start, touched, (t, id))
  }

  ghost predicate Claims(log: seq<AuditLog.Entry>, start: nat, touched: nat -> iset<Key>, k: Key)
    requires start < |log|
  {
    exists j: nat :: j < |log| && AuditLog.InWindow(log, start, j) && k in touched(j)
  }

  /** Reads and operations of this loop leave what is observed as it is. */
  ghost predicate Spares<W(!new), V(!new)>(m: Machine<W>, at: (W, Key) -> V) {
    && (forall w, k :: at(m.reload(w).w, k) == at(w, k))
    && (forall w, k :: at(m.refresh(w).w, k) == at(w, k))
    && (forall w, k :: at(m.carry(w).w, k) == at(w, k))
  }

  /** The first apply of a commit or preview, whatever fails in it, changes nothing at an id unless some user
      change names it that came before the commit and after the START_COMMIT before.  A commit for which that
      apply suffices leaves such an id alone altogether, for observations that the sync does not change. */
  lemma CommitTouchesItsWindow<W(!new), E(!new), V(!new)>(
      p: Phases<W>, changed: Engine<W, E>, at: (W, Key) -> V, log: seq<AuditLog.Entry>, start: nat,
      touched: nat -> iset<Key>, w: W, c: Course, k: Key)
    requires p.applyChanged == changed.Loops() && Local(changed, at) && Spares(p.syncAll, at)
    requires AuditLog.Increasing(log) && start < |log| && log[start].kind.CommitMarker()
    requires KeepsWindow(changed, log, start, touched)
    requires forall j: nat :: j < start && log[j].UserChange() && AuditLog.NoStartBetween(log, j, start) ==>
               k !in touched(j)
    requires Ends(p, w, c)
    ensures at(Changed(p, w, c).World(), k) == at(w, k)
    ensures !Retries(p, w, c) ==> at(CommitEnd(p, w, c).w, k) == at(w, k)
  {
    forall j: nat | j < |log| && AuditLog.InWindow(log, start, j) ensures k !in touched(j) {
      AuditLog.WindowMeans(log, start, j);
    }
    var claimed := iset x | Claims(log, start, touched, x);
    UnchangedOutsideFilter(changed, at, claimed, Running(Start(w, [])), c.changed, k);
    if !Retries(p, w, c) {
      var v := at(w, k);
      var inv := (x: W) => at(x, k) == v;
      PassesKeep(p.syncAll, inv, Running(Start(Synced(p, w, c), UndonePlan(p, w, c))), c.sync);
    }
  }

  /** What reads keep, a loop of a preview keeps. */
  lemma {:induction false} PreviewKeeps<W(!new)>(m: Machine<W>, inv: W -> bool, s: State<W>, n: nat)
    requires m.dryRun && inv(s.World()) && forall w :: inv(w) ==> inv(m.reload(w).w) && inv(m.refresh(w).w)
    ensures inv(Passes(m, s, n).World())
    decreases n
  {
    if n > 0 && s.Running? {
      assert s.loop.outer && m.reload(s.loop.w).ok ==>
        Pass(m, s.loop) == InnerPass(m, Enter(s.loop, m.reload(s.loop.w).w));
      PreviewKeeps(m, inv, Pass(m, s.loop), n - 1);
    }
  }

  /** Whether a preview reverts, in terms of the world it starts from: some module has changes, and neither
      the changed modules nor, after that, all modules can be read on both sides. */
  lemma PreviewRevertsIff<W>(p: Phases<W>, w: W, c: Course)
    requires p.Valid() && p.dryRun && Ends(p, w, c)
    ensures Reverts(p, w, c) <==>
              p.affected && !Reads(p.applyChanged, w) && !Reads(p.applyAll, Seen(p.applyChanged, w))
  {
    if p.affected {
      PreviewOnlyReads(p.applyChanged, w, [], c.changed);
      if Retries(p, w, c) { PreviewOnlyReads(p.applyAll, Seen(p.applyChanged, w), ChangedPlan(p, w, c), c.all); }
    }
  }

  /** A preview for which one of those reads succeeds keeps whatever reads keep.  Any other preview of changes
      replays the inverse statements and applies, for real. */
  lemma PreviewReadsOrReverts<W(!new)>(p: Phases<W>, inv: W -> bool, w: W, c: Course)
    requires p.Valid() && p.dryRun
    requires Ends(p, w, c) && inv(w)
    requires forall v :: inv(v) ==> inv(p.applyChanged.reload(v).w) && inv(p.applyChanged.refresh(v).w)
    requires forall v :: inv(v) ==> inv(p.applyAll.reload(v).w) && inv(p.applyAll.refresh(v).w)
    requires forall v :: inv(v) ==> inv(p.syncAll.reload(v).w) && inv(p.syncAll.refresh(v).w)
    ensures !p.affected || Reads(p.applyChanged, w) || Reads(p.applyAll, Seen(p.applyChanged, w)) ==>
              inv(CommitEnd(p, w, c).w)
    ensures p.affected && !Reads(p.applyChanged, w) && !Reads(p.applyAll, Seen(p.applyChanged, w)) ==>
              CommitEnd(p, w, c).Failed? && inv(All(p, w, c).w) && Reverts(p, w, c)
  {
    PreviewRevertsIff(p, w, c);
    PreviewKeeps(p.applyChanged, inv, Running(Start(w, [])), c.changed);
    PreviewKeeps(p.applyAll, inv, Running(Start(Changed(p, w, c).World(), ChangedPlan(p, w, c))), c.all);
    if !Reverts(p, w, c) {
      PreviewKeeps(p.syncAll, inv, Running(Start(Synced(p, w, c), UndonePlan(p, w, c))), c.sync);
    }
  }

  // What a commit announces --------------------------------------------------------------------------------

  /** Some pass of this loop shows the record. */
  predicate Shown<W>(m: Machine<W>, l: Loop<W>, n: nat, r: Row) {
    !m.empty && exists i: nat :: i < n && Shows(m, l, i, r)
  }

  lemma WrittenIsShown<W>(m: Machine<W>, w: W, before: seq<Row>, n: nat, r: Row)
    ensures r in Written(m, before, Passes(m, Running(Start(w, before)), n)) <==>
            r in before || Shown(m, Start(w, before), n, r)
  {
    if !m.empty { PlanIsShown(m, Start(w, before), n, r); }
  }

  /** The rows that a commit returns: those of a preview that ends with its first apply are the rows shown by
      it; any other are the rows that some pass of the phases that ran has shown, or none without mappers. */
  lemma PlanOfCommit<W>(p: Phases<W>, w: W, c: Course, r: Row)
    requires p.Valid() && Ends(p, w, c) && CommitEnd(p, w, c).Finished?
    ensures var first := p.affected && Shown(p.applyChanged, Start(w, []), c.changed, r);
            var all := Start(Changed(p, w, c).World(), ChangedPlan(p, w, c));
            r in CommitEnd(p, w, c).plan <==>
              if Early(p, w, c) then first
              else !p.syncAll.empty && (first || (Retries(p, w, c) && Shown(p.applyAll, all, c.all, r))
                                        || Shown(p.syncAll, Start(Synced(p, w, c), AllPlan(p, w, c)), c.sync, r))
  {
    WrittenIsShown(p.applyChanged, w, [], c.changed, r);
    WrittenIsShown(p.applyAll, Changed(p, w, c).World(), ChangedPlan(p, w, c), c.all, r);
    WrittenIsShown(p.syncAll, Synced(p, w, c), AllPlan(p, w, c), c.sync, r);
    if Early(p, w, c) && p.applyChanged.empty { NothingMapped(p.applyChanged, w, [], c.changed); }
    if !Early(p, w, c) && p.syncAll.empty { NothingMapped(p.syncAll, Synced(p, w, c), AllPlan(p, w, c), c.sync); }
  }

  /** A preview of changes that can be read returns exactly the records of the operations that the two sides
      call for, and has done nothing but read. */
  lemma PreviewReturnsPlan<W(!new), E(!new)>(p: Phases<W>, changed: Engine<W, E>, w: W, c: Course)
    requires p.Valid() && p.dryRun && p.affected && p.applyChanged == changed.Loops() && changed.tables > 0
    requires Ends(p, w, c) && Reads(p.applyChanged, w)
    ensures var end, seen := CommitEnd(p, w, c), Seen(p.applyChanged, w);
            && end.Finished? && end.w == seen
            && forall r :: r in end.plan <==> exists op :: DueAndKept(changed, seen, op) && changed.RowOf(op) == r
  {
    assert c.changed > 0;
    PreviewListsOperations(changed, w, [], c.changed);
  }

  /** A preview without changes returns those of its sync. */
  lemma PreviewOfNothingReturnsSync<W(!new), E(!new)>(p: Phases<W>, sync: Engine<W, E>, w: W, c: Course)
    requires p.Valid() && p.dryRun && !p.affected && p.syncAll == sync.Loops() && sync.tables > 0
    requires Ends(p, w, c) && Reads(p.syncAll, w)
    ensures var end, seen := CommitEnd(p, w, c), Seen(p.syncAll, w);
            && end.Finished? && end.w == seen
            && forall r :: r in end.plan <==> exists op :: DueAndKept(sync, seen, op) && sync.RowOf(op) == r
  {
    assert c.sync > 0;
    PreviewListsOperations(sync, w, [], c.sync);
  }

  /** A side that cannot be read. */
  function Offline(dryRun: bool): Machine<bool> {
    Machine(dryRun, false, w => Read(w, false), w => Read(w, false), w => [], w => Counts(0, 0, 0), w => true,
            w => Carried(w, true, Never))
  }

  /** A preview that writes: nothing can be read, and the world turns from false to true by its undo. */
  lemma OfflinePreviewWrites()
    ensures var preview := Offline(true);
            var p := Phases(true, true, preview, preview, w => Read(true, true), Offline(false), preview);
            var c := Course(1, 1, 1, 1);
            p.Valid() && Ends(p, false, c) && CommitEnd(p, false, c).w
  {
    var preview := Offline(true);
    var p := Phases(true, true, preview, preview, w => Read(true, true), Offline(false), preview);
    var c := Course(1, 1, 1, 1);
    OfflineThrows(true, false, []);
    OfflineThrows(false, true, []);
    OfflineThrows(true, true, []);
  }

  lemma OfflineThrows(dryRun: bool, w: bool, crupdes: seq<Row>)
    ensures Passes(Offline(dryRun), Running(Start(w, crupdes)), 1) == Threw(w, ReadFailed, crupdes)
  {
    var m := Offline(dryRun);
    assert Passes(m, Running(Start(w, crupdes)), 1) == Passes(m, Pass(m, Start(w, crupdes)), 0);
  }
}
