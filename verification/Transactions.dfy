/** Models the transaction lock: the OPEN and CLOSE markers of src/modules/iasql_functions/iasql.ts and the
    lock discipline that `rpcCall` of src/router/db.ts wraps around every RPC. */
module Transactions {
  import opened AuditLog
  import opened Options

  /** isOpenTransaction: the latest marker, if any, opens. */
  function IsOpen(log: seq<Entry>): bool {
    if log == [] then false
    else
      var k := log[|log| - 1].kind;
      if k.TransactionMarker() then k.OpenTransaction? else IsOpen(log[..|log| - 1])
  }

  /** isCommitRunning: only rows not written by the engine count. */
  function IsCommitRunning(log: seq<Entry>): bool {
    if log == [] then false
    else
      var e := log[|log| - 1];
      if e.kind.CommitMarker() && !e.engine then e.kind.StartCommit? || e.kind.PreviewStartCommit?
      else IsCommitRunning(log[..|log| - 1])
  }

  predicate Free(log: seq<Entry>) { !IsCommitRunning(log) && !IsOpen(log) }

  datatype PreCheck = NoPreCheck | WaitForLock | FailIfNotLocked

  datatype PostCheck = NoPostCheck | UnlockIfSucceed | UnlockAlways

  datatype Policy = Policy(pre: PreCheck, post: PostCheck)

  predicate Unlocks(post: PostCheck, succeeds: bool) { post.UnlockAlways? || (post.UnlockIfSucceed? && succeeds) }

  function Opening(ts: int, id: string): Entry { Entry(ts, true, OpenTransaction, Some(id)) }

  /** The latest row that opens a transaction. */
  function LastOpening(log: seq<Entry>): Option<Entry> {
    if log == [] then None
    else if log[|log| - 1].kind.OpenTransaction? then Some(log[|log| - 1])
    else LastOpening(log[..|log| - 1])
  }

  /** getCurrentTransactionId */
  function CurrentId(log: seq<Entry>): Option<string> {
    match LastOpening(log)
    case None => Some("<no-id-found>")
    case Some(e) => e.transactionId
  }

  /** A change that the engine made after the opening and that has no transaction id yet. */
  predicate Unlabelled(e: Entry, opening: Option<Entry>) {
    && (e.kind.Insert? || e.kind.Update? || e.kind.Delete?) && e.engine && e.transactionId.None?
    && opening.Some? && e.ts > opening.value.ts
  }

  function Label(e: Entry, opening: Option<Entry>, id: Option<string>): Entry {
    if Unlabelled(e, opening) then e.(transactionId := id) else e
  }

  /** updateIasqlRecordsSince for OPEN_TRANSACTION. */
  function Labelled(log: seq<Entry>): (r: seq<Entry>)
    ensures |r| == |log| && forall i :: 0 <= i < |r| ==> r[i] == Label(log[i], LastOpening(log), CurrentId(log))
  {
    seq(|log|, i requires 0 <= i < |log| => Label(log[i], LastOpening(log), CurrentId(log)))
  }

  /** The log after closeTransaction. */
  function Closed(log: seq<Entry>, ts: int): seq<Entry> {
    Labelled(log) + [Entry(ts, true, CloseTransaction, CurrentId(log))]
  }

  /** The log after the end of a call. */
  function Left(log: seq<Entry>, post: PostCheck, ts: int, succeeds: bool): seq<Entry> {
    if Unlocks(post, succeeds) then Closed(log, ts) else log
  }

  /** Rows that bodies of RPCs and other connections add. */
  predicate Unmarked(rows: seq<Entry>) { forall e :: e in rows ==> !e.kind.TransactionMarker() }

  lemma {:induction false} UnmarkedKeepsOpen(log: seq<Entry>, rows: seq<Entry>)
    requires Unmarked(rows)
    ensures IsOpen(log + rows) == IsOpen(log)
    decreases |rows|
  {
    if rows == [] {
      assert log + rows == log;
    } else {
      assert (log + rows)[..|log + rows| - 1] == log + rows[..|rows| - 1];
      assert rows[|rows| - 1] in rows;
      UnmarkedKeepsOpen(log, rows[..|rows| - 1]);
    }
  }

  /** A transaction is open if and only if some marker opens one and no later marker follows. */
  lemma {:induction false} OpenMeans(log: seq<Entry>)
    ensures IsOpen(log) <==> exists i :: 0 <= i < |log| && LastMarker(log, i) && log[i].kind.OpenTransaction?
  {
    if log != [] {
      var n := |log| - 1;
      OpenMeans(log[..n]);
      if log[n].kind.TransactionMarker() {
        assert LastMarker(log, n);
      } else {
        forall i | 0 <= i < n ensures LastMarker(log, i) <==> LastMarker(log[..n], i) {}
      }
    }
  }

  /** Row `i` opens or closes, and no later row does. */
  ghost predicate LastMarker(log: seq<Entry>, i: nat)
    requires i < |log|
  {
    log[i].kind.TransactionMarker() && forall j :: i < j < |log| ==> !log[j].kind.TransactionMarker()
  }

  /** A commit is seen to be running if and only if a user other than the engine's wrote a commit marker, and the
      latest such marker starts a commit or a preview. */
  lemma {:induction false} CommitRunningMeans(log: seq<Entry>)
    ensures IsCommitRunning(log) <==>
            exists i :: 0 <= i < |log| && LastForeign(log, i)
                        && (log[i].kind.StartCommit? || log[i].kind.PreviewStartCommit?)
  {
    if log != [] {
      var n := |log| - 1;
      CommitRunningMeans(log[..n]);
      if ForeignMarker(log[n]) {
        assert LastForeign(log, n);
      } else {
        forall i | 0 <= i < n ensures LastForeign(log, i) <==> LastForeign(log[..n], i) {}
      }
    }
  }

  predicate ForeignMarker(e: Entry) {
    !e.engine && (e.kind.StartCommit? || e.kind.PreviewStartCommit? || e.kind.EndCommit? || e.kind.PreviewEndCommit?)
  }

  /** Row `i` is a commit marker of another user, and no later row is. */
  ghost predicate LastForeign(log: seq<Entry>, i: nat)
    requires i < |log|
  {
    ForeignMarker(log[i]) && forall j :: i < j < |log| ==> !ForeignMarker(log[j])
  }

  lemma MarkerOpen(log: seq<Entry>, e: Entry)
    ensures IsOpen(log + [e]) == if e.kind.TransactionMarker() then e.kind.OpenTransaction? else IsOpen(log)
  {
    assert (log + [e])[..|log|] == log;
  }

  lemma {:induction false} LabelsKeepOpen(log: seq<Entry>, log': seq<Entry>)
    requires SameShape(log, log')
    ensures IsOpen(log') == IsOpen(log) && Alternates(log') == Alternates(log)
    decreases |log|
  {
    if log != [] { LabelsKeepOpen(log[..|log| - 1], log'[..|log| - 1]); }
  }

  /** Closing leaves no open transaction, and alternates exactly with an opening. */
  lemma ClosedMeans(log: seq<Entry>, ts: int)
    ensures !IsOpen(Closed(log, ts))
    ensures Alternates(Closed(log, ts)) <==> Alternates(log) && IsOpen(log)
  {
    LabelsKeepOpen(log, Labelled(log));
    assert Closed(log, ts)[..|log|] == Labelled(log);
  }

  lemma ClosedIncreases(log: seq<Entry>, ts: int)
    requires Increasing(log) && forall e :: e in log ==> e.ts < ts
    ensures Increasing(Closed(log, ts))
  {
    var c := Closed(log, ts);
    forall i, j | 0 <= i < j < |c| ensures c[i].ts < c[j].ts { assert log[i] in log; }
  }

  lemma {:induction false} LastOpeningIs(log: seq<Entry>, o: nat)
    requires o < |log| && log[o].kind.OpenTransaction? && forall j :: o < j < |log| ==> !log[j].kind.OpenTransaction?
    ensures LastOpening(log) == Some(log[o])
    decreases |log|
  {
    if o < |log| - 1 { LastOpeningIs(log[..|log| - 1], o); }
  }

  lemma {:induction false} NoOpening(log: seq<Entry>)
    requires forall i :: 0 <= i < |log| ==> !log[i].kind.OpenTransaction?
    ensures LastOpening(log) == None
  {
    if log != [] { NoOpening(log[..|log| - 1]); }
  }

  /** The marker that a close appends: it has the id of the latest opening. */
  lemma ClosedMarks(log: seq<Entry>, ts: int, o: nat)
    requires o < |log| ==> log[o].kind.OpenTransaction?
    requires forall j :: (if o < |log| then o < j else 0 <= j) && j < |log| ==> !log[j].kind.OpenTransaction?
    ensures |Closed(log, ts)| == |log| + 1
    ensures var id := if o < |log| then log[o].transactionId else Some("<no-id-found>");
            Closed(log, ts)[|log|] == Entry(ts, true, AuditLog.CloseTransaction, id)
  {
    if o < |log| { LastOpeningIs(log, o); } else { NoOpening(log); }
  }

  /** What a close relabels: exactly the engine's changes after the last opening that have no transaction id get
      the id of that opening. */
  lemma ClosedLabels(log: seq<Entry>, ts: int, o: nat, i: nat)
    requires Increasing(log) && o < |log| && i < |log| && log[o].kind.OpenTransaction?
    requires forall j :: o < j < |log| ==> !log[j].kind.OpenTransaction?
    ensures var e := log[i];
            Closed(log, ts)[i] ==
              if i > o && e.engine && (e.kind.Insert? || e.kind.Update? || e.kind.Delete?) && e.transactionId.None?
              then e.(transactionId := log[o].transactionId) else e
  {
    LastOpeningIs(log, o);
    assert i < o ==> log[i].ts < log[o].ts;
    assert o < i ==> log[o].ts < log[i].ts;
  }

  /** A close is a relabelling of engine rows and an append, which keep the labels of user changes. */
  lemma ClosedIsTwoSteps(log: seq<Entry>, ts: int)
    requires Increasing(log) && forall e :: e in log ==> e.ts < ts
    ensures AuditLog.Step(log, Labelled(log)) && AuditLog.Step(Labelled(log), Closed(log, ts))
  {
    RelabelIsStep(log, Labelled(log));
    ClosedIncreases(log, ts);
    AppendIsStep(Labelled(log), Entry(ts, true, AuditLog.CloseTransaction, CurrentId(log)));
  }

  lemma RelabelIsStep(log: seq<Entry>, log': seq<Entry>)
    requires Relabelled(log, log')
    ensures AuditLog.Step(log, log')
  {
  }

  lemma AppendIsStep(log: seq<Entry>, e: Entry)
    requires !e.kind.StartCommit? && !e.kind.PreviewStartCommit? && Increasing(log + [e])
    ensures AuditLog.Step(log, log + [e])
  {
  }

  /** OPEN and CLOSE markers alternate. */
  function Alternates(log: seq<Entry>): bool {
    if log == [] then true
    else
      var e, rest := log[|log| - 1], log[..|log| - 1];
      Alternates(rest) && (e.kind.TransactionMarker() ==> e.kind.OpenTransaction? == !IsOpen(rest))
  }

  // One call on its own connection --------------------------------------------------------------------

  /** The log before attempt `n`, when other connections append `others[i]` during the i-th sleep. */
  function Observed(log: seq<Entry>, others: seq<seq<Entry>>, n: nat): seq<Entry>
    requires n <= |others|
  {
    if n == 0 then log else Observed(log, others, n - 1) + others[n - 1]
  }

  class Connection {
    var log: seq<Entry>

    constructor (log: seq<Entry>)
      ensures this.log == log
    {
      this.log := log;
    }

    /** Up to 120 attempts, one sleep apart; `others` is what other connections write during the sleeps. */
    method MaybeOpenTransaction(ts: int, id: string, others: seq<seq<Entry>>)
        returns (acquired: bool, ghost sleeps: nat)
      requires |others| == 120
      modifies this
      ensures sleeps <= 120 && forall i :: 0 <= i < sleeps ==> !Free(Observed(old(log), others, i))
      ensures acquired ==> sleeps < 120 && Free(Observed(old(log), others, sleeps))
      ensures acquired ==> log == Observed(old(log), others, sleeps) + [Opening(ts, id)]
      ensures !acquired ==> sleeps == 120 && log == Observed(old(log), others, 120)
    {
      acquired := false;
      var loops := 120;
      sleeps := 0;
      while !acquired && loops != 0
        invariant 0 <= loops <= 120 && sleeps == 120 - loops
        invariant forall i :: 0 <= i < sleeps ==> !Free(Observed(old(log), others, i))
        invariant !acquired ==> log == Observed(old(log), others, sleeps)
        invariant acquired ==> loops > 0 && Free(Observed(old(log), others, sleeps))
        invariant acquired ==> log == Observed(old(log), others, sleeps) + [Opening(ts, id)]
        decreases loops, !acquired
      {
        if !IsCommitRunning(log) && !IsOpen(log) {
          log := log + [Opening(ts, id)];
          acquired := true;
        } else {
          log := log + others[120 - loops];
          loops := loops - 1;
          sleeps := sleeps + 1;
        }
      }
    }

    method CloseTransaction(ts: int)
      modifies this
      ensures log == Closed(old(log), ts)
    {
      var opening, id := LastOpening(log), CurrentId(log);
      var i := 0;
      while i < |log|
        invariant 0 <= i <= |log| == |old(log)|
        invariant log[..i] == Labelled(old(log))[..i] && log[i..] == old(log)[i..]
      {
        assert log[i] == old(log)[i..][0];
        if Unlabelled(log[i], opening) { log := log[i := log[i].(transactionId := id)]; }
        i := i + 1;
      }
      log := log + [Entry(ts, true, AuditLog.CloseTransaction, id)];
    }

    /** rpcCall for the explicit checks.  `body` and `succeeds` stand for the RPC itself.  The lock is taken
        before the RPC and given back as the policy says, also when the RPC fails; a call that does not get in
        writes nothing.  `openedAt` and `closedAt` are the times of the two markers. */
    method RpcCall(policy: Policy, openedAt: int, closedAt: int, id: string, others: seq<seq<Entry>>, body: seq<Entry>,
                   succeeds: bool)
      returns (ok: bool, ghost sleeps: nat)
      requires |others| == 120 && Unmarked(body) && forall rows :: rows in others ==> Unmarked(rows)
      modifies this
      ensures ok ==> succeeds
      ensures policy.pre.FailIfNotLocked? && !IsOpen(old(log)) ==> !ok && log == old(log)
      ensures policy.pre.NoPreCheck? || (policy.pre.FailIfNotLocked? && IsOpen(old(log))) ==>
                ok == succeeds && log == Left(old(log) + body, policy.post, closedAt, succeeds)
      ensures policy.pre.WaitForLock? ==>
                && sleeps <= 120 && (forall i :: 0 <= i < sleeps ==> !Free(Observed(old(log), others, i)))
                && (sleeps == 120 ==> !ok && log == Observed(old(log), others, 120))
                && (sleeps < 120 ==>
                      && Free(Observed(old(log), others, sleeps)) && ok == succeeds
                      && log == Left(Observed(old(log), others, sleeps) + [Opening(openedAt, id)] + body,
                                     policy.post, closedAt, succeeds))
      ensures policy.pre.WaitForLock? && sleeps < 120 ==>
                && |log| > |Observed(old(log), others, sleeps)|
                && var opening := log[|Observed(old(log), others, sleeps)|];
                   opening == Entry(openedAt, true, OpenTransaction, Some(id))
      ensures policy.pre.WaitForLock? && sleeps < 120 && Unlocks(policy.post, succeeds) ==>
                log[|log| - 1] == Entry(closedAt, true, AuditLog.CloseTransaction, Some(id))
      ensures policy.pre.WaitForLock? && IsOpen(old(log)) ==> !ok && IsOpen(log)
      ensures policy.pre.WaitForLock? && !IsOpen(old(log)) && Unlocks(policy.post, succeeds) ==> !IsOpen(log)
      ensures ok && !policy.post.NoPostCheck? ==> !IsOpen(log)
      ensures ok && policy.post.NoPostCheck? ==> IsOpen(log) == (policy.pre.WaitForLock? || IsOpen(old(log)))
    {
      ok, sleeps := succeeds, 0;
      match policy.pre {
        case NoPreCheck =>
        case FailIfNotLocked =>
          if !IsOpen(log) { return false, 0; }
        case WaitForLock =>
          var acquired: bool;
          acquired, sleeps := MaybeOpenTransaction(openedAt, id, others);
          ObservedOpen(old(log), others, sleeps);
          if !acquired { return false, sleeps; }
          MarkerOpen(Observed(old(log), others, sleeps), Opening(openedAt, id));
          LeftAfterWait(Observed(old(log), others, sleeps), openedAt, id, body, policy.post, closedAt, succeeds);
      }
      UnmarkedKeepsOpen(log, body);
      log := log + body;
      ClosedMeans(log, closedAt);
      match policy.post {
        case NoPostCheck =>
        case UnlockIfSucceed => if succeeds { CloseTransaction(closedAt); }
        case UnlockAlways => CloseTransaction(closedAt);
      }
    }
  }

  /** The two markers of a call that has waited for the lock. */
  lemma LeftAfterWait(before: seq<Entry>, openedAt: int, id: string, body: seq<Entry>, post: PostCheck, closedAt: int,
                      succeeds: bool)
    requires Unmarked(body)
    ensures var after := Left(before + [Opening(openedAt, id)] + body, post, closedAt, succeeds);
            && |after| > |before| && after[|before|] == Entry(openedAt, true, OpenTransaction, Some(id))
            && (Unlocks(post, succeeds) ==>
                  after[|after| - 1] == Entry(closedAt, true, AuditLog.CloseTransaction, Some(id)))
  {
    var log, o := before + [Opening(openedAt, id)] + body, |before|;
    forall j | o < j < |log| ensures !log[j].kind.OpenTransaction? {
      assert log[j] == body[j - o - 1] && log[j] in body;
    }
    ClosedMarks(log, closedAt, o);
  }

  lemma {:induction false} ObservedOpen(log: seq<Entry>, others: seq<seq<Entry>>, n: nat)
    requires n <= |others| && forall rows :: rows in others ==> Unmarked(rows)
    ensures IsOpen(Observed(log, others, n)) == IsOpen(log)
    decreases n
  {
    if n > 0 {
      ObservedOpen(log, others, n - 1);
      UnmarkedKeepsOpen(Observed(log, others, n - 1), others[n - 1]);
    }
  }

  // All calls together --------------------------------------------------------------------------------

  datatype Phase = Ready(loops: nat) | InBody(acquired: bool) | Ended

  /** A fixed population of calls over one log.  Checking and opening is one step. */
  datatype World = World(phases: map<nat, Phase>, log: seq<Entry>) {
    /** The call opened the transaction and has not ended. */
    predicate Holds(p: nat) { p in phases && phases[p] == InBody(true) }

    function Move(p: nat, phase: Phase, log': seq<Entry>): World { World(phases[p := phase], log') }
  }

  /** What a call does next: attempt to enter, write a row from its body, or end. */
  datatype Act = Enter(ts: int, id: string) | Write(row: Entry) | End(ts: int, succeeds: bool)

  predicate Enabled(policies: map<nat, Policy>, w: World, p: nat, act: Act) {
    p in policies && p in w.phases &&
    match act
    case Enter(_, _) => w.phases[p].Ready?
    case Write(row) => w.phases[p].InBody? && !row.kind.TransactionMarker()
    case End(_, _) => w.phases[p].InBody?
  }

  function Next(policies: map<nat, Policy>, w: World, p: nat, act: Act): World
    requires Enabled(policies, w, p, act)
  {
    match act
    case Enter(ts, id) =>
      (match policies[p].pre
       case NoPreCheck => w.Move(p, InBody(false), w.log)
       case FailIfNotLocked => w.Move(p, if IsOpen(w.log) then InBody(false) else Ended, w.log)
       case WaitForLock =>
         if w.phases[p].loops == 0 then w.Move(p, Ended, w.log)
         else if Free(w.log) then w.Move(p, InBody(true), w.log + [Opening(ts, id)])
         else w.Move(p, Ready(w.phases[p].loops - 1), w.log))
    case Write(row) => w.Move(p, w.phases[p], w.log + [row])
    case End(ts, succeeds) => w.Move(p, Ended, Left(w.log, policies[p].post, ts, succeeds))
  }

  ghost predicate Step(policies: map<nat, Policy>, w: World, w': World) {
    exists p, act :: Enabled(policies, w, p, act) && w' == Next(policies, w, p, act)
  }

  ghost predicate Initial(policies: map<nat, Policy>, w: World) {
    && w.phases.Keys == policies.Keys && !IsOpen(w.log)
    && forall p :: p in w.phases ==> w.phases[p] == Ready(120)
  }

  ghost predicate Interleaving(policies: map<nat, Policy>, ws: seq<World>) {
    |ws| > 0 && Initial(policies, ws[0]) && forall i :: 0 <= i < |ws| - 1 ==> Step(policies, ws[i], ws[i + 1])
  }

  ghost predicate Exclusive(w: World) { forall p, q :: w.Holds(p) && w.Holds(q) ==> p == q }

  /** No interleaving of these calls lets two of them hold the lock. */
  ghost predicate AlwaysExclusive(policies: map<nat, Policy>) {
    forall ws :: Interleaving(policies, ws) ==> Exclusive(ws[|ws| - 1])
  }

  /** Only a call that opened the transaction closes it. */
  predicate Disciplined(policy: Policy) { policy.post.NoPostCheck? || policy.pre.WaitForLock? }

  ghost predicate AllDisciplined(policies: map<nat, Policy>) { forall p :: p in policies ==> Disciplined(policies[p]) }

  /** With disciplined calls: one holder at most, and a holder means an open transaction. */
  ghost predicate Guarded(policies: map<nat, Policy>, w: World) {
    && w.phases.Keys == policies.Keys
    && Exclusive(w)
    && (forall p :: w.Holds(p) ==> IsOpen(w.log))
    && forall p :: p in w.phases && w.phases[p] == InBody(false) ==> !policies[p].pre.WaitForLock?
  }

  /** A step moves one call; a call comes to hold the lock only by entering a free log after waiting. */
  lemma NextPhases(policies: map<nat, Policy>, w: World, p: nat, act: Act)
    requires Enabled(policies, w, p, act)
    ensures var w' := Next(policies, w, p, act);
            && w'.phases.Keys == w.phases.Keys
            && (forall q :: q in w.phases && q != p ==> w'.phases[q] == w.phases[q])
            && (w'.phases[p] == InBody(true) ==>
                  w.phases[p] == InBody(true) || (policies[p].pre.WaitForLock? && !IsOpen(w.log)))
            && (w'.phases[p] == InBody(false) ==> w.phases[p] == InBody(false) || !policies[p].pre.WaitForLock?)
            && (act.End? ==> w.phases[p].InBody? && w'.phases[p] == Ended)
            && (act.Write? ==> w'.phases[p] == w.phases[p])
            && (act.Enter? ==> w'.phases[p] != w.phases[p])
            && (act.Enter? && w'.phases[p] == InBody(false) && policies[p].pre.FailIfNotLocked? ==> IsOpen(w.log))
  {
  }

  lemma StepKeepsGuarded(policies: map<nat, Policy>, w: World, p: nat, act: Act)
    requires Guarded(policies, w) && Enabled(policies, w, p, act) && AllDisciplined(policies)
    ensures Guarded(policies, Next(policies, w, p, act))
  {
    NextOpen(policies, w, p, act);
    NextPhases(policies, w, p, act);
    GuardedStep(policies, w, Next(policies, w, p, act), p, act);
  }

  lemma GuardedStep(policies: map<nat, Policy>, w: World, w': World, p: nat, act: Act)
    requires Guarded(policies, w) && AllDisciplined(policies) && p in policies
    requires w'.phases.Keys == w.phases.Keys && forall q :: q in w.phases && q != p ==> w'.phases[q] == w.phases[q]
    requires w'.phases[p] == InBody(true) ==>
               w.phases[p] == InBody(true) || (policies[p].pre.WaitForLock? && !IsOpen(w.log))
    requires w'.phases[p] == InBody(false) ==> w.phases[p] == InBody(false) || !policies[p].pre.WaitForLock?
    requires act.End? ==> w.phases[p].InBody? && w'.phases[p] == Ended
    requires IsOpen(w'.log) == if w'.Holds(p) && !w.Holds(p) then true
                               else if act.End? && Unlocks(policies[p].post, act.succeeds) then false
                               else IsOpen(w.log)
    ensures Guarded(policies, w')
  {
    forall q | w'.Holds(q) ensures q == p || w.Holds(q) {}
    if act.End? && Unlocks(policies[p].post, act.succeeds) { assert w.Holds(p); }
  }

  /** How one step changes the state of the lock. */
  lemma NextOpen(policies: map<nat, Policy>, w: World, p: nat, act: Act)
    requires Enabled(policies, w, p, act)
    ensures var w' := Next(policies, w, p, act);
            IsOpen(w'.log) ==
              if w'.Holds(p) && !w.Holds(p) then true
              else if act.End? && Unlocks(policies[p].post, act.succeeds) then false
              else IsOpen(w.log)
  {
    match act
    case Enter(ts, id) => MarkerOpen(w.log, Opening(ts, id));
    case Write(row) => MarkerOpen(w.log, row);
    case End(ts, _) => ClosedMeans(w.log, ts);
  }

  lemma {:induction false} GuardedThroughout(policies: map<nat, Policy>, ws: seq<World>, i: nat)
    requires Interleaving(policies, ws) && AllDisciplined(policies) && i < |ws|
    ensures Guarded(policies, ws[i])
    decreases i
  {
    if i > 0 {
      GuardedThroughout(policies, ws, i - 1);
      assert Step(policies, ws[i - 1], ws[i - 1 + 1]);
      var p, act :| Enabled(policies, ws[i - 1], p, act) && ws[i] == Next(policies, ws[i - 1], p, act);
      StepKeepsGuarded(policies, ws[i - 1], p, act);
    }
  }

  /** Only calls that wait for the lock ever hold it. */
  lemma {:induction false} HoldersWait(policies: map<nat, Policy>, ws: seq<World>, i: nat, p: nat)
    requires Interleaving(policies, ws) && i < |ws| && ws[i].Holds(p)
    ensures p in policies && policies[p].pre.WaitForLock?
    decreases i
  {
    if i > 0 {
      assert Step(policies, ws[i - 1], ws[i - 1 + 1]);
      var q, act :| Enabled(policies, ws[i - 1], q, act) && ws[i] == Next(policies, ws[i - 1], q, act);
      if ws[i - 1].Holds(p) { HoldersWait(policies, ws, i - 1, p); }
    }
  }

  /** How often call `p` has looked at the log in vain: it waits on, and the log was not free. */
  function InVain(ws: seq<World>, p: nat, i: nat): nat
    requires i < |ws|
    decreases i
  {
    if i == 0 then 0
    else
      var before, after := ws[i - 1], ws[i];
      InVain(ws, p, i - 1) +
      if p in before.phases && p in after.phases && before.phases[p].Ready? && after.phases[p].Ready?
         && after.phases[p] != before.phases[p] && !Free(before.log) then 1 else 0
  }

  /** In every interleaving: a call that waits has looked in vain once for each of the 120 attempts that it has
      spent; one that gets in has some left, and one that gives up has none. */
  lemma {:induction false} AttemptsSpent(policies: map<nat, Policy>, ws: seq<World>, i: nat, p: nat)
    requires Interleaving(policies, ws) && i < |ws| && p in policies && policies[p].pre.WaitForLock?
    ensures p in ws[i].phases
    ensures ws[i].phases[p].Ready? ==> InVain(ws, p, i) + ws[i].phases[p].loops == 120
    ensures !ws[i].phases[p].Ready? && (forall j :: 0 <= j <= i && p in ws[j].phases ==> !ws[j].phases[p].InBody?) ==>
              InVain(ws, p, i) == 120
    ensures ws[i].phases[p].InBody? ==> ws[i].phases[p] == InBody(true) && InVain(ws, p, i) < 120
    decreases i
  {
    if i > 0 {
      AttemptsSpent(policies, ws, i - 1, p);
      assert Step(policies, ws[i - 1], ws[i - 1 + 1]);
      var q, act :| Enabled(policies, ws[i - 1], q, act) && ws[i] == Next(policies, ws[i - 1], q, act);
      WaitingNext(policies, ws[i - 1], q, act, p);
    }
  }

  /** What a step of any call does to a call that waits. */
  lemma WaitingNext(policies: map<nat, Policy>, w: World, q: nat, act: Act, p: nat)
    requires Enabled(policies, w, q, act) && p in policies && p in w.phases && policies[p].pre.WaitForLock?
    ensures p in Next(policies, w, q, act).phases
    ensures var before, after := w.phases[p], Next(policies, w, q, act).phases[p];
            && (before.Ready? && after.Ready? && after != before ==> after.loops == before.loops - 1 && !Free(w.log))
            && (before.Ready? && after.InBody? ==> after == InBody(true) && before.loops > 0 && Free(w.log))
            && (before.Ready? && after.Ended? ==> before.loops == 0)
            && (before.InBody? ==> after == before || after.Ended?) && (before.Ended? ==> after.Ended?)
  {
  }

  /** Every attempt of a call to enter moves it on, so that a waiting call makes 121 at most. */
  lemma AttemptsMove(policies: map<nat, Policy>, w: World, p: nat, ts: int, id: string)
    requires Enabled(policies, w, p, Enter(ts, id))
    ensures var before, after := w.phases[p], Next(policies, w, p, Enter(ts, id)).phases[p];
            after.Ready? ==> after.loops < before.loops
  {
    NextPhases(policies, w, p, Enter(ts, id));
  }

  /** The call is about to enter, no transaction is open and no commit is seen to be running. */
  predicate MayEnter(w: World, p: nat) {
    p in w.phases && w.phases[p].Ready? && !IsOpen(w.log) && !IsCommitRunning(w.log)
  }

  /** In every interleaving: a call that waits has entered while no transaction was open and no commit was seen to
      be running. */
  lemma {:induction false} EnteredWhileFree(policies: map<nat, Policy>, ws: seq<World>, i: nat, p: nat)
    requires Interleaving(policies, ws) && i < |ws| && p in policies && policies[p].pre.WaitForLock?
    requires p in ws[i].phases && ws[i].phases[p].InBody?
    ensures exists j :: 0 <= j < i && MayEnter(ws[j], p)
    decreases i
  {
    if i > 0 {
      var q, act := StepTaken(policies, ws, i - 1);
      CameIn(policies, ws[i - 1], q, act, p);
      if ws[i - 1].phases[p].InBody? { EnteredWhileFree(policies, ws, i - 1, p); }
    }
  }

  lemma StepTaken(policies: map<nat, Policy>, ws: seq<World>, i: nat) returns (q: nat, act: Act)
    requires Interleaving(policies, ws) && i + 1 < |ws|
    ensures Enabled(policies, ws[i], q, act) && ws[i + 1] == Next(policies, ws[i], q, act)
  {
    assert Step(policies, ws[i], ws[i + 1]);
    q, act :| Enabled(policies, ws[i], q, act) && ws[i + 1] == Next(policies, ws[i], q, act);
  }

  lemma CameIn(policies: map<nat, Policy>, w: World, q: nat, act: Act, p: nat)
    requires Enabled(policies, w, q, act) && p in policies && policies[p].pre.WaitForLock?
    requires p in Next(policies, w, q, act).phases && Next(policies, w, q, act).phases[p].InBody?
    ensures p in w.phases && (w.phases[p].InBody? || MayEnter(w, p))
  {
    NextPhases(policies, w, q, act);
    WaitingNext(policies, w, q, act, p);
  }

  /** In every interleaving: a call that fails unless the lock is held has entered while a transaction was
      open. */
  lemma {:induction false} EnteredWhileOpen(policies: map<nat, Policy>, ws: seq<World>, i: nat, p: nat)
    requires Interleaving(policies, ws) && i < |ws| && p in policies && policies[p].pre.FailIfNotLocked?
    requires p in ws[i].phases && ws[i].phases[p].InBody?
    ensures exists j :: 0 <= j < i && p in ws[j].phases && ws[j].phases[p].Ready? && IsOpen(ws[j].log)
    decreases i
  {
    if i > 0 {
      assert Step(policies, ws[i - 1], ws[i - 1 + 1]);
      var q, act :| Enabled(policies, ws[i - 1], q, act) && ws[i] == Next(policies, ws[i - 1], q, act);
      NextPhases(policies, ws[i - 1], q, act);
      if ws[i - 1].phases[p].InBody? { EnteredWhileOpen(policies, ws, i - 1, p); }
    }
  }

  /** Three calls that break exclusion: two that wait for the lock and one that unlocks what it did not open. */
  ghost predicate Breakable(policies: map<nat, Policy>) {
    exists p, q, r :: p in policies && q in policies && r in policies && p != q
      && policies[p].pre.WaitForLock? && policies[q].pre.WaitForLock? && !Disciplined(policies[r])
  }

  lemma Extend(policies: map<nat, Policy>, ws: seq<World>, p: nat, act: Act) returns (longer: seq<World>)
    requires Interleaving(policies, ws) && Enabled(policies, ws[|ws| - 1], p, act)
    ensures longer == ws + [Next(policies, ws[|ws| - 1], p, act)] && Interleaving(policies, longer)
  {
    longer := ws + [Next(policies, ws[|ws| - 1], p, act)];
    forall i | 0 <= i < |longer| - 1 ensures Step(policies, longer[i], longer[i + 1]) {
      if i < |ws| - 1 { assert longer[i] == ws[i] && longer[i + 1] == ws[i + 1]; }
    }
  }

  /** `p` is alone in opening. */
  lemma OpeningRun(policies: map<nat, Policy>, p: nat) returns (ws: seq<World>)
    requires p in policies && policies[p].pre.WaitForLock?
    ensures Interleaving(policies, ws)
    ensures ws[|ws| - 1] == World((map c | c in policies :: Ready(120))[p := InBody(true)], [Opening(1, "p")])
  {
    var start := World(map c | c in policies :: Ready(120), []);
    assert start.log + [Opening(1, "p")] == [Opening(1, "p")];
    ws := Extend(policies, [start], p, Enter(1, "p"));
  }

  /** `r` comes in after `p` opened and unlocks without having waited. */
  lemma UnlockingRun(policies: map<nat, Policy>, p: nat, r: nat) returns (ws: seq<World>)
    requires p in policies && r in policies && policies[p].pre.WaitForLock? && !Disciplined(policies[r])
    ensures Interleaving(policies, ws)
    ensures ws[|ws| - 1] == World((map c | c in policies :: Ready(120))[p := InBody(true)][r := Ended],
                                  Closed([Opening(1, "p")], 2))
  {
    ws := OpeningRun(policies, p);
    var w := ws[|ws| - 1];
    assert w.log == [] + [Opening(1, "p")];
    MarkerOpen([], Opening(1, "p"));
    ws := Extend(policies, ws, r, Enter(0, "r"));
    ws := Extend(policies, ws, r, End(2, true));
    assert w.phases[r := InBody(false)][r := Ended] == w.phases[r := Ended];
  }

  /** The interleaving that breaks exclusion: `p` opens, `r` enters and unlocks, `q` opens. */
  lemma BreakingRun(policies: map<nat, Policy>, p: nat, q: nat, r: nat) returns (ws: seq<World>)
    requires p in policies && q in policies && r in policies && p != q
    requires policies[p].pre.WaitForLock? && policies[q].pre.WaitForLock? && !Disciplined(policies[r])
    ensures Interleaving(policies, ws) && !Exclusive(ws[|ws| - 1])
  {
    ws := UnlockingRun(policies, p, r);
    var w := ws[|ws| - 1];
    ClosedMeans([Opening(1, "p")], 2);
    OwnCommitsUnseen(w.log);
    ws := Extend(policies, ws, q, Enter(3, "q"));
    var last := ws[|ws| - 1];
    assert last.Holds(p) && last.Holds(q);
  }

  /** The engine never sees a commit of its own: while all commit markers are the engine's, no commit is
      seen to be running. */
  lemma {:induction false} OwnCommitsUnseen(log: seq<Entry>)
    requires forall e :: e in log && e.kind.CommitMarker() ==> e.engine
    ensures !IsCommitRunning(log)
  {
    if log != [] {
      assert log[|log| - 1] in log;
      OwnCommitsUnseen(log[..|log| - 1]);
    }
  }

  /** Exactly which populations exclude: those where no call unlocks without having waited for the lock, or
      where fewer than two calls wait for it. */
  lemma ExclusiveIffNotBreakable(policies: map<nat, Policy>)
    ensures AlwaysExclusive(policies) <==> !Breakable(policies)
  {
    if Breakable(policies) {
      var p, q, r :| p in policies && q in policies && r in policies && p != q
        && policies[p].pre.WaitForLock? && policies[q].pre.WaitForLock? && !Disciplined(policies[r]);
      var ws := BreakingRun(policies, p, q, r);
    } else {
      forall ws: seq<World> | Interleaving(policies, ws) ensures Exclusive(ws[|ws| - 1]) {
        if AllDisciplined(policies) {
          GuardedThroughout(policies, ws, |ws| - 1);
        } else {
          var last := ws[|ws| - 1];
          forall p, q | last.Holds(p) && last.Holds(q) ensures p == q {
            HoldersWait(policies, ws, |ws| - 1, p);
            HoldersWait(policies, ws, |ws| - 1, q);
          }
        }
      }
    }
  }

  // Calls that wait and always unlock -------------------------------------------------------------------

  ghost predicate LockAll(policies: map<nat, Policy>) {
    forall p :: p in policies ==> policies[p] == Policy(WaitForLock, UnlockAlways)
  }

  /** The transaction is open exactly while some call holds it. */
  ghost predicate Exact(policies: map<nat, Policy>, w: World) {
    Guarded(policies, w) && Alternates(w.log) && (IsOpen(w.log) <==> exists p :: w.Holds(p))
  }

  lemma StepKeepsExact(policies: map<nat, Policy>, w: World, p: nat, act: Act)
    requires LockAll(policies) && Exact(policies, w) && Enabled(policies, w, p, act)
    ensures Exact(policies, Next(policies, w, p, act))
  {
    StepKeepsGuarded(policies, w, p, act);
    NextOpen(policies, w, p, act);
    NextPhases(policies, w, p, act);
    NextAlternates(policies, w, p, act);
    OpenIsHeld(policies, w, Next(policies, w, p, act), p, act);
  }

  lemma OpenIsHeld(policies: map<nat, Policy>, w: World, w': World, p: nat, act: Act)
    requires LockAll(policies) && Exact(policies, w) && Enabled(policies, w, p, act)
    requires w'.phases.Keys == w.phases.Keys && forall q :: q in w.phases && q != p ==> w'.phases[q] == w.phases[q]
    requires act.Write? ==> w'.phases[p] == w.phases[p]
    requires IsOpen(w'.log) == if w'.Holds(p) && !w.Holds(p) then true
                               else if act.End? && Unlocks(policies[p].post, act.succeeds) then false
                               else IsOpen(w.log)
    ensures IsOpen(w'.log) ==> exists q :: w'.Holds(q)
  {
    if IsOpen(w'.log) && !w'.Holds(p) {
      var q :| w.Holds(q);
      assert q != p && w'.Holds(q);
    }
  }

  lemma NextAlternates(policies: map<nat, Policy>, w: World, p: nat, act: Act)
    requires LockAll(policies) && Exact(policies, w) && Enabled(policies, w, p, act)
    ensures Alternates(Next(policies, w, p, act).log)
  {
    var w' := Next(policies, w, p, act);
    assert w.phases[p].InBody? ==> w.Holds(p);
    match act
    case Enter(ts, id) => assert (w.log + [Opening(ts, id)])[..|w.log|] == w.log;
    case Write(row) => assert (w.log + [row])[..|w.log|] == w.log;
    case End(ts, _) => ClosedMeans(w.log, ts);
  }

  /** In every interleaving of calls that wait for the lock and always unlock, at most one call holds it, the
      markers alternate, and isOpenTransaction holds exactly while some call holds it. */
  lemma {:induction false} LockIsExact(policies: map<nat, Policy>, ws: seq<World>, i: nat)
    requires LockAll(policies) && Interleaving(policies, ws) && Alternates(ws[0].log) && i < |ws|
    ensures Exact(policies, ws[i])
    decreases i
  {
    if i > 0 {
      LockIsExact(policies, ws, i - 1);
      assert Step(policies, ws[i - 1], ws[i - 1 + 1]);
      var p, act :| Enabled(policies, ws[i - 1], p, act) && ws[i] == Next(policies, ws[i - 1], p, act);
      StepKeepsExact(policies, ws[i - 1], p, act);
    }
  }
}
