/** Models the audit log of src/modules/iasql_functions/iasql.ts: which user changes a commit claims, and the
    transaction id that they end up with. */
module AuditLog {
  import opened Options

  datatype Kind =
    | Insert | Update | Delete
    | StartCommit | PreviewStartCommit | EndCommit | PreviewEndCommit
    | OpenTransaction | CloseTransaction
    | Error | StartRevert | EndRevert | SetCommitMessage
  {
    predicate CommitMarker() { StartCommit? || PreviewStartCommit? || EndCommit? || PreviewEndCommit? }

    predicate TransactionMarker() { OpenTransaction? || CloseTransaction? }
  }

  /** A row of iasql_audit_log; `engine` when its user is the one the engine connects as. */
  datatype Entry = Entry(ts: int, engine: bool, kind: Kind, transactionId: Option<string>) {
    /** Not written by the engine and no commit marker: what getChangesToCommit looks for. */
    predicate UserChange() { !engine && !kind.CommitMarker() }
  }

  ghost predicate Increasing(log: seq<Entry>) { forall i, j :: 0 <= i < j < |log| ==> log[i].ts < log[j].ts }

  /** getPreviousStartCommit: the timestamp of the latest START_COMMIT before `ts`. */
  function PreviousStart(log: seq<Entry>, ts: int): Option<int> {
    if log == [] then None
    else
      var e := log[|log| - 1];
      if e.kind.StartCommit? && e.ts < ts then Some(e.ts) else PreviousStart(log[..|log| - 1], ts)
  }

  /** The WHERE of getChangesToCommit; BETWEEN includes its bounds. */
  predicate Claimed(e: Entry, previous: Option<int>, ts: int) {
    e.UserChange() && match previous
                      case Some(from) => from <= e.ts <= ts
                      case None => e.ts < ts
  }

  /** associateTransaction on the claimed rows. */
  function Associate(log: seq<Entry>, previous: Option<int>, ts: int, id: string): (r: seq<Entry>)
    ensures |r| == |log|
    ensures forall i :: 0 <= i < |r| ==>
              r[i] == if Claimed(log[i], previous, ts) then log[i].(transactionId := Some(id)) else log[i]
  {
    seq(|log|, i requires 0 <= i < |log| =>
      if Claimed(log[i], previous, ts) then log[i].(transactionId := Some(id)) else log[i])
  }

  /** The log after a commit, a preview or a rollback has begun. */
  function Begun(log: seq<Entry>, dryRun: bool, ts: int, id: string): seq<Entry> {
    var marked := log + [Entry(ts, true, if dryRun then PreviewStartCommit else StartCommit, Some(id))];
    Associate(marked, PreviousStart(marked, ts), ts, id)
  }

  class Log {
    var rows: seq<Entry>

    constructor ()
      ensures rows == []
    {
      rows := [];
    }

    method InsertLog(ts: int, kind: Kind, id: Option<string>)
      modifies this
      ensures rows == old(rows) + [Entry(ts, true, kind, id)]
    {
      rows := rows + [Entry(ts, true, kind, id)];
    }

    method GetPreviousStartCommit(ts: int) returns (previous: Option<int>)
      ensures previous == PreviousStart(rows, ts)
    {
      var i := |rows|;
      assert rows[..i] == rows;
      while i > 0
        invariant 0 <= i <= |rows|
        invariant PreviousStart(rows, ts) == PreviousStart(rows[..i], ts)
      {
        i := i - 1;
        assert rows[..i + 1][..i] == rows[..i];
        if rows[i].kind.StartCommit? && rows[i].ts < ts { return Some(rows[i].ts); }
      }
      previous := None;
    }

    method AssociateTransaction(previous: Option<int>, ts: int, id: string)
      modifies this
      ensures rows == Associate(old(rows), previous, ts, id)
    {
      var i := 0;
      while i < |rows|
        invariant 0 <= i <= |rows| == |old(rows)|
        invariant rows[..i] == Associate(old(rows), previous, ts, id)[..i] && rows[i..] == old(rows)[i..]
      {
        assert rows[i] == old(rows)[i..][0];
        if Claimed(rows[i], previous, ts) { rows := rows[i := rows[i].(transactionId := Some(id))]; }
        i := i + 1;
      }
    }

    /** The opening of `commit` and of `rollback`. */
    method BeginCommit(dryRun: bool, ts: int, id: string)
      modifies this
      ensures rows == Begun(old(rows), dryRun, ts, id)
    {
      InsertLog(ts, if dryRun then PreviewStartCommit else StartCommit, Some(id));
      var previous := GetPreviousStartCommit(ts);
      AssociateTransaction(previous, ts, id);
    }
  }

  // Windows -------------------------------------------------------------------------------------------

  /** Entry `j` lies in the window of the commit or preview that starts with entry `i`. */
  ghost predicate InWindow(log: seq<Entry>, i: nat, j: nat)
    requires i < |log| && j < |log|
  {
    Claimed(log[j], PreviousStart(log, log[i].ts), log[i].ts)
  }

  ghost predicate IsStart(log: seq<Entry>, i: nat) { i < |log| && log[i].kind.StartCommit? }

  /** There is no START_COMMIT strictly between the two positions. */
  ghost predicate NoStartBetween(log: seq<Entry>, from: int, to: int) {
    forall k: nat :: from < k < to ==> !IsStart(log, k)
  }

  lemma {:induction false} PreviousStartMeans(log: seq<Entry>, i: nat, n: nat)
    requires Increasing(log) && i < |log| && n <= |log|
    ensures var p := PreviousStart(log[..n], log[i].ts);
            && (p.None? ==> NoStartBetween(log, -1, if n < i then n else i))
            && (p.Some? ==> exists k: nat :: k < i && k < n && IsStart(log, k) && log[k].ts == p.value
                                            && NoStartBetween(log, k, if n < i then n else i))
    decreases n
  {
    if n > 0 {
      assert log[..n][..n - 1] == log[..n - 1];
      assert log[n - 1].ts < log[i].ts <==> n - 1 < i;
      if IsStart(log, n - 1) && n - 1 < i {
        assert NoStartBetween(log, n - 1, if n < i then n else i);
      } else {
        PreviousStartMeans(log, i, n - 1);
        var p := PreviousStart(log[..n - 1], log[i].ts);
        if p.Some? {
          var k: nat :| k < i && k < n - 1 && IsStart(log, k) && log[k].ts == p.value
                        && NoStartBetween(log, k, if n - 1 < i then n - 1 else i);
          assert NoStartBetween(log, k, if n < i then n else i);
        }
      }
    }
  }

  /** A row is in the window of the start at `i` exactly when a user wrote it, it marks no commit, it is older,
      and no START_COMMIT lies between. */
  lemma WindowMeans(log: seq<Entry>, i: nat, j: nat)
    requires Increasing(log) && i < |log| && j < |log| && log[i].kind.CommitMarker()
    ensures var k := log[j].kind;
            InWindow(log, i, j) <==>
              && !log[j].engine && !k.StartCommit? && !k.PreviewStartCommit? && !k.EndCommit? && !k.PreviewEndCommit?
              && j < i && NoStartBetween(log, j, i)
    ensures InWindow(log, i, j) <==> log[j].UserChange() && j < i && NoStartBetween(log, j, i)
  {
    assert log[..|log|] == log;
    PreviousStartMeans(log, i, |log|);
    var p := PreviousStart(log, log[i].ts);
    assert i != j ==> (log[j].ts < log[i].ts <==> j < i);
    if p.Some? {
      var k: nat :| k < i && IsStart(log, k) && log[k].ts == p.value && NoStartBetween(log, k, i);
      assert k < j ==> log[k].ts < log[j].ts;
      assert j < k ==> log[j].ts < log[k].ts;
    }
  }

  /** Every user change older than the last START_COMMIT is in the window of exactly one START_COMMIT. */
  lemma ClaimedOnce(log: seq<Entry>, j: nat, last: nat) returns (i: nat)
    requires Increasing(log) && j < last < |log| && IsStart(log, last) && log[j].UserChange()
    ensures i <= last && IsStart(log, i) && InWindow(log, i, j)
    ensures forall i': nat :: IsStart(log, i') && InWindow(log, i', j) ==> i' == i
  {
    i := j + 1;
    while !IsStart(log, i)
      invariant j < i <= last && NoStartBetween(log, j, i)
      decreases last - i
    {
      i := i + 1;
    }
    WindowMeans(log, i, j);
    forall i': nat | IsStart(log, i') && InWindow(log, i', j) ensures i' == i { WindowMeans(log, i', j); }
  }

  /** A preview's window is contained in that of the next START_COMMIT. */
  lemma PreviewWindowContained(log: seq<Entry>, p: nat, i: nat, j: nat)
    requires Increasing(log) && p < i < |log| && j < |log|
    requires log[p].kind.PreviewStartCommit? && IsStart(log, i) && NoStartBetween(log, p, i)
    ensures InWindow(log, p, j) ==> InWindow(log, i, j)
  {
    WindowMeans(log, p, j);
    WindowMeans(log, i, j);
    assert !IsStart(log, p);
  }

  /** What a beginning commit or preview writes: its marker, and its transaction id on exactly the user changes
      with no START_COMMIT after them. */
  lemma BegunLabels(log: seq<Entry>, dryRun: bool, ts: int, id: string, j: nat)
    requires Increasing(log) && (forall e :: e in log ==> e.ts < ts) && j <= |log|
    ensures var log' := Begun(log, dryRun, ts, id);
            && |log'| == |log| + 1
            && log'[j] ==
                 if j == |log| then Entry(ts, true, if dryRun then PreviewStartCommit else StartCommit, Some(id))
                 else if log[j].UserChange() && NoStartBetween(log, j, |log|)
                 then log[j].(transactionId := Some(id)) else log[j]
  {
    var marked := log + [Entry(ts, true, if dryRun then PreviewStartCommit else StartCommit, Some(id))];
    assert Increasing(marked) by {
      forall a, b | 0 <= a < b < |marked| ensures marked[a].ts < marked[b].ts { assert marked[a] == log[a]; }
    }
    WindowMeans(marked, |log|, j);
    if j < |log| {
      forall k: nat | j < k < |log| ensures IsStart(marked, k) <==> IsStart(log, k) { assert marked[k] == log[k]; }
      assert NoStartBetween(marked, j, |log|) <==> NoStartBetween(log, j, |log|);
    }
  }

  // Transaction ids over whole runs -------------------------------------------------------------------

  /** What happens to the log: a row is added that starts no commit, a commit or preview begins, or the
      engine relabels rows of its own. */
  ghost predicate Step(log: seq<Entry>, log': seq<Entry>) {
    || (exists e: Entry :: !e.kind.StartCommit? && !e.kind.PreviewStartCommit? && log' == log + [e] && Increasing(log'))
    || (exists dryRun, ts, id :: log' == Begun(log, dryRun, ts, id) && Increasing(log'))
    || Relabelled(log, log')
  }

  ghost predicate Relabelled(log: seq<Entry>, log': seq<Entry>) {
    |log'| == |log| && forall i :: 0 <= i < |log| ==>
      log'[i] == if log[i].engine && !log[i].kind.CommitMarker() then log[i].(transactionId := log'[i].transactionId)
                 else log[i]
  }

  /** Every claimed change carries the transaction id of the START_COMMIT that claims it. */
  ghost predicate Tagged(log: seq<Entry>) {
    forall i: nat, j: nat :: j < |log| && IsStart(log, i) && InWindow(log, i, j) ==>
      log[j].transactionId == log[i].transactionId
  }

  /** The logs agree but for transaction ids. */
  ghost predicate SameShape(log: seq<Entry>, log': seq<Entry>) {
    |log'| == |log| && forall i :: 0 <= i < |log| ==> log'[i] == log[i].(transactionId := log'[i].transactionId)
  }

  lemma {:induction false} ShapePrevious(log: seq<Entry>, log': seq<Entry>, ts: int)
    requires SameShape(log, log')
    ensures PreviousStart(log', ts) == PreviousStart(log, ts)
    decreases |log|
  {
    if log != [] { ShapePrevious(log[..|log| - 1], log'[..|log| - 1], ts); }
  }

  lemma StepKeepsTags(log: seq<Entry>, log': seq<Entry>)
    requires Increasing(log) && Tagged(log) && Step(log, log')
    ensures Increasing(log') && Tagged(log')
  {
    if e: Entry :| !e.kind.StartCommit? && !e.kind.PreviewStartCommit? && log' == log + [e] && Increasing(log') {
      AppendKeepsTags(log, e);
    } else if dryRun, ts, id :| log' == Begun(log, dryRun, ts, id) && Increasing(log') {
      BegunKeepsTags(log, dryRun, ts, id);
    } else {
      forall i: nat, j: nat | j < |log'| && IsStart(log', i) && InWindow(log', i, j)
        ensures log'[j].transactionId == log'[i].transactionId
      {
        ShapePrevious(log, log', log[i].ts);
        assert InWindow(log, i, j);
      }
    }
  }

  lemma AppendKeepsTags(log: seq<Entry>, e: Entry)
    requires Tagged(log) && !e.kind.StartCommit? && Increasing(log + [e])
    ensures Tagged(log + [e])
  {
    var log' := log + [e];
    forall i: nat, j: nat | j < |log'| && IsStart(log', i) && InWindow(log', i, j)
      ensures log'[j].transactionId == log'[i].transactionId
    {
      EarlierWindow(log, e, i, j);
    }
  }

  /** A later row changes no window. */
  lemma EarlierWindow(log: seq<Entry>, e: Entry, i: nat, j: nat)
    requires Increasing(log + [e]) && i < |log| && j <= |log| && log[i].kind.CommitMarker()
    ensures InWindow(log + [e], i, j) ==> j < |log| && InWindow(log, i, j)
  {
    var log' := log + [e];
    WindowMeans(log', i, j);
    if InWindow(log', i, j) {
      assert forall k: nat :: k < i ==> (IsStart(log', k) <==> IsStart(log, k));
      forall k: nat | j < k < i ensures !IsStart(log, k) { assert !IsStart(log', k); }
      assert forall a, b :: 0 <= a < b < |log| ==> log'[a].ts < log'[b].ts;
      WindowMeans(log, i, j);
    }
  }

  lemma BegunKeepsTags(log: seq<Entry>, dryRun: bool, ts: int, id: string)
    requires Tagged(log) && Increasing(log) && Increasing(Begun(log, dryRun, ts, id))
    ensures Tagged(Begun(log, dryRun, ts, id))
  {
    var e := Entry(ts, true, if dryRun then PreviewStartCommit else StartCommit, Some(id));
    var marked, n := log + [e], |log|;
    var log' := Begun(log, dryRun, ts, id);
    assert Increasing(marked) by {
      forall a, b | 0 <= a < b < |marked| ensures marked[a].ts < marked[b].ts {
        assert log'[a].ts == marked[a].ts && log'[b].ts == marked[b].ts;
      }
    }
    forall i: nat, j: nat | j < |log'| && IsStart(log', i) && InWindow(log', i, j)
      ensures log'[j].transactionId == log'[i].transactionId
    {
      ShapePrevious(marked, log', marked[i].ts);
      assert InWindow(marked, i, j) && marked[i].kind == log'[i].kind;
      WindowMeans(marked, i, j);
      WindowMeans(marked, n, j);
      if i < n {
        EarlierWindow(log, e, i, j);
        assert IsStart(log, i) && IsStart(marked, i) && !InWindow(marked, n, j);
      }
    }
  }

  ghost predicate Run(logs: seq<seq<Entry>>) {
    |logs| > 0 && logs[0] == [] && forall i :: 0 <= i < |logs| - 1 ==> Step(logs[i], logs[i + 1])
  }

  /** Over every run, each user change older than the last START_COMMIT carries the transaction id of the one
      START_COMMIT that claims it, whatever previews claimed it in between. */
  lemma {:induction false} RunTags(logs: seq<seq<Entry>>, n: nat)
    requires Run(logs) && n < |logs|
    ensures Increasing(logs[n]) && Tagged(logs[n])
    decreases n
  {
    if n > 0 {
      RunTags(logs, n - 1);
      StepKeepsTags(logs[n - 1], logs[n]);
    }
  }

  /** The two results together: the claiming START_COMMIT exists, is unique, and gives the change its id. */
  lemma ChangeCarriesItsCommit(logs: seq<seq<Entry>>, n: nat, j: nat, last: nat) returns (i: nat)
    requires Run(logs) && n < |logs|
    requires j < last < |logs[n]| && IsStart(logs[n], last) && logs[n][j].UserChange()
    ensures IsStart(logs[n], i) && InWindow(logs[n], i, j) && logs[n][j].transactionId == logs[n][i].transactionId
    ensures forall i': nat :: IsStart(logs[n], i') && InWindow(logs[n], i', j) ==> i' == i
  {
    RunTags(logs, n);
    i := ClaimedOnce(logs[n], j, last);
  }
}
