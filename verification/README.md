# A Dafny model of the IaSQL engine

IaSQL keeps a Postgres database and a cloud account in step. This project models the engine that does it
and states what the engine promises: the reconciliation loops of `apply`, `sync` and `commit`, the retry
loop under them, the module dependency machinery, the audit log with its commit windows, undo and
transaction lock, the entity cache and its ids, and the IAM policy canonicaliser. `dafny verify
dfyconfig.toml` checks everything.

| file | what it holds |
|---|---|
| `Options.dfy` | a value that may be absent |
| `Fixpoint.dfy` | least fixpoints of dependency rules, shared by the sorter, the loader and the engine |
| `ModSort.dfy` | `sortModules`, the queue-rotation topological sort |
| `LazyDep.dfy` | `lazyLoader`, retry until nothing fails or nothing moves |
| `Diff.dfy` | `mapSegmentation` and `findDiff` |
| `DiffLoop.dfy` | the two nested loops of `apply` and `sync`, their spin and failure counters and the plan, over an arbitrary world |
| `Reconcile.dfy` | what one pass sees and does: reads, differences, filter, generators, in both directions |
| `Convergence.dfy` | where a run ends when operations wait for one another |
| `Mirror.dfy` | a smallest cloud that meets the assumptions of `Convergence.dfy`; it models nothing of the source |
| `Commit.dfy` | the phases of `commit` |
| `Registries.dfy` | the module registry, and what `install`, `uninstall` and the sorts of `commit` come to on it |
| `Install.dfy` | `install` and `uninstall` themselves |
| `InstallRuns.dfy` | what calls leave that fail half way, and what every history of calls keeps |
| `AuditLog.dfy` | commit windows and the transaction ids of user changes |
| `Transactions.dfy` | the transaction lock, one call and all interleavings of calls |
| `Undo.dfy`, `Bags.dfy` | inverse statements replayed newest first, on tables as bags of rows |
| `Memos.dfy` | what `memo` computes, on references that alias in any way |
| `CrudCache.dfy` | `Crud`, the identity-preserving memo in front of a store, on single entities and lists |
| `IdCodec.dfy` | `generateId`, `entityId`, `idFields` |
| `IamPolicy.dfy`, `Strings.dfy` | `normalizePolicy` and `policiesAreSame` |

How the model is laid out:

- `apply` and `sync` are one engine read in two directions. Mappers, reads, clocks and users that write
  meanwhile are packed into a world `W` and functions on it. `Reconcile.Engine` turns them into the loop
  machine of `DiffLoop`, so the results about runs hold for every mapper unless a result says otherwise.
- The loops need not end: the methods for them take the length of a run that does as a ghost argument, and
  the lemmas say when there is one.
- Convergence assumes that a due operation changes its own id only, and is rejected, without effect, only
  while something it needs is not in agreement (`Obliging`); that reads of a live world succeed and see what
  is there (`Steady`); and, where it says so, that an operation resolves only when nothing it needs is missing
  (`Exacting`). `Mirror.MeetsAssumptions` shows that all of them can be met at once, for any dependencies, and
  `Mirror.MirrorConverges` what convergence then comes to.
- Where a property holds only under a condition, the condition is exact: see `FieldsRoundTrip`,
  `KeysPreservedIffNoClash`, `VerdictPreservedIffNoClash`, `UndoInsert`, `UndoDelete`, `UndoUpdate`,
  `ExclusiveIffNotBreakable`, `PreviewRevertsIff`, `ReturnsIffSortable`, `InstallSortReturnsIff`,
  `UninstallSortReturnsIff`, `CommitSortReturnsIff`, `InstallAllOrNothingIff`, `UninstallAllOrNothingIff`,
  `PartialRemovalHealthyIff`, `NoProgressIff`, `StuckIffRepeats`, `GivenTwiceIff`, `ReplayIff`,
  `ReturnsIffReachable`.

Where the code and its comments differ the model follows the code:

- `lazyLoader` says it runs the promises in parallel; it awaits them one by one. A rejection whose reason is
  not an object (a string, say, or `null`) breaks the assignment to `err.stack`, so that the loader itself
  throws a TypeError at once instead of retrying (src/services/lazy-dep.ts:29-30); `CrashedIff` says when.
- `policiesAreSame` says that it is true of policies that mean the same. It is true only of policies that mean
  the same (`SamePoliciesMeanTheSame`), but not of all of them (`ReorderedStatementsDiffer`).
- `isCommitRunning` leaves out what the engine's own user wrote, and the engine's log writer always is that
  user, so no commit of the engine is ever seen to be running (`OwnCommitsUnseen`). Exclusion rests on
  `isOpenTransaction` alone.
- A call that unlocks without having waited for the lock (`iasql_commit` and `iasql_rollback` fail unless the
  lock is held, then always unlock) can end a transaction of another call; `ExclusiveIffNotBreakable` says
  exactly which sets of calls exclude one another.
- `install` and `uninstall` say that their transaction keeps a failure from leaving things "in a busted state".
  The rows of `iasql_module` are written on another connection (src/services/typeorm.ts:102-119), so the rollback
  takes back the tables and not the rows. Such a call is all or nothing exactly if the first script of its order
  is the one that fails (`InstallAllOrNothingIff`, `UninstallAllOrNothingIff`). Otherwise modules with tables are
  left that can be neither installed nor uninstalled (`FailedInstallStrands`, `FailedUninstallStrands`). The
  installed set stays closed under dependencies all the same (`HistoryKeepsHealth`), except after a failing
  uninstall that was given a module twice (`PartialRemovalHealthyIff`, `GivenTwiceBreaks`).
- Both remove duplicates before they add versions, so that a module named with and without its version is
  requested twice (`GivenTwiceIff`). That makes an install fail exactly if the module is not installed yet and has
  tables; two modules that share a table do the same (`InstallOutcomes`). An uninstall fails on any installed
  module that is requested twice (`UninstallOutcomes`), and can then leave its tables without its row
  (`GivenTwiceStrands`).
- Missing dependencies are attached, except for the base modules. No uninstall takes out `iasql_platform`, since
  its removal drops the tables that the bookkeeping after it reads on another connection
  (`BaseNeverUninstalled`). When its row is deleted by hand, an install whose modules depend on it never returns
  from its sort unless it asks for the base module by name (`LostBaseHangs`, `LostRowHangs`).
- An undo cannot put a null back over a value, because null columns are dropped (`FilledStays`).
- A preview is not read-only: when neither the changed modules nor, after that, all modules can be read, it
  replays the inverse statements and applies them for real (`PreviewRevertsIff`, `OfflinePreviewWrites`).

## Model

| member | source | states |
|---|---|---|
| `ModSort.SortModules` | src/services/mod-sort.ts:3-21 | The result is a permutation of the input in which every dependency exists or comes earlier; an input already in such an order is returned as it is; the loop ends by (queue length, position of the first ready module). |
| `ModSort.TurnProgresses` | src/services/mod-sort.ts:10-19 | One turn keeps the bag of modules and the order so far; a ready head shortens the queue, any other brings the first ready module one place nearer. |
| `ModSort.RotationApproaches` | src/services/mod-sort.ts:16-18 | Rotating an unready head moves the first ready module exactly one place forward. |
| `ModSort.ReturnsIffSortable` | src/services/mod-sort.ts:10-19 | The loop ever empties its queue if and only if every module lies in the least fixpoint of "add a module whose dependencies are there". |
| `ModSort.SortableIffOrderExists` | src/services/mod-sort.ts:13-20 | Equivalently: if and only if some order of the modules respects the dependencies. |
| `ModSort.MissingDependencyNeverReturns` | src/services/mod-sort.ts:13-18 | With a dependency that neither exists nor is in the list, sortModules never returns. |
| `LazyDep.RunRound` | src/services/lazy-dep.ts:24-34 | One `for` loop: every generator is called once, in order, and the rejected ones are collected in order. |
| `LazyDep.LazyLoader` | src/services/lazy-dep.ts:13-49 | Rounds over the remaining generators until none is left or a whole round fails. |
| `LazyDep.CallBound` | src/services/lazy-dep.ts:22-37 | For arbitrary generators: at most n(n+1)/2 calls. |
| `LazyDep.ResolvedOnce` | src/services/lazy-dep.ts:22-48 | For arbitrary generators: none resolves twice, success means all resolved, and what the error carries is exactly what never resolved. |
| `LazyDep.LoadedMeans` | src/services/lazy-dep.ts:22-48 | For arbitrary generators: after a success each has had a call that resolves; otherwise some call has not resolved. |
| `LazyDep.RunKeeps` | src/services/lazy-dep.ts:25-34 | Whatever every single call keeps, the whole load keeps. |
| `LazyDep.NoneLeftBehind` | src/services/lazy-dep.ts:33-37 | If generators resolve whenever what they need is done, no generator of the least fixpoint is left over. |
| `LazyDep.LeastFixpoint` | src/services/lazy-dep.ts:22-48 | If they resolve exactly then, the loader succeeds if and only if all generators lie in the least fixpoint, and otherwise `generatorsToRun` is exactly the complement. |
| `LazyDep.EndsInFixpoint` | src/services/lazy-dep.ts:22-48 | What is done at the end is exactly what is derivable. |
| `LazyDep.OrderIrrelevant` | src/services/lazy-dep.ts:25-37 | The outcome and the bag of leftovers do not depend on the order of the input. |
| `LazyDep.AllWaiting` | src/services/lazy-dep.ts:35-35 | When every generator waits for something, one round fails as a whole and all are left. |
| `LazyDep.CrashedIff` | src/services/lazy-dep.ts:28-33 | For arbitrary generators: the loader itself throws if and only if a call that it makes rejects with something that is not an object, and that call is its last. |
| `Diff.MapSegmentation` | src/services/diff.ts:1-15 | Entries of the first map only, of both, and of the second only, each in the order of the map they come from. |
| `Diff.FindDiff` | src/services/diff.ts:17-46 | Its three lists are those of the specification `DiffOf`, to which the results below apply. |
| `Diff.DetectChanges` | src/services/diff.ts:29-38 | The pairs that the comparator rejects, in order. |
| `Diff.ByIdIsLatest` | src/services/diff.ts:23-24 | Of entities with one id the last in the list is the one indexed. |
| `Diff.DiffPartitions` | src/services/diff.ts:23-45 | The ids fall into database only, cloud only and shared, each entity once; of the shared pairs exactly those the comparator rejects are reported. |
| `Diff.EmptyIffInStep` | src/services/diff.ts:17-46 | The difference is empty if and only if both lists have the same ids and comparator-equal latest entities. |
| `Diff.PatchSettles` | src/services/diff.ts:17-46 | Carrying the difference out on the cloud list makes a second findDiff empty, for a reflexive comparator. |
| `Diff.SwapSwaps` | src/services/diff.ts:17-46 | Swapping the inputs swaps the outputs, for a symmetric comparator. |
| `DiffLoop.UpdateCommitPlan` | src/modules/iasql_functions/iasql.ts:2027-2037 | Adds the records that are not in the plan yet. |
| `DiffLoop.PlanGrows` | src/modules/iasql_functions/iasql.ts:2027-2037 | A plan only grows at its end, gains exactly the new records, and never holds one twice. |
| `DiffLoop.RunInnerPass` | src/modules/iasql_functions/iasql.ts:1574-1762 | The body of the inner loop: read, diff, plan, count, give up on the fifth equal count, operate, note failures. |
| `DiffLoop.ApplyOrSync` | src/modules/iasql_functions/iasql.ts:1552-1763 | The two nested loops are the iteration of single passes. |
| `DiffLoop.PassesKeep` | src/modules/iasql_functions/iasql.ts:1816-1999 | What reads and operations keep, every run keeps. |
| `DiffLoop.ReturnsOnlyIdle` | src/modules/iasql_functions/iasql.ts:1749-1763 | Whatever the mappers do, a normal return outside a preview comes only after both sides were read again, with no operation since, and nothing was found to do. |
| `DiffLoop.FifthEqualCountThrows` | src/modules/iasql_functions/iasql.ts:1663-1679 | The fifth of five consecutive passes with one count triple throws before any operation. |
| `DiffLoop.NoProgressIff` | src/modules/iasql_functions/iasql.ts:1663-1679 | The exact condition, for any mappers and any run: a pass that sees both sides gives up for want of progress if and only if it and the four passes before it count the same. |
| `DiffLoop.NonIncreasingCountsEnd` | src/modules/iasql_functions/iasql.ts:1898-1914 | If the three counts never grow, a run has at most 4(d+c+b+1)+1 passes for the first counts d, c, b (hence at most 5(d+c+b+1)). |
| `DiffLoop.ThreePasses` | src/modules/iasql_functions/iasql.ts:1749-1763 | One operating pass that leaves nothing to do makes the run return after at most three passes. |
| `DiffLoop.SecondEqualFailureThrows` | src/modules/iasql_functions/iasql.ts:1752-1758 | Two outer iterations that fail with the same number of leftovers end the run with that failure. |
| `DiffLoop.StuckIffRepeats` | src/modules/iasql_functions/iasql.ts:1752-1758 | The exact condition, for any mappers and any run: a pass whose operations fail ends the run if and only if the latest failing pass before it left as many operations; otherwise the outer loop starts over from the world that the operations left. |
| `DiffLoop.StuckOnlyByRepeat` | src/modules/iasql_functions/iasql.ts:1752-1758 | A run that ends with stuck operations ends in its second of two successive failures that left equally many; a run whose successive failures leave different numbers never does. |
| `DiffLoop.PlanIsShown` | src/modules/iasql_functions/iasql.ts:1637-1662 | At any time, and however a run ends, its plan holds what was there before and exactly the records of the differences that its passes have seen. |
| `DiffLoop.NothingMapped` | src/modules/iasql_functions/iasql.ts:1591-1600 | Without mappers a run ends in its first pass and returns no rows. |
| `Reconcile.GeneratorsAreDue` | src/modules/iasql_functions/iasql.ts:1682-1748 | The generators are, without duplicates, operations that the difference calls for on kept ids. |
| `Reconcile.DisagreementHasOp` | src/modules/iasql_functions/iasql.ts:1612-1748 | Every kept id on which the sides disagree has a generator. |
| `Reconcile.IdleIffAgreed` | src/modules/iasql_functions/iasql.ts:1606-1657 | There is nothing to run if and only if the sides agree on every kept id of every table. |
| `Reconcile.ReturnsOnlyInAgreement` | src/modules/iasql_functions/iasql.ts:1552-1763 | Exit condition: whatever the mappers do, apply and sync return (outside a preview) only from a world just read on both sides in which these agree on every id that the filter keeps. |
| `Reconcile.UnchangedOutsideFilter` | src/modules/iasql_functions/iasql.ts:1606-1625 | Frame: over any run, with any failures and retries, nothing observable changes at an id that the filter never keeps, for operations that are local to their id. |
| `Reconcile.PreviewListsOperations` | src/modules/iasql_functions/iasql.ts:1637-1662 | A preview whose reads succeed lists exactly the operations that the two sides call for: its plan holds what was there before and one record for every kept operation that is due, and it touches nothing but by reading. |
| `Reconcile.RecordCountMeans` | src/modules/iasql_functions/iasql.ts:43-48 | The three counts are the numbers of kept ids, over all tables, that only the database has, that only the cloud has, and that both have with entities that the comparator tells apart. |
| `Reconcile.GeneratorsInTurn` | src/modules/iasql_functions/iasql.ts:1682-1748 | Operations run in order: creates and updates table by table, creates first, and after them deletes in the reverse order of the tables. |
| `Reconcile.CarryMeans` | src/modules/iasql_functions/iasql.ts:1749-1758 | A round succeeds if and only if every operation resolves; what a failing one leaves is the number that did not, and no number when the loader itself broke. |
| `Reconcile.StuckLeavesEquallyMany` | src/modules/iasql_functions/iasql.ts:1751-1758 | Whatever the mappers do, apply and sync end with stuck operations only in the second of two successive failing rounds that left equally many operations unresolved. |
| `Reconcile.AcquireMeans` | src/modules/iasql_functions/iasql.ts:1558-1581 | Reading a side succeeds only when a read of every table has resolved, and fails only when a read of some table has not. |
| `Reconcile.AcquireForgets` | src/modules/iasql_functions/iasql.ts:1557-1582 | A read starts from a flushed memo: it depends on nothing that the flush of its side forgets. |
| `Convergence.CarryEffect` | src/modules/iasql_functions/iasql.ts:1748-1758 | One round of operations only gains agreement, exactly at the ids whose operations resolved. |
| `Convergence.AcyclicReachable` | src/modules/iasql_functions/iasql.ts:1753-1753 | Acyclic prerequisites put every open id within reach. |
| `Convergence.Converges` | src/modules/iasql_functions/iasql.ts:1552-1763 | With obliging mappers and reachable prerequisites apply and sync return within three passes, agreeing on every kept id and wherever they agreed before. |
| `Convergence.ConvergesToTruth` | src/modules/iasql_functions/iasql.ts:1816-1999 | If nothing touches the side that holds the truth, the other ends with exactly its kept ids and comparator-equal entities, in both directions. |
| `Convergence.LeftoversAreOpen` | src/modules/iasql_functions/iasql.ts:1754-1757 | What a failed round leaves is exactly the ids still in disagreement, one operation each, all blocked. |
| `Convergence.CarryAttains` | src/modules/iasql_functions/iasql.ts:1748-1758 | With exact mappers one round brings into agreement exactly what is attainable, and fails if and only if that is not everything. |
| `Convergence.BlockedRound` | src/modules/iasql_functions/iasql.ts:1752-1758 | A round in which every operation is blocked resolves none and leaves all of them. |
| `Convergence.StuckThrows` | src/modules/iasql_functions/iasql.ts:1752-1758 | If something is out of reach the second pass throws, with exactly the attainable ids in agreement. |
| `Convergence.ReturnsIffReachable` | src/modules/iasql_functions/iasql.ts:1552-1763 | With exact mappers every run ends within three passes, and returns if and only if every open id is reachable. |
| `Commit.Run` | src/modules/iasql_functions/iasql.ts:680-733 | Apply the changed modules; if that throws apply all; if that throws too revert; sync in any case. A commit that needed its revert fails even if revert and sync succeed; otherwise it fails exactly when the sync does. A preview whose first apply succeeds ends with its plan, any other commit with the world and, if it does not fail, the plan of its sync; a failing one carries the errors of the second apply and of the sync. |
| `Commit.Revert` | src/modules/iasql_functions/iasql.ts:757-782 | The inverse statements and then an apply that is never a preview; it fails if either does, and otherwise ends in a world just read on both sides in which there is nothing to do. |
| `Commit.RevertSettles` | src/modules/iasql_functions/iasql.ts:709-725 | A commit that reverts fails, but if the revert succeeds its sync starts from a world in which the sides agree after the undo, and if the sync succeeds too they agree in the end. |
| `Commit.PreviewReturnsPlan` | src/modules/iasql_functions/iasql.ts:681-695 | A preview of changes that can be read ends with the plan of its first apply: exactly the records of the operations due and kept in the world it has seen. |
| `Commit.PreviewOfNothingReturnsSync` | src/modules/iasql_functions/iasql.ts:718-733 | A preview without changes returns those of its sync. |
| `Commit.PlanOfCommit` | src/modules/iasql_functions/iasql.ts:674-733 | For any mappers: the rows that a commit returns are those that some pass of the phases that ran has shown, none without mappers; all phases share one plan. |
| `Commit.ReturnsInAgreement` | src/modules/iasql_functions/iasql.ts:680-733 | Whatever failed on the way, a commit returns normally (outside a preview) only from a world just read by the sync in which the sides agree on every kept id, and after a last apply that ended the same way. |
| `Commit.CommitTouchesItsWindow` | src/modules/iasql_functions/iasql.ts:638-733 | The first apply of a commit changes nothing at an id that is not named by a user change before its START_COMMIT with no START_COMMIT between, whatever fails; and if that apply suffices, the whole commit changes nothing there, for observations that the sync leaves alone. |
| `Commit.PreviewRevertsIff` | src/modules/iasql_functions/iasql.ts:681-718 | The exact condition, in terms of the world a preview starts from: it reverts if and only if some module has changes, the changed modules cannot be read on both sides, and neither can all modules after that. |
| `Commit.PreviewReadsOrReverts` | src/modules/iasql_functions/iasql.ts:681-721 | A preview for which one of those reads succeeds keeps whatever reads keep; any other preview of changes reverts and fails. |
| `Commit.OfflinePreviewWrites` | src/modules/iasql_functions/iasql.ts:709-717 | A preview that writes: both sides are out of reach and its undo changes the world. |
| `Install.Database.Resolve` | src/modules/iasql_functions/iasql.ts:132-158 | It succeeds if and only if every name with '@' is the key of a registered module and every other name is, followed by '@' and the version of the engine; the i-th distinct name gives the module with exactly that key. |
| `Registries.FindIsFirst` | src/modules/iasql_functions/iasql.ts:139-140 | Whatever is registered, a lookup finds the first module with the key. |
| `Registries.PlainIsVersioned` | src/modules/iasql_functions/iasql.ts:138-138 | A plain name and the same name with the version of the engine are one request. |
| `Registries.GivenTwiceIff` | src/modules/iasql_functions/iasql.ts:133-138 | Although duplicates are removed, a module is requested twice, exactly if it is named both with and without the version of the engine. |
| `Registries.InstallOutcomes` | src/modules/iasql_functions/iasql.ts:142-349 | For each way in which an install can end, exactly when it does. |
| `Registries.UninstallOutcomes` | src/modules/iasql_functions/iasql.ts:357-456 | The same for an uninstall. |

| `Install.Database.Prune` | src/modules/iasql_functions/iasql.ts:165-170 | Exactly the modules that are installed (or, for uninstall, are not) drop out. |
| `Install.Database.AttachDependencies` | src/modules/iasql_functions/iasql.ts:171-198 | For any installed set: the closure loop ends with the least set that holds what is wanted and, with every module, what it depends on beyond what is installed and the base modules; each attached once. |
| `Install.Database.Install` | src/modules/iasql_functions/iasql.ts:112-349 | For any installed set for which the source returns: which way the call ends, exactly; what it leaves: all of the least complete set with its tables, in an order that respects dependencies; or, when script n of that order fails, the rows of the modules before it and no tables; or the old database; a healthy database stays healthy in every case. |
| `Install.Database.Add` | src/modules/iasql_functions/iasql.ts:243-288 | All modules with their tables, or, when the n-th script is the first to fail, the rows of the first n modules and the old tables; a script fails exactly when it fails by itself or creates a table that is there. |
| `Install.Database.Uninstall` | src/modules/iasql_functions/iasql.ts:351-459 | For any installed set for which the source returns: which way the call ends, exactly; nothing that stays may depend on what goes; what it leaves: the old database without the modules and their tables; or, when the removal stops at module n of the order, without the rows of those after it and with all tables; or the old database; unless it fails with an installed name given twice, a healthy database stays healthy. |
| `Install.Database.Remove` | src/modules/iasql_functions/iasql.ts:422-456 | All modules and tables go, or the removal stops, from the end, at the first module whose script fails by itself, whose tables are not there, whose script drops a table that the bookkeeping waits for, or that has no row any more; then the rows of the modules after it are gone and the tables are back. |
| `Install.Database.SortForCommit` | src/modules/iasql_functions/iasql.ts:650-669 | Both sorts of a commit give an order of their modules that respects dependencies; in a healthy database they give their input, and no module is indirectly affected. |
| `Registries.SoundSortable` | src/modules/iasql_functions/iasql.ts:242-242 | In a closed acyclic registry modules whose dependencies exist or are among them can be sorted. |
| `Registries.InstallSortReturnsIff` | src/modules/iasql_functions/iasql.ts:172-242 | The sort of an install returns if and only if the base modules that the least complete set depends on are installed or requested. |
| `Registries.UninstallSortReturnsIff` | src/modules/iasql_functions/iasql.ts:390-417 | The sort of an uninstall returns if and only if what the modules depend on is installed. |
| `Registries.CommitSortReturnsIff` | src/modules/iasql_functions/iasql.ts:652-669 | For any installed set: the sort of all installed modules in a commit returns if and only if all their dependencies are installed. |
| `Registries.HealthySortsKeepOrder` | src/modules/iasql_functions/iasql.ts:1498-1524 | In a healthy database getModulesWithChanges adds no module, and both sorts of a commit return. |
| `Registries.ModulesWithChangesMean` | src/modules/iasql_functions/iasql.ts:1498-1524 | For any installed set: the modules with changes are the installed owners of a changed table and the registered modules that such an owner depends on and that are missing, base modules excepted. |
| `Registries.AddEnds` | src/modules/iasql_functions/iasql.ts:165-288 | Whatever the order, the scripts all succeed if and only if none fails on its own, no two modules share a table and no module with tables is listed twice. |
| `Registries.RemoveEnds` | src/modules/iasql_functions/iasql.ts:416-456 | Whatever the order, all removals succeed if and only if no script fails on its own, no installed name is given twice, the tables are there, no two modules share one and none is a bookkeeping table. |
| `Registries.DeadlockIff` | src/modules/iasql_functions/iasql.ts:424-450 | A removal that stops never ends if and only if the module that it stops at brings a bookkeeping table and its script succeeds. |
| `Registries.StepKeepsHealth` | src/modules/iasql_functions/iasql.ts:112-459 | One call, successful or failing at any script, keeps the installed set closed under dependencies (an uninstall that fails with a module given twice excepted). |
| `InstallRuns.HistoryKeepsHealth` | src/modules/iasql_functions/iasql.ts:112-459 | So does every history of such calls; so in every database that it reaches all installs and uninstalls return, and so do both sorts of every commit. |
| `InstallRuns.InstallAllOrNothingIff` | src/modules/iasql_functions/iasql.ts:245-285 | The exact condition: a failing install leaves the database as it was if and only if the first script of its order is the one that fails. |
| `InstallRuns.UninstallAllOrNothingIff` | src/modules/iasql_functions/iasql.ts:422-453 | The exact condition: a failing uninstall does if and only if the first removal, that of the last module of the order, is the one that fails. |
| `InstallRuns.PartialRemovalHealthyIff` | src/modules/iasql_functions/iasql.ts:424-450 | After a removal that stops half way the database is healthy if and only if no module that stays needs one that went. |
| `InstallRuns.FailedInstallStrands` | src/services/typeorm.ts:102-114 | A module with tables whose row a failed install has left: any later install of it is done without doing anything, and no uninstall of it is ever done. |
| `InstallRuns.FailedUninstallStrands` | src/services/typeorm.ts:116-119 | A module with tables whose row a failed uninstall has removed: any later uninstall of it is done without doing anything, and every install that needs it collides with its tables. |
| `InstallRuns.GivenTwiceStrands` | src/modules/iasql_functions/iasql.ts:355-456 | Every uninstall of one removable module by several names fails, and leaves exactly that. |
| `InstallRuns.GivenTwiceBreaks` | src/modules/iasql_functions/iasql.ts:355-456 | Given twice around a module that depends on it and fails, a module goes and the other stays; neither an uninstall of the other nor a commit returns after that. |
| `InstallRuns.UninstallUndoesInstall` | src/modules/iasql_functions/iasql.ts:351-459 | Uninstalling exactly what an install added, each once, is done unless a removal script fails on its own, and restores modules and tables. |
| `InstallRuns.BaseNeverUninstalled` | src/modules/iasql_platform/migration/1680279881616-iasql_platform.ts:49-70 | No uninstall that names an installed base module on which others depend is ever done. |
| `InstallRuns.LostBaseHangs` | src/modules/iasql_functions/iasql.ts:180-183 | Base modules are never attached: once the row of one is lost, an install whose least complete set depends on it and that does not ask for it never returns, unless it collides with tables first. |
| `InstallRuns.LostRowHangs` | src/modules/iasql_functions/iasql.ts:180-242 | Such a database: the row of iasql_platform was deleted by hand, and the next install never returns. |
| `InstallRuns.SeedIsHealthy` | src/services/db-manager.ts:16-29 | A new database is healthy. |
| `AuditLog.Log.InsertLog` | src/modules/iasql_functions/iasql.ts:1442-1458 | Appends one row written by the engine. |
| `AuditLog.Log.GetPreviousStartCommit` | src/modules/iasql_functions/iasql.ts:1460-1472 | The latest START_COMMIT before a timestamp. |
| `AuditLog.Log.AssociateTransaction` | src/modules/iasql_functions/iasql.ts:2304-2313 | Relabels exactly the claimed rows in place. |
| `AuditLog.Log.BeginCommit` | src/modules/iasql_functions/iasql.ts:638-649 | Opening of commit, preview and rollback: mark, find the previous start, claim the window. |
| `AuditLog.WindowMeans` | src/modules/iasql_functions/iasql.ts:1474-1496 | A row is in a window if and only if a user wrote it, it is no commit marker of the four kinds, it is older than the window's marker, and no START_COMMIT lies between. |
| `AuditLog.BegunLabels` | src/modules/iasql_functions/iasql.ts:638-649 | What a beginning commit or preview writes: its marker, and its id on exactly the user changes with no START_COMMIT after them. |
| `AuditLog.ClaimedOnce` | src/modules/iasql_functions/iasql.ts:1460-1496 | Every user change before the last START_COMMIT lies in the window of exactly one START_COMMIT. |
| `AuditLog.PreviewWindowContained` | src/modules/iasql_functions/iasql.ts:638-649 | The window of a preview is contained in that of the next START_COMMIT. |
| `AuditLog.StepKeepsTags` | src/modules/iasql_functions/iasql.ts:2304-2339 | Appends, new commits and previews, and the relabelling of engine rows keep every claimed change labelled by its START_COMMIT. |
| `AuditLog.RunTags` | src/modules/iasql_functions/iasql.ts:1371-1377 | Over every run, claimed changes carry the transaction id of the START_COMMIT that claims them. |
| `AuditLog.ChangeCarriesItsCommit` | src/modules/iasql_functions/iasql.ts:638-649 | Every user change before the last START_COMMIT ends up with the transaction id of the one START_COMMIT that claims it, whatever previews labelled it before. |
| `Transactions.Connection.MaybeOpenTransaction` | src/modules/iasql_functions/iasql.ts:2233-2249 | Opens at the first of at most 120 attempts that finds the log free, and writes nothing otherwise. |
| `Transactions.Connection.CloseTransaction` | src/modules/iasql_functions/iasql.ts:2251-2257 | Gives the engine's unlabelled changes since the last OPEN the transaction's id, then appends one CLOSE with that id. |
| `Transactions.ClosedMeans` | src/modules/iasql_functions/iasql.ts:2251-2257 | After a close no transaction is open, and markers alternate exactly if they did and one was open. |
| `Transactions.ClosedMarks` | src/modules/iasql_functions/iasql.ts:2251-2257 | The CLOSE row of a close carries the id of the latest OPEN, or a placeholder without one. |
| `Transactions.ClosedLabels` | src/modules/iasql_functions/iasql.ts:2315-2339 | What a close relabels: exactly the engine's own inserts, updates and deletes after the last OPEN that have no transaction id get the id of that OPEN. |
| `Transactions.ClosedIsTwoSteps` | src/modules/iasql_functions/iasql.ts:2315-2339 | A close is a relabelling of engine rows and an append, so the results on commit windows hold across it. |
| `Transactions.OwnCommitsUnseen` | src/modules/iasql_functions/iasql.ts:1423-1449 | While all commit markers are the engine's own, isCommitRunning is false. |
| `Transactions.CommitRunningMeans` | src/modules/iasql_functions/iasql.ts:1423-1440 | A commit is seen to be running if and only if some user but the engine's wrote a commit marker and the latest such marker starts a commit or preview. |
| `Transactions.Connection.RpcCall` | src/router/db.ts:228-282 | For each pre and post check, exactly what the call writes and whether it succeeds; a call refused the lock writes nothing; the OPEN and CLOSE rows of a call carry its id and times; an unlocking call leaves no open transaction. |
| `Transactions.OpenMeans` | src/modules/iasql_functions/iasql.ts:2259-2268 | A transaction is open if and only if some marker opens one and no later marker follows. |
| `Transactions.GuardedThroughout` | src/router/db.ts:228-264 | In every interleaving of disciplined calls at most one holds the lock, and while one does the transaction is open. |
| `Transactions.HoldersWait` | src/router/db.ts:237-239 | In every interleaving only calls that wait for the lock ever hold it. |
| `Transactions.AttemptsSpent` | src/modules/iasql_functions/iasql.ts:2233-2249 | In every interleaving a waiting call gives up only after looking in vain 120 times, and gets in only before that. |
| `Transactions.AttemptsMove` | src/modules/iasql_functions/iasql.ts:2233-2249 | Every attempt to enter uses one up. |
| `Transactions.EnteredWhileFree` | src/modules/iasql_functions/iasql.ts:2238-2243 | In every interleaving a waiting call has entered while no transaction was open and no commit was seen to be running. |
| `Transactions.EnteredWhileOpen` | src/router/db.ts:231-236 | In every interleaving a call that fails unless the lock is held has entered while a transaction was open. |
| `Transactions.BreakingRun` | src/router/db.ts:262-264 | Two waiting calls and one that unlocks without having waited have an interleaving in which two hold the lock. |
| `Transactions.ExclusiveIffNotBreakable` | src/router/db.ts:228-264 | The exact condition: a set of calls always excludes if and only if it has no such three. |
| `Transactions.LockIsExact` | src/modules/iasql_functions/iasql.ts:2233-2268 | With calls that wait and always unlock: one holder at most, markers alternate, and isOpenTransaction holds exactly while some call holds the lock. |
| `Undo.Database.RecreateQueries` | src/modules/iasql_functions/iasql.ts:805-913 | One statement per logged change, in the order given, from its non-null and non-generated columns. |
| `Undo.Database.ApplyQueries` | src/modules/iasql_functions/iasql.ts:1330-1344 | The statements take effect in order; a failing one is skipped. |
| `Undo.Database.Revert` | src/modules/iasql_functions/iasql.ts:757-774 | The inverse statements of the given changes, in the order given, take effect on the tables. |
| `Undo.FormattedMeans` | src/modules/iasql_functions/iasql.ts:1125-1217 | What a recreated statement is, in both directions: a WHERE clause holds the non-null columns of the state to be changed that are neither generated nor resolved, a VALUES or SET list the non-generated ones of the other state. |
| `Undo.UndoInsert` | src/modules/iasql_functions/iasql.ts:1155-1181 | Undoing an insert restores the table if and only if its WHERE clause has columns and matches one row. |
| `Undo.UndoDelete` | src/modules/iasql_functions/iasql.ts:1141-1154 | Undoing a delete restores the table if and only if there is a column to insert and no null column has a default. |
| `Undo.UndoUpdate` | src/modules/iasql_functions/iasql.ts:1183-1217 | Undoing an update restores the table if and only if no null was filled and every other matching row has the old values already (or nothing visible had changed, when the statement has no columns). |
| `Undo.FilledStays` | src/modules/iasql_functions/iasql.ts:867-896 | In any table of any schema the undo of an update leaves the bag of values and nulls of every column that the old row did not have as it is, so a filled value stays. |
| `Undo.IdentifiedIsUndoable` | src/modules/iasql_functions/iasql.ts:1183-1217 | An update whose WHERE clause matches one row and that filled no null can be undone. |
| `Undo.UndoStep` | src/modules/iasql_functions/iasql.ts:1330-1344 | One undo works on any tables that equal those after the change up to generated columns, and touches one table. |
| `Undo.UndoRestores` | src/modules/iasql_functions/iasql.ts:757-799 | For every logged run whose changes can each be undone where they stand, replaying the inverses newest first restores all tables up to generated columns. |
| `Undo.ReplayIff` | src/modules/iasql_functions/iasql.ts:805-913 | The exact condition for the forward statements: replaying a change on the table before it gives the table after it if and only if the inverse change could be undone. |
| `Undo.ReplayRepeats` | src/modules/iasql_functions/rpcs/iasql_get_sql_since.ts:42-88 | For every logged run whose changes can each be replayed where they stand, the forward statements, oldest first, lead from the starting tables to the final ones up to generated columns. |
| `CrudCache.Crud.Memo` | src/modules/interfaces.ts:79-108 | On an array, with any aliasing: the slots, the memo and every object's fields are those of `TakeAll`. |
| `Memos.CanonicalStays` | src/modules/interfaces.ts:89-101 | Memoized objects keep their id and identity, whatever is memoized after them. |
| `Memos.MemoMeans` | src/modules/interfaces.ts:79-108 | For inputs that alias one another and the memo in any way: every slot holds the memo entry of its input's id, equal ids share one reference, memoized objects stay, every entry's fields are its own overwritten by the inputs with its id in order, other objects are untouched and none changes its id. |
| `CrudCache.Crud.MemoOne` | src/modules/interfaces.ts:89-107 | The same for a single entity. |
| `CrudCache.Crud.Unmemo` | src/modules/interfaces.ts:110-125 | Drops one id and leaves a valid memo even if its entry was only partly filled. |
| `CrudCache.Crud.UnmemoAll` | src/modules/interfaces.ts:110-125 | The same for a list. |
| `CrudCache.Crud.Create` | src/modules/interfaces.ts:127-140 | The id is reserved first; success memoizes what the store has under the first object of the id, failure drops the id. |
| `CrudCache.Crud.CreateAll` | src/modules/interfaces.ts:127-140 | The same for a list with any aliases in it and with the memo: memoized ids stay on their objects and the returned slots hold the entries of their ids. |
| `CrudCache.Crud.Read` | src/modules/interfaces.ts:142-187 | A hit gives the memoized object without readFn; a miss calls it once; the result has the fields of the store; failures leave the memo as it was. |
| `CrudCache.Crud.ReadAll` | src/modules/interfaces.ts:188-204 | A read without an id calls readFn once and memoizes its whole list into the existing objects: afterwards exactly the ids of the store are memoized, and no object is replaced. |
| `CrudCache.Crud.Update` | src/modules/interfaces.ts:206-215 | The memoized object keeps its identity and gets what the store has; failure changes nothing. |
| `CrudCache.Crud.UpdateAll` | src/modules/interfaces.ts:206-215 | The same for a list, written in order. |
| `CrudCache.Crud.Delete` | src/modules/interfaces.ts:217-235 | Success drops the id from memo and store, failure changes nothing. |
| `CrudCache.Crud.DeleteAll` | src/modules/interfaces.ts:217-235 | The same for a list. |
| `CrudCache.Crud.Perform` | src/modules/interfaces.ts:127-235 | For every call, on one entity, a list or the whole table: what the store has and which ids are memoized afterwards; the memo stays in agreement with the store, and every id that the call does not evict stays on its object. |
| `CrudCache.Crud.RunKeeps` | src/modules/interfaces.ts:79-235 | Over any run of calls an id that no delete, flush or failed create hits stays on its object; reading it gives that object, with the fields of the store and without readFn. |
| `IdCodec.Mapper.FillFields` | src/modules/interfaces.ts:343-352 | The loop of idFields pairs columns with the parts of the id. |
| `IdCodec.JoinSplit` | src/modules/interfaces.ts:309-345 | Joining what was split gives the id back, for every string. |
| `IdCodec.SplitJoin` | src/modules/interfaces.ts:309-345 | Splitting what was joined gives the parts back when none has a bar. |
| `IdCodec.FieldsRoundTrip` | src/modules/interfaces.ts:297-352 | `idFields(generateId(f)) == f` for accepted fields if and only if no value has a bar and, when they join to nothing, there is no column or just the primary one. |
| `IdCodec.GenerateIdInjective` | src/modules/interfaces.ts:297-311 | Different fields without bars have different ids. |
| `IdCodec.AcceptsIff` | src/modules/interfaces.ts:297-327 | generateId accepts exactly the cloud columns, or exactly the primary one when there are none. |
| `IdCodec.IdRoundTrip` | src/modules/interfaces.ts:297-352 | `generateId(idFields(id)) == id` for every non-empty id with one part per column. |
| `IdCodec.EntityIdIsGenerated` | src/modules/interfaces.ts:329-340 | The id of an entity whose cloud columns are set is the one generated from these columns. |
| `IdCodec.UncreatedIsPrimary` | src/modules/interfaces.ts:329-340 | An entity with any cloud column missing or empty, and any entity of a mapper without cloud columns, has exactly its primary value as its id. |
| `IdCodec.UncreatedApart` | src/modules/interfaces.ts:332-332 | Two entities that were not created never share an id when their primary values differ. |
| `IdCodec.CreatedApart` | src/modules/interfaces.ts:333-335 | Created entities without bars share an id only when their cloud columns are equal. |
| `IdCodec.CreatedNeverUncreated` | src/modules/interfaces.ts:329-337 | With two cloud columns or more a created entity never shares its id with one that was not created, whose primary value has no bar. |
| `IdCodec.PrimaryFollowsLastBar` | src/modules/interfaces.ts:345-350 | Without cloud columns the field of an id is what follows its last bar. |
| `IdCodec.PrimaryRoundTrip` | src/modules/interfaces.ts:312-352 | Without cloud columns fields come back if and only if the primary value has no bar. |
| `IamPolicy.NormalizeCondition` | src/services/canonical-iam-policy.ts:70-80 | The nested loops fill the object that `NormalCondition` describes. |
| `IamPolicy.StatementObject.Normalize` | src/services/canonical-iam-policy.ts:82-95 | Every present element is replaced by its canonical form in place. |
| `IamPolicy.NormalizeStatements` | src/services/canonical-iam-policy.ts:97-103 | The result consists of new objects; the argument's are untouched. |
| `IamPolicy.ScalarsAreTexts` | src/services/canonical-iam-policy.ts:75-76 | In a condition a truth value or a number means its text, and one value the list of it. |
| `IamPolicy.NormalKeysMean` | src/services/canonical-iam-policy.ts:74-77 | Canonical keys have no capitals: of keys that differ only in case the last survives, with its distinct values. |
| `IamPolicy.ActionHasNoCapitals` | src/services/canonical-iam-policy.ts:49-52 | No capital letter is left in a canonical action. |
| `IamPolicy.NormalKeysWeaker` | src/services/canonical-iam-policy.ts:74-77 | The canonical form of an operator never asks for more than the operator did. |
| `IamPolicy.KeysPreservedIffNoClash` | src/services/canonical-iam-policy.ts:74-77 | The exact condition: an operator keeps its meaning for every request if and only if keys that differ only in case have equal value sets. |
| `IamPolicy.VerdictPreservedIffNoClash` | src/services/canonical-iam-policy.ts:70-103 | The exact condition for a policy of one statement: for requests that meet its other elements the verdict is kept whatever their conditions if and only if no operator has such a clash. |
| `IamPolicy.MeaningPreserved` | src/services/canonical-iam-policy.ts:97-103 | For every request the verdict of a policy without such clashes is that of its canonical form. |
| `IamPolicy.NormalTwice` | src/services/canonical-iam-policy.ts:97-103 | normalizePolicy is idempotent. |
| `IamPolicy.SameIsEquivalence` | src/services/aws-diff.ts:49-55 | policiesAreSame is an equivalence relation. |
| `IamPolicy.SameIffAlike` | src/services/aws-diff.ts:49-55 | Exactly which policies it identifies: statement by statement in order; actions as bags up to the case of the 26 letters and resources as bags; principals as lists with '*' for AWS '*'; conditions as maps from keys, up to case, to lists of distinct texts. |
| `IamPolicy.SamePoliciesMeanTheSame` | src/services/aws-diff.ts:48-55 | Identified policies give the same verdict on every request. |
| `IamPolicy.ReorderedStatementsDiffer` | src/services/aws-diff.ts:48-55 | Two statements of different effect in either order mean the same but are told apart. |
| `Strings.SortEqualIffSameBag` | src/services/canonical-iam-policy.ts:51-67 | Sorted lists are equal if and only if the lists were equal as bags. |
| `Strings.LeqIff` | src/services/canonical-iam-policy.ts:51-67 | The order that sorting uses: a text comes before what it begins, and otherwise the first difference decides by character code. |
| `Strings.SortSorts` | src/services/canonical-iam-policy.ts:51-67 | Sorting puts the same bag of texts into that order. |
| `Strings.LowerIff` | src/services/canonical-iam-policy.ts:51-77 | Two texts have one lower-case form if and only if they have one length and at each place the same character or the two cases of one letter; that form has no capitals, and a text without capitals is its own. |

## Left out

- The world `W`: AWS and SSH mappers, SQL, TypeORM, clocks and network calls are functions on it; nothing is
  said about them beyond the assumptions named above.
- `changesToCommit` and the changes made after a commit began enter as one filter on ids; how the entities in
  these lists are rebuilt from log rows is left out (`touched` in `CommitTouchesItsWindow` stands for it), as are
  errors while they are read.
- The plan is one list of records rather than four objects of lists; its final layout is left out.
- `context.orm`, dropped connections, telemetry, logging and record counts for billing.
- Commit.Run: starts after the modules and changes have been looked up; error messages are not merged; replaying
  the inverse statements is one step.
- Convergence.ReturnsIffReachable: assumes exact mappers; for merely obliging ones `Converges` gives the one
  direction, and for arbitrary ones the exit condition, the frame and the pass bounds hold.
- Install.Database.Install: migrations, the commit before the transaction and the reads after it are given as
  flags and sets of failing modules; a failing read leaves the modules installed, as in the source. The `all`
  form, version checks and name suggestions are left out. The registry is taken to be closed and acyclic. The
  precondition is that the source returns; a call that does not is described by the two lemmas on its sorts.
- Install.Database.Add: audit triggers and the rows of `iasql_tables` are left out; these rows follow those of
  `iasql_module`. A trigger that cannot be created after its module's row was saved is not told apart from the
  failure of the next script.
- Install.Database.Remove: a removal script drops exactly the tables of its module, and fails when one is
  missing. `Deadlocked` is a call that never ends; the state is what others see of the database meanwhile.
- Install.Database.Uninstall: says nothing on the health of a database in which it fails with an installed name
  given twice, because that can be lost; `PartialRemovalHealthyIff` says when.
- `sortedModuleNames` is a set of names; property names that every JavaScript object has are not told apart.
- AuditLog.ClaimedOnce: timestamps are taken to increase strictly from row to row.
- Transactions.LockIsExact: checking and opening is taken as one step, as if the two queries and the insert
  were atomic; bodies of calls write no markers.
- Transactions.Connection.RpcCall: the default branches, which call `iasql_begin` and `iasql_commit` through SQL,
  are not part of this model.
- Undo.UndoRestores: tables are bags of rows of non-null columns; quoting, sub-queries, foreign keys and
  statement errors other than an empty list of columns are left out. Triggers that log the undo itself and the
  `apply` after it are left out. Whether a column is generated or resolved is a property of the column; the
  source looks its metadata up only for truthy values (src/modules/iasql_functions/iasql.ts:966-1068), so that 0,
  false and '' are never dropped from a clause.
- Memos.MemoMeans: the inputs have some property set, and overwriting an entity by one with its id keeps the id;
  `Memo` itself and `CanonicalStays` need neither.
- CrudCache.Crud.Read: nested and circular reads inside readFn and several results for one id are left out.
- CrudCache.Crud.CreateAll: the functions of the mapper return what they wrote as new objects, with all
  properties set and an unchanged id; so do those of update and of reads.
- CrudCache.Crud.Create: a createFn that returns nothing is left out.
- CrudCache.Crud.Update: an updateFn that returns nothing is left out.
- CrudCache.Crud.UpdateAll: the same.
- CrudCache.Crud.Perform: calls whose mapper function returns nothing are left out.
- CrudCache.Crud.RunKeeps: runs of such calls are left out.
- IamPolicy.MeaningPreserved: lower case is ASCII and strings sort by character code; operators of a condition
  are distinct keys; a principal that is a string is '*'. Patterns and operators mean what a request says they
  match, actions and keys in any case. The deep clone is a copy of values.
- `objectsAreSame`, `connect`, `disconnect`, `upgrade`, the build scripts, the dashboard, entity classes,
  migrations: declarations, plumbing or code whose natural claims are false.
