/** What `install` and `uninstall` of src/modules/iasql_functions/iasql.ts leave when they fail half way, and what
    histories of them keep. */
module InstallRuns {
  import opened Bags
  import opened Fixpoint
  import opened ModSort
  import opened Registries

  // All or nothing ---------------------------------------------------------------------------------------

  /** A failing install leaves the database as it was if and only if the first script is the one that fails. */
  lemma InstallAllOrNothingIff(s: State, order: seq<Module>, n: nat)
    requires n < |order| && Keys(order) !! s.installed
    ensures AfterFailure(s, order, n) == s <==> n == 0
  {
    if n > 0 {
      assert order[0] in order && order[0] in order[..n];
      assert order[0].Key() in Keys(order) && order[0].Key() in AfterFailure(s, order, n).installed;
    }
  }

  /** A failing uninstall leaves it as it was if and only if the first removal, that of the last module of the
      order, is the one that fails. */
  lemma UninstallAllOrNothingIff(s: State, order: seq<Module>, n: nat)
    requires n < |order| && Keys(order) <= s.installed
    ensures AfterFailedRemoval(s, order, n) == s <==> n == |order| - 1
  {
    var last := order[|order| - 1];
    if n < |order| - 1 {
      LaterModule(order, n, |order| - 1);
      assert last in order && last.Key() in s.installed;
    }
  }

  /** The database is still healthy after a removal that fails half way if and only if no module that stays
      needs one that went. */
  lemma PartialRemovalHealthyIff(reg: Registry, rank: string -> nat, s: State, order: seq<Module>, n: nat)
    requires reg.Sound(rank) && reg.Guarded() && Healthy(reg, s.installed)
    requires (forall m :: m in order ==> m in reg.all) && n < |order| && TablesIn(order[n + 1..]) !! BOOKKEEPING
    ensures Healthy(reg, AfterFailedRemoval(s, order, n).installed) <==>
            !Needed(reg, s.installed, Keys(order[n + 1..]))
  {
    var gone := Keys(order[n + 1..]);
    LaterTables(reg, rank, order, n);
    GuardedStay(reg, s.installed, gone);
    if Needed(reg, s.installed, gone) {
      var k, d :| k in s.installed && k !in gone && d in reg.Deps(k) && d in gone && d in s.installed;
      assert k in s.installed - gone && d !in s.installed - gone;
    } else {
      UninstallIsHealthy(reg, s.installed, gone);
    }
  }

  // What cannot be repaired --------------------------------------------------------------------------------

  /** A module that a failed install has listed without its tables: installing it does nothing and says that it
      is done, and no uninstall of it succeeds. */
  lemma FailedInstallStrands(reg: Registry, rank: string -> nat, s: State, order: seq<Module>, n: nat, k: string,
                             names: seq<string>)
    requires reg.Sound(rank) && (forall m :: m in order ==> m in reg.all) && TablesIn(order) !! s.tables
    requires n <= |order| && k in Keys(order[..n]) && reg.Tables(k) != {} && Requested(reg, names) == {k}
    ensures var s' := AfterFailure(s, order, n);
            && (forall got, commitOk, failing, readOk :: Minimal(reg, s'.installed, {k}, got) ==>
                  got == {} && InstallEnds(reg, s', names, got, commitOk, failing, readOk) == Done)
            && (forall failing, r :: UninstallEnds(reg, s', names, failing, r) ==> r != Done)
  {
    var s' := AfterFailure(s, order, n);
    var i := KeyAt(order[..n], k);
    assert order[i] in order && order[i] in reg.all && reg.Find(k) == [order[i]];
    assert Complete(reg, s'.installed, {k}, {}) && {k} <= Keys(reg.all);
    forall got | Minimal(reg, s'.installed, {k}, got) ensures got == {} { assert got <= {}; }
    var t :| t in reg.Tables(k);
    assert t in TablesIn(order) && t !in s'.tables;
    assert {k} * s'.installed == {k} && t in reg.TablesOf({k});
  }

  /** A module whose row a failed uninstall has removed but whose tables are back: uninstalling it does nothing
      and says that it is done, and every install that needs it collides with its tables. */
  lemma FailedUninstallStrands(reg: Registry, s: State, order: seq<Module>, n: nat, k: string)
    requires n < |order| && k in Keys(order[n + 1..]) && k in Keys(reg.all)
    requires reg.Tables(k) * s.tables != {}
    ensures var s' := AfterFailedRemoval(s, order, n);
            && (forall names, failing, r ::
                  Requested(reg, names) == {k} && UninstallEnds(reg, s', names, failing, r) ==> r == Done)
            && (forall names, got, commitOk, failing, readOk ::
                  k in got && Requested(reg, names) <= Keys(reg.all) ==>
                    InstallEnds(reg, s', names, got, commitOk, failing, readOk) == TableCollision)
            && (forall want, got :: k in want && Minimal(reg, s'.installed, want, got) ==> k in got)
  {
    var s' := AfterFailedRemoval(s, order, n);
    assert {k} * s'.installed == {};
    var t :| t in reg.Tables(k) * s.tables;
    forall got: set<string> | k in got ensures got != {} && reg.TablesOf(got) * s'.tables != {} {
      assert t in reg.TablesOf(got) * s'.tables;
    }
  }

  /** An uninstall that is given one module twice, by different names: the row goes, the tables stay. */
  lemma GivenTwiceStrands(reg: Registry, rank: string -> nat, s: State, m: Module, names: seq<string>,
                          order: seq<Module>, r: Result, n: nat, s': State)
    requires reg.Sound(rank) && m in reg.all && m.tables != {} && m.tables <= s.tables && m.tables !! BOOKKEEPING
    requires Healthy(reg, s.installed) && m.Key() in s.installed && !Needed(reg, s.installed, {m.Key()})
    requires Requested(reg, names) == {m.Key()} && Given(reg, names)[m.Key()] > 1
    requires UninstallEnds(reg, s, names, {}, r) && UninstallLeaves(reg, s, names, order, {}, r, n, s')
    ensures r == MigrationFailed && s' == State(s.installed - {m.Key()}, s.tables)
    ensures forall failing, e :: UninstallEnds(reg, s', names, failing, e) ==> e == Done
    ensures forall got, commitOk, failing, readOk :: Minimal(reg, s'.installed, {m.Key()}, got) ==>
              InstallEnds(reg, s', names, got, commitOk, failing, readOk) == TableCollision
  {
    var k := m.Key();
    assert reg.Find(k) == [m] && {k} * s.installed == {k} && RepeatsInstalled(reg, names, s.installed);
    assert k in Keys(reg.all);
    HealthyReturns(reg, s, {k}, true);
    forall i | 0 <= i < |order| ensures order[i] == m {
      assert order[i] in order && order[i].Key() in Keys(order) && reg.Find(order[i].Key()) == [order[i]];
    }
    StopsAtSecond(s, order, m, n);
    assert Keys(order[n + 1..]) == {k} by { assert order[n + 1..][0] == m; }
    FailedUninstallStrands(reg, s, order, n, k);
  }

  lemma StopsAtSecond(s: State, order: seq<Module>, m: Module, n: nat)
    requires RemovalStopsAt(order, s, {}, n) && !DistinctKeys(order) && forall i :: 0 <= i < |order| ==> order[i] == m
    requires m.tables != {} && m.tables <= s.tables && m.tables !! BOOKKEEPING && m.Key() in s.installed
    ensures n == |order| - 2 && Removal(order, s, {}, n) == MigrationFailed
  {
    var last := |order| - 1;
    assert |order| > 1;
    assert order[last + 1..] == [];
    assert m.tables * BOOKKEEPING == {};
    assert Removal(order, s, {}, last) == Done;
    var t :| t in m.tables;
    assert order[last..] == [m] && t in TablesIn(order[last - 1 + 1..]);
    assert Removal(order, s, {}, last - 1) == MigrationFailed;
  }

  /** Given twice, around a module that depends on it and whose removal fails, a module goes while the other
      stays: nothing is healthy then, and neither an uninstall of the other nor a commit ever returns. */
  lemma GivenTwiceBreaks(reg: Registry, rank: string -> nat, s: State, a: Module, b: Module)
    requires reg.Sound(rank) && Healthy(reg, s.installed) && a in reg.all && b in reg.all && a.Key() in b.dependencies
    requires {a.Key(), b.Key()} <= s.installed && !Needed(reg, s.installed, {a.Key(), b.Key()})
    requires a.tables <= s.tables && a.tables !! BOOKKEEPING
    ensures var order, failing := [a, b, a], {b.Key()};
            var s' := AfterFailedRemoval(s, order, 1);
            && InOrder(order, s.installed - Keys(order)) && RemovalStopsAt(order, s, failing, 1)
            && PartlyUninstalled(reg, s, {a.Key(), b.Key()}, order, 1, s') && s'.installed == s.installed - {a.Key()}
            && !Healthy(reg, s'.installed) && !UninstallReturns(reg, s', {b.Key()})
            && !Returns(InstalledModules(reg, s'.installed), s'.installed)
  {
    var order, failing := [a, b, a], {b.Key()};
    var s' := AfterFailedRemoval(s, order, 1);
    assert rank(a.Key()) < rank(b.Key()) && reg.Find(a.Key()) == [a] && reg.Find(b.Key()) == [b];
    assert order[2..] == [a] && order[3..] == [] && order[..1] == [a];
    assert Keys(order) == {a.Key(), b.Key()} && Keys([a]) == {a.Key()};
    assert Keys(order) * s.installed == Keys(order);
    assert a.tables * BOOKKEEPING == {};
    OrderAround(reg, rank, s.installed, a, b);
    assert b.Key() in s'.installed && a.Key() in reg.Deps(b.Key()) && a.Key() !in s'.installed;
    assert {b.Key()} <= Keys(reg.all);
    NothingStaysOn(reg, s.installed, a.Key(), b.Key());
    CommitSortReturnsIff(reg, rank, s'.installed);
  }

  lemma OrderAround(reg: Registry, rank: string -> nat, installed: set<string>, a: Module, b: Module)
    requires reg.Sound(rank) && Healthy(reg, installed) && a in reg.all && b in reg.all
    requires {a.Key(), b.Key()} <= installed && a.Key() in b.dependencies
    ensures InOrder([a, b, a], installed - {a.Key(), b.Key()})
  {
    var order := [a, b, a];
    assert order[..1] == [a] && order[..0] == [] && order[..2] == [a, b];
    assert reg.Find(a.Key()) == [a] && reg.Find(b.Key()) == [b];
    assert a.Key() in Keys(order[..1]);
    forall i, d | 0 <= i < 3 && d in order[i].dependencies
      ensures d in installed - {a.Key(), b.Key()} || d in Keys(order[..i])
    {
      assert d in order[i].Deps() && d in installed;
    }
  }

  /** Without `a`, nothing but `b` lacks anything. */
  lemma NothingStaysOn(reg: Registry, installed: set<string>, a: string, b: string)
    requires Healthy(reg, installed) && !Needed(reg, installed, {a, b}) && {a, b} <= installed
    ensures !Unaccounted(reg, installed - {a}, {b}) && (b !in reg.Deps(b) ==> !Needed(reg, installed - {a}, {b}))
  {
    forall k, d | k in installed && k != a && k != b && d in reg.Deps(k) ensures d != a && d != b && d in installed {
      assert d in installed;
    }
  }

  // Histories -----------------------------------------------------------------------------------------

  ghost predicate History(reg: Registry, states: seq<State>) {
    |states| > 0 && forall i :: 0 <= i < |states| - 1 ==> CallStep(reg, states[i], states[i + 1])
  }

  /** Over every history of calls, successful or failing half way, the installed set stays closed under
      dependencies.  So every call finds its sort terminating, and so does every commit. */
  lemma {:induction false} HistoryKeepsHealth(reg: Registry, rank: string -> nat, states: seq<State>, i: nat)
    requires reg.Sound(rank) && reg.Guarded() && History(reg, states)
    requires Healthy(reg, states[0].installed) && i < |states|
    ensures Healthy(reg, states[i].installed)
    ensures forall names, commitOk :: InstallReturns(reg, states[i], names, commitOk)
    ensures forall names :: UninstallReturns(reg, states[i], names)
    ensures Returns(InstalledModules(reg, states[i].installed), states[i].installed)
    ensures forall changed ::
              Returns(ModulesWithChanges(reg, states[i].installed, changed), states[i].installed)
    decreases i
  {
    if i > 0 {
      HistoryKeepsHealth(reg, rank, states, i - 1);
      StepKeepsHealth(reg, rank, states[i - 1], states[i]);
    }
    forall names, commitOk
      ensures InstallReturns(reg, states[i], names, commitOk) && UninstallReturns(reg, states[i], names)
    {
      HealthyReturns(reg, states[i], names, commitOk);
    }
    forall names ensures UninstallReturns(reg, states[i], names) { HealthyReturns(reg, states[i], names, true); }
    HealthySortsKeepOrder(reg, rank, states[i].installed, {});
    forall changed ensures Returns(ModulesWithChanges(reg, states[i].installed, changed), states[i].installed) {
      HealthySortsKeepOrder(reg, rank, states[i].installed, changed);
    }
  }

  /** The modules seeded by `migrate` form a healthy database. */
  lemma SeedIsHealthy(reg: Registry)
    requires reg.BaseNames() <= Keys(reg.all)
    requires reg.Deps("iasql_platform@" + reg.version) == {}
    requires reg.Deps("iasql_functions@" + reg.version) == {"iasql_platform@" + reg.version}
    ensures Healthy(reg, reg.BaseNames())
  {
  }

  /** Uninstalling exactly what an install added is done, unless a removal script fails by itself, and restores
      the database. */
  lemma UninstallUndoesInstall(reg: Registry, s: State, want: set<string>, s': State, names: seq<string>,
                               failing: set<string>, r: Result)
    requires Healthy(reg, s.installed) && BOOKKEEPING <= s.tables && Installed(reg, s, want, s')
    requires Requested(reg, names) <= Keys(reg.all) && !RepeatsInstalled(reg, names, s'.installed)
    requires Requested(reg, names) * s'.installed == s'.installed - s.installed && Requested(reg, names) !! failing
    requires UninstallEnds(reg, s', names, failing, r)
    ensures r == Done && Uninstalled(reg, s', Requested(reg, names), s)
  {
    var gone := Requested(reg, names);
    var got :| Minimal(reg, s.installed, want, got) && got !! s.installed && got != {}
               && reg.TablesOf(got) !! s.tables && !Overlap(reg, got)
               && s' == State(s.installed + got, s.tables + reg.TablesOf(got));
    assert gone * s'.installed == got;
    forall n, d | n in s'.installed && n !in gone && d in reg.Deps(n) ensures d !in got && n in s.installed {
      assert n !in got;
    }
    assert forall d :: d in gone && d in s'.installed ==> d in gone * s'.installed;
    assert s'.installed - gone == s.installed;
    assert s.tables + reg.TablesOf(got) - reg.TablesOf(got) == s.tables;
    assert got * failing == {} && reg.TablesOf(got) * BOOKKEEPING == {};
  }

  // Without a base module ------------------------------------------------------------------------------------

  /** No uninstall takes out a base module that others depend on: its turn drops a bookkeeping table. */
  lemma BaseNeverUninstalled(reg: Registry, s: State, names: seq<string>, failing: set<string>, b: string, r: Result)
    requires reg.Guarded() && b in reg.Relied() && b in s.installed && b in Requested(reg, names)
    requires UninstallEnds(reg, s, names, failing, r)
    ensures r != Done
  {
    var t :| t in reg.Tables(b) * BOOKKEEPING;
    var gone := Requested(reg, names) * s.installed;
    assert b in gone && t in reg.TablesOf(gone) * BOOKKEEPING;
  }

  /** What lies in every complete set. */
  ghost function Least(reg: Registry, have: set<string>, want: set<string>): set<string> {
    set n | n in Keys(reg.all) && forall s :: Complete(reg, have, want, s) ==> n in s
  }

  lemma LeastIsMinimal(reg: Registry, rank: string -> nat, have: set<string>, want: set<string>)
    requires reg.Sound(rank) && want <= Keys(reg.all)
    ensures Minimal(reg, have, want, Least(reg, have, want))
  {
    var least := Least(reg, have, want);
    RegisteredComplete(reg, rank, have, want);
    forall n, d | n in least && d in reg.Deps(n) && d !in have && d !in reg.BaseNames() ensures d in least {
      assert d in Keys(reg.all);
    }
  }

  /** Base modules are never attached.  Once the row of one is lost, an install whose least complete set depends
      on it, and that does not ask for it by name, does not return from its sort, unless it collides with
      tables before. */
  lemma LostBaseHangs(reg: Registry, rank: string -> nat, s: State, want: set<string>, n: string, b: string)
    requires reg.Sound(rank) && want <= Keys(reg.all) && n in Least(reg, s.installed, want)
    requires b in reg.Deps(n) && b in reg.BaseNames() && b !in s.installed && b !in want
    ensures forall mods :: (forall m :: m in mods ==> m in reg.all) && Keys(mods) == Least(reg, s.installed, want) ==>
              !Returns(mods, s.installed)
    ensures reg.TablesOf(Least(reg, s.installed, want)) !! s.tables ==> !InstallReturns(reg, s, want, true)
  {
    var got := Least(reg, s.installed, want);
    LeastIsMinimal(reg, rank, s.installed, want);
    assert Complete(reg, s.installed, want, got - {b});
    assert b !in got && !BasePresent(reg, s.installed, got);
    assert reg.TablesOf(got) !! s.tables ==> reg.TablesOf(got) * s.tables == {};
    forall mods | (forall m :: m in mods ==> m in reg.all) && Keys(mods) == got ensures !Returns(mods, s.installed) {
      InstallSortReturnsIff(reg, rank, s.installed, want, mods);
    }
  }

  /** Such a database: the row of iasql_platform was deleted by hand, its tables are there. */
  lemma LostRowHangs()
    ensures var platform := Module("iasql_platform", "1", [],
                                   {"iasql_module", "iasql_tables", "iasql_audit_log", "iasql_dependencies"});
            var functions := Module("iasql_functions", "1", ["iasql_platform@1"], {});
            var account := Module("aws_account", "1", ["iasql_platform@1"], {"aws_credentials"});
            var reg := Registry([platform, functions, account], "1");
            var base := {"iasql_platform@1", "iasql_functions@1"};
            && reg.Guarded() && Healthy(reg, base)
            && Minimal(reg, {"iasql_functions@1"}, {"aws_account@1"}, Keys([account]))
            && !BasePresent(reg, {"iasql_functions@1"}, Keys([account])) && !Returns([account], {"iasql_functions@1"})
  {
    var platform := Module("iasql_platform", "1", [],
                           {"iasql_module", "iasql_tables", "iasql_audit_log", "iasql_dependencies"});
    var functions := Module("iasql_functions", "1", ["iasql_platform@1"], {});
    var account := Module("aws_account", "1", ["iasql_platform@1"], {"aws_credentials"});
    var reg := Registry([platform, functions, account], "1");
    ExampleKeys();
    ExampleRegistry(reg, platform, functions, account);
    assert reg.BaseNames() == {"iasql_platform@1", "iasql_functions@1"};
    assert reg.Relied() == {"iasql_platform@1"};
    assert "iasql_module" in platform.tables * BOOKKEEPING;
    assert Keys([account]) == {"aws_account@1"};
    assert "iasql_platform@1" in reg.Deps("aws_account@1");
    MissingDependencyNeverReturns([account], {"iasql_functions@1"}, account, "iasql_platform@1");
  }

  lemma ExampleKeys()
    ensures "iasql_platform" + "@" + "1" == "iasql_platform@1" == "iasql_platform@" + "1"
    ensures "iasql_functions" + "@" + "1" == "iasql_functions@1" == "iasql_functions@" + "1"
    ensures "aws_account" + "@" + "1" == "aws_account@1"
  {
  }

  lemma ExampleRegistry(reg: Registry, a: Module, b: Module, c: Module)
    requires reg.all == [a, b, c] && a.Key() != b.Key() && a.Key() != c.Key() && b.Key() != c.Key()
    ensures reg.Find(a.Key()) == [a] && reg.Find(b.Key()) == [b] && reg.Find(c.Key()) == [c]
    ensures Keys(reg.all) == {a.Key(), b.Key(), c.Key()}
  {
    assert reg.all[1..] == [b, c] && reg.all[1..][1..] == [c];
    assert forall m :: m in reg.all <==> m == a || m == b || m == c;
  }
}
