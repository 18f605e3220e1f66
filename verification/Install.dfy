/** Models `install` and `uninstall` of src/modules/iasql_functions/iasql.ts on the rows of iasql_module and the
    tables of the public schema, and the sorts that `commit` makes of the installed modules. */
module Install {
  import opened Bags
  import opened Fixpoint
  import opened ModSort
  import opened Registries
  import Strings

  class Database {
    const reg: Registry
    var state: State

    constructor (reg: Registry, state: State)
      ensures this.reg == reg && this.state == state
    {
      this.reg := reg;
      this.state := state;
    }

    /** Removes duplicates, versions the names and looks the modules up; fails on a name that is not
        registered.  A name without '@' stands for the key that has the version of the engine. */
    method Resolve(names: seq<string>) returns (ok: bool, mods: seq<Module>)
      ensures ok <==> forall n :: n in names ==>
                        exists m :: m in reg.all
                          && m.name + "@" + m.version == if '@' in n then n else n + "@" + reg.version
      ensures ok ==>
                var list := Strings.Uniq(names);
                |mods| == |list| && forall i :: 0 <= i < |list| ==>
                  mods[i].name + "@" + mods[i].version
                    == if '@' in list[i] then list[i] else list[i] + "@" + reg.version
      ensures ok <==> Requested(reg, names) <= Keys(reg.all)
      ensures ok ==> Keys(mods) == Requested(reg, names) && KeyBag(mods) == Given(reg, names)
      ensures forall m :: m in mods ==> m in reg.all
    {
      mods := [];
      var list := Strings.Uniq(names);
      Strings.UniqMeans(names);
      for i := 0 to |list|
        invariant |mods| == i && forall j :: 0 <= j < i ==> mods[j].Key() == reg.Versioned(list[j])
        invariant forall m :: m in mods ==> m in reg.all
      {
        var found := reg.Find(reg.Versioned(list[i]));
        if found == [] {
          assert list[i] in names && reg.Versioned(list[i]) in Requested(reg, names);
          return false, [];
        }
        mods := mods + [found[0]];
      }
      ResolvedKeys(reg, names, mods);
      AllFound(reg, names, mods);
      ok := true;
    }

    /** Drops the modules that are installed (`keep` false) or that are not (`keep` true). */
    method Prune(mods0: seq<Module>, keep: bool) returns (mods: seq<Module>)
      ensures Keys(mods) == (if keep then Keys(mods0) * state.installed else Keys(mods0) - state.installed)
      ensures forall m :: m in mods ==> m in mods0
      ensures PrunedBag(KeyBag(mods0), KeyBag(mods), state.installed, keep)
    {
      mods := mods0;
      var i := 0;
      while i < |mods|
        invariant 0 <= i <= |mods|
        invariant forall m :: m in mods ==> m in mods0
        invariant forall j :: 0 <= j < i ==> (mods[j].Key() in state.installed <==> keep)
        invariant PrunedBag(KeyBag(mods0), KeyBag(mods), state.installed, keep)
        decreases |mods| - i
      {
        if mods[i].Key() in state.installed <==> keep {
          i := i + 1;
        } else {
          KeyBagDrop(mods, i);
          assert forall m :: m in Drop(mods, i) ==> m in mods;
          mods := Drop(mods, i);
        }
      }
      PrunedKeys(mods0, mods, state.installed, keep);
    }

    /** Adds missing dependencies until there are none, base modules excepted. */
    method AttachDependencies(mods0: seq<Module>, ghost rank: string -> nat) returns (mods: seq<Module>)
      requires reg.Sound(rank)
      requires Keys(mods0) !! state.installed && forall m :: m in mods0 ==> m in reg.all
      ensures Minimal(reg, state.installed, Keys(mods0), Keys(mods)) && Keys(mods) !! state.installed
      ensures forall m :: m in mods ==> m in reg.all
      ensures Keys(mods0) <= Keys(mods) && KeyBag(mods) == KeyBag(mods0) + multiset(Keys(mods) - Keys(mods0))
    {
      mods := mods0;
      assert Keys(mods) - Keys(mods0) == {};
      while true
        invariant Keys(mods) !! state.installed && forall m :: m in mods ==> m in reg.all
        invariant Keys(mods0) <= Keys(mods) && KeyBag(mods) == KeyBag(mods0) + multiset(Keys(mods) - Keys(mods0))
        invariant forall s :: Complete(reg, state.installed, Keys(mods0), s) ==> Keys(mods) <= s
        decreases Keys(reg.all) - Keys(mods)
      {
        ghost var before, bag := Keys(mods), KeyBag(mods);
        var missing := set m, d | m in mods && d in m.dependencies && d !in Keys(mods)
                                  && d !in state.installed && d !in reg.BaseNames() :: d;
        if missing == {} {
          NothingMissing(reg, rank, mods, state.installed);
          break;
        }
        forall s | Complete(reg, state.installed, Keys(mods0), s) ensures missing <= s {
          MissingIsNeeded(reg, rank, mods, state.installed, Keys(mods0), s);
        }
        MissingIsRegistered(reg, rank, mods);
        mods := Attach(mods, missing);
        AttachedAll(KeyBag(mods), bag, KeyBag(mods0), Keys(mods), Keys(mods0), before, missing);
        assert before < Keys(mods) <= Keys(reg.all);
      }
    }

    method Attach(mods0: seq<Module>, missing: set<string>) returns (mods: seq<Module>)
      requires missing <= Keys(reg.all) && missing !! Keys(mods0)
      ensures Keys(mods) == Keys(mods0) + missing && KeyBag(mods) == KeyBag(mods0) + multiset(missing)
      ensures forall m :: m in mods ==> m in mods0 || m in reg.all
    {
      mods := mods0;
      var rest := missing;
      while rest != {}
        invariant rest <= missing
        invariant Keys(mods) == Keys(mods0) + (missing - rest)
        invariant KeyBag(mods) == KeyBag(mods0) + multiset(missing - rest)
        invariant forall m :: m in mods ==> m in mods0 || m in reg.all
        decreases rest
      {
        var n :| n in rest;
        var found := reg.Find(n);
        KeysAppend(mods, found[0]);
        KeyBagAppend(mods, found[0]);
        AttachedOne(KeyBag(mods), KeyBag(mods0), missing, rest, n);
        mods := mods + [found[0]];
        rest := rest - {n};
      }
    }

    /** `commitOk`, `failing` and `readOk` stand for what the calls outside this model do: the commit before the
        transaction, the modules whose scripts fail, and the read of the cloud after the transaction.  When a
        script fails it is that of `order[n]`. */
    method Install(names: seq<string>, commitOk: bool, failing: set<string>, readOk: bool, ghost rank: string -> nat)
      returns (r: Result, ghost got: set<string>, ghost order: seq<Module>, ghost n: nat)
      requires reg.Sound(rank) && InstallReturns(reg, state, Requested(reg, names), commitOk)
      modifies this
      ensures r != NoSuchModule ==> Minimal(reg, old(state.installed), Requested(reg, names), got)
      ensures r == InstallEnds(reg, old(state), names, got, commitOk, failing, readOk)
      ensures r == Done ==> Requested(reg, names) <= state.installed
      ensures InstallLeaves(reg, old(state), Requested(reg, names), got, order, failing, r, n, state)
      ensures CallStep(reg, old(state), state)
      ensures Healthy(reg, old(state.installed)) ==> Healthy(reg, state.installed)
    {
      order, got, n := [], {}, 0;
      var ok, mods := Resolve(names);
      if !ok { return NoSuchModule, {}, [], 0; }
      mods := Prune(mods, false);
      assert PrunedBag(Given(reg, names), KeyBag(mods), state.installed, false);
      ghost var pruned := mods;
      mods := AttachDependencies(mods, rank);
      got := Keys(mods);
      MinimalFromPruned(reg, state.installed, Requested(reg, names), got);
      RepeatsKept(reg, names, state.installed, pruned, mods);
      if mods == [] { return Done, got, [], 0; }
      assert mods[0].Key() in got;
      ghost var before := state;
      r, order, n := PutIn(mods, names, commitOk, failing, readOk, rank);
      LeftByInstall(reg, rank, before, Requested(reg, names), got, order, failing, r, n, state);
    }

    /** Checks for collisions, commits, sorts and installs. */
    method PutIn(mods: seq<Module>, ghost names: seq<string>, commitOk: bool, failing: set<string>, readOk: bool,
                 ghost rank: string -> nat) returns (r: Result, ghost order: seq<Module>, ghost n: nat)
      requires reg.Sound(rank) && InstallReturns(reg, state, Requested(reg, names), commitOk)
      requires mods != [] && (forall m :: m in mods ==> m in reg.all) && Requested(reg, names) <= Keys(reg.all)
      requires Minimal(reg, state.installed, Requested(reg, names), Keys(mods)) && Keys(mods) !! state.installed
      requires Keys(mods) != {}
      requires RepeatsTables(reg, KeyBag(mods)) <==> Repeats(reg, names, state.installed)
      modifies this
      ensures r == InstallEnds(reg, old(state), names, Keys(mods), commitOk, failing, readOk)
      ensures InstallLeaves(reg, old(state), Requested(reg, names), Keys(mods), order, failing, r, n, state)
    {
      order, n := [], 0;
      ghost var before := state;
      TablesAgree(reg, rank, mods);
      if exists m :: m in mods && m.tables * state.tables != {} {
        Collision(mods, state.tables);
        return TableCollision, [], 0;
      }
      NoCollision(mods, state.tables);
      if !commitOk { return CommitFailed, [], 0; }
      InstallSortReturnsIff(reg, rank, state.installed, Requested(reg, names), mods);
      var rootToLeaf := SortModules(mods, state.installed);
      order := rootToLeaf;
      AddEnds(reg, rank, mods, order, state.tables, failing);
      SameKeys(order, mods);
      r, n := Add(rootToLeaf, failing);
      if r == Done {
        InstalledState(reg, before, Requested(reg, names), Keys(mods), state);
        if !readOk { r := InitialReadFailed; }
      }
    }

    /** Runs the install scripts from root to leaf, in one transaction.  Creating a table that is there fails.
        The row of a module is saved on another connection, at once. */
    method Add(rootToLeaf: seq<Module>, failing: set<string>) returns (r: Result, ghost n: nat)
      requires InOrder(rootToLeaf, state.installed)
      modifies this
      ensures r == Done || r == MigrationFailed
      ensures r == Done <==> forall i :: 0 <= i < |rootToLeaf| ==> Runs(rootToLeaf, old(state.tables), failing, i)
      ensures r == Done ==>
                state == State(old(state.installed) + Keys(rootToLeaf), old(state.tables) + TablesIn(rootToLeaf))
      ensures r == MigrationFailed ==>
                StopsAt(rootToLeaf, old(state.tables), failing, n) && state == AfterFailure(old(state), rootToLeaf, n)
    {
      var start := state.tables;
      for i := 0 to |rootToLeaf|
        invariant state.installed == old(state.installed) + Keys(rootToLeaf[..i])
        invariant state.tables == start + TablesIn(rootToLeaf[..i])
        invariant forall j :: 0 <= j < i ==> Runs(rootToLeaf, start, failing, j)
      {
        var md := rootToLeaf[i];
        if md.Key() in failing || md.tables * state.tables != {} {
          assert !Runs(rootToLeaf, start, failing, i);
          state := State(state.installed, start);
          return MigrationFailed, i;
        }
        // Every dependency is a row of iasql_module when the module is saved.
        assert forall d :: d in md.dependencies ==> d in state.installed;
        assert rootToLeaf[..i + 1] == rootToLeaf[..i] + [md];
        KeysAppend(rootToLeaf[..i], md);
        state := State(state.installed + {md.Key()}, state.tables + md.tables);
      }
      assert rootToLeaf[..|rootToLeaf|] == rootToLeaf;
      r, n := Done, 0;
    }

    /** `failing` stands for the modules whose removal scripts fail.  When the removal stops, it does so at
        `order[n]`. */
    method Uninstall(names: seq<string>, failing: set<string>, ghost rank: string -> nat)
      returns (r: Result, ghost order: seq<Module>, ghost n: nat)
      requires reg.Sound(rank) && UninstallReturns(reg, state, Requested(reg, names))
      modifies this
      ensures UninstallEnds(reg, old(state), names, failing, r)
      ensures UninstallLeaves(reg, old(state), names, order, failing, r, n, state)
      ensures r == Done || !RepeatsInstalled(reg, names, old(state.installed)) ==> CallStep(reg, old(state), state)
      ensures r == Done || !RepeatsInstalled(reg, names, old(state.installed)) ==>
                reg.Guarded() && Healthy(reg, old(state.installed)) ==> Healthy(reg, state.installed)
    {
      order, n := [], 0;
      var ok, mods := Resolve(names);
      if !ok { return NoSuchModule, [], 0; }
      mods := Prune(mods, true);
      ghost var want, before := Requested(reg, names), state;
      if mods == [] {
        assert want * state.installed == Keys(mods) == {};
        return Done, [], 0;
      }
      assert mods[0].Key() in Keys(mods) && Keys(mods) == want * state.installed;
      RepeatsInstalledKept(reg, names, state.installed, mods);
      r, order, n := TakeOut(mods, names, failing, rank);
      LeftByUninstall(reg, rank, before, names, order, failing, r, n, state);
    }

    /** Checks that nothing that stays depends on the modules, and removes them. */
    method TakeOut(mods: seq<Module>, ghost names: seq<string>, failing: set<string>, ghost rank: string -> nat)
      returns (r: Result, ghost order: seq<Module>, ghost n: nat)
      requires reg.Sound(rank) && UninstallReturns(reg, state, Requested(reg, names))
      requires Requested(reg, names) <= Keys(reg.all) && (forall m :: m in mods ==> m in reg.all)
      requires Keys(mods) == Requested(reg, names) * state.installed != {}
      requires DistinctKeys(mods) <==> !RepeatsInstalled(reg, names, state.installed)
      modifies this
      ensures UninstallEnds(reg, old(state), names, failing, r)
      ensures UninstallLeaves(reg, old(state), names, order, failing, r, n, state)
    {
      order, n := [], 0;
      ghost var want, before := Requested(reg, names), state;
      var remaining := state.installed - Keys(mods);
      NeededMeans(reg, state.installed, want);
      if exists n :: n in remaining && (reg.Find(n) == [] || !(reg.Deps(n) <= state.installed)) {
        return UnregisteredModule, [], 0;
      }
      if exists n, d :: n in remaining && d in reg.Deps(n) && d in Keys(mods) { return StillNeeded, [], 0; }
      UninstallSortReturnsIff(reg, rank, state.installed, want, mods);
      var rootToLeaf := SortModules(mods, remaining);
      order := rootToLeaf;
      RemoveEnds(reg, rank, names, mods, order, state, failing);
      r, n := Remove(rootToLeaf, failing);
      RemovalLeaves(reg, before, names, order, failing, r, n, state);
    }

    /** Runs the removal scripts from leaf to root, in one transaction.  The row of a module is removed on another
        connection, at once. */
    method Remove(rootToLeaf: seq<Module>, failing: set<string>) returns (r: Result, ghost n: nat)
      requires Keys(rootToLeaf) <= state.installed
      modifies this
      ensures r == Done || r == MigrationFailed || r == Deadlocked
      ensures r == Done <==>
                forall i :: 0 <= i < |rootToLeaf| ==> Removal(rootToLeaf, old(state), failing, i) == Done
      ensures r == Done ==>
                state == State(old(state.installed) - Keys(rootToLeaf), old(state.tables) - TablesIn(rootToLeaf))
      ensures r != Done ==>
                && RemovalStopsAt(rootToLeaf, old(state), failing, n)
                && r == Removal(rootToLeaf, old(state), failing, n)
                && state == AfterFailedRemoval(old(state), rootToLeaf, n)
    {
      var start := state.tables;
      var i := |rootToLeaf|;
      while i > 0
        invariant 0 <= i <= |rootToLeaf|
        invariant state.installed == old(state.installed) - Keys(rootToLeaf[i..])
        invariant state.tables == start - TablesIn(rootToLeaf[i..])
        invariant forall j :: i <= j < |rootToLeaf| ==> Removal(rootToLeaf, old(state), failing, j) == Done
      {
        i := i - 1;
        var md := rootToLeaf[i];
        assert rootToLeaf[i..] == [md] + rootToLeaf[i + 1..];
        KeysPrepend(md, rootToLeaf[i + 1..]);
        if md.Key() in failing || !(md.tables <= state.tables) {
          assert Removal(rootToLeaf, old(state), failing, i) == MigrationFailed;
          state := State(state.installed, start);
          return MigrationFailed, i;
        }
        if md.tables * BOOKKEEPING != {} {
          assert Removal(rootToLeaf, old(state), failing, i) == Deadlocked;
          state := State(state.installed, start);
          return Deadlocked, i;
        }
        if md.Key() !in state.installed {
          assert Removal(rootToLeaf, old(state), failing, i) == MigrationFailed;
          state := State(state.installed, start);
          return MigrationFailed, i;
        }
        state := State(state.installed - {md.Key()}, state.tables - md.tables);
      }
      assert rootToLeaf[0..] == rootToLeaf;
      r, n := Done, 0;
    }

    /** The two sorts that `commit` makes: of the modules that own a changed table, and of all that are
        installed. */
    method SortForCommit(changed: set<string>, ghost rank: string -> nat)
      returns (affected: seq<Module>, all: seq<Module>)
      requires reg.Sound(rank)
      requires Returns(ModulesWithChanges(reg, state.installed, changed), state.installed)
      requires Returns(InstalledModules(reg, state.installed), state.installed)
      ensures InOrder(affected, state.installed) && InOrder(all, state.installed)
      ensures multiset(affected) == multiset(ModulesWithChanges(reg, state.installed, changed))
      ensures multiset(all) == multiset(InstalledModules(reg, state.installed))
      ensures Healthy(reg, state.installed) ==>
                && affected == DirectlyAffected(reg, state.installed, changed)
                && all == InstalledModules(reg, state.installed)
    {
      ghost var healthy := Healthy(reg, state.installed);
      if healthy { HealthySortsKeepOrder(reg, rank, state.installed, changed); }
      var withChanges, installed := ModulesWithChanges(reg, state.installed, changed),
                                    InstalledModules(reg, state.installed);
      ReturnsIffSortable(withChanges, state.installed);
      ReturnsIffSortable(installed, state.installed);
      affected := SortModules(withChanges, state.installed);
      all := SortModules(installed, state.installed);
    }
  }

  lemma InstalledState(reg: Registry, s: State, want: set<string>, got: set<string>, s': State)
    requires Minimal(reg, s.installed, want, got) && got !! s.installed && got != {}
    requires s' == State(s.installed + got, s.tables + reg.TablesOf(got)) && reg.TablesOf(got) !! s.tables
    requires !Overlap(reg, got)
    ensures Installed(reg, s, want, s') && s'.installed - s.installed == got
  {
  }

  lemma RemovalLeaves(reg: Registry, s: State, names: seq<string>, order: seq<Module>, failing: set<string>,
                      r: Result, n: nat, s': State)
    requires Requested(reg, names) <= Keys(reg.all) && Requested(reg, names) * s.installed != {}
    requires !Unaccounted(reg, s.installed, Requested(reg, names)) && !Needed(reg, s.installed, Requested(reg, names))
    requires Keys(order) == Requested(reg, names) * s.installed && TablesIn(order) == reg.TablesOf(Keys(order))
    requires InOrder(order, s.installed - Requested(reg, names)) && forall m :: m in order ==> m in reg.all
    requires DistinctKeys(order) <==> !RepeatsInstalled(reg, names, s.installed)
    requires r == Done <==> Removable(reg, s, names, failing)
    requires r == Done ==> s' == State(s.installed - Keys(order), s.tables - TablesIn(order))
    requires r != Done ==> RemovalStopsAt(order, s, failing, n) && r == Removal(order, s, failing, n)
                           && s' == AfterFailedRemoval(s, order, n)
    ensures UninstallEnds(reg, s, names, failing, r)
    ensures UninstallLeaves(reg, s, names, order, failing, r, n, s')
  {
    var gone := Requested(reg, names);
    if r == Done {
      assert s.installed - gone * s.installed == s.installed - gone;
      forall t | t in BOOKKEEPING ensures t !in reg.TablesOf(gone * s.installed) {
        assert t !in reg.TablesOf(gone * s.installed) * BOOKKEEPING;
      }
      assert Uninstalled(reg, s, gone, s');
    } else {
      StoppedTables(order, s, failing, n);
    }
  }

  /** No bookkeeping table is dropped before a removal stops. */
  lemma StoppedTables(order: seq<Module>, s: State, failing: set<string>, n: nat)
    requires RemovalStopsAt(order, s, failing, n)
    ensures TablesIn(order[n + 1..]) !! BOOKKEEPING
  {
    forall t | t in TablesIn(order[n + 1..]) ensures t !in BOOKKEEPING {
      var m :| m in order[n + 1..] && t in m.tables;
      var j :| 0 <= j < |order| - n - 1 && order[n + 1..][j] == m;
      assert Removal(order, s, failing, n + 1 + j) == Done;
      assert t !in order[n + 1 + j].tables * BOOKKEEPING;
    }
  }

  lemma AllFound(reg: Registry, names: seq<string>, mods: seq<Module>)
    requires |mods| == |Strings.Uniq(names)| && forall m :: m in mods ==> m in reg.all
    requires forall j :: 0 <= j < |mods| ==> mods[j].Key() == reg.Versioned(Strings.Uniq(names)[j])
    ensures forall n :: n in names ==> exists m :: m in reg.all && m.Key() == reg.Versioned(n)
  {
    Strings.UniqMeans(names);
    forall n | n in names ensures exists m :: m in reg.all && m.Key() == reg.Versioned(n) {
      var i :| 0 <= i < |mods| && Strings.Uniq(names)[i] == n;
      assert mods[i] in mods;
    }
  }
}
