/** The registry of modules and what `install` and `uninstall` of src/modules/iasql_functions/iasql.ts come to,
    on the rows of iasql_module and the tables of a database. */
module Registries {
  import opened Bags
  import opened Fixpoint
  import opened ModSort
  import Strings

  /** How a call ends.  `InitialReadFailed` and `Done` come after the transaction.  `MigrationFailed` and
      `Deadlocked` come from within it: a rollback takes back what the scripts did, but not what was done to
      the rows of iasql_module, which are written on a connection of their own.  The others leave the database
      as it was. */
  datatype Result =
    | NoSuchModule | TableCollision | CommitFailed | StillNeeded | UnregisteredModule
    | MigrationFailed | Deadlocked | InitialReadFailed | Done

  /** The tables that `uninstall` reads and writes after each removal script, on a connection of its own. */
  const BOOKKEEPING: set<string> := {"iasql_module", "iasql_tables"}

  /** `Object.values(AllModules)` and the engine version. */
  datatype Registry = Registry(all: seq<Module>, version: string) {
    /** `${m.name}@${m.version}` lookup: the first match. */
    function Find(name: string): (m: seq<Module>)
      ensures |m| <= 1
      ensures m != [] ==> m[0] in all && m[0].Key() == name
      ensures m == [] <==> name !in Keys(all)
    {
      FindIn(all, name)
    }

    function Deps(name: string): set<string> {
      var m := Find(name);
      if m == [] then {} else m[0].Deps()
    }

    function Tables(name: string): set<string> {
      var m := Find(name);
      if m == [] then {} else m[0].tables
    }

    function TablesOf(names: set<string>): set<string> {
      set n, t | n in names && t in Tables(n) :: t
    }

    /** A name without a version gets the version of the engine. */
    function Versioned(name: string): string { if '@' in name then name else name + "@" + version }

    function BaseNames(): set<string> { {"iasql_platform@" + version, "iasql_functions@" + version} }

    /** The base modules that some module depends on. */
    function Relied(): set<string> { set m, d | m in all && d in m.dependencies && d in BaseNames() :: d }

    /** They bring bookkeeping tables: iasql_platform does, and no module depends on iasql_functions. */
    ghost predicate Guarded() { forall b :: b in Relied() ==> Tables(b) * BOOKKEEPING != {} }

    /** Dependencies are registered and point downwards. */
    ghost predicate Sound(rank: string -> nat) {
      && (forall m :: m in all ==> Find(m.Key()) == [m])
      && (forall m, d :: m in all && d in m.dependencies ==> d in Keys(all) && rank(d) < rank(m.Key()))
    }
  }

  function FindIn(ms: seq<Module>, name: string): (m: seq<Module>)
    ensures |m| <= 1
    ensures m != [] ==> m[0] in ms && m[0].Key() == name
    ensures m == [] <==> name !in Keys(ms)
  {
    if ms == [] then [] else if ms[0].Key() == name then [ms[0]] else FindIn(ms[1..], name)
  }

  /** The rows of iasql_module and the tables of the public schema. */
  datatype State = State(installed: set<string>, tables: set<string>)

  /** The base modules that others depend on are there, and with every module its dependencies. */
  ghost predicate Healthy(reg: Registry, installed: set<string>) {
    && reg.Relied() <= installed <= Keys(reg.all)
    && forall n :: n in installed ==> reg.Deps(n) <= installed
  }

  /** `got` holds what is wanted and what that depends on, as far as it is not there already.  Base modules
      are never attached. */
  ghost predicate Complete(reg: Registry, have: set<string>, want: set<string>, got: set<string>) {
    want - have <= got
    && forall n, d :: n in got && d in reg.Deps(n) ==> d in have || d in got || d in reg.BaseNames()
  }

  /** `got` is the least complete set: nothing is installed without need. */
  ghost predicate Minimal(reg: Registry, have: set<string>, want: set<string>, got: set<string>) {
    Complete(reg, have, want, got) && forall s :: Complete(reg, have, want, s) ==> got <= s
  }

  /** Effect of an install that reached the end of its transaction. */
  ghost predicate Installed(reg: Registry, s: State, want: set<string>, s': State) {
    exists got :: Minimal(reg, s.installed, want, got) && got !! s.installed && got != {}
      && reg.TablesOf(got) !! s.tables && !Overlap(reg, got)
      && s' == State(s.installed + got, s.tables + reg.TablesOf(got))
  }

  /** Some module that stays depends on one that is to go. */
  ghost predicate Needed(reg: Registry, installed: set<string>, gone: set<string>) {
    exists n, d :: n in installed && n !in gone && d in reg.Deps(n) && d in gone && d in installed
  }

  /** Effect of an uninstall that reached the end of its transaction. */
  ghost predicate Uninstalled(reg: Registry, s: State, gone: set<string>, s': State) {
    && !Needed(reg, s.installed, gone) && gone * s.installed != {}
    && reg.TablesOf(gone * s.installed) <= s.tables && reg.TablesOf(gone * s.installed) !! BOOKKEEPING
    && s' == State(s.installed - gone, s.tables - reg.TablesOf(gone * s.installed))
  }

  /** The distinct requested names, with their versions: a name may then occur twice. */
  function Given(reg: Registry, names: seq<string>): multiset<string> {
    multiset(Image(Strings.Uniq(names), (n: string) => reg.Versioned(n)))
  }

  /** Two of these modules share a table. */
  ghost predicate Overlap(reg: Registry, got: set<string>) {
    exists a, b :: a in got && b in got && a != b && reg.Tables(a) * reg.Tables(b) != {}
  }

  /** A name that is not installed occurs twice, once it has its version, and its module has tables. */
  ghost predicate Repeats(reg: Registry, names: seq<string>, installed: set<string>) {
    exists n :: Given(reg, names)[n] > 1 && n !in installed && reg.Tables(n) != {}
  }

  /** How an install ends, when `got` is the least complete set. */
  ghost function InstallEnds(reg: Registry, s: State, names: seq<string>, got: set<string>,
                             commitOk: bool, failing: set<string>, readOk: bool): Result {
    if !(Requested(reg, names) <= Keys(reg.all)) then NoSuchModule
    else if got == {} then Done
    else if reg.TablesOf(got) * s.tables != {} then TableCollision
    else if !commitOk then CommitFailed
    else if got * failing != {} || Overlap(reg, got) || Repeats(reg, names, s.installed) then MigrationFailed
    else if !readOk then InitialReadFailed
    else Done
  }

  /** A module that stays is not registered, or lacks something it depends on. */
  ghost predicate Unaccounted(reg: Registry, installed: set<string>, gone: set<string>) {
    exists n :: n in installed && n !in gone && (n !in Keys(reg.all) || !(reg.Deps(n) <= installed))
  }

  /** An installed name occurs twice. */
  ghost predicate RepeatsInstalled(reg: Registry, names: seq<string>, installed: set<string>) {
    exists n :: Given(reg, names)[n] > 1 && n in installed
  }

  /** The removal scripts and what follows them succeed: no script fails by itself, every module is listed once,
      its tables are there and its own, and none is a bookkeeping table. */
  ghost predicate Removable(reg: Registry, s: State, names: seq<string>, failing: set<string>) {
    var gone := Requested(reg, names) * s.installed;
    && gone * failing == {} && !RepeatsInstalled(reg, names, s.installed) && !Overlap(reg, gone)
    && reg.TablesOf(gone) <= s.tables && reg.TablesOf(gone) * BOOKKEEPING == {}
  }

  /** How an uninstall ends.  In the last case Removal says which of the two it is. */
  ghost predicate UninstallEnds(reg: Registry, s: State, names: seq<string>, failing: set<string>, r: Result) {
    var gone := Requested(reg, names);
    if !(gone <= Keys(reg.all)) then r == NoSuchModule
    else if gone * s.installed == {} then r == Done
    else if Unaccounted(reg, s.installed, gone) then r == UnregisteredModule
    else if Needed(reg, s.installed, gone) then r == StillNeeded
    else if Removable(reg, s, names, failing) then r == Done
    else r == MigrationFailed || r == Deadlocked
  }

  /** The base modules that these depend on are installed or among them. */
  ghost predicate BasePresent(reg: Registry, installed: set<string>, got: set<string>) {
    forall n, d :: n in got && d in reg.Deps(n) && d in reg.BaseNames() ==> d in installed || d in got
  }

  /** The install does not reach its sort, or the sort returns (InstallSortReturnsIff). */
  ghost predicate InstallReturns(reg: Registry, s: State, want: set<string>, commitOk: bool) {
    want <= Keys(reg.all) && commitOk ==>
      forall got :: Minimal(reg, s.installed, want, got) && reg.TablesOf(got) * s.tables == {} ==>
        BasePresent(reg, s.installed, got)
  }

  /** What these modules depend on is installed. */
  ghost predicate DepsInstalled(reg: Registry, installed: set<string>, gone: set<string>) {
    forall n, d :: n in gone && n in installed && d in reg.Deps(n) ==> d in installed
  }

  /** The uninstall does not reach its sort, or the sort returns (UninstallSortReturnsIff). */
  ghost predicate UninstallReturns(reg: Registry, s: State, gone: set<string>) {
    gone <= Keys(reg.all) && !Unaccounted(reg, s.installed, gone) && !Needed(reg, s.installed, gone) ==>
      DepsInstalled(reg, s.installed, gone)
  }

  function KeyOf(m: Module): string { m.Key() }

  /** The keys of a list of modules, as often as they occur. */
  function KeyBag(ms: seq<Module>): multiset<string> { multiset(Image(ms, KeyOf)) }

  ghost predicate DistinctKeys(ms: seq<Module>) { forall i, j :: 0 <= i < j < |ms| ==> ms[i].Key() != ms[j].Key() }

  function Requested(reg: Registry, names: seq<string>): set<string> { set n | n in names :: reg.Versioned(n) }

  function TablesIn(ms: seq<Module>): set<string> { set m, t | m in ms && t in m.tables :: t }

  // One turn of the transactions -------------------------------------------------------------------------

  /** The n-th module brings a table that is there already, or that one before it brings. */
  predicate Clashes(ms: seq<Module>, tables: set<string>, n: nat)
    requires n < |ms|
  {
    ms[n].tables * (tables + TablesIn(ms[..n])) != {}
  }

  /** The n-th install script succeeds. */
  predicate Runs(ms: seq<Module>, tables: set<string>, failing: set<string>, n: nat)
    requires n < |ms|
  {
    ms[n].Key() !in failing && !Clashes(ms, tables, n)
  }

  /** The first install script that fails is the n-th. */
  ghost predicate StopsAt(ms: seq<Module>, tables: set<string>, failing: set<string>, n: nat) {
    n < |ms| && !Runs(ms, tables, failing, n) && forall j :: 0 <= j < n ==> Runs(ms, tables, failing, j)
  }

  /** What an install leaves whose n-th script fails: the tables are rolled back, the rows of the modules before
      it are not. */
  function AfterFailure(s: State, ms: seq<Module>, n: nat): State
    requires n <= |ms|
  {
    State(s.installed + Keys(ms[..n]), s.tables)
  }

  /** How removing the n-th module ends, once those after it are gone.  Its tables must be there to be dropped.
      When its script has dropped a bookkeeping table, the query that follows on the other connection waits for
      a lock that the transaction holds.  A module that has no row any more cannot be removed. */
  function Removal(ms: seq<Module>, s: State, failing: set<string>, n: nat): Result
    requires n < |ms|
  {
    if ms[n].Key() in failing || !(ms[n].tables <= s.tables - TablesIn(ms[n + 1..])) then MigrationFailed
    else if ms[n].tables * BOOKKEEPING != {} then Deadlocked
    else if ms[n].Key() !in s.installed - Keys(ms[n + 1..]) then MigrationFailed
    else Done
  }

  /** The n-th module is the first, from the end, whose removal fails. */
  ghost predicate RemovalStopsAt(ms: seq<Module>, s: State, failing: set<string>, n: nat) {
    && n < |ms| && Removal(ms, s, failing, n) != Done
    && forall j :: n < j < |ms| ==> Removal(ms, s, failing, j) == Done
  }

  /** What an uninstall leaves that fails at the n-th module: the tables are rolled back, or still locked, and
      the rows of the modules after it are gone. */
  function AfterFailedRemoval(s: State, ms: seq<Module>, n: nat): State
    requires n < |ms|
  {
    State(s.installed - Keys(ms[n + 1..]), s.tables)
  }

  // Why the sorts return ------------------------------------------------------------------------------

  /** Modules whose dependencies exist or are among them, in a registry without cycles, can be sorted. */
  lemma SoundSortable(reg: Registry, rank: string -> nat, mods: seq<Module>, existing: set<string>)
    requires reg.Sound(rank) && forall m :: m in mods ==> m in reg.all
    requires forall m, d :: m in mods && d in m.dependencies ==> d in existing || d in Keys(mods)
    ensures Sortable(mods, existing)
  {
    var rules, base := Rules(mods), Base(existing);
    forall r, k | r in rules && k in r.body && k !in base ensures rank(k) < rank(r.head) && k in Heads(rules) {
      var i :| 0 <= i < |mods| && rules[i] == r;
      assert mods[i] in mods && k in mods[i].dependencies;
      var m :| m in mods && m.Key() == k;
      var j :| 0 <= j < |mods| && mods[j] == m;
      assert rules[j] in rules && rules[j].head == k;
    }
    forall r | r in rules ensures Fires(rules, base, r) { RankedFires(rules, base, rank, r); }
  }

  // Keys of lists of modules ---------------------------------------------------------------------------

  /** The module is the first of the list with this key. */
  ghost predicate IsFirst(ms: seq<Module>, name: string, m: Module) {
    exists i :: 0 <= i < |ms| && ms[i] == m && m.Key() == name && forall j :: 0 <= j < i ==> ms[j].Key() != name
  }

  /** Whatever is registered, a lookup finds the first module with the key. */
  lemma {:induction false} FindIsFirst(ms: seq<Module>, name: string)
    ensures FindIn(ms, name) != [] ==> IsFirst(ms, name, FindIn(ms, name)[0])
  {
    if ms != [] && ms[0].Key() != name && FindIn(ms[1..], name) != [] {
      FindIsFirst(ms[1..], name);
      var m := FindIn(ms[1..], name)[0];
      var i :| 0 <= i < |ms| - 1 && ms[1..][i] == m && forall j :: 0 <= j < i ==> ms[1..][j].Key() != name;
      forall j | 0 <= j < i + 1 ensures ms[j].Key() != name { assert j > 0 ==> ms[1..][j - 1] == ms[j]; }
      assert ms[i + 1] == m;
    }
  }

  lemma ResolvedKeys(reg: Registry, names: seq<string>, mods: seq<Module>)
    requires |mods| == |Strings.Uniq(names)|
    requires forall j :: 0 <= j < |mods| ==> mods[j].Key() == reg.Versioned(Strings.Uniq(names)[j])
    ensures Keys(mods) == Requested(reg, names) && KeyBag(mods) == Given(reg, names)
    ensures (forall m :: m in mods ==> m in reg.all) ==> Requested(reg, names) <= Keys(reg.all)
  {
    var list := Strings.Uniq(names);
    assert Image(mods, KeyOf) == Image(list, (n: string) => reg.Versioned(n));
    Strings.UniqMeans(names);
    forall k ensures k in Keys(mods) <==> k in Requested(reg, names) {
      KeyBagKeys(mods, k);
      ImageHas(list, (n: string) => reg.Versioned(n), k);
    }
  }

  /** A plain name and the same name with the version of the engine are one request. */
  lemma PlainIsVersioned(reg: Registry, name: string)
    requires '@' !in name
    ensures Requested(reg, [name]) == Requested(reg, [name + "@" + reg.version]) == {name + "@" + reg.version}
  {
    var full := name + "@" + reg.version;
    assert full[|name|] == '@';
    assert reg.Versioned(name) == full == reg.Versioned(full);
    forall k ensures (k in Requested(reg, [name]) <==> k == full) && (k in Requested(reg, [full]) <==> k == full) {
      assert name in [name] && full in [full];
    }
  }

  /** Exactly when a module is requested twice, although duplicates are removed: when it is named both with and
      without the version of the engine. */
  lemma GivenTwiceIff(reg: Registry, names: seq<string>, key: string)
    ensures Given(reg, names)[key] > 1 <==>
            key in names && exists n :: n in names && '@' !in n && n + "@" + reg.version == key
  {
    var list, f := Strings.Uniq(names), (n: string) => reg.Versioned(n);
    Strings.UniqMeans(names);
    Twice(Image(list, f), key);
    if n :| n in names && '@' !in n && n + "@" + reg.version == key && key in names {
      assert key[|n|] == '@';
      assert '@' in key;
      var i :| 0 <= i < |list| && list[i] == n;
      var j :| 0 <= j < |list| && list[j] == key;
      assert Image(list, f)[i] == Image(list, f)[j] == key;
      assert i < j || j < i;
    }
    if i, j :| 0 <= i < j < |list| && Image(list, f)[i] == Image(list, f)[j] == key {
      assert list[i] in names && list[j] in names && list[i] != list[j];
      SameVersioned(reg, list[i], list[j]);
    }
  }

  /** Of two names for one module at most one lacks a version. */
  lemma SameVersioned(reg: Registry, a: string, b: string)
    requires reg.Versioned(a) == reg.Versioned(b) && a != b
    ensures '@' in a <==> '@' !in b
  {
    assert a + "@" + reg.version == a + ("@" + reg.version) && b + "@" + reg.version == b + ("@" + reg.version);
    SuffixDrops(a, b, "@" + reg.version);
  }

  lemma SuffixDrops(a: string, b: string, suffix: string)
    ensures a + suffix == b + suffix ==> a == b
  {
    assert (a + suffix)[..|a|] == a && (b + suffix)[..|b|] == b;
    assert |a + suffix| == |b + suffix| ==> |a| == |b|;
  }

  /** Each way in which an install can end, and exactly when. */
  lemma InstallOutcomes(reg: Registry, s: State, names: seq<string>, got: set<string>, commitOk: bool,
                        failing: set<string>, readOk: bool, r: Result)
    requires r == InstallEnds(reg, s, names, got, commitOk, failing, readOk)
    ensures var known := Requested(reg, names) <= Keys(reg.all);
            var free := reg.TablesOf(got) !! s.tables;
            var runs := got !! failing && !Overlap(reg, got) && !Repeats(reg, names, s.installed);
            && (r == NoSuchModule <==> !known)
            && (r == TableCollision <==> known && !free)
            && (r == CommitFailed <==> known && free && got != {} && !commitOk)
            && (r == MigrationFailed <==> known && free && got != {} && commitOk && !runs)
            && (r == InitialReadFailed <==> known && free && got != {} && commitOk && runs && !readOk)
            && (r == Done <==> known && (got == {} || (free && commitOk && runs && readOk)))
  {
    if got == {} { assert reg.TablesOf(got) == {}; }
    Apart(reg.TablesOf(got), s.tables);
    Apart(got, failing);
  }

  /** The same for an uninstall. */
  lemma UninstallOutcomes(reg: Registry, s: State, names: seq<string>, failing: set<string>, r: Result)
    requires UninstallEnds(reg, s, names, failing, r)
    ensures var gone := Requested(reg, names);
            var known, listed := gone <= Keys(reg.all), !(gone !! s.installed);
            var sound := !Unaccounted(reg, s.installed, gone);
            var needed := Needed(reg, s.installed, gone);
            && (r == NoSuchModule <==> !known)
            && (r == UnregisteredModule <==> known && listed && !sound)
            && (r == StillNeeded <==> known && listed && sound && needed)
            && (r == Done <==>
                known && (!listed || (sound && !needed && Removable(reg, s, names, failing))))
            && (r == MigrationFailed || r == Deadlocked <==>
                known && listed && sound && !needed && !Removable(reg, s, names, failing))
            && r != TableCollision && r != CommitFailed && r != InitialReadFailed
  {
    Apart(Requested(reg, names), s.installed);
  }

  lemma Apart(a: set<string>, b: set<string>)
    ensures a * b == {} <==> a !! b
  {
    if a * b == {} {
      forall x | x in a ensures x !in b { assert x !in a * b; }
    }
  }

  lemma PrunedKeys(mods0: seq<Module>, mods: seq<Module>, installed: set<string>, keep: bool)
    requires forall j :: 0 <= j < |mods| ==> (mods[j].Key() in installed <==> keep)
    requires PrunedBag(KeyBag(mods0), KeyBag(mods), installed, keep)
    ensures Keys(mods) == if keep then Keys(mods0) * installed else Keys(mods0) - installed
  {
    forall k ensures k in Keys(mods) <==> k in Keys(mods0) && (k in installed <==> keep) {
      KeyBagKeys(mods, k);
      KeyBagKeys(mods0, k);
      if k in Keys(mods) { var m :| m in mods && m.Key() == k; }
    }
  }

  lemma KeyBagKeys(ms: seq<Module>, k: string)
    ensures k in KeyBag(ms) <==> k in Keys(ms)
  {
    ImageHas(ms, KeyOf, k);
  }

  lemma KeyBagAppend(ms: seq<Module>, m: Module)
    ensures KeyBag(ms + [m]) == KeyBag(ms) + multiset{m.Key()}
  {
    ImageParts(ms, [m], KeyOf);
    assert Image([m], KeyOf) == [m.Key()];
  }

  lemma KeyBagDrop(ms: seq<Module>, i: nat)
    requires i < |ms|
    ensures KeyBag(ms) == KeyBag(Drop(ms, i)) + multiset{ms[i].Key()}
  {
    DropImage(ms, i, KeyOf);
  }

  /** A key occurs twice in the bag when two modules have it. */
  lemma KeyTwice(ms: seq<Module>, k: string)
    ensures KeyBag(ms)[k] > 1 <==> exists i, j :: 0 <= i < j < |ms| && ms[i].Key() == ms[j].Key() == k
  {
    Twice(Image(ms, KeyOf), k);
    if i, j :| 0 <= i < j < |ms| && ms[i].Key() == ms[j].Key() == k {
      assert Image(ms, KeyOf)[i] == Image(ms, KeyOf)[j] == k;
    }
    if i, j :| 0 <= i < j < |Image(ms, KeyOf)| && Image(ms, KeyOf)[i] == Image(ms, KeyOf)[j] == k {
      assert ms[i].Key() == ms[j].Key() == k;
    }
  }

  lemma DistinctIffOnce(ms: seq<Module>)
    ensures DistinctKeys(ms) <==> forall k :: KeyBag(ms)[k] <= 1
  {
    if DistinctKeys(ms) {
      forall k ensures KeyBag(ms)[k] <= 1 { KeyTwice(ms, k); }
    } else {
      var i, j :| 0 <= i < j < |ms| && ms[i].Key() == ms[j].Key();
      KeyTwice(ms, ms[i].Key());
    }
  }

  /** What is kept is kept as often as it was there. */
  ghost predicate PrunedBag(before: multiset<string>, after: multiset<string>, installed: set<string>, keep: bool) {
    forall k :: (k in installed <==> keep) ==> after[k] == before[k]
  }

  /** Some module with tables is listed twice. */
  ghost predicate RepeatsTables(reg: Registry, keys: multiset<string>) {
    exists k :: keys[k] > 1 && reg.Tables(k) != {}
  }

  /** Neither pruning nor attaching makes or undoes a repetition. */
  lemma RepeatsKept(reg: Registry, names: seq<string>, installed: set<string>, pruned: seq<Module>, mods: seq<Module>)
    requires Keys(pruned) <= Keys(mods) && Keys(pruned) !! installed
    requires PrunedBag(Given(reg, names), KeyBag(pruned), installed, false)
    requires KeyBag(mods) == KeyBag(pruned) + multiset(Keys(mods) - Keys(pruned))
    ensures RepeatsTables(reg, KeyBag(mods)) <==> Repeats(reg, names, installed)
  {
    forall k ensures KeyBag(mods)[k] > 1 <==> Given(reg, names)[k] > 1 && k !in installed {
      KeyBagKeys(pruned, k);
    }
  }

  lemma RepeatsInstalledKept(reg: Registry, names: seq<string>, installed: set<string>, mods: seq<Module>)
    requires Keys(mods) <= installed && PrunedBag(Given(reg, names), KeyBag(mods), installed, true)
    ensures DistinctKeys(mods) <==> !RepeatsInstalled(reg, names, installed)
  {
    DistinctIffOnce(mods);
    forall k ensures KeyBag(mods)[k] > 1 ==> k in installed { KeyBagKeys(mods, k); }
  }

  // When scripts succeed -------------------------------------------------------------------------------

  ghost predicate Disjoint(ms: seq<Module>) { forall i, j :: 0 <= i < j < |ms| ==> ms[i].tables !! ms[j].tables }

  lemma NoClashIff(order: seq<Module>, tables: set<string>)
    requires TablesIn(order) !! tables
    ensures (forall n :: 0 <= n < |order| ==> !Clashes(order, tables, n)) <==> Disjoint(order)
  {
    if forall n :: 0 <= n < |order| ==> !Clashes(order, tables, n) {
      forall i, j | 0 <= i < j < |order| ensures order[i].tables !! order[j].tables {
        NoClashPair(order, tables, i, j);
      }
    }
    if Disjoint(order) {
      forall n | 0 <= n < |order| ensures !Clashes(order, tables, n) { DisjointNoClash(order, tables, n); }
    }
  }

  lemma NoClashPair(order: seq<Module>, tables: set<string>, i: nat, j: nat)
    requires i < j < |order| && !Clashes(order, tables, j)
    ensures order[i].tables !! order[j].tables
  {
    var both := order[j].tables * (tables + TablesIn(order[..j]));
    assert order[i] == order[..j][i];
    forall t | t in order[i].tables ensures t !in order[j].tables {
      assert t in TablesIn(order[..j]);
      assert t !in both;
    }
  }

  lemma DisjointNoClash(order: seq<Module>, tables: set<string>, n: nat)
    requires n < |order| && Disjoint(order) && TablesIn(order) !! tables
    ensures !Clashes(order, tables, n)
  {
    assert order[n] in order;
    forall m | m in order[..n] ensures m.tables !! order[n].tables {
      var i :| 0 <= i < n && order[i] == m;
      assert order[i].tables !! order[n].tables;
    }
    forall t | t in order[n].tables ensures t !in tables && t !in TablesIn(order[..n]) {
      assert t in TablesIn(order);
    }
  }

  /** The modules are those of the registry. */
  ghost predicate Known(reg: Registry, ms: seq<Module>) {
    forall i :: 0 <= i < |ms| ==> reg.Tables(ms[i].Key()) == ms[i].tables && ms[i].Key() in Keys(ms)
  }

  lemma SoundKnown(reg: Registry, rank: string -> nat, ms: seq<Module>)
    requires reg.Sound(rank) && forall m :: m in ms ==> m in reg.all
    ensures Known(reg, ms)
  {
    forall i | 0 <= i < |ms| ensures reg.Tables(ms[i].Key()) == ms[i].tables && ms[i].Key() in Keys(ms) {
      assert ms[i] in ms && reg.Find(ms[i].Key()) == [ms[i]];
    }
  }

  lemma KeyAt(ms: seq<Module>, k: string) returns (i: nat)
    requires k in Keys(ms)
    ensures i < |ms| && ms[i].Key() == k
  {
    var m :| m in ms && m.Key() == k;
    i :| 0 <= i < |ms| && ms[i] == m;
  }

  lemma DisjointApart(reg: Registry, ms: seq<Module>)
    requires Disjoint(ms) && Known(reg, ms)
    ensures !Overlap(reg, Keys(ms)) && !RepeatsTables(reg, KeyBag(ms))
  {
    forall a, b | a in Keys(ms) && b in Keys(ms) && a != b ensures reg.Tables(a) * reg.Tables(b) == {} {
      var i := KeyAt(ms, a);
      var j := KeyAt(ms, b);
      if i < j { assert ms[i].tables !! ms[j].tables; } else { assert ms[j].tables !! ms[i].tables; }
    }
    forall k | KeyBag(ms)[k] > 1 ensures reg.Tables(k) == {} {
      KeyTwice(ms, k);
      var i, j :| 0 <= i < j < |ms| && ms[i].Key() == ms[j].Key() == k;
      assert ms[i].tables !! ms[j].tables;
    }
  }

  lemma ApartDisjoint(reg: Registry, ms: seq<Module>)
    requires Known(reg, ms) && !Overlap(reg, Keys(ms)) && !RepeatsTables(reg, KeyBag(ms))
    ensures Disjoint(ms)
  {
    forall i, j | 0 <= i < j < |ms| ensures ms[i].tables !! ms[j].tables {
      var a, b := ms[i].Key(), ms[j].Key();
      assert reg.Tables(a) == ms[i].tables && reg.Tables(b) == ms[j].tables && a in Keys(ms) && b in Keys(ms);
      if a == b {
        KeyTwice(ms, a);
        assert KeyBag(ms)[a] > 1;
        assert ms[i].tables == {};
      } else {
        forall t | t in ms[i].tables ensures t !in ms[j].tables { assert t !in reg.Tables(a) * reg.Tables(b); }
      }
    }
  }

  /** Two modules of a list share a table when two of its keys do, or when a key with tables occurs twice. */
  lemma DisjointIff(reg: Registry, rank: string -> nat, ms: seq<Module>)
    requires reg.Sound(rank) && forall m :: m in ms ==> m in reg.all
    ensures Disjoint(ms) <==> !Overlap(reg, Keys(ms)) && !RepeatsTables(reg, KeyBag(ms))
  {
    SoundKnown(reg, rank, ms);
    if Disjoint(ms) { DisjointApart(reg, ms); }
    if !Overlap(reg, Keys(ms)) && !RepeatsTables(reg, KeyBag(ms)) { ApartDisjoint(reg, ms); }
  }

  /** When the transaction of an install succeeds, whatever the order. */
  lemma AddEnds(reg: Registry, rank: string -> nat, mods: seq<Module>, order: seq<Module>, tables: set<string>,
                failing: set<string>)
    requires reg.Sound(rank) && (forall m :: m in mods ==> m in reg.all) && TablesIn(mods) !! tables
    requires multiset(order) == multiset(mods)
    ensures Keys(order) == Keys(mods) && TablesIn(order) == reg.TablesOf(Keys(mods))
    ensures (forall i :: 0 <= i < |order| ==> Runs(order, tables, failing, i)) <==>
              Keys(mods) * failing == {} && !Overlap(reg, Keys(mods)) && !RepeatsTables(reg, KeyBag(mods))
  {
    SameKeys(order, mods);
    TablesAgree(reg, rank, mods);
    TablesAgree(reg, rank, order);
    SameBag(order, mods);
    DisjointIff(reg, rank, order);
    RunsIff(order, tables, failing);
  }

  /** Every script succeeds when none is failing and no two modules share a table. */
  lemma RunsIff(order: seq<Module>, tables: set<string>, failing: set<string>)
    requires TablesIn(order) !! tables
    ensures (forall i :: 0 <= i < |order| ==> Runs(order, tables, failing, i)) <==>
              Keys(order) * failing == {} && Disjoint(order)
  {
    NoClashIff(order, tables);
    FailingMeans(order, failing);
    if forall i :: 0 <= i < |order| ==> Runs(order, tables, failing, i) {
      forall n | 0 <= n < |order| ensures !Clashes(order, tables, n) && order[n].Key() !in failing {
        assert Runs(order, tables, failing, n);
      }
    }
  }

  lemma SameBag(a: seq<Module>, b: seq<Module>)
    requires multiset(a) == multiset(b)
    ensures KeyBag(a) == KeyBag(b)
  {
    ImageEqual(a, b, KeyOf);
  }

  lemma FailingMeans(ms: seq<Module>, failing: set<string>)
    ensures Keys(ms) * failing == {} <==> forall i :: 0 <= i < |ms| ==> ms[i].Key() !in failing
  {
    forall i | 0 <= i < |ms| ensures ms[i].Key() in Keys(ms) { assert ms[i] in ms; }
    if k :| k in Keys(ms) * failing {
      var m :| m in ms && m.Key() == k;
      var i :| 0 <= i < |ms| && ms[i] == m;
    }
    if i :| 0 <= i < |ms| && ms[i].Key() in failing { assert ms[i].Key() in Keys(ms) * failing; }
  }

  /** Every module can be removed when none is failing or given twice, and all tables are there, are brought by
      one module and are no bookkeeping tables. */
  lemma RemovalsIff(order: seq<Module>, s: State, failing: set<string>)
    requires Keys(order) <= s.installed
    ensures (forall n :: 0 <= n < |order| ==> Removal(order, s, failing, n) == Done) <==>
              && Keys(order) * failing == {} && DistinctKeys(order) && Disjoint(order)
              && TablesIn(order) <= s.tables && TablesIn(order) * BOOKKEEPING == {}
  {
    FailingMeans(order, failing);
    if forall n :: 0 <= n < |order| ==> Removal(order, s, failing, n) == Done {
      forall i, j | 0 <= i < j < |order|
        ensures order[i].Key() != order[j].Key() && order[i].tables !! order[j].tables
      {
        assert Removal(order, s, failing, i) == Done;
        LaterModule(order, i, j);
      }
      forall i | 0 <= i < |order|
        ensures order[i].tables <= s.tables && order[i].tables * BOOKKEEPING == {} && order[i].Key() !in failing
      {
        assert Removal(order, s, failing, i) == Done;
      }
      TablesInEach(order, s.tables);
    }
    if Keys(order) * failing == {} && DistinctKeys(order) && Disjoint(order) && TablesIn(order) <= s.tables
       && TablesIn(order) * BOOKKEEPING == {} {
      forall n | 0 <= n < |order| ensures Removal(order, s, failing, n) == Done {
        RemovedInTurn(order, s, failing, n);
      }
    }
  }

  /** A removal that stops waits for ever if and only if the module that it stops at brings a bookkeeping table
      and its script succeeds: its tables are there, and no module removed before it had one of them. */
  lemma DeadlockIff(ms: seq<Module>, s: State, failing: set<string>, n: nat)
    requires RemovalStopsAt(ms, s, failing, n)
    ensures Removal(ms, s, failing, n) == Deadlocked <==>
            && (exists t :: t in ms[n].tables && t in BOOKKEEPING) && ms[n].Key() !in failing
            && forall t :: t in ms[n].tables ==> t in s.tables && forall j :: n < j < |ms| ==> t !in ms[j].tables
  {
    if t :| t in ms[n].tables && t in BOOKKEEPING { assert t in ms[n].tables * BOOKKEEPING; }
    if ms[n].tables * BOOKKEEPING != {} { var t :| t in ms[n].tables * BOOKKEEPING; }
    forall t | t in ms[n].tables
      ensures t in TablesIn(ms[n + 1..]) <==> exists j :: n < j < |ms| && t in ms[j].tables
    {
      LaterTable(ms, n, t);
    }
  }

  lemma LaterTable(ms: seq<Module>, n: nat, t: string)
    requires n < |ms|
    ensures t in TablesIn(ms[n + 1..]) <==> exists j :: n < j < |ms| && t in ms[j].tables
  {
    if j :| n < j < |ms| && t in ms[j].tables { assert ms[n + 1..][j - n - 1] == ms[j]; }
    if t in TablesIn(ms[n + 1..]) {
      var m :| m in ms[n + 1..] && t in m.tables;
      var i :| 0 <= i < |ms| - n - 1 && ms[n + 1..][i] == m;
      assert ms[n + 1 + i] == m;
    }
  }

  lemma TablesInEach(order: seq<Module>, tables: set<string>)
    requires forall i :: 0 <= i < |order| ==> order[i].tables <= tables && order[i].tables * BOOKKEEPING == {}
    ensures TablesIn(order) <= tables && TablesIn(order) * BOOKKEEPING == {}
  {
    forall t | t in TablesIn(order) ensures t in tables && t !in BOOKKEEPING {
      var m :| m in order && t in m.tables;
      var i :| 0 <= i < |order| && order[i] == m;
      assert t !in order[i].tables * BOOKKEEPING;
    }
  }

  lemma LaterModule(order: seq<Module>, i: nat, j: nat)
    requires i < j < |order|
    ensures order[j].Key() in Keys(order[i + 1..]) && order[j].tables <= TablesIn(order[i + 1..])
  {
    assert order[i + 1..][j - i - 1] == order[j];
  }

  lemma RemovedInTurn(order: seq<Module>, s: State, failing: set<string>, n: nat)
    requires n < |order| && Keys(order) <= s.installed && Keys(order) * failing == {} && DistinctKeys(order)
    requires Disjoint(order) && TablesIn(order) <= s.tables && TablesIn(order) * BOOKKEEPING == {}
    ensures Removal(order, s, failing, n) == Done
  {
    var md := order[n];
    assert md in order && md.Key() in Keys(order);
    assert md.Key() !in Keys(order) * failing;
    DistinctLater(order, n);
    forall t | t in md.tables ensures t in s.tables && t !in TablesIn(order[n + 1..]) && t !in BOOKKEEPING {
      assert t in TablesIn(order) && t !in TablesIn(order) * BOOKKEEPING;
      if t in TablesIn(order[n + 1..]) { SharedLater(order, n, t); }
    }
  }

  lemma DistinctLater(order: seq<Module>, n: nat)
    requires n < |order| && DistinctKeys(order)
    ensures order[n].Key() !in Keys(order[n + 1..])
  {
    forall m | m in order[n + 1..] ensures m.Key() != order[n].Key() {
      var j :| 0 <= j < |order| - n - 1 && order[n + 1..][j] == m;
      assert order[n + 1 + j] == m;
    }
  }

  lemma SharedLater(order: seq<Module>, n: nat, t: string)
    requires n < |order| && t in order[n].tables && t in TablesIn(order[n + 1..])
    ensures !Disjoint(order)
  {
    var m :| m in order[n + 1..] && t in m.tables;
    var j :| 0 <= j < |order| - n - 1 && order[n + 1..][j] == m;
    assert t in order[n].tables && t in order[n + 1 + j].tables;
  }

  /** When the transaction of an uninstall succeeds, whatever the order. */
  lemma RemoveEnds(reg: Registry, rank: string -> nat, names: seq<string>, mods: seq<Module>, order: seq<Module>,
                   s: State, failing: set<string>)
    requires reg.Sound(rank) && (forall m :: m in mods ==> m in reg.all) && multiset(order) == multiset(mods)
    requires Keys(mods) == Requested(reg, names) * s.installed
    requires DistinctKeys(mods) <==> !RepeatsInstalled(reg, names, s.installed)
    ensures Keys(order) == Keys(mods) && TablesIn(order) == reg.TablesOf(Keys(mods))
    ensures (forall m :: m in order ==> m in reg.all) && (DistinctKeys(order) <==> DistinctKeys(mods))
    ensures (forall n :: 0 <= n < |order| ==> Removal(order, s, failing, n) == Done) <==>
              Removable(reg, s, names, failing)
  {
    SameKeys(order, mods);
    SameBag(order, mods);
    DistinctIffOnce(order);
    DistinctIffOnce(mods);
    TablesAgree(reg, rank, order);
    DisjointIff(reg, rank, order);
    RemovalsIff(order, s, failing);
    if DistinctKeys(order) { NoRepeats(reg, order); }
  }

  lemma NoRepeats(reg: Registry, order: seq<Module>)
    requires DistinctKeys(order)
    ensures !RepeatsTables(reg, KeyBag(order))
  {
    DistinctIffOnce(order);
  }

  lemma NeededMeans(reg: Registry, installed: set<string>, want: set<string>)
    ensures installed - want * installed == installed - want
    ensures (exists n, d :: n in installed - want && d in reg.Deps(n) && d in want * installed)
       <==> Needed(reg, installed, want)
    ensures (exists n :: n in installed - want && (reg.Find(n) == [] || !(reg.Deps(n) <= installed)))
       <==> Unaccounted(reg, installed, want)
  {
    if Needed(reg, installed, want) {
      var n, d :| n in installed && n !in want && d in reg.Deps(n) && d in want && d in installed;
      assert n in installed - want && d in want * installed;
    }
    if Unaccounted(reg, installed, want) {
      var n :| n in installed && n !in want && (n !in Keys(reg.all) || !(reg.Deps(n) <= installed));
      assert n in installed - want;
    }
  }

  lemma Collision(ms: seq<Module>, tables: set<string>)
    requires exists m :: m in ms && m.tables * tables != {}
    ensures TablesIn(ms) * tables != {}
  {
    var m :| m in ms && m.tables * tables != {};
    var t :| t in m.tables * tables;
    assert t in TablesIn(ms) * tables;
  }

  lemma KeysAppend(ms: seq<Module>, m: Module)
    ensures Keys(ms + [m]) == Keys(ms) + {m.Key()}
    ensures TablesIn(ms + [m]) == TablesIn(ms) + m.tables
  {
    forall x ensures x in ms + [m] <==> x in ms || x == m {}
  }

  lemma KeysPrepend(m: Module, ms: seq<Module>)
    ensures Keys([m] + ms) == Keys(ms) + {m.Key()}
    ensures TablesIn([m] + ms) == TablesIn(ms) + m.tables
  {
    forall x ensures x in [m] + ms <==> x in ms || x == m {}
  }

  lemma SameKeys(a: seq<Module>, b: seq<Module>)
    requires multiset(a) == multiset(b)
    ensures Keys(a) == Keys(b) && forall m :: m in a <==> m in b
  {
    forall m ensures m in a <==> m in b { assert m in multiset(a) <==> m in multiset(b); }
  }

  lemma TablesAgree(reg: Registry, rank: string -> nat, ms: seq<Module>)
    requires reg.Sound(rank) && forall m :: m in ms ==> m in reg.all
    ensures TablesIn(ms) == reg.TablesOf(Keys(ms))
  {
    forall t | t in TablesIn(ms) ensures t in reg.TablesOf(Keys(ms)) {
      var m :| m in ms && t in m.tables;
      assert reg.Find(m.Key()) == [m] && m.Key() in Keys(ms) && t in reg.Tables(m.Key());
    }
    forall t | t in reg.TablesOf(Keys(ms)) ensures t in TablesIn(ms) {
      var n :| n in Keys(ms) && t in reg.Tables(n);
      var m :| m in ms && m.Key() == n;
      assert reg.Find(n) == [m];
    }
  }

  lemma NoCollision(ms: seq<Module>, tables: set<string>)
    requires forall m :: m in ms ==> m.tables * tables == {}
    ensures TablesIn(ms) !! tables
  {
    forall t | t in TablesIn(ms) ensures t !in tables {
      var m :| m in ms && t in m.tables;
      assert t in tables ==> t in m.tables * tables;
    }
  }

  /** Pruning what is installed does not change what the least complete set is. */
  lemma MinimalFromPruned(reg: Registry, have: set<string>, want: set<string>, got: set<string>)
    requires Minimal(reg, have, want - have, got)
    ensures Minimal(reg, have, want, got)
  {
    assert want - have - have == want - have;
    forall s | Complete(reg, have, want, s) ensures got <= s { assert Complete(reg, have, want - have, s); }
  }

  lemma NothingMissing(reg: Registry, rank: string -> nat, mods: seq<Module>, installed: set<string>)
    requires reg.Sound(rank) && forall m :: m in mods ==> m in reg.all
    requires forall m, d :: m in mods && d in m.dependencies ==>
              d in Keys(mods) || d in installed || d in reg.BaseNames()
    ensures forall n, d :: n in Keys(mods) && d in reg.Deps(n) ==>
              d in installed || d in Keys(mods) || d in reg.BaseNames()
  {
    forall n, d | n in Keys(mods) && d in reg.Deps(n)
      ensures d in installed || d in Keys(mods) || d in reg.BaseNames()
    {
      var m :| m in mods && m.Key() == n;
      assert reg.Find(n) == [m];
    }
  }

  /** What the loop attaches lies in every complete set. */
  lemma MissingIsNeeded(reg: Registry, rank: string -> nat, mods: seq<Module>, installed: set<string>,
                        want: set<string>, s: set<string>)
    requires reg.Sound(rank) && (forall m :: m in mods ==> m in reg.all)
    requires Complete(reg, installed, want, s) && Keys(mods) <= s
    ensures forall m, d :: m in mods && d in m.dependencies && d !in installed && d !in reg.BaseNames() ==> d in s
  {
    forall m, d | m in mods && d in m.dependencies && d !in installed && d !in reg.BaseNames() ensures d in s {
      assert reg.Find(m.Key()) == [m] && m.Key() in Keys(mods) && d in reg.Deps(m.Key());
    }
  }

  lemma MissingIsRegistered(reg: Registry, rank: string -> nat, mods: seq<Module>)
    requires reg.Sound(rank) && forall m :: m in mods ==> m in reg.all
    ensures forall m, d :: m in mods && d in m.dependencies ==> d in Keys(reg.all)
    ensures Keys(mods) <= Keys(reg.all)
  {
  }

  lemma AttachedOne(bag: multiset<string>, bag0: multiset<string>, missing: set<string>, rest: set<string>, n: string)
    requires bag == bag0 + multiset(missing - rest) && n in rest && rest <= missing
    ensures bag + multiset{n} == bag0 + multiset(missing - (rest - {n}))
  {
    assert missing - (rest - {n}) == (missing - rest) + {n};
    AddedSets(missing - rest, {n});
  }

  lemma AddedSets(a: set<string>, b: set<string>)
    requires a !! b
    ensures multiset(a + b) == multiset(a) + multiset(b)
  {
  }

  lemma AttachedAll(after: multiset<string>, bag: multiset<string>, bag0: multiset<string>, keys: set<string>,
                    wanted: set<string>, before: set<string>, missing: set<string>)
    requires after == bag + multiset(missing) && bag == bag0 + multiset(before - wanted)
    requires wanted <= before && missing !! before && keys == before + missing
    ensures after == bag0 + multiset(keys - wanted)
  {
    assert keys - wanted == (before - wanted) + missing;
    AddedSets(before - wanted, missing);
  }

  // When the sorts return ------------------------------------------------------------------------------

  lemma DepsOf(reg: Registry, rank: string -> nat, mods: seq<Module>, m: Module, d: string)
    requires reg.Sound(rank) && m in mods && m in reg.all
    ensures m.Key() in Keys(mods) && (d in reg.Deps(m.Key()) <==> d in m.dependencies)
  {
    assert reg.Find(m.Key()) == [m];
  }

  /** The sort of an install, in terms of the requested names: it returns if and only if the base modules that
      the least complete set depends on are installed or requested. */
  lemma InstallSortReturnsIff(reg: Registry, rank: string -> nat, installed: set<string>, want: set<string>,
                              mods: seq<Module>)
    requires reg.Sound(rank) && (forall m :: m in mods ==> m in reg.all)
    requires Minimal(reg, installed, want, Keys(mods))
    ensures Returns(mods, installed) <==> BasePresent(reg, installed, Keys(mods))
    ensures Sortable(mods, installed) <==> BasePresent(reg, installed, Keys(mods))
  {
    ReturnsIffSortable(mods, installed);
    forall m, d | m in mods ensures m.Key() in Keys(mods) && (d in reg.Deps(m.Key()) <==> d in m.dependencies) {
      DepsOf(reg, rank, mods, m, d);
    }
    if BasePresent(reg, installed, Keys(mods)) {
      SoundSortable(reg, rank, mods, installed);
    } else {
      var n, d :| n in Keys(mods) && d in reg.Deps(n) && d in reg.BaseNames() && d !in installed && d !in Keys(mods);
      var m :| m in mods && m.Key() == n;
      MissingDependencyNeverReturns(mods, installed, m, d);
    }
  }

  /** The sort of an uninstall returns if and only if what the modules depend on is installed. */
  lemma UninstallSortReturnsIff(reg: Registry, rank: string -> nat, installed: set<string>, gone: set<string>,
                                mods: seq<Module>)
    requires reg.Sound(rank) && (forall m :: m in mods ==> m in reg.all) && Keys(mods) == gone * installed
    ensures Returns(mods, installed - Keys(mods)) <==> DepsInstalled(reg, installed, gone)
    ensures Sortable(mods, installed - Keys(mods)) <==> DepsInstalled(reg, installed, gone)
  {
    var rest := installed - Keys(mods);
    ReturnsIffSortable(mods, rest);
    forall m, d | m in mods ensures m.Key() in Keys(mods) && (d in reg.Deps(m.Key()) <==> d in m.dependencies) {
      DepsOf(reg, rank, mods, m, d);
    }
    if DepsInstalled(reg, installed, gone) {
      SoundSortable(reg, rank, mods, rest);
    } else {
      var n, d :| n in gone && n in installed && d in reg.Deps(n) && d !in installed;
      assert n in Keys(mods) && d !in Keys(mods);
      var m :| m in mods && m.Key() == n;
      MissingDependencyNeverReturns(mods, rest, m, d);
    }
  }

  /** A base module that a registered module depends on is relied on. */
  lemma ReliedOn(reg: Registry, n: string, d: string)
    requires d in reg.Deps(n) && d in reg.BaseNames()
    ensures d in reg.Relied()
  {
    var m := reg.Find(n)[0];
    assert m in reg.all && d in m.dependencies;
  }

  /** In a healthy database every call returns. */
  lemma HealthyReturns(reg: Registry, s: State, names: set<string>, commitOk: bool)
    requires Healthy(reg, s.installed)
    ensures InstallReturns(reg, s, names, commitOk) && UninstallReturns(reg, s, names)
    ensures !Unaccounted(reg, s.installed, names)
  {
    forall n, d | d in reg.Deps(n) && d in reg.BaseNames() ensures d in s.installed { ReliedOn(reg, n, d); }
  }

  // What one call does -----------------------------------------------------------------------------------

  /** An install whose n-th script fails. */
  ghost predicate PartlyInstalled(reg: Registry, s: State, want: set<string>, order: seq<Module>, n: nat, s': State) {
    && Minimal(reg, s.installed, want, Keys(order)) && (forall m :: m in order ==> m in reg.all)
    && InOrder(order, s.installed) && TablesIn(order) !! s.tables
    && n < |order| && s' == AfterFailure(s, order, n)
  }

  /** An uninstall that fails at the n-th module of its order. */
  ghost predicate PartlyUninstalled(reg: Registry, s: State, gone: set<string>, order: seq<Module>, n: nat, s': State) {
    && !Needed(reg, s.installed, gone) && Keys(order) == gone * s.installed && (forall m :: m in order ==> m in reg.all)
    && InOrder(order, s.installed - gone)
    && n < |order| && TablesIn(order[n + 1..]) !! BOOKKEEPING && s' == AfterFailedRemoval(s, order, n)
  }

  /** What one call can do to the database, an uninstall that fails with a module given twice excepted. */
  ghost predicate CallStep(reg: Registry, s: State, s': State) {
    || s' == s
    || (exists want :: want <= Keys(reg.all) && Installed(reg, s, want, s'))
    || (exists want, order, n :: PartlyInstalled(reg, s, want, order, n, s'))
    || (exists gone :: Uninstalled(reg, s, gone, s'))
    || (exists gone, order, n :: DistinctKeys(order) && PartlyUninstalled(reg, s, gone, order, n, s'))
  }

  /** Every such step, also of a call that fails half way, keeps the installed set closed under dependencies. */
  lemma StepKeepsHealth(reg: Registry, rank: string -> nat, s: State, s': State)
    requires reg.Sound(rank) && reg.Guarded() && Healthy(reg, s.installed) && CallStep(reg, s, s')
    ensures Healthy(reg, s'.installed)
  {
    if want :| want <= Keys(reg.all) && Installed(reg, s, want, s') {
      var got :| Minimal(reg, s.installed, want, got) && s'.installed == s.installed + got;
      RegisteredComplete(reg, rank, s.installed, want);
      InstallIsHealthy(reg, s.installed, want, got);
    } else if want, order, n :| PartlyInstalled(reg, s, want, order, n, s') {
      PartialInstallIsHealthy(reg, rank, s.installed, order, n);
    } else if gone :| Uninstalled(reg, s, gone, s') {
      GuardedStay(reg, s.installed, gone * s.installed);
      UninstallIsHealthy(reg, s.installed, gone);
    } else if gone, order, n :| DistinctKeys(order) && PartlyUninstalled(reg, s, gone, order, n, s') {
      PartialRemovalNeeds(reg, rank, s.installed, gone, order, n);
      LaterTables(reg, rank, order, n);
      LaterKeys(order, n);
      GuardedStay(reg, s.installed, Keys(order[n + 1..]));
      UninstallIsHealthy(reg, s.installed, Keys(order[n + 1..]));
    }
  }

  lemma RegisteredComplete(reg: Registry, rank: string -> nat, have: set<string>, want: set<string>)
    requires reg.Sound(rank) && want <= Keys(reg.all)
    ensures Complete(reg, have, want, Keys(reg.all))
  {
    forall n, d | n in Keys(reg.all) && d in reg.Deps(n) ensures d in Keys(reg.all) {
      assert reg.Find(n)[0] in reg.all && d in reg.Find(n)[0].dependencies;
    }
  }

  lemma InstallIsHealthy(reg: Registry, installed: set<string>, want: set<string>, got: set<string>)
    requires Healthy(reg, installed) && Minimal(reg, installed, want, got) && got <= Keys(reg.all)
    ensures Healthy(reg, installed + got)
  {
    forall n, d | n in got && d in reg.Deps(n) ensures d in installed + got {
      if d in reg.BaseNames() { ReliedOn(reg, n, d); }
    }
  }

  /** The modules before any place of an order that respects dependencies can be added. */
  lemma PartialInstallIsHealthy(reg: Registry, rank: string -> nat, installed: set<string>, order: seq<Module>, n: nat)
    requires reg.Sound(rank) && (forall m :: m in order ==> m in reg.all) && InOrder(order, installed) && n <= |order|
    ensures Healthy(reg, installed) ==> Healthy(reg, installed + Keys(order[..n]))
  {
    forall k, d | k in Keys(order[..n]) && d in reg.Deps(k) ensures d in installed + Keys(order[..n]) {
      var i := KeyAt(order[..n], k);
      assert order[i] in order && reg.Find(order[i].Key()) == [order[i]];
      assert order[..n][..i] == order[..i] && forall m :: m in order[..i] ==> m in order[..n];
    }
    MissingIsRegistered(reg, rank, order[..n]);
  }

  lemma UninstallIsHealthy(reg: Registry, installed: set<string>, gone: set<string>)
    requires !Needed(reg, installed, gone)
    ensures Healthy(reg, installed) && gone !! reg.Relied() ==> Healthy(reg, installed - gone)
  {
    if Healthy(reg, installed) {
      forall n, d | n in installed - gone && d in reg.Deps(n) ensures d !in gone { assert d in installed; }
    }
  }

  /** Modules without bookkeeping tables are not relied on. */
  lemma GuardedStay(reg: Registry, installed: set<string>, gone: set<string>)
    requires reg.Guarded() && reg.TablesOf(gone) !! BOOKKEEPING
    ensures gone !! reg.Relied()
  {
    forall b | b in reg.Relied() ensures b !in gone {
      var t :| t in reg.Tables(b) * BOOKKEEPING;
      assert b in gone ==> t in reg.TablesOf(gone);
    }
  }

  /** Nothing that stays depends on what a removal has taken out before it failed, unless a module is given
      twice. */
  lemma PartialRemovalNeeds(reg: Registry, rank: string -> nat, installed: set<string>, gone: set<string>,
                            order: seq<Module>, n: nat)
    requires reg.Sound(rank) && (forall m :: m in order ==> m in reg.all) && DistinctKeys(order)
    requires !Needed(reg, installed, gone) && Keys(order) == gone * installed
    requires InOrder(order, installed - gone) && n < |order|
    ensures !Needed(reg, installed, Keys(order[n + 1..]))
  {
    LaterKeys(order, n);
    forall k, d | k in installed && k !in Keys(order[n + 1..]) && d in reg.Deps(k) && d in installed
      ensures d !in Keys(order[n + 1..])
    {
      if k in gone {
        assert k in gone * installed;
        var i := KeyAt(order, k);
        NotLater(order, n, i);
        DistinctSplit(order, n, i);
        SuppliedBefore(reg, rank, order, installed - gone, i, d);
      }
      assert d in Keys(order[n + 1..]) ==> d in gone * installed;
    }
  }

  lemma SuppliedBefore(reg: Registry, rank: string -> nat, order: seq<Module>, existing: set<string>, i: nat, d: string)
    requires reg.Sound(rank) && (forall m :: m in order ==> m in reg.all) && InOrder(order, existing)
    requires i < |order| && d in reg.Deps(order[i].Key())
    ensures d in existing || d in Keys(order[..i])
  {
    assert order[i] in order && reg.Find(order[i].Key()) == [order[i]];
  }

  lemma NotLater(order: seq<Module>, n: nat, i: nat)
    requires n < |order| && i < |order| && order[i].Key() !in Keys(order[n + 1..])
    ensures i <= n
  {
    if i > n { LaterModule(order, n, i); }
  }

  lemma DistinctSplit(order: seq<Module>, n: nat, i: nat)
    requires i <= n < |order| && DistinctKeys(order)
    ensures Keys(order[..i]) !! Keys(order[n + 1..])
  {
    forall k | k in Keys(order[n + 1..]) ensures k !in Keys(order[..i]) {
      var j := KeyAt(order[n + 1..], k);
      forall m | m in order[..i] ensures m.Key() != k {
        var h :| 0 <= h < i && order[h] == m;
        assert order[h].Key() != order[n + 1 + j].Key();
      }
    }
  }

  lemma LaterTables(reg: Registry, rank: string -> nat, order: seq<Module>, n: nat)
    requires reg.Sound(rank) && (forall m :: m in order ==> m in reg.all) && n < |order|
    ensures TablesIn(order[n + 1..]) == reg.TablesOf(Keys(order[n + 1..]))
  {
    TablesAgree(reg, rank, order[n + 1..]);
  }

  lemma LaterKeys(order: seq<Module>, n: nat)
    requires n < |order|
    ensures Keys(order[n + 1..]) <= Keys(order)
  {
    forall m | m in order[n + 1..] ensures m in order {}
  }

  /** The database after an install that ends with `r`. */
  ghost predicate InstallLeaves(reg: Registry, s: State, want: set<string>, got: set<string>, order: seq<Module>,
                                failing: set<string>, r: Result, n: nat, s': State) {
    if r == InitialReadFailed || (r == Done && got != {}) then
      && Installed(reg, s, want, s')
      && InOrder(order, s.installed) && Keys(order) == got == s'.installed - s.installed
    else if r == MigrationFailed then
      && PartlyInstalled(reg, s, want, order, n, s')
      && StopsAt(order, s.tables, failing, n) && Keys(order) == got
    else s' == s
  }

  lemma LeftByInstall(reg: Registry, rank: string -> nat, s: State, want: set<string>, got: set<string>,
                      order: seq<Module>, failing: set<string>, r: Result, n: nat, s': State)
    requires reg.Sound(rank) && want <= Keys(reg.all) && InstallLeaves(reg, s, want, got, order, failing, r, n, s')
    ensures CallStep(reg, s, s')
    ensures Healthy(reg, s.installed) ==> Healthy(reg, s'.installed)
  {
    if r == MigrationFailed {
      PartialInstallIsHealthy(reg, rank, s.installed, order, n);
    } else if s' != s && Healthy(reg, s.installed) {
      var g :| Minimal(reg, s.installed, want, g) && s'.installed == s.installed + g;
      RegisteredComplete(reg, rank, s.installed, want);
      InstallIsHealthy(reg, s.installed, want, g);
    }
  }

  /** The database after an uninstall that ends with `r`. */
  ghost predicate UninstallLeaves(reg: Registry, s: State, names: seq<string>, order: seq<Module>,
                                  failing: set<string>, r: Result, n: nat, s': State) {
    var gone := Requested(reg, names);
    if r == Done && gone * s.installed != {} then Uninstalled(reg, s, gone, s')
    else if r == MigrationFailed || r == Deadlocked then
      && PartlyUninstalled(reg, s, gone, order, n, s')
      && RemovalStopsAt(order, s, failing, n) && r == Removal(order, s, failing, n)
      && (DistinctKeys(order) <==> !RepeatsInstalled(reg, names, s.installed))
    else s' == s
  }

  lemma LeftByUninstall(reg: Registry, rank: string -> nat, s: State, names: seq<string>, order: seq<Module>,
                        failing: set<string>, r: Result, n: nat, s': State)
    requires reg.Sound(rank) && UninstallLeaves(reg, s, names, order, failing, r, n, s')
    ensures r == Done || !RepeatsInstalled(reg, names, s.installed) ==> CallStep(reg, s, s')
    ensures r == Done || !RepeatsInstalled(reg, names, s.installed) ==>
              reg.Guarded() && Healthy(reg, s.installed) ==> Healthy(reg, s'.installed)
  {
    if (r == Done || !RepeatsInstalled(reg, names, s.installed)) && reg.Guarded() && Healthy(reg, s.installed) {
      StepKeepsHealth(reg, rank, s, s');
    }
  }

  // The sorts of a commit --------------------------------------------------------------------------------

  /** The registered modules that have a row, in the order of the registry. */
  function InstalledModules(reg: Registry, installed: set<string>): seq<Module> {
    Select(reg.all, (m: Module) => m.Key() in installed)
  }

  /** Those that own a table with changes. */
  function DirectlyAffected(reg: Registry, installed: set<string>, changed: set<string>): seq<Module> {
    Select(InstalledModules(reg, installed), (m: Module) => m.tables * changed != {})
  }

  /** The dependencies of the modules that are not installed, base modules excepted, each once. */
  function NotInstalled(reg: Registry, installed: set<string>, deps: seq<string>): (r: seq<string>)
    ensures forall d :: d in r <==> d in deps && d !in installed && d !in reg.BaseNames()
  {
    if deps == [] then []
    else
      var d, rest := deps[|deps| - 1], NotInstalled(reg, installed, deps[..|deps| - 1]);
      if d in installed || d in reg.BaseNames() || d in rest then rest else rest + [d]
  }

  lemma {:induction false} NothingNotInstalled(reg: Registry, installed: set<string>, deps: seq<string>)
    requires forall d :: d in deps ==> d in installed
    ensures NotInstalled(reg, installed, deps) == []
  {
    if deps != [] { NothingNotInstalled(reg, installed, deps[..|deps| - 1]); }
  }

  function AllDependencies(ms: seq<Module>): (r: seq<string>)
    ensures forall d :: d in r <==> exists m :: m in ms && d in m.dependencies
  {
    if ms == [] then [] else AllDependencies(ms[..|ms| - 1]) + ms[|ms| - 1].dependencies
  }

  function FindAll(reg: Registry, names: seq<string>): seq<Module> {
    if names == [] then [] else FindAll(reg, names[..|names| - 1]) + reg.Find(names[|names| - 1])
  }

  /** getModulesWithChanges: the modules directly affected and what they lack. */
  function ModulesWithChanges(reg: Registry, installed: set<string>, changed: set<string>): seq<Module> {
    var directly := DirectlyAffected(reg, installed, changed);
    directly + FindAll(reg, NotInstalled(reg, installed, AllDependencies(directly)))
  }

  lemma SelectHas<T(!new)>(s: seq<T>, p: T -> bool, x: T)
    ensures x in Select(s, p) <==> x in s && p(x)
  {
    SelectCounts(s, p, x);
    assert x in Select(s, p) <==> x in multiset(Select(s, p));
  }

  lemma InstalledHas(reg: Registry, rank: string -> nat, installed: set<string>, m: Module)
    requires reg.Sound(rank)
    ensures m in InstalledModules(reg, installed) <==> m in reg.all && m.Key() in installed
    ensures m in InstalledModules(reg, installed) ==> m.Deps() == reg.Deps(m.Key())
  {
    SelectHas(reg.all, (x: Module) => x.Key() in installed, m);
    if m in reg.all { assert reg.Find(m.Key()) == [m]; }
  }

  lemma {:induction false} FindAllHas(reg: Registry, rank: string -> nat, names: seq<string>, m: Module)
    requires reg.Sound(rank)
    ensures m in FindAll(reg, names) <==> m in reg.all && m.Key() in names
    decreases |names|
  {
    if names != [] {
      var n := |names| - 1;
      FindAllHas(reg, rank, names[..n], m);
      assert names == names[..n] + [names[n]];
      if m in reg.all { assert reg.Find(m.Key()) == [m]; }
    }
  }

  lemma AffectedHas(reg: Registry, rank: string -> nat, installed: set<string>, changed: set<string>, m: Module)
    requires reg.Sound(rank)
    ensures m in DirectlyAffected(reg, installed, changed) <==>
            m in reg.all && m.Key() in installed && exists t :: t in m.tables && t in changed
  {
    SelectHas(InstalledModules(reg, installed), (x: Module) => x.tables * changed != {}, m);
    InstalledHas(reg, rank, installed, m);
    if m.tables * changed != {} { var t :| t in m.tables * changed; }
    if t :| t in m.tables && t in changed { assert t in m.tables * changed; }
  }

  /** Whatever is installed: the modules with changes are the installed ones that own a changed table, and the
      registered ones that such a module depends on and that are missing, base modules excepted. */
  lemma ModulesWithChangesMean(reg: Registry, rank: string -> nat, installed: set<string>, changed: set<string>,
                               m: Module)
    requires reg.Sound(rank)
    ensures m in ModulesWithChanges(reg, installed, changed) <==>
            m in reg.all &&
            if m.Key() in installed then exists t :: t in m.tables && t in changed
            else
              && m.Key() != "iasql_platform@" + reg.version && m.Key() != "iasql_functions@" + reg.version
              && exists x, t :: x in reg.all && x.Key() in installed && t in x.tables && t in changed
                                && m.Key() in x.dependencies
  {
    var directly := DirectlyAffected(reg, installed, changed);
    AffectedHas(reg, rank, installed, changed, m);
    AffectedNeeds(reg, rank, installed, changed, m.Key());
    FindAllHas(reg, rank, NotInstalled(reg, installed, AllDependencies(directly)), m);
  }

  lemma AffectedNeeds(reg: Registry, rank: string -> nat, installed: set<string>, changed: set<string>, d: string)
    requires reg.Sound(rank)
    ensures d in AllDependencies(DirectlyAffected(reg, installed, changed)) <==>
            exists x, t :: x in reg.all && x.Key() in installed && t in x.tables && t in changed && d in x.dependencies
  {
    var directly := DirectlyAffected(reg, installed, changed);
    if x, t :| x in reg.all && x.Key() in installed && t in x.tables && t in changed && d in x.dependencies {
      AffectedHas(reg, rank, installed, changed, x);
      assert x in directly;
    }
    if x :| x in directly && d in x.dependencies {
      AffectedHas(reg, rank, installed, changed, x);
      var t :| t in x.tables && t in changed;
    }
  }

  /** In a healthy database no module is indirectly affected, and both sorts of a commit return and leave their
      input as it is. */
  lemma HealthySortsKeepOrder(reg: Registry, rank: string -> nat, installed: set<string>, changed: set<string>)
    requires reg.Sound(rank) && Healthy(reg, installed)
    ensures ModulesWithChanges(reg, installed, changed) == DirectlyAffected(reg, installed, changed)
    ensures InOrder(DirectlyAffected(reg, installed, changed), installed)
    ensures InOrder(InstalledModules(reg, installed), installed)
    ensures Returns(ModulesWithChanges(reg, installed, changed), installed)
    ensures Returns(InstalledModules(reg, installed), installed)
  {
    var all, directly := InstalledModules(reg, installed), DirectlyAffected(reg, installed, changed);
    forall m, d | m in all && d in m.dependencies ensures d in installed {
      InstalledHas(reg, rank, installed, m);
      assert d in m.Deps();
    }
    forall m | m in directly ensures m in all { SelectHas(all, (x: Module) => x.tables * changed != {}, m); }
    NothingNotInstalled(reg, installed, AllDependencies(directly));
    assert directly + [] == directly;
    InOrderReturns(all, installed);
    InOrderReturns(directly, installed);
  }

  lemma InOrderReturns(ms: seq<Module>, existing: set<string>)
    requires InOrder(ms, existing)
    ensures Returns(ms, existing)
  {
    OrderIsSortable(ms, ms, existing);
    ReturnsIffSortable(ms, existing);
  }

  /** The sort of all installed modules returns if and only if their dependencies are installed. */
  lemma CommitSortReturnsIff(reg: Registry, rank: string -> nat, installed: set<string>)
    requires reg.Sound(rank)
    ensures Returns(InstalledModules(reg, installed), installed) <==>
            forall n :: n in installed ==> reg.Deps(n) <= installed
  {
    var all := InstalledModules(reg, installed);
    if forall n :: n in installed ==> reg.Deps(n) <= installed {
      forall m, d | m in all && d in m.dependencies ensures d in installed {
        InstalledHas(reg, rank, installed, m);
        assert d in m.Deps();
      }
      InOrderReturns(all, installed);
    } else {
      var n, d :| n in installed && d in reg.Deps(n) && d !in installed;
      var m := reg.Find(n)[0];
      InstalledHas(reg, rank, installed, m);
      forall x | x in all ensures x.Key() in installed { InstalledHas(reg, rank, installed, x); }
      MissingDependencyNeverReturns(all, installed, m, d);
    }
  }
}
