/** Models src/services/mod-sort.ts: the queue-rotation topological sort of modules. */
module ModSort {
  import opened Fixpoint

  datatype Module = Module(name: string, version: string, dependencies: seq<string>, tables: set<string>) {
    function Key(): string { name + "@" + version }

    function Deps(): set<string> { set d | d in dependencies }

    predicate Ready(names: set<string>) { forall d :: d in dependencies ==> d in names }

    function AsRule(): Rule<string> { Rule(Key(), Deps()) }
  }

  function Rules(ms: seq<Module>): (rs: seq<Rule<string>>)
    ensures |rs| == |ms| && forall i :: 0 <= i < |ms| ==> rs[i] == ms[i].AsRule()
  {
    seq(|ms|, i requires 0 <= i < |ms| => ms[i].AsRule())
  }

  function Keys(ms: seq<Module>): set<string> { set m | m in ms :: m.Key() }

  ghost function Base(existing: set<string>): iset<string> { iset d | d in existing }

  /** Every module is reachable from the existing names by repeatedly adding modules whose
      dependencies are satisfied. */
  ghost predicate Sortable(ms: seq<Module>, existing: set<string>) {
    AllFire(Rules(ms), Base(existing))
  }

  /** Each module's dependencies exist already or appear earlier. */
  predicate InOrder(ms: seq<Module>, existing: set<string>) {
    forall i, d :: 0 <= i < |ms| && d in ms[i].dependencies ==> d in existing || d in Keys(ms[..i])
  }

  /** The variables of the loop. */
  datatype Sorting = Sorting(queue: seq<Module>, names: set<string>, sorted: seq<Module>) {
    /** One turn: shift the head, then keep it or push it back. */
    function Turn(): Sorting
      requires queue != []
    {
      var m := queue[0];
      if m.Ready(names) then Sorting(queue[1..], names + {m.Key()}, sorted + [m])
      else Sorting(queue[1..] + [m], names, sorted)
    }

    function Turns(n: nat): Sorting
      decreases n
    {
      if n == 0 || queue == [] then this else Turn().Turns(n - 1)
    }

    /** Position of the first ready module, or the queue length when none is ready. */
    function FirstReady(): (p: nat)
      ensures p <= |queue|
      ensures p < |queue| ==> queue[p].Ready(names)
      ensures forall i :: 0 <= i < p ==> !queue[i].Ready(names)
      decreases |queue|
    {
      if queue == [] || queue[0].Ready(names) then 0 else 1 + Sorting(queue[1..], names, sorted).FirstReady()
    }
  }

  function Start(ms: seq<Module>, existing: set<string>): Sorting { Sorting(ms, existing, []) }

  /** The loop of the source comes to an end. */
  ghost predicate Returns(ms: seq<Module>, existing: set<string>) {
    exists n: nat :: Start(ms, existing).Turns(n).queue == []
  }

  /** What every turn keeps. */
  ghost predicate Inv(s: Sorting, ms: seq<Module>, existing: set<string>) {
    && multiset(s.queue) + multiset(s.sorted) == multiset(ms)
    && s.names == existing + Keys(s.sorted)
    && InOrder(s.sorted, existing)
  }

  lemma TurnKeepsInv(s: Sorting, ms: seq<Module>, existing: set<string>)
    requires Inv(s, ms, existing) && s.queue != []
    ensures Inv(s.Turn(), ms, existing)
  {
    var m := s.queue[0];
    assert s.queue == [m] + s.queue[1..];
    var t := s.Turn();
    if m.Ready(s.names) {
      forall i, d | 0 <= i < |t.sorted| && d in t.sorted[i].dependencies
        ensures d in existing || d in Keys(t.sorted[..i])
      {
        assert i < |s.sorted| ==> t.sorted[..i] == s.sorted[..i] && t.sorted[i] == s.sorted[i];
        assert i == |s.sorted| ==> t.sorted[..i] == s.sorted && t.sorted[i] == m;
      }
    }
  }

  lemma MemberRule(ms: seq<Module>, m: Module)
    ensures m in ms <==> exists i :: 0 <= i < |ms| && ms[i] == m
    ensures m in ms ==> m.AsRule() in Rules(ms)
  {
    if m in ms {
      var i :| 0 <= i < |ms| && ms[i] == m;
      assert Rules(ms)[i] == m.AsRule();
    }
  }

  lemma BagMember(s: Sorting, ms: seq<Module>, m: Module)
    requires multiset(s.queue) + multiset(s.sorted) == multiset(ms)
    ensures m in ms <==> m in s.queue || m in s.sorted
  {
    assert m in ms <==> m in multiset(ms);
    assert m in multiset(s.queue) + multiset(s.sorted) <==> m in s.queue || m in s.sorted;
  }

  /** While modules are left and all are reachable, one of them is ready: otherwise the keys sorted so
      far would be a closed set that misses a reachable module. */
  lemma SomeReady(s: Sorting, ms: seq<Module>, existing: set<string>)
    requires Inv(s, ms, existing) && Sortable(ms, existing) && s.queue != []
    ensures s.FirstReady() < |s.queue|
  {
    if s.FirstReady() == |s.queue| {
      var c := Keys(s.sorted);
      var rules, base := Rules(ms), Base(existing);
      forall r | r in rules ensures r.head in c || !Supported(r.body, base, c) {
        var i :| 0 <= i < |rules| && rules[i] == r;
        BagMember(s, ms, ms[i]);
        if ms[i] in s.queue { UnreadyUnsupported(s.names, existing, c, ms[i]); }
      }
      var m := s.queue[0];
      BagMember(s, ms, m);
      MemberRule(ms, m);
      UnreadyUnsupported(s.names, existing, c, m);
      StuckDoesNotFire(rules, base, c, m.AsRule());
    }
  }

  lemma UnreadyUnsupported(names: set<string>, existing: set<string>, c: set<string>, m: Module)
    requires names == existing + c && !m.Ready(names)
    ensures !Supported(m.AsRule().body, Base(existing), c)
  {
    var d :| d in m.dependencies && d !in names;
    assert d in m.AsRule().body;
  }

  /** A turn that only rotates brings the first ready module one place nearer to the head. */
  lemma RotationApproaches(s: Sorting)
    requires s.queue != [] && 0 < s.FirstReady() < |s.queue|
    ensures s.Turn().FirstReady() == s.FirstReady() - 1
  {
    var t, p := s.Turn(), s.FirstReady();
    assert !s.queue[0].Ready(s.names);
    assert t.queue[p - 1] == s.queue[p] && t.queue[p - 1].Ready(t.names);
    forall i | 0 <= i < p - 1 ensures !t.queue[i].Ready(t.names) { assert t.queue[i] == s.queue[i + 1]; }
  }

  lemma {:induction false} Drains(s: Sorting, ms: seq<Module>, existing: set<string>) returns (n: nat)
    requires Inv(s, ms, existing) && Sortable(ms, existing)
    ensures s.Turns(n).queue == []
    decreases |s.queue|, s.FirstReady()
  {
    if s.queue == [] {
      n := 0;
    } else {
      SomeReady(s, ms, existing);
      TurnKeepsInv(s, ms, existing);
      if s.FirstReady() > 0 { RotationApproaches(s); }
      var k := Drains(s.Turn(), ms, existing);
      n := k + 1;
    }
  }

  lemma {:induction false} TurnsKeepInv(s: Sorting, ms: seq<Module>, existing: set<string>, n: nat)
    requires Inv(s, ms, existing)
    ensures Inv(s.Turns(n), ms, existing)
    decreases n
  {
    if n > 0 && s.queue != [] {
      TurnKeepsInv(s, ms, existing);
      TurnsKeepInv(s.Turn(), ms, existing, n - 1);
    }
  }

  lemma StartInv(ms: seq<Module>, existing: set<string>)
    ensures Inv(Start(ms, existing), ms, existing)
  {
    assert multiset(ms) + multiset([]) == multiset(ms);
  }

  /** A valid order of the same modules shows that they are sortable. */
  lemma OrderIsSortable(order: seq<Module>, ms: seq<Module>, existing: set<string>)
    requires multiset(order) == multiset(ms) && InOrder(order, existing)
    ensures Sortable(ms, existing)
  {
    var rules, base := Rules(order), Base(existing);
    forall i | 0 <= i < |rules| ensures Supported(rules[i].body, base, Heads(rules[..i])) {
      forall d | d in rules[i].body ensures d in base || d in Heads(rules[..i]) {
        assert d in order[i].dependencies;
        if d !in existing {
          var m :| m in order[..i] && m.Key() == d;
          var j :| 0 <= j < i && order[..i][j] == m;
          assert rules[..i][j] == m.AsRule();
        }
      }
    }
    forall m ensures m in order <==> m in ms { assert m in multiset(order) <==> m in multiset(ms); }
    forall r | r in rules ensures r in Rules(ms) {
      var i :| 0 <= i < |rules| && rules[i] == r;
      MemberRule(ms, order[i]);
    }
    forall r | r in Rules(ms) ensures Fires(Rules(ms), base, r) {
      var i :| 0 <= i < |ms| && Rules(ms)[i] == r;
      assert ms[i] in order;
      var j :| 0 <= j < |order| && order[j] == ms[i];
      OrderFires(Rules(ms), base, rules, j);
    }
  }

  /** sortModules returns if and only if every module is reachable from the existing names. */
  lemma ReturnsIffSortable(ms: seq<Module>, existing: set<string>)
    ensures Returns(ms, existing) <==> Sortable(ms, existing)
  {
    var s := Start(ms, existing);
    StartInv(ms, existing);
    if Sortable(ms, existing) {
      var n := Drains(s, ms, existing);
    }
    if Returns(ms, existing) {
      var n: nat :| s.Turns(n).queue == [];
      TurnsKeepInv(s, ms, existing, n);
      assert multiset(s.Turns(n).sorted) == multiset(ms);
      OrderIsSortable(s.Turns(n).sorted, ms, existing);
    }
  }

  /** Equivalently: if and only if some order of the modules respects their dependencies. */
  lemma SortableIffOrderExists(ms: seq<Module>, existing: set<string>)
    ensures Sortable(ms, existing) <==>
            exists order :: multiset(order) == multiset(ms) && InOrder(order, existing)
  {
    if Sortable(ms, existing) {
      StartInv(ms, existing);
      var n := Drains(Start(ms, existing), ms, existing);
      TurnsKeepInv(Start(ms, existing), ms, existing, n);
      var order := Start(ms, existing).Turns(n).sorted;
      assert multiset(order) == multiset(ms) && InOrder(order, existing);
    }
    if order: seq<Module> :| multiset(order) == multiset(ms) && InOrder(order, existing) {
      OrderIsSortable(order, ms, existing);
    }
  }

  lemma OrderSupplies(order: seq<Module>, ms: seq<Module>, existing: set<string>, m: Module, d: string)
    requires multiset(order) == multiset(ms) && InOrder(order, existing) && m in ms && d in m.dependencies
    ensures d in existing || d in Keys(ms)
  {
    assert m in multiset(order);
    forall x ensures x in order <==> x in ms { assert x in multiset(order) <==> x in multiset(ms); }
    var i :| 0 <= i < |order| && order[i] == m;
    assert forall e :: e in order[..i] ==> e in ms;
  }

  /** A dependency that neither exists nor belongs to the list makes sortModules spin for ever. */
  lemma MissingDependencyNeverReturns(ms: seq<Module>, existing: set<string>, m: Module, d: string)
    requires m in ms && d in m.dependencies && d !in existing && d !in Keys(ms)
    ensures !Returns(ms, existing)
  {
    ReturnsIffSortable(ms, existing);
    SortableIffOrderExists(ms, existing);
    if order: seq<Module> :| multiset(order) == multiset(ms) && InOrder(order, existing) {
      OrderSupplies(order, ms, existing, m, d);
    }
  }

  /** The loop itself.  By ReturnsIffSortable the precondition is exactly that the source returns. */
  method SortModules(modules: seq<Module>, existing: set<string>) returns (sorted: seq<Module>)
    requires Sortable(modules, existing)
    ensures multiset(sorted) == multiset(modules) && InOrder(sorted, existing)
    ensures InOrder(modules, existing) ==> sorted == modules
  {
    var moduleList := modules;
    var names := existing;
    sorted := [];
    StartInv(modules, existing);
    ghost var rotated := false;
    while moduleList != []
      invariant Inv(Sorting(moduleList, names, sorted), modules, existing)
      invariant !rotated ==> sorted + moduleList == modules
      invariant rotated ==> !InOrder(modules, existing)
      decreases |moduleList|, Sorting(moduleList, names, sorted).FirstReady()
    {
      ghost var before := Sorting(moduleList, names, sorted);
      TurnProgresses(before, modules, existing);
      var m := moduleList[0];
      moduleList := moduleList[1..];
      if m.Ready(names) {
        names := names + {m.Key()};
        sorted := sorted + [m];
      } else {
        moduleList := moduleList + [m];
        rotated := true;
      }
      assert Sorting(moduleList, names, sorted) == before.Turn();
    }
  }

  /** What one turn does for the loop: a ready head leaves the queue, another makes the first ready module
      come closer. */
  lemma TurnProgresses(s: Sorting, ms: seq<Module>, existing: set<string>)
    requires Inv(s, ms, existing) && s.queue != [] && Sortable(ms, existing)
    ensures Inv(s.Turn(), ms, existing)
    ensures s.queue[0].Ready(s.names) ==>
              |s.Turn().queue| < |s.queue| && s.Turn().sorted + s.Turn().queue == s.sorted + s.queue
    ensures !s.queue[0].Ready(s.names) ==>
              |s.Turn().queue| == |s.queue| && s.Turn().FirstReady() < s.FirstReady()
    ensures !s.queue[0].Ready(s.names) && s.sorted + s.queue == ms ==> !InOrder(ms, existing)
  {
    TurnKeepsInv(s, ms, existing);
    if s.queue[0].Ready(s.names) {
      assert [s.queue[0]] + s.queue[1..] == s.queue;
    } else {
      SomeReady(s, ms, existing);
      RotationApproaches(s);
      if s.sorted + s.queue == ms { HeadNotReady(s, ms, existing); }
    }
  }

  lemma HeadNotReady(s: Sorting, ms: seq<Module>, existing: set<string>)
    requires Inv(s, ms, existing) && s.queue != [] && s.sorted + s.queue == ms && !s.queue[0].Ready(s.names)
    ensures !InOrder(ms, existing)
  {
    var d :| d in s.queue[0].dependencies && d !in s.names;
    var i := |s.sorted|;
    assert ms[i] == s.queue[0] && ms[..i] == s.sorted;
  }
}
