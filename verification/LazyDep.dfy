/** Models src/services/lazy-dep.ts: run every generator, rerun the failures, stop when a whole pass fails. */
module LazyDep {
  import opened Fixpoint

  /** How one generator call ends.  A rejection whose reason is not an object breaks the error bookkeeping
      of the loader itself, which then throws a TypeError instead of retrying. */
  datatype Outcome = Resolved | Rejected | RejectedNonObject

  datatype Status<G> = Loaded | Halted(generatorsToRun: seq<G>) | Crashed

  /** End of a run: the world, the status, the number of generator calls and the calls that resolved. */
  datatype Load<W, G> = Load(w: W, status: Status<G>, calls: nat, resolved: seq<G>) {
    /** The same end, after earlier calls and successes. */
    function After(earlier: nat, before: seq<G>): Load<W, G> {
      Load(w, status, earlier + calls, before + resolved)
    }
  }

  datatype Pass<W, G> = Pass(w: W, rerun: seq<G>, crashed: bool, calls: nat, resolved: seq<G>)

  type Call<!W, !G> = (W, G) -> (W, Outcome)

  /** One round over the generators, in order. */
  function RunPass<W, G>(call: Call<W, G>, gens: seq<G>, w: W): (p: Pass<W, G>)
    ensures p.calls <= |gens| && |p.rerun| <= |gens|
    ensures p.crashed ==> |p.rerun| < |gens|
    ensures !p.crashed ==> |p.rerun| + |p.resolved| == |gens| && (p.resolved == [] ==> p.rerun == gens)
    decreases |gens|
  {
    if gens == [] then Pass(w, [], false, 0, []) else
      var p := RunPass(call, gens[..|gens| - 1], w);
      if p.crashed then p else
        var g := gens[|gens| - 1];
        var (w', o) := call(p.w, g);
        match o
        case Resolved => Pass(w', p.rerun, false, p.calls + 1, p.resolved + [g])
        case Rejected => Pass(w', p.rerun + [g], false, p.calls + 1, p.resolved)
        case RejectedNonObject => Pass(w', p.rerun, true, p.calls + 1, p.resolved)
  }

  lemma {:induction false} PassBag<W, G>(call: Call<W, G>, gens: seq<G>, w: W)
    ensures var p := RunPass(call, gens, w);
            && multiset(p.resolved) <= multiset(gens)
            && (!p.crashed ==> multiset(p.rerun) + multiset(p.resolved) == multiset(gens))
    decreases |gens|
  {
    if gens != [] {
      var n := |gens| - 1;
      PassBag(call, gens[..n], w);
      assert gens == gens[..n] + [gens[n]];
      assert multiset(gens) == multiset(gens[..n]) + multiset{gens[n]};
    }
  }

  /** The whole loader. */
  function Run<W, G>(call: Call<W, G>, gens: seq<G>, w: W): Load<W, G>
    decreases |gens|
  {
    var p := RunPass(call, gens, w);
    if p.crashed then Load(p.w, Crashed, p.calls, p.resolved)
    else if |p.rerun| == |gens| then Load(p.w, if gens == [] then Loaded else Halted(gens), p.calls, p.resolved)
    else if p.rerun == [] then Load(p.w, Loaded, p.calls, p.resolved)
    else Run(call, p.rerun, p.w).After(p.calls, p.resolved)
  }

  /** One `for` loop of the source: await each generator in turn and collect those that reject. */
  method RunRound<W, G>(call: Call<W, G>, generatorsToRun: seq<G>, start: W) returns (p: Pass<W, G>)
    ensures p == RunPass(call, generatorsToRun, start)
  {
    p := Pass(start, [], false, 0, []);
    for i := 0 to |generatorsToRun|
      invariant !p.crashed && p == RunPass(call, generatorsToRun[..i], start)
    {
      var g := generatorsToRun[i];
      assert generatorsToRun[..i + 1][..i] == generatorsToRun[..i];
      var (w, o) := call(p.w, g);
      match o
      case Resolved => p := Pass(w, p.rerun, false, p.calls + 1, p.resolved + [g]);
      case Rejected => p := Pass(w, p.rerun + [g], false, p.calls + 1, p.resolved);
      case RejectedNonObject =>
        p := Pass(w, p.rerun, true, p.calls + 1, p.resolved);
        CrashStays(call, generatorsToRun, start, i + 1);
        return;
    }
    assert generatorsToRun[..|generatorsToRun|] == generatorsToRun;
  }

  method LazyLoader<W, G>(call: Call<W, G>, promiseGenerators: seq<G>, start: W) returns (r: Load<W, G>)
    ensures r == Run(call, promiseGenerators, start)
  {
    var generatorsToRun := promiseGenerators;
    var w := start;
    var calls: nat, resolved: seq<G> := 0, [];
    while true
      invariant Run(call, promiseGenerators, start) == Run(call, generatorsToRun, w).After(calls, resolved)
      decreases |generatorsToRun|
    {
      var p := RunRound(call, generatorsToRun, w);
      var length := |generatorsToRun|;
      AfterTwice(Run(call, p.rerun, p.w), p.calls, p.resolved, calls, resolved);
      w, calls, resolved := p.w, calls + p.calls, resolved + p.resolved;
      if p.crashed { return Load(w, Crashed, calls, resolved); }
      if length == |p.rerun| { break; }
      generatorsToRun := p.rerun;
      if generatorsToRun == [] { break; }
    }
    r := Load(w, if generatorsToRun == [] then Loaded else Halted(generatorsToRun), calls, resolved);
  }

  lemma AfterTwice<W, G>(r: Load<W, G>, c: nat, s: seq<G>, c': nat, s': seq<G>)
    ensures r.After(c, s).After(c', s') == r.After(c' + c, s' + s)
  {
    assert s' + (s + r.resolved) == s' + s + r.resolved;
  }

  lemma {:induction false} CrashStays<W, G>(call: Call<W, G>, gens: seq<G>, w: W, i: nat)
    requires i <= |gens| && RunPass(call, gens[..i], w).crashed
    ensures RunPass(call, gens, w) == RunPass(call, gens[..i], w)
    decreases |gens|
  {
    if i == |gens| {
      assert gens[..i] == gens;
    } else {
      assert gens[..|gens| - 1][..i] == gens[..i];
      CrashStays(call, gens[..|gens| - 1], w, i);
    }
  }

  /** 1 + 2 + ... + n */
  function Triangular(n: nat): nat { if n == 0 then 0 else Triangular(n - 1) + n }

  lemma {:induction false} TriangularGrows(k: nat, n: nat)
    requires k <= n
    ensures Triangular(k) <= Triangular(n)
    decreases n
  {
    if k < n { TriangularGrows(k, n - 1); }
  }

  lemma {:induction false} TriangularClosed(n: nat)
    ensures 2 * Triangular(n) == n * (n + 1)
  {
    if n > 0 {
      TriangularClosed(n - 1);
    }
  }

  /** For arbitrary generators: at most n(n+1)/2 calls. */
  lemma {:induction false} CallBound<W, G>(call: Call<W, G>, gens: seq<G>, w: W)
    ensures Run(call, gens, w).calls <= Triangular(|gens|) && 2 * Triangular(|gens|) == |gens| * (|gens| + 1)
    decreases |gens|
  {
    var p, n := RunPass(call, gens, w), |gens|;
    TriangularClosed(n);
    if !p.crashed && 0 < |p.rerun| < n {
      CallBound(call, p.rerun, p.w);
      TriangularGrows(|p.rerun|, n - 1);
    }
  }

  /** For arbitrary generators: none resolves twice, all resolve on success, and what is left at a halt
      is exactly what never resolved. */
  lemma {:induction false} ResolvedOnce<W, G>(call: Call<W, G>, gens: seq<G>, w: W)
    ensures var r := Run(call, gens, w);
            && multiset(r.resolved) <= multiset(gens)
            && (r.status.Loaded? ==> multiset(r.resolved) == multiset(gens))
            && (r.status.Halted? ==>
                  multiset(r.resolved) + multiset(r.status.generatorsToRun) == multiset(gens)
                  && r.status.generatorsToRun != [])
    decreases |gens|
  {
    PassBag(call, gens, w);
    var p := RunPass(call, gens, w);
    if !p.crashed && 0 < |p.rerun| < |gens| {
      ResolvedOnce(call, p.rerun, p.w);
      var r := Run(call, p.rerun, p.w);
      assert multiset(p.resolved + r.resolved) == multiset(p.resolved) + multiset(r.resolved);
    }
  }

  lemma ResolvedCount<W, G>(call: Call<W, G>, gens: seq<G>, w: W)
    ensures var r := Run(call, gens, w);
            && (r.status.Loaded? ==> |r.resolved| == |gens|)
            && (r.status.Halted? ==>
                  |r.resolved| + |r.status.generatorsToRun| == |gens| && r.status.generatorsToRun != [])
  {
    ResolvedOnce(call, gens, w);
    var r := Run(call, gens, w);
    if r.status.Loaded? { assert |multiset(r.resolved)| == |multiset(gens)|; }
    if r.status.Halted? {
      assert |multiset(r.resolved) + multiset(r.status.generatorsToRun)| == |multiset(gens)|;
    }
  }

  lemma Members<G>(a: seq<G>, b: seq<G>, all: seq<G>)
    requires multiset(a) + multiset(b) == multiset(all)
    ensures forall g :: g in all <==> g in a || g in b
  {
    forall g ensures g in all <==> g in a || g in b {
      assert g in all <==> g in multiset(all);
      assert g in multiset(a) + multiset(b) <==> g in a || g in b;
    }
  }

  /** What every call keeps, the run keeps. */
  lemma {:induction false} RunKeeps<W(!new), G(!new)>(call: Call<W, G>, all: seq<G>, inv: W -> bool, gens: seq<G>, w: W)
    requires forall v, g {:trigger call(v, g)} :: inv(v) && g in all ==> inv(call(v, g).0)
    requires inv(w) && forall g :: g in gens ==> g in all
    ensures inv(Run(call, gens, w).w)
    decreases |gens|
  {
    PassKeeps(call, all, inv, gens, w);
    var p := RunPass(call, gens, w);
    if !p.crashed && 0 < |p.rerun| < |gens| {
      PassBag(call, gens, w);
      Members(p.rerun, p.resolved, gens);
      RunKeeps(call, all, inv, p.rerun, p.w);
    }
  }

  lemma {:induction false} PassKeeps<W(!new), G(!new)>(call: Call<W, G>, all: seq<G>, inv: W -> bool,
      gens: seq<G>, w: W)
    requires forall v, g {:trigger call(v, g)} :: inv(v) && g in all ==> inv(call(v, g).0)
    requires inv(w) && forall g :: g in gens ==> g in all
    ensures inv(RunPass(call, gens, w).w)
    decreases |gens|
  {
    if gens != [] { PassKeeps(call, all, inv, gens[..|gens| - 1], w); }
  }

  // What breaks the loader -------------------------------------------------------------------------

  /** The calls of one round, each with the world it starts from. */
  function PassCalls<W, G>(call: Call<W, G>, gens: seq<G>, w: W): seq<(W, G)>
    decreases |gens|
  {
    if gens == [] then []
    else
      var n := |gens| - 1;
      var p := RunPass(call, gens[..n], w);
      PassCalls(call, gens[..n], w) + if p.crashed then [] else [(p.w, gens[n])]
  }

  /** The calls of the whole loader. */
  function RunCalls<W, G>(call: Call<W, G>, gens: seq<G>, w: W): seq<(W, G)>
    decreases |gens|
  {
    var p := RunPass(call, gens, w);
    PassCalls(call, gens, w) + if !p.crashed && 0 < |p.rerun| < |gens| then RunCalls(call, p.rerun, p.w) else []
  }

  predicate Breaks<W, G>(call: Call<W, G>, c: (W, G)) { call(c.0, c.1).1.RejectedNonObject? }

  /** The calls break off at the first one that rejects with a non-object, and only there. */
  predicate EndsBroken<W, G>(call: Call<W, G>, calls: seq<(W, G)>, crashed: bool) {
    && (crashed ==> calls != [] && Breaks(call, calls[|calls| - 1]))
    && forall i :: 0 <= i < |calls| && Breaks(call, calls[i]) ==> crashed && i == |calls| - 1
  }

  lemma {:induction false} PassBreaks<W, G>(call: Call<W, G>, gens: seq<G>, w: W)
    ensures |PassCalls(call, gens, w)| == RunPass(call, gens, w).calls
    ensures EndsBroken(call, PassCalls(call, gens, w), RunPass(call, gens, w).crashed)
    decreases |gens|
  {
    if gens != [] { PassBreaks(call, gens[..|gens| - 1], w); }
  }

  /** For arbitrary generators: the loader itself throws if and only if a call that it makes rejects with
      something that is not an object, and that call is then its last. */
  lemma {:induction false} CrashedIff<W, G>(call: Call<W, G>, gens: seq<G>, w: W)
    ensures |RunCalls(call, gens, w)| == Run(call, gens, w).calls
    ensures EndsBroken(call, RunCalls(call, gens, w), Run(call, gens, w).status.Crashed?)
    ensures Run(call, gens, w).status.Crashed? <==> exists c :: c in RunCalls(call, gens, w) && Breaks(call, c)
    decreases |gens|
  {
    PassBreaks(call, gens, w);
    var p := RunPass(call, gens, w);
    if !p.crashed && 0 < |p.rerun| < |gens| {
      CrashedIff(call, p.rerun, p.w);
      var crashed := Run(call, p.rerun, p.w).status.Crashed?;
      BrokenAppend(call, PassCalls(call, gens, w), RunCalls(call, p.rerun, p.w), crashed);
    }
    BrokenMember(call, RunCalls(call, gens, w), Run(call, gens, w).status.Crashed?);
  }

  lemma BrokenAppend<W, G>(call: Call<W, G>, a: seq<(W, G)>, b: seq<(W, G)>, crashed: bool)
    requires EndsBroken(call, a, false) && EndsBroken(call, b, crashed)
    ensures EndsBroken(call, a + b, crashed)
  {
    forall i | 0 <= i < |a| ensures !Breaks(call, (a + b)[i]) { assert (a + b)[i] == a[i]; }
    forall i | |a| <= i < |a + b| && Breaks(call, (a + b)[i]) ensures crashed && i == |a + b| - 1 {
      assert (a + b)[i] == b[i - |a|];
    }
  }

  lemma BrokenMember<W, G>(call: Call<W, G>, calls: seq<(W, G)>, crashed: bool)
    requires EndsBroken(call, calls, crashed)
    ensures crashed <==> exists c :: c in calls && Breaks(call, c)
  {
    if crashed { assert calls[|calls| - 1] in calls; }
  }

  /** The call of this generator resolves. */
  predicate Resolves<W, G>(call: Call<W, G>, c: (W, G)) { call(c.0, c.1).1.Resolved? }

  lemma {:induction false} PassResolves<W, G>(call: Call<W, G>, gens: seq<G>, w: W)
    ensures var p, calls := RunPass(call, gens, w), PassCalls(call, gens, w);
            && (forall g :: g in p.resolved ==> exists c :: c in calls && c.1 == g && Resolves(call, c))
            && ((forall c :: c in calls ==> Resolves(call, c)) ==> p.rerun == [] && !p.crashed)
    decreases |gens|
  {
    if gens != [] {
      var n := |gens| - 1;
      PassResolves(call, gens[..n], w);
      var p, calls := RunPass(call, gens[..n], w), PassCalls(call, gens[..n], w);
      if !p.crashed {
        assert PassCalls(call, gens, w) == calls + [(p.w, gens[n])];
        assert (p.w, gens[n]) in PassCalls(call, gens, w);
      }
    }
  }

  lemma {:induction false} PassCallsAreGiven<W, G>(call: Call<W, G>, gens: seq<G>, w: W)
    ensures forall c :: c in PassCalls(call, gens, w) ==> c.1 in gens
    decreases |gens|
  {
    if gens != [] { PassCallsAreGiven(call, gens[..|gens| - 1], w); }
  }

  lemma {:induction false} CallsAreGiven<W, G>(call: Call<W, G>, gens: seq<G>, w: W)
    ensures forall c :: c in RunCalls(call, gens, w) ==> c.1 in gens
    decreases |gens|
  {
    var p := RunPass(call, gens, w);
    PassCallsAreGiven(call, gens, w);
    if !p.crashed && 0 < |p.rerun| < |gens| {
      CallsAreGiven(call, p.rerun, p.w);
      PassBag(call, gens, w);
      Members(p.rerun, p.resolved, gens);
      forall c | c in RunCalls(call, gens, w) ensures c.1 in gens {
        assert c in PassCalls(call, gens, w) || c in RunCalls(call, p.rerun, p.w);
      }
    }
  }

  /** For arbitrary generators: when the loader succeeds, each of them has had a call that resolves; when it
      does not, some call has not resolved. */
  lemma {:induction false} LoadedMeans<W, G>(call: Call<W, G>, gens: seq<G>, w: W)
    ensures var r, calls := Run(call, gens, w), RunCalls(call, gens, w);
            && (forall g :: g in r.resolved ==> exists c :: c in calls && c.1 == g && Resolves(call, c))
            && (r.status.Loaded? ==> forall g :: g in gens ==> exists c :: c in calls && c.1 == g && Resolves(call, c))
            && (!r.status.Loaded? ==> exists c :: c in calls && !Resolves(call, c))
    decreases |gens|
  {
    var p := RunPass(call, gens, w);
    PassResolves(call, gens, w);
    if !p.crashed && 0 < |p.rerun| < |gens| { LoadedMeans(call, p.rerun, p.w); }
    ResolvedOnce(call, gens, w);
    var r := Run(call, gens, w);
    if r.status.Loaded? { Members(r.resolved, [], gens); }
  }

  // Generators driven by prerequisites -----------------------------------------------------------

  /** What a generator is for, what it waits for, and which keys are done in a world. */
  datatype Task<!W, !G, !K(==)> = Task(key: G -> K, needs: K -> set<K>, done: W -> iset<K>) {
    function RuleOf(g: G): Rule<K> { Rule(key(g), needs(key(g))) }

    function Rules(gens: seq<G>): (rs: seq<Rule<K>>)
      ensures |rs| == |gens| && forall i :: 0 <= i < |gens| ==> rs[i] == RuleOf(gens[i])
    {
      seq(|gens|, i requires 0 <= i < |gens| => RuleOf(gens[i]))
    }

    lemma RuleIn(gens: seq<G>, g: G)
      requires g in gens
      ensures RuleOf(g) in Rules(gens)
    {
      var i :| 0 <= i < |gens| && gens[i] == g;
      assert Rules(gens)[i] == RuleOf(g);
    }

    ghost predicate Waits(w: W, g: G) {
      exists k :: k in needs(key(g)) && k !in done(w)
    }
  }

  /** Each generator appears once and has a key of its own. */
  ghost predicate Distinct<W(!new), G(!new), K(!new)>(t: Task<W, G, K>, gens: seq<G>) {
    && (forall g :: g in gens ==> multiset(gens)[g] == 1)
    && (forall g, h :: g in gens && h in gens && t.key(g) == t.key(h) ==> g == h)
  }

  ghost predicate Pending<W(!new), G(!new), K(!new)>(t: Task<W, G, K>, gens: seq<G>, w: W) {
    Distinct(t, gens) && forall g :: g in gens ==> t.key(g) !in t.done(w)
  }

  /** A call on a generator that is not done yet: it settles its own key when it resolves, changes no other
      key and nothing on rejection, and resolves whenever what it needs is done. */
  ghost predicate Cooperative<W(!new), G(!new), K(!new)>(t: Task<W, G, K>, call: Call<W, G>,
                                                         gens: seq<G>, inv: W -> bool) {
    forall w, g {:trigger call(w, g)} :: inv(w) && g in gens && t.key(g) !in t.done(w) ==>
      var (w', o) := call(w, g);
      && inv(w') && !o.RejectedNonObject?
      && (o.Resolved? ==> t.done(w') == t.done(w) + iset{t.key(g)})
      && (o.Rejected? ==> t.done(w') == t.done(w) && t.Waits(w, g))
  }

  /** In addition a call resolves only when what it needs is done. */
  ghost predicate Strict<W(!new), G(!new), K(!new)>(t: Task<W, G, K>, call: Call<W, G>,
                                                    gens: seq<G>, inv: W -> bool) {
    forall w, g {:trigger call(w, g)} :: inv(w) && g in gens && t.key(g) !in t.done(w) && t.Waits(w, g) ==>
      call(w, g).1.Rejected?
  }

  ghost function KeysOf<W, G, K>(t: Task<W, G, K>, gens: seq<G>): set<K> {
    set g | g in gens :: t.key(g)
  }

  /** From `w` to `w'` exactly the keys of `resolved` became done. */
  ghost predicate Advanced<W, G, K(!new)>(t: Task<W, G, K>, w: W, w': W, resolved: seq<G>) {
    forall k :: k in t.done(w') <==> k in t.done(w) || k in KeysOf(t, resolved)
  }

  /** Splitting pending generators into done and left keeps the rest pending. */
  lemma PrefixPending<W(!new), G(!new), K(!new)>(t: Task<W, G, K>, gens: seq<G>, w: W)
    requires gens != [] && Pending(t, gens, w)
    ensures Pending(t, gens[..|gens| - 1], w)
    ensures t.key(gens[|gens| - 1]) !in KeysOf(t, gens[..|gens| - 1])
  {
    var n := |gens| - 1;
    assert gens == gens[..n] + [gens[n]];
    assert multiset(gens) == multiset(gens[..n]) + multiset{gens[n]};
    forall g | g in gens[..n] ensures multiset(gens[..n])[g] == 1 && g != gens[n] {
      assert multiset(gens[..n])[g] >= 1 && multiset(gens)[g] == 1;
    }
  }

  lemma RestPending<W(!new), G(!new), K(!new)>(t: Task<W, G, K>, gens: seq<G>, w: W, w': W, rest: seq<G>,
      resolved: seq<G>)
    requires Pending(t, gens, w) && multiset(rest) + multiset(resolved) == multiset(gens)
    requires Advanced(t, w, w', resolved)
    ensures Pending(t, rest, w')
  {
    Members(rest, resolved, gens);
    forall g | g in rest ensures multiset(rest)[g] == 1 && t.key(g) !in t.done(w') {
      assert multiset(rest)[g] + multiset(resolved)[g] == multiset(gens)[g] == 1;
      assert g !in resolved;
      forall h | h in resolved ensures t.key(h) != t.key(g) {}
    }
  }

  lemma {:induction false} PassCooperates<W(!new), G(!new), K(!new)>(
    t: Task<W, G, K>, call: Call<W, G>, all: seq<G>, inv: W -> bool, gens: seq<G>, w: W)
    requires Cooperative(t, call, all, inv) && inv(w) && Pending(t, gens, w) && forall g :: g in gens ==> g in all
    ensures var p := RunPass(call, gens, w);
            && !p.crashed && inv(p.w)
            && Advanced(t, w, p.w, p.resolved)
            && forall g :: g in p.rerun ==> t.Waits(w, g)
    decreases |gens|
  {
    if gens != [] {
      var n := |gens| - 1;
      PrefixPending(t, gens, w);
      PassCooperates(t, call, all, inv, gens[..n], w);
      PassBag(call, gens[..n], w);
      var p := RunPass(call, gens[..n], w);
      Members(p.rerun, p.resolved, gens[..n]);
      assert gens[n] in all && t.key(gens[n]) !in t.done(p.w);
      var (w', o) := call(p.w, gens[n]);
      if o.Rejected? {
        var k :| k in t.needs(t.key(gens[n])) && k !in t.done(p.w);
        assert t.Waits(w, gens[n]);
      } else {
        KeysOfBoth(t, p.resolved, [gens[n]]);
        assert KeysOf(t, [gens[n]]) == {t.key(gens[n])};
      }
    }
  }

  lemma KeysOfBoth<W, G, K>(t: Task<W, G, K>, a: seq<G>, b: seq<G>)
    ensures KeysOf(t, a + b) == KeysOf(t, a) + KeysOf(t, b)
  {
    forall k | k in KeysOf(t, a) ensures k in KeysOf(t, a + b) {
      var g :| g in a && t.key(g) == k;
      assert g in a + b;
    }
    forall k | k in KeysOf(t, b) ensures k in KeysOf(t, a + b) {
      var g :| g in b && t.key(g) == k;
      assert g in a + b;
    }
  }

  lemma {:induction false} RunCooperates<W(!new), G(!new), K(!new)>(
    t: Task<W, G, K>, call: Call<W, G>, all: seq<G>, inv: W -> bool, gens: seq<G>, w: W)
    requires Cooperative(t, call, all, inv) && inv(w) && Pending(t, gens, w) && forall g :: g in gens ==> g in all
    ensures var r := Run(call, gens, w);
            && !r.status.Crashed? && inv(r.w)
            && Advanced(t, w, r.w, r.resolved)
            && (r.status.Halted? ==> forall g :: g in r.status.generatorsToRun ==> t.Waits(r.w, g))
    decreases |gens|
  {
    PassCooperates(t, call, all, inv, gens, w);
    var p := RunPass(call, gens, w);
    if 0 < |p.rerun| < |gens| {
      PassBag(call, gens, w);
      Members(p.rerun, p.resolved, gens);
      RestPending(t, gens, w, p.w, p.rerun, p.resolved);
      RunCooperates(t, call, all, inv, p.rerun, p.w);
      KeysOfBoth(t, p.resolved, Run(call, p.rerun, p.w).resolved);
    }
  }

  /** What a run leaves is pending, and waits. */
  lemma Leftovers<W(!new), G(!new), K(!new)>(t: Task<W, G, K>, call: Call<W, G>, inv: W -> bool, gens: seq<G>, w: W)
    requires Cooperative(t, call, gens, inv) && inv(w) && Pending(t, gens, w) && Run(call, gens, w).status.Halted?
    ensures var r := Run(call, gens, w);
            && Pending(t, r.status.generatorsToRun, r.w)
            && (forall g :: g in r.status.generatorsToRun ==> t.Waits(r.w, g))
            && (forall g :: g in gens <==> g in r.resolved || g in r.status.generatorsToRun)
  {
    var r := Run(call, gens, w);
    RunCooperates(t, call, gens, inv, gens, w);
    ResolvedOnce(call, gens, w);
    Members(r.resolved, r.status.generatorsToRun, gens);
    RestPending(t, gens, w, r.w, r.status.generatorsToRun, r.resolved);
  }

  lemma WaitingUnsupported<W(!new), G(!new), K(!new)>(t: Task<W, G, K>, w: W, w': W, resolved: seq<G>, g: G)
    requires Advanced(t, w, w', resolved) && t.Waits(w', g)
    ensures !Supported(t.RuleOf(g).body, t.done(w), KeysOf(t, resolved))
  {
    var k :| k in t.needs(t.key(g)) && k !in t.done(w');
    assert k in t.RuleOf(g).body;
  }

  /** A cooperative generator that lies in the least fixpoint is never left behind. */
  lemma NoneLeftBehind<W(!new), G(!new), K(!new)>(
    t: Task<W, G, K>, call: Call<W, G>, gens: seq<G>, inv: W -> bool, w: W, g: G)
    requires Cooperative(t, call, gens, inv) && inv(w) && Pending(t, gens, w)
    requires Run(call, gens, w).status.Halted? && g in Run(call, gens, w).status.generatorsToRun
    ensures !Fires(t.Rules(gens), t.done(w), t.RuleOf(g))
  {
    var r := Run(call, gens, w);
    ResolvedOnce(call, gens, w);
    Members(r.resolved, r.status.generatorsToRun, gens);
    RunCooperates(t, call, gens, inv, gens, w);
    var rules, base, c := t.Rules(gens), t.done(w), KeysOf(t, r.resolved);
    forall x | x in rules ensures x.head in c || !Supported(x.body, base, c) {
      var i :| 0 <= i < |rules| && rules[i] == x;
      if gens[i] in r.status.generatorsToRun { WaitingUnsupported(t, w, r.w, r.resolved, gens[i]); }
    }
    t.RuleIn(gens, g);
    WaitingUnsupported(t, w, r.w, r.resolved, g);
    StuckDoesNotFire(rules, base, c, t.RuleOf(g));
  }

  lemma {:induction false} PassOnlyFiring<W(!new), G(!new), K(!new)>(
    t: Task<W, G, K>, call: Call<W, G>, all: seq<G>, inv: W -> bool, base: iset<K>, gens: seq<G>, w: W)
    requires Cooperative(t, call, all, inv) && Strict(t, call, all, inv) && inv(w) && Pending(t, gens, w)
    requires forall g :: g in gens ==> g in all
    requires forall k :: k in t.done(w) ==> Derivable(t.Rules(all), base, k)
    ensures var p := RunPass(call, gens, w);
            && (forall k :: k in t.done(p.w) ==> Derivable(t.Rules(all), base, k))
            && forall g :: g in p.resolved ==> Fires(t.Rules(all), base, t.RuleOf(g))
    decreases |gens|
  {
    if gens != [] {
      var n := |gens| - 1;
      var g := gens[n];
      PrefixPending(t, gens, w);
      PassOnlyFiring(t, call, all, inv, base, gens[..n], w);
      PassCooperates(t, call, all, inv, gens[..n], w);
      PassBag(call, gens[..n], w);
      var p := RunPass(call, gens[..n], w);
      Members(p.rerun, p.resolved, gens[..n]);
      assert g in all && t.key(g) !in t.done(p.w);
      t.RuleIn(all, g);
      if call(p.w, g).1.Resolved? {
        assert !t.Waits(p.w, g);
        DerivableHead(t.Rules(all), base, t.RuleOf(g));
      }
    }
  }

  lemma {:induction false} RunOnlyFiring<W(!new), G(!new), K(!new)>(
    t: Task<W, G, K>, call: Call<W, G>, all: seq<G>, inv: W -> bool, base: iset<K>, gens: seq<G>, w: W)
    requires Cooperative(t, call, all, inv) && Strict(t, call, all, inv) && inv(w) && Pending(t, gens, w)
    requires forall g :: g in gens ==> g in all
    requires forall k :: k in t.done(w) ==> Derivable(t.Rules(all), base, k)
    ensures forall g :: g in Run(call, gens, w).resolved ==>
              Fires(t.Rules(all), base, t.RuleOf(g))
    decreases |gens|
  {
    PassCooperates(t, call, all, inv, gens, w);
    PassOnlyFiring(t, call, all, inv, base, gens, w);
    var p := RunPass(call, gens, w);
    if 0 < |p.rerun| < |gens| {
      PassBag(call, gens, w);
      Members(p.rerun, p.resolved, gens);
      RestPending(t, gens, w, p.w, p.rerun, p.resolved);
      RunOnlyFiring(t, call, all, inv, base, p.rerun, p.w);
    }
  }

  /** When a generator resolves exactly once what it needs is done, the loader computes the least
      fixpoint: it succeeds iff every generator lies in it, and otherwise leaves exactly the complement. */
  lemma LeastFixpoint<W(!new), G(!new), K(!new)>(
    t: Task<W, G, K>, call: Call<W, G>, gens: seq<G>, inv: W -> bool, w: W)
    requires Cooperative(t, call, gens, inv) && Strict(t, call, gens, inv) && inv(w) && Pending(t, gens, w)
    ensures var r := Run(call, gens, w);
            && (r.status.Loaded? <==> AllFire(t.Rules(gens), t.done(w)))
            && (r.status.Loaded? || r.status.Halted?)
            && (r.status.Halted? ==>
                  forall g :: g in gens ==>
                       (g in r.status.generatorsToRun <==>
                        !Fires(t.Rules(gens), t.done(w), t.RuleOf(g))))
  {
    var r := Run(call, gens, w);
    var rules, base := t.Rules(gens), t.done(w);
    ResolvedOnce(call, gens, w);
    RunCooperates(t, call, gens, inv, gens, w);
    RunOnlyFiring(t, call, gens, inv, base, gens, w);
    if r.status.Loaded? {
      forall x | x in rules ensures Fires(rules, base, x) {
        var i :| 0 <= i < |rules| && rules[i] == x;
        assert gens[i] in multiset(r.resolved);
      }
    } else {
      Members(r.resolved, r.status.generatorsToRun, gens);
      forall g | g in r.status.generatorsToRun ensures !Fires(rules, base, t.RuleOf(g)) {
        NoneLeftBehind(t, call, gens, inv, w, g);
      }
      t.RuleIn(gens, r.status.generatorsToRun[0]);
    }
  }

  /** The keys done at the end are exactly the least fixpoint. */
  lemma EndsInFixpoint<W(!new), G(!new), K(!new)>(
    t: Task<W, G, K>, call: Call<W, G>, gens: seq<G>, inv: W -> bool, w: W)
    requires Cooperative(t, call, gens, inv) && Strict(t, call, gens, inv) && inv(w) && Pending(t, gens, w)
    ensures forall k :: k in t.done(Run(call, gens, w).w) <==> Derivable(t.Rules(gens), t.done(w), k)
  {
    var r := Run(call, gens, w);
    var rules, base, c := t.Rules(gens), t.done(w), KeysOf(t, r.resolved);
    ResolvedOnce(call, gens, w);
    RunCooperates(t, call, gens, inv, gens, w);
    RunOnlyFiring(t, call, gens, inv, base, gens, w);
    Members(r.resolved, if r.status.Halted? then r.status.generatorsToRun else [], gens);
    forall k | k in c ensures Derivable(rules, base, k) {
      var g :| g in r.resolved && t.key(g) == k;
      t.RuleIn(gens, g);
      DerivableHead(rules, base, t.RuleOf(g));
    }
    assert Closed(rules, base, c) by {
      forall x | x in rules && Supported(x.body, base, c) ensures x.head in c {
        var i :| 0 <= i < |rules| && rules[i] == x;
        if r.status.Halted? && gens[i] in r.status.generatorsToRun {
          WaitingUnsupported(t, w, r.w, r.resolved, gens[i]);
        }
      }
    }
  }

  /** When every generator waits, nothing resolves. */
  lemma AllWaiting<W(!new), G(!new), K(!new)>(
    t: Task<W, G, K>, call: Call<W, G>, gens: seq<G>, inv: W -> bool, w: W)
    requires Cooperative(t, call, gens, inv) && Strict(t, call, gens, inv) && inv(w) && Pending(t, gens, w)
    requires gens != [] && forall g :: g in gens ==> t.Waits(w, g)
    ensures var r := Run(call, gens, w); r.resolved == [] && r.status.Halted? && |r.status.generatorsToRun| == |gens|
  {
    var r := Run(call, gens, w);
    var rules, base := t.Rules(gens), t.done(w);
    RunOnlyFiring(t, call, gens, inv, base, gens, w);
    RunCooperates(t, call, gens, inv, gens, w);
    ResolvedOnce(call, gens, w);
    forall x | x in rules ensures !Supported(x.body, base, {}) {
      var i :| 0 <= i < |rules| && rules[i] == x;
      WaitingUnsupported(t, w, w, [], gens[i]);
    }
    if r.resolved != [] {
      var g := r.resolved[0];
      assert g in multiset(r.resolved);
      t.RuleIn(gens, g);
      StuckDoesNotFire(rules, base, {}, t.RuleOf(g));
    }
    assert |multiset(r.resolved)| == |r.resolved|;
    if r.status.Halted? {
      assert |multiset(r.resolved) + multiset(r.status.generatorsToRun)| == |multiset(gens)|;
    }
  }

  /** The outcome does not depend on the order of the generators. */
  lemma OrderIrrelevant<W(!new), G(!new), K(!new)>(
    t: Task<W, G, K>, call: Call<W, G>, gens: seq<G>, gens': seq<G>, inv: W -> bool, w: W)
    requires Cooperative(t, call, gens, inv) && Strict(t, call, gens, inv) && inv(w) && Pending(t, gens, w)
    requires multiset(gens) == multiset(gens')
    ensures var s, s' := Run(call, gens, w).status, Run(call, gens', w).status;
            && (s.Loaded? <==> s'.Loaded?)
            && (s.Halted? <==> s'.Halted?)
            && (s.Halted? ==> multiset(s.generatorsToRun) == multiset(s'.generatorsToRun))
  {
    Members(gens', [], gens);
    SameBehaviour(t, call, gens, gens', inv);
    assert Pending(t, gens', w);
    SameRules(t, gens, gens');
    SameRules(t, gens', gens);
    SameFixpoint(t.Rules(gens), t.Rules(gens'), t.done(w));
    LeastFixpoint(t, call, gens, inv, w);
    LeastFixpoint(t, call, gens', inv, w);
    if Run(call, gens, w).status.Halted? && Run(call, gens', w).status.Halted? {
      forall g
        ensures multiset(Run(call, gens, w).status.generatorsToRun)[g]
             == multiset(Run(call, gens', w).status.generatorsToRun)[g]
      {
        LeftCount(t, call, gens, inv, w, g);
        LeftCount(t, call, gens', inv, w, g);
      }
    }
  }

  lemma SameBehaviour<W(!new), G(!new), K(!new)>(
    t: Task<W, G, K>, call: Call<W, G>, gens: seq<G>, gens': seq<G>, inv: W -> bool)
    requires Cooperative(t, call, gens, inv) && Strict(t, call, gens, inv)
    requires forall g :: g in gens <==> g in gens'
    ensures Cooperative(t, call, gens', inv) && Strict(t, call, gens', inv)
  {
  }

  /** How often a generator is left over: as often as it was given, or not at all. */
  lemma LeftCount<W(!new), G(!new), K(!new)>(
    t: Task<W, G, K>, call: Call<W, G>, gens: seq<G>, inv: W -> bool, w: W, g: G)
    requires Cooperative(t, call, gens, inv) && Strict(t, call, gens, inv) && inv(w) && Pending(t, gens, w)
    requires Run(call, gens, w).status.Halted?
    ensures multiset(Run(call, gens, w).status.generatorsToRun)[g]
         == if Fires(t.Rules(gens), t.done(w), t.RuleOf(g)) then 0 else multiset(gens)[g]
  {
    var r := Run(call, gens, w);
    ResolvedOnce(call, gens, w);
    LeastFixpoint(t, call, gens, inv, w);
    RunOnlyFiring(t, call, gens, inv, t.done(w), gens, w);
    Members(r.resolved, r.status.generatorsToRun, gens);
    assert multiset(r.resolved)[g] + multiset(r.status.generatorsToRun)[g] == multiset(gens)[g];
  }

  lemma SameRules<W(!new), G(!new), K(!new)>(t: Task<W, G, K>, gens: seq<G>, gens': seq<G>)
    requires forall g :: g in gens ==> g in gens'
    ensures forall x :: x in t.Rules(gens) ==> x in t.Rules(gens')
  {
    forall x | x in t.Rules(gens) ensures x in t.Rules(gens') {
      var i :| 0 <= i < |gens| && t.Rules(gens)[i] == x;
      t.RuleIn(gens', gens[i]);
    }
  }

  lemma SameFixpoint<K(!new)>(rules: seq<Rule<K>>, rules': seq<Rule<K>>, base: iset<K>)
    requires forall r :: r in rules <==> r in rules'
    ensures forall r :: Fires(rules, base, r) <==> Fires(rules', base, r)
    ensures AllFire(rules, base) <==> AllFire(rules', base)
  {
    forall c ensures Closed(rules, base, c) <==> Closed(rules', base, c) {}
    forall k ensures Derivable(rules, base, k) <==> Derivable(rules', base, k) {}
  }
}
