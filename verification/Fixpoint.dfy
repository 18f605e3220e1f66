/** Least fixpoints of dependency rules, shared by the module sorter, the lazy loader and the engine.

    A rule says that its head may be added once everything in its body is present.  `Derivable` is the
    impredicative least fixpoint: a key is derivable when every set closed under the rules holds it. */
module Fixpoint {

  datatype Rule<K(==)> = Rule(head: K, body: set<K>)

  /** Everything in `body` is given by `base` or already in `c`. */
  ghost predicate Supported<K(!new)>(body: set<K>, base: iset<K>, c: set<K>) {
    forall k :: k in body ==> k in base || k in c
  }

  ghost predicate Closed<K(!new)>(rules: seq<Rule<K>>, base: iset<K>, c: set<K>) {
    forall r :: r in rules && Supported(r.body, base, c) ==> r.head in c
  }

  ghost predicate Derivable<K(!new)>(rules: seq<Rule<K>>, base: iset<K>, k: K) {
    k in base || forall c :: Closed(rules, base, c) ==> k in c
  }

  /** The rule lies in the fixpoint: its whole body is derivable. */
  ghost predicate Fires<K(!new)>(rules: seq<Rule<K>>, base: iset<K>, r: Rule<K>) {
    forall k :: k in r.body ==> Derivable(rules, base, k)
  }

  ghost predicate AllFire<K(!new)>(rules: seq<Rule<K>>, base: iset<K>) {
    forall r :: r in rules ==> Fires(rules, base, r)
  }

  function Heads<K>(rules: seq<Rule<K>>): set<K> {
    set r | r in rules :: r.head
  }

  /** Each rule's body is in the base or is the head of an earlier rule. */
  ghost predicate Ordered<K(!new)>(rules: seq<Rule<K>>, base: iset<K>) {
    forall i :: 0 <= i < |rules| ==> Supported(rules[i].body, base, Heads(rules[..i]))
  }

  /** A firing rule puts its head in every closed set. */
  lemma FiringHead<K(!new)>(rules: seq<Rule<K>>, base: iset<K>, r: Rule<K>, c: set<K>)
    requires r in rules && Fires(rules, base, r) && Closed(rules, base, c)
    ensures Supported(r.body, base, c) && r.head in c
  {
    forall k | k in r.body ensures k in base || k in c {
      assert Derivable(rules, base, k);
    }
  }

  /** When nothing more can be added to `c`, the rules still waiting are outside the fixpoint. */
  lemma StuckDoesNotFire<K(!new)>(rules: seq<Rule<K>>, base: iset<K>, c: set<K>, r: Rule<K>)
    requires forall x :: x in rules ==> x.head in c || !Supported(x.body, base, c)
    requires r in rules && !Supported(r.body, base, c)
    ensures !Fires(rules, base, r)
  {
    if Fires(rules, base, r) {
      assert Closed(rules, base, c);
      FiringHead(rules, base, r, c);
    }
  }

  /** The derivable keys are themselves closed under the rules. */
  lemma DerivableHead<K(!new)>(rules: seq<Rule<K>>, base: iset<K>, r: Rule<K>)
    requires r in rules && Fires(rules, base, r)
    ensures Derivable(rules, base, r.head)
  {
    forall c | Closed(rules, base, c) ensures r.head in c {
      FiringHead(rules, base, r, c);
    }
  }

  /** An earlier rule makes what a rule of a valid order needs. */
  lemma MakerOf<K(!new)>(order: seq<Rule<K>>, base: iset<K>, i: nat, k: K) returns (j: nat)
    requires Ordered(order, base) && i < |order| && k in order[i].body && k !in base
    ensures j < i && order[j].head == k
  {
    assert k in Heads(order[..i]);
    var r :| r in order[..i] && r.head == k;
    j :| 0 <= j < i && order[..i][j] == r;
  }

  /** Any valid order of (some of) the rules shows that those rules fire. */
  lemma {:induction false} OrderFires<K(!new)>(rules: seq<Rule<K>>, base: iset<K>, order: seq<Rule<K>>, i: nat)
    requires Ordered(order, base) && i < |order|
    requires forall r :: r in order ==> r in rules
    ensures Fires(rules, base, order[i])
    decreases i
  {
    forall k | k in order[i].body ensures Derivable(rules, base, k) {
      if k !in base {
        var j := MakerOf(order, base, i, k);
        OrderFires(rules, base, order, j);
        DerivableHead(rules, base, order[j]);
      }
    }
  }

  /** Every body key is given by the base or made by a rule of smaller rank. */
  ghost predicate Ranked<K(!new)>(rules: seq<Rule<K>>, base: iset<K>, rank: K -> nat) {
    forall r, k :: r in rules && k in r.body && k !in base ==> rank(k) < rank(r.head) && k in Heads(rules)
  }

  /** Acyclic dependencies: every rule fires. */
  lemma {:induction false} RankedFires<K(!new)>(rules: seq<Rule<K>>, base: iset<K>, rank: K -> nat, r: Rule<K>)
    requires Ranked(rules, base, rank) && r in rules
    ensures Fires(rules, base, r)
    decreases rank(r.head)
  {
    forall k | k in r.body ensures Derivable(rules, base, k) {
      if k !in base {
        assert rank(k) < rank(r.head) && k in Heads(rules);
        var r' :| r' in rules && r'.head == k;
        RankedFires(rules, base, rank, r');
        DerivableHead(rules, base, r');
      }
    }
  }
}
