/** Models src/services/canonical-iam-policy.ts and `policiesAreSame` of src/services/aws-diff.ts: the
    canonical form of an IAM policy, what it keeps of the policy's meaning, and which policies it identifies.

    A JavaScript object is a list of entries in the order of `Object.entries`, each key once. */
module IamPolicy {
  import opened Bags
  import opened Options
  import opened Strings

  datatype Items = One(v: string) | Many(vs: seq<string>) {
    function All(): seq<string> { if One? then [v] else vs }

    /** A JavaScript value that `if (x)` takes. */
    predicate Truthy() { One? ==> v != "" }
  }

  datatype Principal = Star | Named(aws: Option<Items>, service: Option<Items>, federated: Option<Items>)

  datatype Value = Text(s: string) | Bool(b: bool) | Number(digits: string) {
    function ToString(): string {
      match this
      case Text(s) => s
      case Bool(b) => if b then "true" else "false"
      case Number(d) => d
    }
  }

  datatype Values = Single(x: Value) | Several(xs: seq<Value>) {
    function All(): seq<Value> { if Single? then [x] else xs }
  }

  type Object<T> = seq<(string, T)>

  type Condition = Object<Object<Values>>

  datatype Effect = Allow | Deny

  datatype Statement = Statement(
    action: Option<Items>, notAction: Option<Items>,
    principal: Option<Principal>, notPrincipal: Option<Principal>,
    resource: Option<Items>, notResource: Option<Items>,
    condition: Option<Condition>, effect: Effect, sid: Option<string>)

  datatype Policy = Policy(id: Option<string>, statements: seq<Statement>, single: bool, version: string)

  // The normalisers as functions ---------------------------------------------------------------------------

  function NormalAction(i: Items): Items { if i.Truthy() then Many(Sort(LowerAll(i.All()))) else i }

  function NormalResource(i: Items): Items { if i.Truthy() then Many(Sort(i.All())) else i }

  function Listed(i: Items): Items { if i.One? && i.Truthy() then Many([i.v]) else i }

  function Map<T, U>(o: Option<T>, f: T -> U): Option<U> {
    match o
    case None => None
    case Some(x) => Some(f(x))
  }

  function NormalPrincipal(p: Principal): Principal {
    match p
    case Star => Named(Some(Many(["*"])), None, None)
    case Named(a, s, f) => Named(Map(a, Listed), Map(s, Listed), Map(f, Listed))
  }

  /** `object[key] = value`: a key keeps its place when it is set again. */
  function Assign<T>(o: Object<T>, k: string, v: T): Object<T> {
    if o == [] then [(k, v)] else if o[0].0 == k then [(k, v)] + o[1..] else [o[0]] + Assign(o[1..], k, v)
  }

  function Texts(vs: Values): seq<string> { Image(vs.All(), (x: Value) => x.ToString()) }

  function AsText(s: string): Value { Text(s) }

  function NormalValues(vs: Values): Values { Several(Image(Uniq(Texts(vs)), AsText)) }

  function NormalKeys(o: Object<Values>): Object<Values> {
    if o == [] then []
    else
      var (k, v) := o[|o| - 1];
      Assign(NormalKeys(o[..|o| - 1]), Lower(k), NormalValues(v))
  }

  function NormalCondition(c: Condition): Condition {
    if c == [] then []
    else
      var (op, keys) := c[|c| - 1];
      Assign(NormalCondition(c[..|c| - 1]), op, NormalKeys(keys))
  }

  function NormalStatement(s: Statement): Statement {
    Statement(Map(s.action, NormalAction), Map(s.notAction, NormalAction),
              Map(s.principal, NormalPrincipal), Map(s.notPrincipal, NormalPrincipal),
              Map(s.resource, NormalResource), Map(s.notResource, NormalResource),
              Map(s.condition, NormalCondition), s.effect, s.sid)
  }

  function Normal(p: Policy): Policy {
    Policy(p.id, Image(p.statements, (s: Statement) => NormalStatement(s)), false, p.version)
  }

  // The normalisers of the source ----------------------------------------------------------------------------

  method NormalizeCondition(condition: Condition) returns (canonical: Condition)
    ensures canonical == NormalCondition(condition)
  {
    canonical := [];
    for i := 0 to |condition|
      invariant canonical == NormalCondition(condition[..i])
    {
      var (operator, keyVal) := condition[i];
      var keys: Object<Values> := [];
      for j := 0 to |keyVal|
        invariant keys == NormalKeys(keyVal[..j])
      {
        assert keyVal[..j + 1][..j] == keyVal[..j];
        var (key, value) := keyVal[j];
        keys := Assign(keys, Lower(key), NormalValues(value));
      }
      assert keyVal[..|keyVal|] == keyVal;
      assert condition[..i + 1][..i] == condition[..i];
      canonical := Assign(canonical, operator, keys);
    }
    assert condition[..|condition|] == condition;
  }

  /** A statement object, normalised in place. */
  class StatementObject {
    var action: Option<Items>
    var notAction: Option<Items>
    var principal: Option<Principal>
    var notPrincipal: Option<Principal>
    var resource: Option<Items>
    var notResource: Option<Items>
    var condition: Option<Condition>
    var effect: Effect
    var sid: Option<string>

    function Value(): Statement
      reads this
    {
      Statement(action, notAction, principal, notPrincipal, resource, notResource, condition, effect, sid)
    }

    constructor (s: Statement)
      ensures Value() == s
    {
      action, notAction, principal, notPrincipal := s.action, s.notAction, s.principal, s.notPrincipal;
      resource, notResource, condition, effect, sid := s.resource, s.notResource, s.condition, s.effect, s.sid;
    }

    method Normalize()
      modifies this
      ensures Value() == NormalStatement(old(Value()))
    {
      if action.Some? { action := Some(NormalAction(action.value)); }
      if notAction.Some? { notAction := Some(NormalAction(notAction.value)); }
      if principal.Some? { principal := Some(NormalPrincipal(principal.value)); }
      if notPrincipal.Some? { notPrincipal := Some(NormalPrincipal(notPrincipal.value)); }
      if resource.Some? { resource := Some(NormalResource(resource.value)); }
      if notResource.Some? { notResource := Some(NormalResource(notResource.value)); }
      if condition.Some? {
        var c := NormalizeCondition(condition.value);
        condition := Some(c);
      }
    }
  }

  /** Clones every statement, then normalises the clones; the given objects are not touched. */
  method NormalizeStatements(statements: seq<StatementObject>) returns (normal: seq<StatementObject>)
    ensures |normal| == |statements|
    ensures forall i :: 0 <= i < |normal| ==>
              fresh(normal[i]) && normal[i].Value() == NormalStatement(statements[i].Value())
  {
    normal := [];
    for i := 0 to |statements|
      invariant |normal| == i
      invariant forall j :: 0 <= j < i ==>
                  fresh(normal[j]) && normal[j].Value() == NormalStatement(statements[j].Value())
    {
      var clone := new StatementObject(statements[i].Value());
      clone.Normalize();
      normal := normal + [clone];
    }
  }

  // Meaning -----------------------------------------------------------------------------------------------------

  datatype Kind = AWS | Service | Federated

  /** Whether a condition holds of a request: its operator, key and set of values. */
  type ConditionCheck = (string, string, set<string>) -> bool

  /** Keys of conditions are the same in any case. */
  ghost predicate IgnoresCase(condition: ConditionCheck) {
    forall op, k, l, s :: UpToCase(k, l) ==> condition(op, k, s) == condition(op, l, s)
  }

  /** A request, as the outcome of every pattern and condition on it. */
  datatype Request = Request(
    action: string -> bool,
    resource: string -> bool,
    principal: (Kind, string) -> bool,
    condition: ConditionCheck)
  {
    /** Actions and keys ignore case, and the AWS principal '*' is everyone. */
    ghost predicate Lawful() {
      (forall p, p' :: UpToCase(p, p') ==> action(p) == action(p')) && IgnoresCase(condition) && principal(AWS, "*")
    }
  }

  predicate AnyOf(i: Items, holds: string -> bool) { exists x :: x in i.All() && holds(x) }

  predicate KindMatches(kind: Kind, i: Option<Items>, q: Request) {
    i.Some? && exists x :: x in i.value.All() && q.principal(kind, x)
  }

  predicate PrincipalMatches(p: Principal, q: Request) {
    match p
    case Star => true
    case Named(a, s, f) => KindMatches(AWS, a, q) || KindMatches(Service, s, q) || KindMatches(Federated, f, q)
  }

  function ValueSet(vs: Values): set<string> { set x | x in Texts(vs) }

  predicate KeysHold(op: string, keys: Object<Values>, q: Request) {
    forall e :: e in keys ==> q.condition(op, e.0, ValueSet(e.1))
  }

  /** Every key of every operator holds. */
  predicate Holds(c: Condition, q: Request) { forall o :: o in c ==> KeysHold(o.0, o.1, q) }

  predicate Applies(s: Statement, q: Request) {
    && (s.action.Some? ==> AnyOf(s.action.value, q.action))
    && (s.notAction.Some? ==> !AnyOf(s.notAction.value, q.action))
    && (s.principal.Some? ==> PrincipalMatches(s.principal.value, q))
    && (s.notPrincipal.Some? ==> !PrincipalMatches(s.notPrincipal.value, q))
    && (s.resource.Some? ==> AnyOf(s.resource.value, q.resource))
    && (s.notResource.Some? ==> !AnyOf(s.notResource.value, q.resource))
    && (s.condition.Some? ==> Holds(s.condition.value, q))
  }

  datatype Verdict = Denied | Allowed | Undecided

  predicate AnyStatement(p: Policy, effect: Effect, q: Request) {
    exists i :: 0 <= i < |p.statements| && p.statements[i].effect == effect && Applies(p.statements[i], q)
  }

  /** An explicit deny wins over an allow. */
  function Decide(p: Policy, q: Request): Verdict {
    if AnyStatement(p, Deny, q) then Denied else if AnyStatement(p, Allow, q) then Allowed else Undecided
  }

  // Objects -------------------------------------------------------------------------------------------------------

  ghost predicate DistinctKeys<T>(o: Object<T>) { forall i, j :: 0 <= i < j < |o| ==> o[i].0 != o[j].0 }

  function Lookup<T>(o: Object<T>, k: string): Option<T> {
    if o == [] then None else if o[0].0 == k then Some(o[0].1) else Lookup(o[1..], k)
  }

  lemma {:induction false} LookupMember<T(!new)>(o: Object<T>, k: string, v: T)
    requires DistinctKeys(o)
    ensures (k, v) in o <==> Lookup(o, k) == Some(v)
  {
    if o != [] {
      LookupMember(o[1..], k, v);
      assert o == [o[0]] + o[1..];
      if o[0].0 == k {
        forall i | 0 <= i < |o[1..]| ensures o[1..][i].0 != k {}
        assert (k, v) !in o[1..];
      }
    }
  }

  lemma {:induction false} NoKey<T>(o: Object<T>, k: string)
    ensures Lookup(o, k).None? <==> forall i :: 0 <= i < |o| ==> o[i].0 != k
  {
    if o != [] {
      NoKey(o[1..], k);
      if o[0].0 != k && Lookup(o[1..], k).None? {
        forall i | 0 <= i < |o| ensures o[i].0 != k { if i > 0 { assert o[i] == o[1..][i - 1]; } }
      } else if o[0].0 != k {
        var i :| 0 <= i < |o[1..]| && o[1..][i].0 == k;
        assert o[i + 1].0 == k;
      }
    }
  }

  lemma {:induction false} AssignMeans<T>(o: Object<T>, k: string, v: T)
    requires DistinctKeys(o)
    ensures DistinctKeys(Assign(o, k, v))
    ensures forall l :: Lookup(Assign(o, k, v), l) == if l == k then Some(v) else Lookup(o, l)
  {
    if o != [] && o[0].0 != k {
      AssignMeans(o[1..], k, v);
      var rest := Assign(o[1..], k, v);
      assert DistinctKeys(o[1..]);
      NoKey(o[1..], o[0].0);
      NoKey(rest, o[0].0);
      assert ([o[0]] + rest)[1..] == rest;
    } else if o != [] {
      assert ([(k, v)] + o[1..])[1..] == o[1..];
    }
  }

  /** A new key goes to the end. */
  lemma {:induction false} AssignNew<T>(o: Object<T>, k: string, v: T)
    requires forall i :: 0 <= i < |o| ==> o[i].0 != k
    ensures Assign(o, k, v) == o + [(k, v)]
  {
    if o != [] {
      AssignNew(o[1..], k, v);
      assert [o[0]] + (o[1..] + [(k, v)]) == o + [(k, v)];
    }
  }

  /** Entries after an assignment are the new one or old ones. */
  lemma {:induction false} AssignEntries<T>(o: Object<T>, k: string, v: T)
    ensures forall e :: e in Assign(o, k, v) ==> e == (k, v) || e in o
  {
    if o != [] && o[0].0 != k { AssignEntries(o[1..], k, v); }
  }

  // Values and keys -------------------------------------------------------------------------------------------------

  lemma TextsOfNormal(vs: Values)
    ensures Texts(NormalValues(vs)) == Uniq(Texts(vs))
  {
    var u := Uniq(Texts(vs));
    forall i | 0 <= i < |u| ensures Texts(NormalValues(vs))[i] == u[i] {}
  }

  lemma NormalValuesMean(vs: Values)
    ensures NormalValues(NormalValues(vs)) == NormalValues(vs)
    ensures ValueSet(NormalValues(vs)) == ValueSet(vs)
  {
    TextsOfNormal(vs);
    UniqMeans(Texts(vs));
    UniqOfDistinct(Uniq(Texts(vs)));
  }

  /** In a condition a truth value or a number means its text, and one value the list of it. */
  lemma ScalarsAreTexts(x: Value, xs: seq<Value>, digits: string)
    ensures |Texts(Several(xs))| == |xs| && forall i :: 0 <= i < |xs| ==> Texts(Several(xs))[i] == xs[i].ToString()
    ensures NormalValues(Single(Bool(true))) == NormalValues(Single(Text("true")))
    ensures NormalValues(Single(Bool(false))) == NormalValues(Single(Text("false")))
    ensures NormalValues(Single(Number(digits))) == NormalValues(Single(Text(digits)))
    ensures NormalValues(Single(x)) == NormalValues(Several([x]))
  {
    assert Texts(Single(Bool(true))) == ["true"] == Texts(Single(Text("true")));
    assert Texts(Single(Bool(false))) == ["false"] == Texts(Single(Text("false")));
    assert Texts(Single(Number(digits))) == [digits] == Texts(Single(Text(digits)));
  }

  /** The last entry whose key is `k` up to case. */
  function LastValues(o: Object<Values>, k: string): Option<Values> {
    if o == [] then None
    else if UpToCase(o[|o| - 1].0, k) then Some(o[|o| - 1].1)
    else LastValues(o[..|o| - 1], k)
  }

  lemma {:induction false} LastIsEntry(o: Object<Values>, k: string)
    ensures LastValues(o, k).Some? ==> exists e :: e in o && UpToCase(e.0, k) && e.1 == LastValues(o, k).value
    ensures LastValues(o, k).None? ==> forall e :: e in o ==> !UpToCase(e.0, k)
  {
    if o != [] {
      var n := |o| - 1;
      LastIsEntry(o[..n], k);
      assert o == o[..n] + [o[n]];
      if UpToCase(o[n].0, k) {
        assert o[n] in o;
      } else if LastValues(o[..n], k).Some? {
        var e :| e in o[..n] && UpToCase(e.0, k) && e.1 == LastValues(o[..n], k).value;
        assert e in o;
      }
    }
  }

  /** Which of several spellings is asked for makes no difference. */
  lemma {:induction false} LastUpToCase(o: Object<Values>, k: string, l: string)
    requires UpToCase(k, l)
    ensures LastValues(o, k) == LastValues(o, l)
  {
    if o != [] {
      var key := o[|o| - 1].0;
      LastUpToCase(o[..|o| - 1], k, l);
      UpToCaseIsEquivalence(key, k, l);
      UpToCaseIsEquivalence(k, l, k);
      UpToCaseIsEquivalence(key, l, k);
    }
  }

  ghost predicate CanonicalKeys(o: Object<Values>) {
    DistinctKeys(o) && forall e :: e in o ==> NoCapitals(e.0) && NormalValues(e.1) == e.1
  }

  /** The canonical keys of an operator have no capitals: of keys equal up to case the last survives, with its
      values. */
  lemma {:induction false} NormalKeysMean(o: Object<Values>)
    ensures CanonicalKeys(NormalKeys(o))
    ensures forall k :: Lookup(NormalKeys(o), k) == if NoCapitals(k) then Map(LastValues(o, k), NormalValues) else None
  {
    if o != [] {
      var n := |o| - 1;
      var (k, v) := o[n];
      NormalKeysMean(o[..n]);
      AssignMeans(NormalKeys(o[..n]), Lower(k), NormalValues(v));
      AssignEntries(NormalKeys(o[..n]), Lower(k), NormalValues(v));
      LowerIff(k, k);
      NormalValuesMean(v);
      forall l
        ensures Lookup(NormalKeys(o), l) == if NoCapitals(l) then Map(LastValues(o, l), NormalValues) else None
      {
        LowerIff(k, l);
        LowerIff(l, k);
      }
    }
  }

  lemma {:induction false} CanonicalKeysFixed(o: Object<Values>)
    requires CanonicalKeys(o)
    ensures NormalKeys(o) == o
  {
    if o != [] {
      var n := |o| - 1;
      assert o == o[..n] + [o[n]];
      CanonicalKeysFixed(o[..n]);
      assert o[n] in o;
      LowerIff(o[n].0, o[n].0);
      AssignNew(o[..n], o[n].0, o[n].1);
    }
  }

  function NormalOperator(o: (string, Object<Values>)): (string, Object<Values>) { (o.0, NormalKeys(o.1)) }

  /** With distinct operators, as in any object, each operator is normalised in its place. */
  lemma {:induction false} NormalConditionIsImage(c: Condition)
    requires DistinctKeys(c)
    ensures NormalCondition(c) == Image(c, NormalOperator)
  {
    if c != [] {
      var n := |c| - 1;
      var before := NormalCondition(c[..n]);
      var (op, keys) := c[n];
      NormalConditionIsImage(c[..n]);
      assert forall i :: 0 <= i < n ==> before[i].0 == c[i].0;
      AssignNew(before, op, NormalKeys(keys));
      ImageLast(c, NormalOperator);
    }
  }

  // What the canonical form keeps of the meaning -------------------------------------------------------------------

  /** Keys of one operator that are equal up to case have equal value sets. */
  ghost predicate NoClash(keys: Object<Values>) {
    forall e, f :: e in keys && f in keys && UpToCase(e.0, f.0) ==> ValueSet(e.1) == ValueSet(f.1)
  }

  /** Every key holds with the last of its values. */
  ghost predicate LastsHold(op: string, keys: Object<Values>, q: Request) {
    forall k :: LastValues(keys, k).Some? ==> q.condition(op, k, ValueSet(LastValues(keys, k).value))
  }

  lemma NormalKeysHold(op: string, keys: Object<Values>, q: Request)
    requires IgnoresCase(q.condition)
    ensures KeysHold(op, NormalKeys(keys), q) <==> LastsHold(op, keys, q)
  {
    if KeysHold(op, NormalKeys(keys), q) { NormalHoldsLast(op, keys, q); }
    if LastsHold(op, keys, q) { LastHoldsNormal(op, keys, q); }
  }

  lemma NormalHoldsLast(op: string, keys: Object<Values>, q: Request)
    requires IgnoresCase(q.condition) && KeysHold(op, NormalKeys(keys), q)
    ensures LastsHold(op, keys, q)
  {
    forall k | LastValues(keys, k).Some? ensures q.condition(op, k, ValueSet(LastValues(keys, k).value)) {
      LastInNormal(keys, k);
      HoldsAt(op, NormalKeys(keys), q, (Lower(k), NormalValues(LastValues(keys, k).value)));
    }
  }

  lemma HoldsAt(op: string, keys: Object<Values>, q: Request, e: (string, Values))
    requires KeysHold(op, keys, q) && e in keys
    ensures q.condition(op, e.0, ValueSet(e.1))
  {
  }

  lemma LastHoldsNormal(op: string, keys: Object<Values>, q: Request)
    requires LastsHold(op, keys, q)
    ensures KeysHold(op, NormalKeys(keys), q)
  {
    var n := NormalKeys(keys);
    forall e | e in n ensures q.condition(op, e.0, ValueSet(e.1)) { NormalIsLast(keys, e); }
  }

  lemma LastInNormal(keys: Object<Values>, k: string)
    requires LastValues(keys, k).Some?
    ensures (Lower(k), NormalValues(LastValues(keys, k).value)) in NormalKeys(keys) && UpToCase(k, Lower(k))
    ensures ValueSet(NormalValues(LastValues(keys, k).value)) == ValueSet(LastValues(keys, k).value)
  {
    var v := LastValues(keys, k).value;
    LowerIff(k, k);
    LastUpToCase(keys, k, Lower(k));
    NormalKeysMean(keys);
    LookupMember(NormalKeys(keys), Lower(k), NormalValues(v));
    NormalValuesMean(v);
  }

  lemma NormalIsLast(keys: Object<Values>, e: (string, Values))
    requires e in NormalKeys(keys)
    ensures NoCapitals(e.0) && LastValues(keys, e.0).Some?
    ensures ValueSet(e.1) == ValueSet(LastValues(keys, e.0).value)
  {
    NormalKeysMean(keys);
    LookupMember(NormalKeys(keys), e.0, e.1);
    NormalValuesMean(LastValues(keys, e.0).value);
  }

  /** The canonical form of a condition never asks for more than the condition. */
  lemma NormalKeysWeaker(op: string, keys: Object<Values>, q: Request)
    requires IgnoresCase(q.condition) && KeysHold(op, keys, q)
    ensures KeysHold(op, NormalKeys(keys), q)
  {
    NormalKeysHold(op, keys, q);
    forall k | LastValues(keys, k).Some? ensures q.condition(op, k, ValueSet(LastValues(keys, k).value)) {
      LastIsEntry(keys, k);
    }
  }

  lemma KeysPreserved(op: string, keys: Object<Values>, q: Request)
    requires IgnoresCase(q.condition) && NoClash(keys)
    ensures KeysHold(op, NormalKeys(keys), q) <==> KeysHold(op, keys, q)
  {
    if KeysHold(op, keys, q) { NormalKeysWeaker(op, keys, q); }
    if KeysHold(op, NormalKeys(keys), q) {
      NormalKeysHold(op, keys, q);
      forall e | e in keys ensures q.condition(op, e.0, ValueSet(e.1)) { LastAsGood(keys, e); }
    }
  }

  /** Without a clash the last of the keys equal up to case has the values of all of them. */
  lemma LastAsGood(keys: Object<Values>, e: (string, Values))
    requires NoClash(keys) && e in keys
    ensures LastValues(keys, e.0).Some? && ValueSet(LastValues(keys, e.0).value) == ValueSet(e.1)
  {
    UpToCaseIsEquivalence(e.0, e.0, e.0);
    LastIsEntry(keys, e.0);
  }

  /** A clash changes the meaning: some request tells the keys from their canonical form. */
  lemma ClashChangesMeaning(op: string, keys: Object<Values>, q0: Request) returns (q: Request)
    requires !NoClash(keys)
    ensures q == q0.(condition := q.condition) && forall o, l, s :: o != op ==> q.condition(o, l, s)
    ensures IgnoresCase(q.condition) && KeysHold(op, NormalKeys(keys), q) && !KeysHold(op, keys, q)
  {
    var e, f :| e in keys && f in keys && UpToCase(e.0, f.0) && ValueSet(e.1) != ValueSet(f.1);
    UpToCaseIsEquivalence(e.0, f.0, e.0);
    LastIsEntry(keys, e.0);
    LastUpToCase(keys, e.0, f.0);
    var last := LastValues(keys, e.0).value;
    var lost := if ValueSet(e.1) != ValueSet(last) then e else f;
    q := q0.(condition := AllBut(op, lost.0, ValueSet(lost.1)));
    AllButIgnoresCase(op, lost.0, ValueSet(lost.1));
    NormalKeysHold(op, keys, q);
    forall k | LastValues(keys, k).Some? ensures q.condition(op, k, ValueSet(LastValues(keys, k).value)) {
      if UpToCase(k, lost.0) { LastUpToCase(keys, k, lost.0); }
    }
    UpToCaseIsEquivalence(lost.0, lost.0, lost.0);
    assert !q.condition(op, lost.0, ValueSet(lost.1));
  }

  /** Every condition holds but the one on this key, in any case, with these values. */
  function AllBut(op: string, k: string, vs: set<string>): ConditionCheck {
    (o: string, l: string, s: set<string>) => !(o == op && UpToCase(l, k) && s == vs)
  }

  lemma AllButIgnoresCase(op: string, k: string, vs: set<string>)
    ensures IgnoresCase(AllBut(op, k, vs))
  {
    forall o, l, l', s | UpToCase(l, l') ensures AllBut(op, k, vs)(o, l, s) == AllBut(op, k, vs)(o, l', s) {
      UpToCaseIsEquivalence(l, l', k);
      UpToCaseIsEquivalence(l', l, k);
      UpToCaseIsEquivalence(l, l', l);
    }
  }

  /** The exact condition for one operator: normalising its keys keeps their meaning for every request if and
      only if no two keys that differ only in case have different values. */
  lemma KeysPreservedIffNoClash(op: string, keys: Object<Values>, q0: Request)
    ensures NoClash(keys) <==>
            forall condition :: IgnoresCase(condition) ==>
              var q := q0.(condition := condition);
              KeysHold(op, NormalKeys(keys), q) <==> KeysHold(op, keys, q)
  {
    if NoClash(keys) {
      forall condition | IgnoresCase(condition)
        ensures var q := q0.(condition := condition); KeysHold(op, NormalKeys(keys), q) <==> KeysHold(op, keys, q)
      {
        KeysPreserved(op, keys, q0.(condition := condition));
      }
    } else {
      var q := ClashChangesMeaning(op, keys, q0);
      var condition := q.condition;
      assert q == q0.(condition := condition);
    }
  }

  // Statements and policies ------------------------------------------------------------------------------------------

  /** Operators are keys of an object, so no two are equal. */
  ghost predicate WellFormed(p: Policy) {
    forall s :: s in p.statements && s.condition.Some? ==> DistinctKeys(s.condition.value)
  }

  /** No two keys of one operator clash. */
  ghost predicate Unambiguous(p: Policy) {
    forall s :: s in p.statements && s.condition.Some? ==>
      DistinctKeys(s.condition.value) && forall o :: o in s.condition.value ==> NoClash(o.1)
  }

  lemma ActionPreserved(i: Items, q: Request)
    requires q.Lawful()
    ensures AnyOf(NormalAction(i), q.action) <==> AnyOf(i, q.action)
  {
    if i.Truthy() {
      var l := LowerAll(i.All());
      SortMembers(l);
      forall x | x in i.All() ensures q.action(x) == q.action(Lower(x)) { LowerIff(x, x); }
      if x :| x in i.All() && q.action(x) {
        var j :| 0 <= j < |i.All()| && i.All()[j] == x;
        assert l[j] == Lower(x);
        assert Lower(x) in NormalAction(i).All() && q.action(Lower(x));
      }
      if y :| y in NormalAction(i).All() && q.action(y) {
        var j :| 0 <= j < |l| && l[j] == y;
        assert i.All()[j] in i.All() && q.action(i.All()[j]);
      }
    }
  }

  /** No capital letter is left in a canonical action. */
  lemma ActionHasNoCapitals(i: Items)
    ensures forall x :: x in NormalAction(i).All() ==> NoCapitals(x)
  {
    if i.Truthy() {
      var l := LowerAll(i.All());
      SortMembers(l);
      forall x | x in l ensures NoCapitals(x) {
        var j :| 0 <= j < |l| && l[j] == x;
        LowerIff(i.All()[j], x);
      }
    }
  }

  lemma ResourcePreserved(i: Items, q: Request)
    ensures AnyOf(NormalResource(i), q.resource) <==> AnyOf(i, q.resource)
  {
    SortMembers(i.All());
  }

  lemma PrincipalPreserved(p: Principal, q: Request)
    requires q.Lawful()
    ensures PrincipalMatches(NormalPrincipal(p), q) <==> PrincipalMatches(p, q)
  {
    match p
    case Star => assert "*" in Many(["*"]).All();
    case Named(a, s, f) =>
      KindPreserved(AWS, a, q);
      KindPreserved(Service, s, q);
      KindPreserved(Federated, f, q);
  }

  lemma KindPreserved(kind: Kind, i: Option<Items>, q: Request)
    ensures KindMatches(kind, Map(i, Listed), q) <==> KindMatches(kind, i, q)
  {
    if i.Some? { assert Listed(i.value).All() == i.value.All(); }
  }

  lemma ConditionPreserved(c: Condition, q: Request)
    requires IgnoresCase(q.condition) && DistinctKeys(c) && forall o :: o in c ==> NoClash(o.1)
    ensures Holds(NormalCondition(c), q) <==> Holds(c, q)
  {
    var n := NormalCondition(c);
    NormalConditionIsImage(c);
    forall i | 0 <= i < |c| ensures n[i].0 == c[i].0 && (KeysHold(n[i].0, n[i].1, q) <==> KeysHold(c[i].0, c[i].1, q)) {
      assert c[i] in c;
      KeysPreserved(c[i].0, c[i].1, q);
    }
    if Holds(n, q) {
      forall o | o in c ensures KeysHold(o.0, o.1, q) {
        var i :| 0 <= i < |c| && c[i] == o;
        assert n[i] in n;
      }
    }
    if Holds(c, q) {
      forall o | o in n ensures KeysHold(o.0, o.1, q) {
        var i :| 0 <= i < |n| && n[i] == o;
        assert c[i] in c;
      }
    }
  }

  lemma StatementPreserved(s: Statement, q: Request)
    requires q.Lawful()
    requires s.condition.Some? ==>
               DistinctKeys(s.condition.value) && forall o :: o in s.condition.value ==> NoClash(o.1)
    ensures Applies(NormalStatement(s), q) <==> Applies(s, q)
  {
    if s.action.Some? { ActionPreserved(s.action.value, q); }
    if s.notAction.Some? { ActionPreserved(s.notAction.value, q); }
    if s.principal.Some? { PrincipalPreserved(s.principal.value, q); }
    if s.notPrincipal.Some? { PrincipalPreserved(s.notPrincipal.value, q); }
    if s.resource.Some? { ResourcePreserved(s.resource.value, q); }
    if s.notResource.Some? { ResourcePreserved(s.notResource.value, q); }
    if s.condition.Some? { ConditionPreserved(s.condition.value, q); }
  }

  /** normalizePolicy preserves the verdict on every request. */
  lemma MeaningPreserved(p: Policy, q: Request)
    requires q.Lawful() && Unambiguous(p)
    ensures Decide(Normal(p), q) == Decide(p, q)
  {
    forall i | 0 <= i < |p.statements|
      ensures Applies(Normal(p).statements[i], q) <==> Applies(p.statements[i], q)
      ensures Normal(p).statements[i].effect == p.statements[i].effect
    {
      assert p.statements[i] in p.statements;
      StatementPreserved(p.statements[i], q);
    }
    forall effect ensures AnyStatement(Normal(p), effect, q) <==> AnyStatement(p, effect, q) {
      if i :| 0 <= i < |p.statements| && p.statements[i].effect == effect && Applies(p.statements[i], q) {
        assert Normal(p).statements[i].effect == effect && Applies(Normal(p).statements[i], q);
      }
      var n := Normal(p).statements;
      if i :| 0 <= i < |n| && n[i].effect == effect && Applies(n[i], q) {
        assert p.statements[i].effect == effect && Applies(p.statements[i], q);
      }
    }
  }

  /** A clash in one operator of a condition: some request meets the canonical form and not the condition. */
  lemma ClashChangesCondition(c: Condition, o: (string, Object<Values>), q0: Request) returns (q: Request)
    requires DistinctKeys(c) && o in c && !NoClash(o.1)
    ensures q == q0.(condition := q.condition) && IgnoresCase(q.condition)
    ensures Holds(NormalCondition(c), q) && !Holds(c, q)
  {
    q := ClashChangesMeaning(o.0, o.1, q0);
    NormalConditionIsImage(c);
    var i :| 0 <= i < |c| && c[i] == o;
    forall p | p in NormalCondition(c) ensures KeysHold(p.0, p.1, q) {
      var j :| 0 <= j < |c| && NormalOperator(c[j]) == p;
      if j != i { assert c[j].0 != o.0; }
    }
  }

  /** Only conditions look at the condition of a request. */
  lemma WithoutCondition(s: Statement, q0: Request, q: Request)
    requires q == q0.(condition := q.condition) && q.Lawful() && Applies(s.(condition := None), q0)
    ensures Applies(NormalStatement(s), q) <==> s.condition.Some? ==> Holds(NormalCondition(s.condition.value), q)
    ensures Applies(s, q) <==> s.condition.Some? ==> Holds(s.condition.value, q)
  {
    var plain := s.(condition := None);
    StatementPreserved(plain, q);
    assert Applies(plain, q);
    assert NormalStatement(s) == NormalStatement(plain).(condition := Map(s.condition, NormalCondition));
  }

  lemma OneStatement(id: Option<string>, s: Statement, version: string, q: Request)
    ensures Decide(Policy(id, [s], false, version), q)
         == if !Applies(s, q) then Undecided else if s.effect == Deny then Denied else Allowed
    ensures Normal(Policy(id, [s], false, version)) == Policy(id, [NormalStatement(s)], false, version)
  {
    var p := Policy(id, [s], false, version);
    assert p.statements[0] == s;
    assert Normal(p).statements == [NormalStatement(s)];
  }

  /** The exact condition for a policy of one statement, for requests that meet its other elements:
      normalizePolicy keeps the verdict whatever the request's conditions are if and only if no operator has
      keys that differ only in case and have different values. */
  lemma VerdictPreservedIffNoClash(id: Option<string>, s: Statement, c: Condition, version: string, q0: Request)
    requires s.condition == Some(c) && DistinctKeys(c) && q0.Lawful() && Applies(s.(condition := None), q0)
    ensures (forall condition :: IgnoresCase(condition) ==>
               var p, q := Policy(id, [s], false, version), q0.(condition := condition);
               Decide(Normal(p), q) == Decide(p, q))
       <==> forall o :: o in c ==> NoClash(o.1)
  {
    var p := Policy(id, [s], false, version);
    if forall o :: o in c ==> NoClash(o.1) {
      forall condition | IgnoresCase(condition)
        ensures var q := q0.(condition := condition); Decide(Normal(p), q) == Decide(p, q)
      {
        MeaningPreserved(p, q0.(condition := condition));
      }
    } else {
      var o :| o in c && !NoClash(o.1);
      var q := ClashChangesCondition(c, o, q0);
      WithoutCondition(s, q0, q);
      OneStatement(id, s, version, q);
      OneStatement(id, NormalStatement(s), version, q);
      assert Decide(Normal(p), q) != Decide(p, q);
      var condition := q.condition;
      assert q == q0.(condition := condition);
    }
  }

  // Idempotence ----------------------------------------------------------------------------------------------------

  lemma ActionTwice(i: Items)
    ensures NormalAction(NormalAction(i)) == NormalAction(i)
  {
    if i.Truthy() {
      var l := Sort(LowerAll(i.All()));
      SortSorts(LowerAll(i.All()));
      SortMembers(LowerAll(i.All()));
      forall j | 0 <= j < |l| ensures Lower(l[j]) == l[j] {
        assert l[j] in LowerAll(i.All());
        var k :| 0 <= k < |i.All()| && LowerAll(i.All())[k] == l[j];
        LowerTwice(i.All()[k]);
      }
      assert LowerAll(l) == l;
      SortOfSorted(l);
    }
  }

  lemma ResourceTwice(i: Items)
    ensures NormalResource(NormalResource(i)) == NormalResource(i)
  {
    SortSorts(i.All());
    SortOfSorted(Sort(i.All()));
  }

  lemma ConditionTwice(c: Condition)
    requires DistinctKeys(c)
    ensures NormalCondition(NormalCondition(c)) == NormalCondition(c)
  {
    var n := NormalCondition(c);
    NormalConditionIsImage(c);
    assert DistinctKeys(n);
    NormalConditionIsImage(n);
    forall i | 0 <= i < |n| ensures NormalKeys(n[i].1) == n[i].1 {
      NormalKeysMean(c[i].1);
      CanonicalKeysFixed(n[i].1);
    }
  }

  lemma PrincipalTwice(p: Principal)
    ensures NormalPrincipal(NormalPrincipal(p)) == NormalPrincipal(p)
  {
  }

  lemma Twice<T>(o: Option<T>, f: T -> T)
    requires o.Some? ==> f(f(o.value)) == f(o.value)
    ensures Map(Map(o, f), f) == Map(o, f)
  {
  }

  lemma StatementTwice(s: Statement)
    requires s.condition.Some? ==> DistinctKeys(s.condition.value)
    ensures NormalStatement(NormalStatement(s)) == NormalStatement(s)
  {
    if s.action.Some? { ActionTwice(s.action.value); }
    if s.notAction.Some? { ActionTwice(s.notAction.value); }
    if s.principal.Some? { PrincipalTwice(s.principal.value); }
    if s.notPrincipal.Some? { PrincipalTwice(s.notPrincipal.value); }
    if s.resource.Some? { ResourceTwice(s.resource.value); }
    if s.notResource.Some? { ResourceTwice(s.notResource.value); }
    if s.condition.Some? { ConditionTwice(s.condition.value); }
    Twice(s.action, NormalAction);
    Twice(s.notAction, NormalAction);
    Twice(s.principal, NormalPrincipal);
    Twice(s.notPrincipal, NormalPrincipal);
    Twice(s.resource, NormalResource);
    Twice(s.notResource, NormalResource);
    Twice(s.condition, NormalCondition);
  }

  /** normalizePolicy is idempotent. */
  lemma NormalTwice(p: Policy)
    requires WellFormed(p)
    ensures Normal(Normal(p)) == Normal(p)
  {
    var f := (s: Statement) => NormalStatement(s);
    var n := Image(p.statements, f);
    forall i | 0 <= i < |n| ensures f(n[i]) == n[i] {
      assert p.statements[i] in p.statements;
      StatementTwice(p.statements[i]);
    }
    assert Image(n, f) == n;
  }

  // Comparing policies -----------------------------------------------------------------------------------------------

  /** `_.isEqual` on objects: the same keys with equal values, in any order. */
  ghost predicate SameConditions(a: Option<Condition>, b: Option<Condition>) {
    (a.None? && b.None?)
    || (a.Some? && b.Some?
        && forall op :: Lookup(a.value, op).Some? == Lookup(b.value, op).Some?
                     && forall k :: Entry(a.value, op, k) == Entry(b.value, op, k))
  }

  function Entry(c: Condition, op: string, k: string): Option<Values> {
    match Lookup(c, op)
    case None => None
    case Some(keys) => Lookup(keys, k)
  }

  ghost predicate SameStatements(a: Statement, b: Statement) {
    a.(condition := None) == b.(condition := None) && SameConditions(a.condition, b.condition)
  }

  ghost predicate IsEqual(a: Policy, b: Policy) {
    && a.id == b.id && a.single == b.single && a.version == b.version && |a.statements| == |b.statements|
    && forall i :: 0 <= i < |a.statements| ==> SameStatements(a.statements[i], b.statements[i])
  }

  ghost predicate PoliciesAreSame(a: Option<Policy>, b: Option<Policy>) {
    if a.None? || b.None? then a == b else IsEqual(Normal(a.value), Normal(b.value))
  }

  /** policiesAreSame is an equivalence relation. */
  lemma SameIsEquivalence(a: Option<Policy>, b: Option<Policy>, c: Option<Policy>)
    ensures PoliciesAreSame(a, a)
    ensures PoliciesAreSame(a, b) ==> PoliciesAreSame(b, a)
    ensures PoliciesAreSame(a, b) && PoliciesAreSame(b, c) ==> PoliciesAreSame(a, c)
  {
    if a.Some? && b.Some? && c.Some? && PoliciesAreSame(a, b) && PoliciesAreSame(b, c) {
      var x, y, z := Normal(a.value), Normal(b.value), Normal(c.value);
      forall i | 0 <= i < |x.statements| ensures SameStatements(x.statements[i], z.statements[i]) {
        assert SameStatements(x.statements[i], y.statements[i]) && SameStatements(y.statements[i], z.statements[i]);
      }
    }
  }

  /** How often the text occurs in the list, in any case. */
  function Spellings(s: seq<string>, x: string): nat { |Select(s, (y: string) => UpToCase(y, x))| }

  /** The same bag of texts, up to case. */
  ghost predicate SameUpToCase(a: seq<string>, b: seq<string>) { forall x :: Spellings(a, x) == Spellings(b, x) }

  /** Actions alike as bags, up to case; an empty string stands for itself. */
  ghost predicate AlikeActions(a: Option<Items>, b: Option<Items>) {
    || (a.None? && b.None?)
    || (a.Some? && b.Some? && a.value != One("") && b.value != One("") && SameUpToCase(a.value.All(), b.value.All()))
    || (a.Some? && b.Some? && a.value == b.value == One(""))
  }

  /** Resources alike as bags. */
  predicate AlikeResources(a: Option<Items>, b: Option<Items>) {
    || (a.None? && b.None?)
    || (a.Some? && b.Some? && a.value != One("") && b.value != One("")
        && multiset(a.value.All()) == multiset(b.value.All()))
    || (a.Some? && b.Some? && a.value == b.value == One(""))
  }

  /** The values of each kind, in order; '*' is AWS '*'. */
  function KindItems(p: Principal, kind: Kind): Option<Items> {
    match p
    case Star => if kind == AWS then Some(Many(["*"])) else None
    case Named(a, s, f) => if kind == AWS then a else if kind == Service then s else f
  }

  predicate AlikePrincipals(a: Option<Principal>, b: Option<Principal>) {
    || (a.None? && b.None?)
    || (a.Some? && b.Some?
        && forall kind :: AlikeLists(KindItems(a.value, kind), KindItems(b.value, kind)))
  }

  predicate AlikeLists(a: Option<Items>, b: Option<Items>) {
    || (a.None? && b.None?)
    || (a.Some? && b.Some? && a.value != One("") && b.value != One("") && a.value.All() == b.value.All())
    || (a.Some? && b.Some? && a.value == b.value == One(""))
  }

  /** The distinct texts, in order, of the last key equal to `k` up to case. */
  function Last(c: Condition, op: string, k: string): Option<seq<string>> {
    match Lookup(c, op)
    case None => None
    case Some(keys) => Map(LastValues(keys, k), (v: Values) => Uniq(Texts(v)))
  }

  ghost predicate AlikeConditions(a: Option<Condition>, b: Option<Condition>) {
    || (a.None? && b.None?)
    || (a.Some? && b.Some?
        && forall op :: Lookup(a.value, op).Some? == Lookup(b.value, op).Some?
                     && forall k :: Last(a.value, op, k) == Last(b.value, op, k))
  }

  /** Statements alike in terms of what was written. */
  ghost predicate Alike(a: Statement, b: Statement) {
    && AlikeActions(a.action, b.action) && AlikeActions(a.notAction, b.notAction)
    && AlikePrincipals(a.principal, b.principal) && AlikePrincipals(a.notPrincipal, b.notPrincipal)
    && AlikeResources(a.resource, b.resource) && AlikeResources(a.notResource, b.notResource)
    && AlikeConditions(a.condition, b.condition) && a.effect == b.effect && a.sid == b.sid
  }

  /** The canonical spelling is counted as often as all spellings together. */
  lemma {:induction false} LowerCounts(s: seq<string>, x: string)
    ensures multiset(LowerAll(s))[x] == if NoCapitals(x) then Spellings(s, x) else 0
  {
    if s != [] {
      var n := |s| - 1;
      LowerCounts(s[..n], x);
      LowerIff(s[n], x);
      LowerIff(x, x);
      assert LowerAll(s) == LowerAll(s[..n]) + [Lower(s[n])];
    }
  }

  lemma {:induction false} SpellingsOfLower(s: seq<string>, x: string)
    ensures Spellings(s, Lower(x)) == Spellings(s, x)
  {
    if s != [] {
      var n := |s| - 1;
      SpellingsOfLower(s[..n], x);
      LowerIff(x, x);
      UpToCaseIsEquivalence(s[n], x, Lower(x));
      UpToCaseIsEquivalence(x, Lower(x), x);
      UpToCaseIsEquivalence(s[n], Lower(x), x);
    }
  }

  lemma SameLowerIff(a: seq<string>, b: seq<string>)
    ensures multiset(LowerAll(a)) == multiset(LowerAll(b)) <==> SameUpToCase(a, b)
  {
    forall x
      ensures multiset(LowerAll(a))[x] == if NoCapitals(x) then Spellings(a, x) else 0
      ensures multiset(LowerAll(b))[x] == if NoCapitals(x) then Spellings(b, x) else 0
      ensures Spellings(a, Lower(x)) == Spellings(a, x) && Spellings(b, Lower(x)) == Spellings(b, x)
      ensures NoCapitals(Lower(x))
    {
      LowerCounts(a, x);
      LowerCounts(b, x);
      SpellingsOfLower(a, x);
      SpellingsOfLower(b, x);
      LowerIff(x, x);
    }
    if multiset(LowerAll(a)) == multiset(LowerAll(b)) {
      forall x ensures Spellings(a, x) == Spellings(b, x) {
        assert multiset(LowerAll(a))[Lower(x)] == multiset(LowerAll(b))[Lower(x)];
      }
    }
  }

  lemma ActionsAlike(a: Option<Items>, b: Option<Items>)
    ensures Map(a, NormalAction) == Map(b, NormalAction) <==> AlikeActions(a, b)
  {
    if a.Some? && b.Some? {
      SortEqualIffSameBag(LowerAll(a.value.All()), LowerAll(b.value.All()));
      SameLowerIff(a.value.All(), b.value.All());
    }
  }

  lemma ResourcesAlike(a: Option<Items>, b: Option<Items>)
    ensures Map(a, NormalResource) == Map(b, NormalResource) <==> AlikeResources(a, b)
  {
    if a.Some? && b.Some? { SortEqualIffSameBag(a.value.All(), b.value.All()); }
  }

  lemma ListsAlike(a: Option<Items>, b: Option<Items>)
    ensures Map(a, Listed) == Map(b, Listed) <==> AlikeLists(a, b)
  {
  }

  lemma PrincipalsAlike(a: Option<Principal>, b: Option<Principal>)
    ensures Map(a, NormalPrincipal) == Map(b, NormalPrincipal) <==> AlikePrincipals(a, b)
  {
    if a.Some? && b.Some? {
      var x, y := NormalPrincipal(a.value), NormalPrincipal(b.value);
      forall kind ensures KindItems(x, kind) == Map(KindItems(a.value, kind), Listed)
                  ensures KindItems(y, kind) == Map(KindItems(b.value, kind), Listed) {}
      forall kind { ListsAlike(KindItems(a.value, kind), KindItems(b.value, kind)); }
      assert x == y <==> KindItems(x, AWS) == KindItems(y, AWS) && KindItems(x, Service) == KindItems(y, Service)
                         && KindItems(x, Federated) == KindItems(y, Federated);
    }
  }

  lemma NormalLookup(c: Condition, op: string)
    requires DistinctKeys(c)
    ensures Lookup(NormalCondition(c), op) == Map(Lookup(c, op), NormalKeys)
  {
    NormalConditionIsImage(c);
    LookupImage(c, op);
  }

  lemma {:induction false} LookupImage(c: Condition, op: string)
    ensures Lookup(Image(c, NormalOperator), op) == Map(Lookup(c, op), NormalKeys)
  {
    if c != [] {
      LookupImage(c[1..], op);
      assert Image(c, NormalOperator)[1..] == Image(c[1..], NormalOperator);
    }
  }

  lemma NormalEntry(c: Condition, op: string, k: string)
    requires DistinctKeys(c)
    ensures Entry(NormalCondition(c), op, k)
         == if NoCapitals(k) then Map(Last(c, op, k), (u: seq<string>) => Several(Image(u, AsText))) else None
  {
    NormalLookup(c, op);
    if Lookup(c, op).Some? { NormalKeysMean(Lookup(c, op).value); }
  }

  lemma LastOfLower(c: Condition, op: string, k: string)
    ensures Last(c, op, Lower(k)) == Last(c, op, k) && NoCapitals(Lower(k))
  {
    LowerIff(k, k);
    if Lookup(c, op).Some? { LastUpToCase(Lookup(c, op).value, k, Lower(k)); }
  }

  lemma EntriesAlike(a: Condition, b: Condition, op: string, k: string)
    requires DistinctKeys(a) && DistinctKeys(b)
    ensures Last(a, op, k) == Last(b, op, k) ==> Entry(NormalCondition(a), op, k) == Entry(NormalCondition(b), op, k)
    ensures NoCapitals(k) && Entry(NormalCondition(a), op, k) == Entry(NormalCondition(b), op, k) ==>
              Last(a, op, k) == Last(b, op, k)
  {
    NormalEntry(a, op, k);
    NormalEntry(b, op, k);
    if Last(a, op, k).Some? && Last(b, op, k).Some? { TextImage(Last(a, op, k).value, Last(b, op, k).value); }
  }

  lemma ConditionsAlike(a: Option<Condition>, b: Option<Condition>)
    requires (a.Some? ==> DistinctKeys(a.value)) && (b.Some? ==> DistinctKeys(b.value))
    ensures SameConditions(Map(a, NormalCondition), Map(b, NormalCondition)) <==> AlikeConditions(a, b)
  {
    if a.Some? && b.Some? {
      var x, y := NormalCondition(a.value), NormalCondition(b.value);
      forall op
        ensures Lookup(x, op).Some? == Lookup(a.value, op).Some? && Lookup(y, op).Some? == Lookup(b.value, op).Some?
      {
        NormalLookup(a.value, op);
        NormalLookup(b.value, op);
      }
      forall op, k ensures Last(a.value, op, k) == Last(b.value, op, k) ==> Entry(x, op, k) == Entry(y, op, k) {
        EntriesAlike(a.value, b.value, op, k);
      }
      forall op, k | Entry(x, op, Lower(k)) == Entry(y, op, Lower(k))
        ensures Last(a.value, op, k) == Last(b.value, op, k)
      {
        LastOfLower(a.value, op, k);
        LastOfLower(b.value, op, k);
        EntriesAlike(a.value, b.value, op, Lower(k));
      }
    }
  }

  lemma TextImage(a: seq<string>, b: seq<string>)
    ensures Image(a, AsText) == Image(b, AsText) <==> a == b
  {
    if Image(a, AsText) == Image(b, AsText) {
      forall i | 0 <= i < |a| ensures a[i] == b[i] { assert Image(a, AsText)[i] == Image(b, AsText)[i]; }
    }
  }

  /** Exactly which policies policiesAreSame identifies: statement by statement in order, those alike in what
      was written: actions and resources as bags (actions up to case), principals as lists with '*' for AWS
      '*', conditions as maps from keys, up to case, to lists of distinct texts. */
  lemma SameIffAlike(a: Policy, b: Policy)
    requires WellFormed(a) && WellFormed(b)
    ensures PoliciesAreSame(Some(a), Some(b)) <==>
              && a.id == b.id && a.version == b.version && |a.statements| == |b.statements|
              && forall i :: 0 <= i < |a.statements| ==> Alike(a.statements[i], b.statements[i])
  {
    if |a.statements| == |b.statements| {
      forall i | 0 <= i < |a.statements|
        ensures SameStatements(Normal(a).statements[i], Normal(b).statements[i])
           <==> Alike(a.statements[i], b.statements[i])
      {
        assert a.statements[i] in a.statements && b.statements[i] in b.statements;
        StatementsAlike(a.statements[i], b.statements[i]);
      }
    }
  }

  lemma StatementsAlike(s: Statement, t: Statement)
    requires s.condition.Some? ==> DistinctKeys(s.condition.value)
    requires t.condition.Some? ==> DistinctKeys(t.condition.value)
    ensures SameStatements(NormalStatement(s), NormalStatement(t)) <==> Alike(s, t)
  {
    ActionsAlike(s.action, t.action);
    ActionsAlike(s.notAction, t.notAction);
    PrincipalsAlike(s.principal, t.principal);
    PrincipalsAlike(s.notPrincipal, t.notPrincipal);
    ResourcesAlike(s.resource, t.resource);
    ResourcesAlike(s.notResource, t.notResource);
    ConditionsAlike(s.condition, t.condition);
  }

  /** Identified policies mean the same. */
  lemma SamePoliciesMeanTheSame(a: Policy, b: Policy, q: Request)
    requires q.Lawful() && Unambiguous(a) && Unambiguous(b) && PoliciesAreSame(Some(a), Some(b))
    ensures Decide(a, q) == Decide(b, q)
  {
    var x, y := Normal(a), Normal(b);
    MeaningPreserved(a, q);
    MeaningPreserved(b, q);
    forall i | 0 <= i < |x.statements|
      ensures Applies(x.statements[i], q) <==> Applies(y.statements[i], q)
      ensures x.statements[i].effect == y.statements[i].effect
    {
      var s, t := a.statements[i], b.statements[i];
      assert s in a.statements && t in b.statements;
      assert SameStatements(x.statements[i], y.statements[i]);
      if s.condition.Some? { SameHold(s.condition.value, t.condition.value, q); }
    }
    forall effect ensures AnyStatement(x, effect, q) <==> AnyStatement(y, effect, q) {}
  }

  lemma SameHold(a: Condition, b: Condition, q: Request)
    requires DistinctKeys(a) && DistinctKeys(b) && SameConditions(Some(NormalCondition(a)), Some(NormalCondition(b)))
    ensures Holds(NormalCondition(a), q) <==> Holds(NormalCondition(b), q)
  {
    if Holds(NormalCondition(a), q) { SameHoldOneWay(a, b, q); }
    if Holds(NormalCondition(b), q) { SameHoldOneWay(b, a, q); }
  }

  /** What holds in one condition holds in an equal one. */
  lemma EntryHolds(x: Condition, op: string, k: string, v: Values, q: Request)
    requires DistinctKeys(x) && (forall i :: 0 <= i < |x| ==> DistinctKeys(x[i].1))
    requires Entry(x, op, k) == Some(v) && Holds(x, q)
    ensures q.condition(op, k, ValueSet(v))
  {
    var keys := Lookup(x, op).value;
    LookupMember(x, op, keys);
    var j :| 0 <= j < |x| && x[j] == (op, keys);
    LookupMember(keys, k, v);
    HoldsAt(op, keys, q, (k, v));
  }

  lemma NormalIsDistinct(c: Condition)
    requires DistinctKeys(c)
    ensures DistinctKeys(NormalCondition(c))
    ensures forall i :: 0 <= i < |NormalCondition(c)| ==> DistinctKeys(NormalCondition(c)[i].1)
  {
    NormalConditionIsImage(c);
    forall i | 0 <= i < |c| ensures DistinctKeys(NormalCondition(c)[i].1) { NormalKeysMean(c[i].1); }
  }

  lemma SameHoldOneWay(a: Condition, b: Condition, q: Request)
    requires DistinctKeys(a) && DistinctKeys(b) && Holds(NormalCondition(a), q)
    requires SameConditions(Some(NormalCondition(a)), Some(NormalCondition(b)))
    ensures Holds(NormalCondition(b), q)
  {
    var x, y := NormalCondition(a), NormalCondition(b);
    NormalIsDistinct(a);
    NormalIsDistinct(b);
    forall o, e | o in y && e in o.1 ensures q.condition(o.0, e.0, ValueSet(e.1)) {
      var i :| 0 <= i < |y| && y[i] == o;
      LookupMember(y, o.0, o.1);
      LookupMember(o.1, e.0, e.1);
      assert (o.0, o.1) in y && (e.0, e.1) in o.1;
      assert Entry(y, o.0, e.0) == Some(e.1) == Entry(x, o.0, e.0);
      EntryHolds(x, o.0, e.0, e.1, q);
    }
  }

  /** Reordered statements are told apart, although order does not matter to the verdict. */
  lemma ReorderedStatementsDiffer(s: Statement, t: Statement, version: string)
    requires s.effect != t.effect
    ensures !PoliciesAreSame(Some(Policy(None, [s, t], false, version)), Some(Policy(None, [t, s], false, version)))
    ensures forall q :: Decide(Policy(None, [s, t], false, version), q)
                     == Decide(Policy(None, [t, s], false, version), q)
  {
    var a, b := Policy(None, [s, t], false, version), Policy(None, [t, s], false, version);
    assert Normal(a).statements[0].effect != Normal(b).statements[0].effect;
    assert !SameStatements(Normal(a).statements[0], Normal(b).statements[0]);
    forall q, effect ensures AnyStatement(a, effect, q) <==> AnyStatement(b, effect, q) {
      assert a.statements[0] == b.statements[1] && a.statements[1] == b.statements[0];
    }
  }
}
