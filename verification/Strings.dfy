/** The order of `Array.prototype.sort` on strings, and lower case. */
module Strings {
  import opened Bags

  /** Lexicographic order by character code. */
  predicate Leq(a: string, b: string) {
    a == "" || (b != "" && (a[0] < b[0] || (a[0] == b[0] && Leq(a[1..], b[1..]))))
  }

  /** The order of texts: the shorter comes before what it begins, and otherwise the first difference decides. */
  lemma {:induction false} LeqIff(a: string, b: string)
    ensures Leq(a, b) <==> a <= b || exists i :: 0 <= i < |a| && i < |b| && a[..i] == b[..i] && a[i] < b[i]
  {
    if a != "" && b != "" {
      var x, y := a[1..], b[1..];
      LeqIff(x, y);
      assert a[0] == b[0] ==> (a <= b <==> x <= y);
      assert a[..0] == b[..0];
      forall i | 0 < i < |a| && i < |b| ensures a[..i][0] == a[0] && b[..i][0] == b[0] {}
      if a[0] == b[0] {
        if i :| 0 <= i < |x| && i < |y| && x[..i] == y[..i] && x[i] < y[i] {
          assert a[..i + 1] == [a[0]] + x[..i] && b[..i + 1] == [b[0]] + y[..i] && a[i + 1] < b[i + 1];
        }
        if i :| 0 <= i < |a| && i < |b| && a[..i] == b[..i] && a[i] < b[i] {
          assert i > 0 && x[..i - 1] == a[..i][1..] && y[..i - 1] == b[..i][1..] && x[i - 1] < y[i - 1];
        }
      }
    }
  }

  lemma {:induction false} LeqTotal(a: string, b: string)
    ensures Leq(a, b) || Leq(b, a)
  {
    if a != "" && b != "" { LeqTotal(a[1..], b[1..]); }
  }

  lemma {:induction false} LeqAntisymmetric(a: string, b: string)
    requires Leq(a, b) && Leq(b, a)
    ensures a == b
  {
    if a != "" && b != "" {
      LeqAntisymmetric(a[1..], b[1..]);
      assert a == [a[0]] + a[1..] && b == [b[0]] + b[1..];
    }
  }

  lemma {:induction false} LeqTransitive(a: string, b: string, c: string)
    requires Leq(a, b) && Leq(b, c)
    ensures Leq(a, c)
  {
    if a != "" && a[0] == b[0] == c[0] { LeqTransitive(a[1..], b[1..], c[1..]); }
  }

  predicate Sorted(s: seq<string>) { forall i, j :: 0 <= i <= j < |s| ==> Leq(s[i], s[j]) }

  function Insert(s: seq<string>, x: string): seq<string> {
    if s == [] || Leq(x, s[0]) then [x] + s else [s[0]] + Insert(s[1..], x)
  }

  function Sort(s: seq<string>): seq<string> { if s == [] then [] else Insert(Sort(s[1..]), s[0]) }

  lemma {:induction false} InsertBag(s: seq<string>, x: string)
    ensures multiset(Insert(s, x)) == multiset(s) + multiset{x}
  {
    if s != [] {
      InsertBag(s[1..], x);
      assert s == [s[0]] + s[1..];
    }
  }

  lemma InsertMembers(s: seq<string>, x: string)
    ensures forall y :: y in Insert(s, x) <==> y in s || y == x
  {
    InsertBag(s, x);
    forall y ensures y in Insert(s, x) <==> y in s || y == x {
      assert y in multiset(Insert(s, x)) <==> y in multiset(s) + multiset{x};
    }
  }

  lemma {:induction false} InsertSorts(s: seq<string>, x: string)
    requires Sorted(s)
    ensures Sorted(Insert(s, x))
  {
    LeqSelf(x);
    if s != [] && !Leq(x, s[0]) {
      InsertSorts(s[1..], x);
      InsertMembers(s[1..], x);
      LeqTotal(x, s[0]);
      LeqSelf(s[0]);
      assert forall y :: y in s[1..] ==> Leq(s[0], y);
    } else {
      forall i | 0 <= i < |s| ensures Leq(x, s[i]) { LeqTransitive(x, s[0], s[i]); }
    }
  }

  lemma LeqSelf(a: string)
    ensures Leq(a, a)
  {
    LeqTotal(a, a);
  }

  lemma {:induction false} SortSorts(s: seq<string>)
    ensures Sorted(Sort(s)) && multiset(Sort(s)) == multiset(s)
  {
    if s != [] {
      SortSorts(s[1..]);
      InsertSorts(Sort(s[1..]), s[0]);
      InsertBag(Sort(s[1..]), s[0]);
      assert s == [s[0]] + s[1..];
    }
  }

  /** The least element comes first, whatever the order was. */
  lemma SameHead(a: seq<string>, b: seq<string>)
    requires Sorted(a) && Sorted(b) && multiset(a) == multiset(b) && a != []
    ensures b != [] && a[0] == b[0]
  {
    assert a[0] in multiset(b);
    assert b[0] in multiset(a);
    var i :| 0 <= i < |b| && b[i] == a[0];
    var j :| 0 <= j < |a| && a[j] == b[0];
    LeqAntisymmetric(a[0], b[0]);
  }

  lemma TailBag(a: seq<string>)
    requires a != []
    ensures multiset(a) == multiset(a[1..]) + multiset{a[0]} && multiset(a[1..]) == multiset(a) - multiset{a[0]}
  {
    assert a == [a[0]] + a[1..];
  }

  /** There is one sorted sequence per bag. */
  lemma {:induction false} SortedUnique(a: seq<string>, b: seq<string>)
    requires Sorted(a) && Sorted(b) && multiset(a) == multiset(b)
    ensures a == b
  {
    if a == [] {
      assert |multiset(b)| == 0;
    } else {
      SameHead(a, b);
      TailBag(a);
      TailBag(b);
      SortedUnique(a[1..], b[1..]);
      assert a == [a[0]] + a[1..] && b == [b[0]] + b[1..];
    }
  }

  /** Sorting tells bags apart and nothing else. */
  lemma SortEqualIffSameBag(a: seq<string>, b: seq<string>)
    ensures Sort(a) == Sort(b) <==> multiset(a) == multiset(b)
  {
    SortSorts(a);
    SortSorts(b);
    if multiset(a) == multiset(b) { SortedUnique(Sort(a), Sort(b)); }
  }

  lemma SortOfSorted(s: seq<string>)
    requires Sorted(s)
    ensures Sort(s) == s
  {
    SortSorts(s);
    SortedUnique(Sort(s), s);
  }

  lemma SortMembers(s: seq<string>)
    ensures forall x :: x in Sort(s) <==> x in s
  {
    SortSorts(s);
    forall x ensures x in Sort(s) <==> x in s { assert x in multiset(Sort(s)) <==> x in multiset(s); }
  }

  function LowerChar(c: char): char { if 'A' <= c <= 'Z' then c - 'A' + 'a' else c }

  function Lower(s: string): string { Image(s, c => LowerChar(c)) }

  lemma LowerTwice(s: string)
    ensures Lower(Lower(s)) == Lower(s)
  {
  }

  /** The capital letter and the small letter at one place of the alphabet. */
  predicate CaseOf(capital: char, small: char) {
    'A' <= capital <= 'Z' && 'a' <= small <= 'z' && small as int - 'a' as int == capital as int - 'A' as int
  }

  /** The texts differ in the case of letters only. */
  predicate UpToCase(a: string, b: string) {
    |a| == |b| && forall i :: 0 <= i < |a| ==> a[i] == b[i] || CaseOf(a[i], b[i]) || CaseOf(b[i], a[i])
  }

  predicate NoCapitals(s: string) { forall c :: c in s ==> !('A' <= c <= 'Z') }

  lemma LowerCharIff(a: char, b: char)
    ensures LowerChar(a) == LowerChar(b) <==> a == b || CaseOf(a, b) || CaseOf(b, a)
  {
  }

  /** Lower case identifies the texts that differ in case only, and chooses the one without capitals. */
  lemma LowerIff(a: string, b: string)
    ensures Lower(a) == Lower(b) <==> UpToCase(a, b)
    ensures UpToCase(a, Lower(a)) && NoCapitals(Lower(a)) && (Lower(a) == a <==> NoCapitals(a))
  {
    forall i | 0 <= i < |a| && i < |b|
      ensures Lower(a)[i] == Lower(b)[i] <==> a[i] == b[i] || CaseOf(a[i], b[i]) || CaseOf(b[i], a[i])
    {
      LowerCharIff(a[i], b[i]);
    }
    forall i | 0 <= i < |a|
      ensures a[i] == Lower(a)[i] || CaseOf(a[i], Lower(a)[i])
      ensures !('A' <= Lower(a)[i] <= 'Z') && (Lower(a)[i] == a[i] <==> !('A' <= a[i] <= 'Z'))
    {
      LowerCharIff(a[i], LowerChar(a[i]));
    }
    if NoCapitals(a) {
      forall i | 0 <= i < |a| ensures Lower(a)[i] == a[i] { assert a[i] in a; }
    }
    if Lower(a) == Lower(b) {
      assert |a| == |Lower(a)| == |Lower(b)| == |b|;
      forall i | 0 <= i < |a| ensures a[i] == b[i] || CaseOf(a[i], b[i]) || CaseOf(b[i], a[i]) {
        assert Lower(a)[i] == Lower(b)[i];
      }
    }
  }

  lemma UpToCaseIsEquivalence(a: string, b: string, c: string)
    ensures UpToCase(a, a) && (UpToCase(a, b) ==> UpToCase(b, a))
    ensures UpToCase(a, b) && UpToCase(b, c) ==> UpToCase(a, c)
  {
    LowerIff(a, b);
    LowerIff(b, c);
    LowerIff(a, c);
  }

  function LowerAll(s: seq<string>): seq<string> { Image(s, x => Lower(x)) }

  /** Keeps the first of equal elements. */
  function Uniq(s: seq<string>): seq<string> {
    if s == [] then []
    else
      var u := Uniq(s[..|s| - 1]);
      if s[|s| - 1] in u then u else u + [s[|s| - 1]]
  }

  lemma {:induction false} UniqMeans(s: seq<string>)
    ensures forall x :: x in Uniq(s) <==> x in s
    ensures forall i, j :: 0 <= i < j < |Uniq(s)| ==> Uniq(s)[i] != Uniq(s)[j]
  {
    if s != [] {
      UniqMeans(s[..|s| - 1]);
      assert s == s[..|s| - 1] + [s[|s| - 1]];
    }
  }

  lemma {:induction false} UniqOfDistinct(s: seq<string>)
    requires forall i, j :: 0 <= i < j < |s| ==> s[i] != s[j]
    ensures Uniq(s) == s
  {
    if s != [] {
      UniqOfDistinct(s[..|s| - 1]);
      assert s == s[..|s| - 1] + [s[|s| - 1]];
    }
  }
}
