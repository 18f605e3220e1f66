/** Sequences read as bags. */
module Bags {

  function Select<T>(s: seq<T>, p: T -> bool): seq<T> {
    if s == [] then [] else Select(s[..|s| - 1], p) + if p(s[|s| - 1]) then [s[|s| - 1]] else []
  }

  function Image<T, U>(s: seq<T>, f: T -> U): (r: seq<U>)
    ensures |r| == |s| && forall i :: 0 <= i < |r| ==> r[i] == f(s[i])
  {
    seq(|s|, i requires 0 <= i < |s| => f(s[i]))
  }

  lemma {:induction false} SelectCounts<T>(s: seq<T>, p: T -> bool, x: T)
    ensures multiset(Select(s, p))[x] == if p(x) then multiset(s)[x] else 0
  {
    if s != [] {
      SelectCounts(s[..|s| - 1], p, x);
      assert s == s[..|s| - 1] + [s[|s| - 1]];
    }
  }

  /** What is selected depends on the bag only. */
  lemma SelectEqual<T(!new)>(a: seq<T>, b: seq<T>, p: T -> bool)
    requires multiset(a) == multiset(b)
    ensures multiset(Select(a, p)) == multiset(Select(b, p)) && |Select(a, p)| == |Select(b, p)|
  {
    forall x ensures multiset(Select(a, p))[x] == multiset(Select(b, p))[x] {
      SelectCounts(a, p, x);
      SelectCounts(b, p, x);
    }
    assert multiset(Select(a, p)) == multiset(Select(b, p));
    assert |multiset(Select(a, p))| == |multiset(Select(b, p))|;
  }

  lemma SelectSplits<T(!new)>(s: seq<T>, p: T -> bool, q: T -> bool)
    requires forall x :: q(x) <==> !p(x)
    ensures multiset(s) == multiset(Select(s, p)) + multiset(Select(s, q))
  {
    forall x ensures multiset(s)[x] == (multiset(Select(s, p)) + multiset(Select(s, q)))[x] {
      SelectCounts(s, p, x);
      SelectCounts(s, q, x);
    }
  }

  /** The only element selected. */
  lemma OnlyOne<T(!new)>(s: seq<T>, p: T -> bool, x: T)
    requires x in s && p(x) && |Select(s, p)| == 1
    ensures Select(s, p) == [x]
  {
    SelectCounts(s, p, x);
    assert multiset(s)[x] > 0;
    assert x in Select(s, p);
  }

  function Drop<T>(s: seq<T>, i: nat): seq<T>
    requires i < |s|
  {
    s[..i] + s[i + 1..]
  }

  lemma DropBag<T>(s: seq<T>, i: nat)
    requires i < |s|
    ensures multiset(s) == multiset(Drop(s, i)) + multiset{s[i]}
  {
    assert s == s[..i] + [s[i]] + s[i + 1..];
  }

  lemma Without<T(!new)>(s: seq<T>, x: T) returns (rest: seq<T>)
    requires x in multiset(s)
    ensures multiset(s) == multiset(rest) + multiset{x} && multiset(rest) == multiset(s) - multiset{x}
  {
    var i :| 0 <= i < |s| && s[i] == x;
    DropBag(s, i);
    rest := Drop(s, i);
  }

  lemma DropImage<T, U>(s: seq<T>, i: nat, f: T -> U)
    requires i < |s|
    ensures multiset(Image(s, f)) == multiset(Image(Drop(s, i), f)) + multiset{f(s[i])}
  {
    DropBag(Image(s, f), i);
    assert Image(Drop(s, i), f) == Drop(Image(s, f), i);
  }

  /** Equal bags have equal images. */
  lemma {:induction false} ImageEqual<T(!new), U(!new)>(a: seq<T>, b: seq<T>, f: T -> U)
    requires multiset(a) == multiset(b)
    ensures multiset(Image(a, f)) == multiset(Image(b, f))
    decreases |a|
  {
    if a == [] {
      assert |multiset(b)| == 0;
    } else {
      assert a[0] in multiset(b);
      var i :| 0 <= i < |b| && b[i] == a[0];
      DropBag(a, 0);
      DropBag(b, i);
      assert multiset(Drop(a, 0)) == multiset(a) - multiset{a[0]};
      assert multiset(Drop(b, i)) == multiset(b) - multiset{a[0]};
      ImageEqual(Drop(a, 0), Drop(b, i), f);
      DropImage(a, 0, f);
      DropImage(b, i, f);
    }
  }

  lemma ImageParts<T, U>(a: seq<T>, b: seq<T>, f: T -> U)
    ensures Image(a + b, f) == Image(a, f) + Image(b, f)
  {
  }

  lemma ImageLast<T, U>(a: seq<T>, f: T -> U)
    requires a != []
    ensures Image(a, f) == Image(a[..|a| - 1], f) + [f(a[|a| - 1])]
  {
  }

  lemma ImageHas<T, U>(s: seq<T>, f: T -> U, u: U)
    ensures u in Image(s, f) <==> exists x :: x in s && f(x) == u
  {
    if x :| x in s && f(x) == u {
      var i :| 0 <= i < |s| && s[i] == x;
      assert Image(s, f)[i] == u;
    }
    if u in Image(s, f) {
      var i :| 0 <= i < |s| && Image(s, f)[i] == u;
      assert s[i] in s && f(s[i]) == u;
    }
  }

  /** One element more, one image more. */
  lemma ImagePlus<T(!new), U(!new)>(a: seq<T>, b: seq<T>, x: T, f: T -> U)
    requires multiset(b) == multiset(a) + multiset{x}
    ensures multiset(Image(b, f)) == multiset(Image(a, f)) + multiset{f(x)}
  {
    assert multiset(a + [x]) == multiset(b);
    ImageEqual(a + [x], b, f);
    ImageParts(a, [x], f);
    assert Image([x], f) == [f(x)];
  }

  /** Selecting commutes with an image that does not change what is selected. */
  lemma {:induction false} SelectImage<T(!new), U(!new)>(s: seq<T>, p: T -> bool, q: U -> bool, f: T -> U)
    requires forall x :: q(f(x)) <==> p(x)
    ensures Image(Select(s, p), f) == Select(Image(s, f), q)
    decreases |s|
  {
    if s != [] {
      var n := |s| - 1;
      SelectImage(s[..n], p, q, f);
      assert Image(s, f)[..n] == Image(s[..n], f);
      ImageParts(Select(s[..n], p), if p(s[n]) then [s[n]] else [], f);
    }
  }

  /** What a map over the selected elements cannot change, it does not change in the whole bag. */
  lemma ImageUnseen<T(!new), U(!new)>(s: seq<T>, p: T -> bool, q: T -> bool, f: T -> T, g: T -> U)
    requires (forall x :: q(x) <==> !p(x)) && forall x :: g(f(x)) == g(x)
    ensures multiset(Image(Select(s, q) + Image(Select(s, p), f), g)) == multiset(Image(s, g))
  {
    var a, b := Select(s, q), Select(s, p);
    SelectSplits(s, p, q);
    ImageEqual(a + b, s, g);
    ImageParts(a, b, g);
    ImageParts(a, Image(b, f), g);
    assert Image(Image(b, f), g) == Image(b, g);
  }

  /** Two places hold the same element exactly when the bag has it twice. */
  lemma {:induction false} Twice<T>(s: seq<T>, x: T)
    ensures multiset(s)[x] > 1 <==> exists i, j :: 0 <= i < j < |s| && s[i] == s[j] == x
  {
    if s != [] {
      var n := |s| - 1;
      Twice(s[..n], x);
      assert s == s[..n] + [s[n]];
      if s[n] == x && x in s[..n] {
        var i :| 0 <= i < n && s[i] == x;
        assert 0 <= i < n < |s| && s[i] == s[n] == x;
      }
    }
  }

  lemma More<T>(b: multiset<T>, x: T)
    ensures b + multiset{x} != b
  {
    assert (b + multiset{x})[x] == b[x] + 1;
  }

  lemma Cancel<T>(a: multiset<T>, b: multiset<T>, c: multiset<T>)
    ensures a == b <==> a + c == b + c
    ensures a == b <==> c + a == c + b
  {
    if a + c == b + c { assert a == a + c - c == b; }
    assert a + c == c + a && b + c == c + b;
  }

  lemma Swap<T>(b: multiset<T>, x: T, y: T)
    ensures b + multiset{x} == b + multiset{y} <==> x == y
  {
    if x != y { assert (b + multiset{x})[x] == b[x] + 1 && (b + multiset{y})[x] == b[x]; }
  }

  /** Mapping a bag replaces `n` by `v` and nothing else exactly when `f` turns `n` into `v` and leaves the
      rest alone. */
  lemma ReplaceExact<T(!new)>(hits: seq<T>, rest: multiset<T>, n: T, v: T, f: T -> T)
    requires multiset(hits) == rest + multiset{n} && forall x :: f(f(x)) == f(x)
    ensures multiset(Image(hits, f)) == rest + multiset{v} <==> f(n) == v && forall h :: h in rest ==> f(h) == h
  {
    assert n in multiset(hits);
    var others := Without(hits, n);
    Cancel(multiset(others), rest, multiset{n});
    ImagePlus(others, hits, n, f);
    if multiset(Image(hits, f)) == rest + multiset{v} { ImageFixed(hits, rest, v, f); }
    if forall h :: h in rest ==> f(h) == h {
      forall i | 0 <= i < |others| ensures f(others[i]) == others[i] { assert others[i] in multiset(others); }
      assert Image(others, f) == others;
      Swap(rest, f(n), v);
    }
  }

  lemma ImageFixed<T(!new)>(hits: seq<T>, rest: multiset<T>, v: T, f: T -> T)
    requires multiset(Image(hits, f)) == rest + multiset{v} && forall x :: f(f(x)) == f(x)
    ensures forall h :: h in rest ==> f(h) == h
  {
    forall h | h in rest ensures f(h) == h {
      assert h in multiset(Image(hits, f));
      var i :| 0 <= i < |Image(hits, f)| && Image(hits, f)[i] == h;
      assert h == f(hits[i]);
    }
  }

  /** Taking one selected element away: what is left, selected and not. */
  lemma SelectRest<T(!new)>(l: seq<T>, rest: multiset<T>, n: T, p: T -> bool, q: T -> bool)
    returns (others: multiset<T>)
    requires multiset(l) == rest + multiset{n} && p(n) && forall x :: q(x) <==> !p(x)
    ensures multiset(Select(l, p)) == others + multiset{n} && rest == multiset(Select(l, q)) + others
    ensures forall h :: h in others <==> h in rest && p(h)
  {
    SelectCounts(l, p, n);
    assert n in multiset(l);
    others := multiset(Select(l, p)) - multiset{n};
    SelectSplits(l, p, q);
    Cancel(rest, multiset(Select(l, q)) + others, multiset{n});
    forall h ensures h in others <==> h in rest && p(h) { RestSelected(l, rest, others, n, p, q, h); }
  }

  lemma RestSelected<T(!new)>(
    l: seq<T>, rest: multiset<T>, others: multiset<T>, n: T, p: T -> bool, q: T -> bool, h: T)
    requires multiset(Select(l, p)) == others + multiset{n} && rest == multiset(Select(l, q)) + others
    requires q(h) <==> !p(h)
    requires p(n)
    ensures h in others <==> h in rest && p(h)
  {
    SelectCounts(l, p, h);
    SelectCounts(l, q, h);
    assert h in others ==> h in multiset(Select(l, p));
  }

  /** The same when `f` maps only what `p` selects and `q` keeps the others. */
  lemma ReplaceSelected<T(!new)>(l: seq<T>, rest: multiset<T>, n: T, v: T, p: T -> bool, q: T -> bool, f: T -> T)
    requires multiset(l) == rest + multiset{n} && p(n)
    requires (forall x :: q(x) <==> !p(x)) && forall x :: f(f(x)) == f(x)
    ensures multiset(Select(l, q)) + multiset(Image(Select(l, p), f)) == rest + multiset{v}
       <==> f(n) == v && forall h :: h in rest && p(h) ==> f(h) == h
  {
    var kept, image := multiset(Select(l, q)), multiset(Image(Select(l, p), f));
    var others := SelectRest(l, rest, n, p, q);
    ReplaceExact(Select(l, p), others, n, v, f);
    Cancel(image, others + multiset{v}, kept);
    assert kept + (others + multiset{v}) == rest + multiset{v};
  }

  /** Two bags that differ in one element. */
  lemma SameRest<T(!new)>(a: seq<T>, rest: multiset<T>, x: T) returns (left: seq<T>)
    requires multiset(a) == rest + multiset{x}
    ensures multiset(left) == rest
  {
    assert x in multiset(a);
    left := Without(a, x);
    Cancel(multiset(left), rest, multiset{x});
  }
}
