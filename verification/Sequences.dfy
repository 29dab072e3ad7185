/** Loops that append zero or more items per element, as one function. */
module Sequences {

  function FlatMap<T, U>(s: seq<T>, f: T -> seq<U>): seq<U> {
    if s == [] then [] else f(s[0]) + FlatMap(s[1..], f)
  }

  lemma FlatMapNone<T, U>(s: seq<T>, f: T -> seq<U>)
    ensures FlatMap(s[..0], f) == []
  {
  }

  lemma FlatMapOne<T, U>(x: T, f: T -> seq<U>)
    ensures FlatMap([x], f) == f(x)
  {
    assert FlatMap([x][1..], f) == [];
  }

  lemma {:induction false} FlatMapConcat<T, U>(a: seq<T>, b: seq<T>, f: T -> seq<U>)
    ensures FlatMap(a + b, f) == FlatMap(a, f) + FlatMap(b, f)
  {
    if a == [] {
      assert a + b == b;
    } else {
      FlatMapConcat(a[1..], b, f);
      assert (a + b)[1..] == a[1..] + b;
    }
  }

  lemma FlatMapSlice<T, U>(s: seq<T>, a: nat, b: nat, c: nat, f: T -> seq<U>)
    requires a <= b <= c <= |s|
    ensures FlatMap(s[a..c], f) == FlatMap(s[a..b], f) + FlatMap(s[b..c], f)
  {
    hide FlatMap;
    assert s[a..c] == s[a..b] + s[b..c];
    FlatMapConcat(s[a..b], s[b..c], f);
  }

  lemma FlatMapStep<T, U>(s: seq<T>, i: nat, f: T -> seq<U>)
    requires i < |s|
    ensures FlatMap(s[..i + 1], f) == FlatMap(s[..i], f) + f(s[i])
  {
    hide FlatMap;
    assert s[..i + 1] == s[..i] + [s[i]];
    FlatMapConcat(s[..i], [s[i]], f);
    FlatMapOne(s[i], f);
  }

  lemma FlatMapLast<T, U>(s: seq<T>, f: T -> seq<U>)
    requires s != []
    ensures FlatMap(s, f) == FlatMap(s[..|s| - 1], f) + f(s[|s| - 1])
  {
    hide FlatMap;
    assert s[..|s| - 1 + 1] == s;
    FlatMapStep(s, |s| - 1, f);
  }

  lemma FlatMapWhole<T, U>(s: seq<T>, f: T -> seq<U>)
    ensures FlatMap(s[..|s|], f) == FlatMap(s, f) && FlatMap(s[0..|s|], f) == FlatMap(s, f)
  {
    hide FlatMap;
    assert s[..|s|] == s && s[0..|s|] == s;
  }

  lemma {:induction false} FlatMapMembers<T, U>(s: seq<T>, f: T -> seq<U>, y: U)
    ensures y in FlatMap(s, f) <==> exists x :: x in s && y in f(x)
  {
    if s != [] {
      FlatMapMembers(s[1..], f, y);
      assert s == [s[0]] + s[1..];
    }
  }

  /** Handling two fields of each element one after the other keeps the same items. */
  lemma {:induction false} FlatMapSplit<T, K, L, U>(
      s: seq<T>, f: T -> seq<U>, g: T -> seq<K>, k: K -> seq<U>, h: T -> seq<L>, l: L -> seq<U>)
    requires forall x :: x in s ==>
               multiset(f(x)) == multiset(FlatMap(g(x), k)) + multiset(FlatMap(h(x), l))
    ensures multiset(FlatMap(s, f)) == multiset(FlatMap(FlatMap(s, g), k)) + multiset(FlatMap(FlatMap(s, h), l))
  {
    if s != [] {
      assert s[0] in s;
      FlatMapSplit(s[1..], f, g, k, h, l);
      FlatMapConcat(g(s[0]), FlatMap(s[1..], g), k);
      FlatMapConcat(h(s[0]), FlatMap(s[1..], h), l);
    }
  }

  /** The items of a slice sit side by side in the items of the whole. */
  lemma FlatMapWindow<T, U>(s: seq<T>, a: nat, b: nat, f: T -> seq<U>)
    requires a <= b <= |s|
    ensures FlatMap(s[..b], f) == FlatMap(s[..a], f) + FlatMap(s[a..b], f)
    ensures FlatMap(s[..b], f) <= FlatMap(s, f)
  {
    hide FlatMap;
    assert s[..b] == s[..a] + s[a..b];
    FlatMapConcat(s[..a], s[a..b], f);
    assert s == s[..b] + s[b..];
    FlatMapConcat(s[..b], s[b..], f);
  }

  /** Sorting elements into two piles loses none. */
  lemma {:induction false} FlatMapPartition<T>(s: seq<T>, f: T -> seq<T>, g: T -> seq<T>)
    requires forall x :: x in s ==> (f(x) == [x] && g(x) == []) || (f(x) == [] && g(x) == [x])
    ensures multiset(FlatMap(s, f)) + multiset(FlatMap(s, g)) == multiset(s)
    ensures |FlatMap(s, f)| + |FlatMap(s, g)| == |s|
  {
    if s != [] {
      assert s[0] in s;
      FlatMapPartition(s[1..], f, g);
      assert s == [s[0]] + s[1..];
      assert multiset(f(s[0])) + multiset(g(s[0])) == multiset{s[0]};
    }
  }

  // ------------------------------------------------- elements that occur once

  predicate NoDuplicates<T(==)>(s: seq<T>) {
    forall i, j :: 0 <= i < j < |s| ==> s[i] != s[j]
  }

  lemma {:induction false} CountsOnce<T>(s: seq<T>, x: T)
    requires NoDuplicates(s)
    ensures multiset(s)[x] <= 1
  {
    if s != [] {
      assert s == [s[0]] + s[1..];
      CountsOnce(s[1..], x);
      assert s[0] !in s[1..] by { forall j | 1 <= j < |s| ensures s[j] != s[0] { } }
    }
  }

  lemma TwiceMeansTwo<T>(s: seq<T>, i: nat, j: nat)
    requires i < j < |s| && s[i] == s[j]
    ensures multiset(s)[s[i]] >= 2
  {
    assert s == s[..i] + [s[i]] + s[i + 1..j] + [s[j]] + s[j + 1..];
  }

  /** Part of the same elements in any order: still none twice. */
  lemma PartHasNoDuplicates<T>(part: seq<T>, whole: seq<T>)
    requires NoDuplicates(whole) && multiset(part) <= multiset(whole)
    ensures NoDuplicates(part)
  {
    forall i, j | 0 <= i < j < |part| ensures part[i] != part[j] {
      CountsOnce(whole, part[i]);
      if part[i] == part[j] { TwiceMeansTwo(part, i, j); }
    }
  }
}
