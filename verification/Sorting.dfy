/** Sorting by a string key, as slices.Sort and slices.SortFunc promise it: a sorted permutation. */
module Sorting {
  import opened Sequences
  import opened Text

  ghost predicate SortedBy<T>(s: seq<T>, key: T -> string) {
    forall i, j :: 0 <= i < j < |s| ==> AtMost(key(s[i]), key(s[j]))
  }

  function Itself(s: string): string { s }

  function Insert<T>(x: T, s: seq<T>, key: T -> string): (r: seq<T>)
    requires SortedBy(s, key)
    ensures SortedBy(r, key) && multiset(r) == multiset(s) + multiset{x}
  {
    if s == [] then [x]
    else if Before(key(s[0]), key(x)) then
      var rest := Insert(x, s[1..], key);
      assert s == [s[0]] + s[1..];
      LeastFirst(s[0], x, s[1..], rest, key);
      [s[0]] + rest
    else
      InsertFront(x, s, key);
      [x] + s
  }

  lemma LeastFirst<T>(least: T, x: T, s: seq<T>, rest: seq<T>, key: T -> string)
    requires SortedBy(rest, key) && multiset(rest) == multiset(s) + multiset{x}
    requires Before(key(least), key(x)) && forall i :: 0 <= i < |s| ==> AtMost(key(least), key(s[i]))
    ensures SortedBy([least] + rest, key)
  {
    forall i | 0 <= i < |rest| ensures AtMost(key(least), key(rest[i])) {
      assert rest[i] in multiset(s) + multiset{x};
    }
  }

  lemma InsertFront<T>(x: T, s: seq<T>, key: T -> string)
    requires SortedBy(s, key) && s != [] && !Before(key(s[0]), key(x))
    ensures SortedBy([x] + s, key)
  {
    BeforeTotal(key(s[0]), key(x));
    forall j | 0 <= j < |s| ensures AtMost(key(x), key(s[j])) {
      if key(x) != key(s[0]) && key(s[0]) != key(s[j]) {
        BeforeTransitive(key(x), key(s[0]), key(s[j]));
      }
    }
  }

  function Sort<T>(s: seq<T>, key: T -> string): (r: seq<T>)
    ensures SortedBy(r, key) && multiset(r) == multiset(s)
  {
    if s == [] then []
    else
      assert s == [s[0]] + s[1..];
      Insert(s[0], Sort(s[1..], key), key)
  }

  /** Where the key tells elements apart, there is only one sorted order of them. */
  lemma {:induction false} SortedOrderIsUnique<T>(a: seq<T>, b: seq<T>, key: T -> string)
    requires SortedBy(a, key) && SortedBy(b, key) && multiset(a) == multiset(b)
    requires forall x, y :: x in a && y in a && key(x) == key(y) ==> x == y
    ensures a == b
  {
    if a == [] {
      assert |b| == |multiset(b)| == 0;
    } else {
      SameLeast(a, b, key);
      assert a == [a[0]] + a[1..] && b == [b[0]] + b[1..];
      assert multiset(a[1..]) == multiset(a) - multiset{a[0]};
      assert multiset(b[1..]) == multiset(b) - multiset{b[0]};
      SortedOrderIsUnique(a[1..], b[1..], key);
    }
  }

  lemma SameLeast<T>(a: seq<T>, b: seq<T>, key: T -> string)
    requires SortedBy(a, key) && SortedBy(b, key) && multiset(a) == multiset(b) && a != []
    requires forall x, y :: x in a && y in a && key(x) == key(y) ==> x == y
    ensures b != [] && a[0] == b[0]
  {
    assert |b| == |multiset(b)| == |multiset(a)| == |a|;
    assert a[0] in multiset(b) && b[0] in multiset(a);
    var i :| 0 <= i < |b| && b[i] == a[0];
    var j :| 0 <= j < |a| && a[j] == b[0];
    if key(a[0]) != key(b[0]) {
      assert Before(key(a[0]), key(b[0])) && Before(key(b[0]), key(a[0]));
      BeforeTransitive(key(a[0]), key(b[0]), key(a[0]));
      BeforeIrreflexive(key(a[0]));
    }
  }

  function FlatMap<T, U>(f: T -> seq<U>, s: seq<T>): seq<U> {
    if s == [] then [] else f(s[0]) + FlatMap(f, s[1..])
  }

  lemma {:induction false} FlatMapOne<T, U>(f: T -> seq<U>, x: T)
    ensures FlatMap(f, [x]) == f(x)
  {
    assert FlatMap(f, [x]) == f(x) + FlatMap(f, [x][1..]);
  }

  lemma {:induction false} FlatMapEmptyIff<T, U>(f: T -> seq<U>, s: seq<T>)
    ensures FlatMap(f, s) == [] <==> forall i :: 0 <= i < |s| ==> f(s[i]) == []
  {
    if s != [] {
      FlatMapEmptyIff(f, s[1..]);
      assert forall i :: 1 <= i < |s| ==> s[i] == s[1..][i - 1];
    }
  }

  lemma {:induction false} FlatMapMember<T, U>(f: T -> seq<U>, s: seq<T>, y: U)
    ensures y in FlatMap(f, s) <==> exists i :: 0 <= i < |s| && y in f(s[i])
  {
    if s != [] {
      FlatMapMember(f, s[1..], y);
      if y in FlatMap(f, s[1..]) {
        var i :| 0 <= i < |s[1..]| && y in f(s[1..][i]);
        assert s[i + 1] == s[1..][i];
      }
      forall i | 1 <= i < |s| && y in f(s[i]) ensures y in FlatMap(f, s[1..]) {
        assert s[1..][i - 1] == s[i];
      }
    }
  }

  lemma {:induction false} FlatMapNext<T, U>(f: T -> seq<U>, s: seq<T>, i: nat)
    requires i < |s|
    ensures FlatMap(f, s[..i + 1]) == FlatMap(f, s[..i]) + f(s[i])
  {
    assert s[..i + 1] == s[..i] + [s[i]];
    FlatMapAppend(f, s[..i], [s[i]]);
    FlatMapOne(f, s[i]);
  }

  lemma {:induction false} FlatMapAppend<T, U>(f: T -> seq<U>, a: seq<T>, b: seq<T>)
    ensures FlatMap(f, a + b) == FlatMap(f, a) + FlatMap(f, b)
  {
    if a == [] {
      assert a + b == b;
    } else {
      assert (a + b)[0] == a[0] && (a + b)[1..] == a[1..] + b;
      FlatMapAppend(f, a[1..], b);
      Regroup(f(a[0]), FlatMap(f, a[1..]), FlatMap(f, b));
    }
  }

  lemma TakeOut<T>(x: T, rest: seq<T>, b: seq<T>) returns (before: seq<T>, after: seq<T>)
    requires multiset([x] + rest) == multiset(b)
    ensures b == before + [x] + after && multiset(rest) == multiset(before + after)
  {
    assert x in multiset([x] + rest);
    var i :| 0 <= i < |b| && b[i] == x;
    before, after := b[..i], b[i + 1..];
    assert b == before + [x] + after;
    assert multiset(b) == multiset(before) + multiset{x} + multiset(after);
    assert multiset([x] + rest) == multiset{x} + multiset(rest);
    assert multiset(rest) == multiset(b) - multiset{x} == multiset(before) + multiset(after);
  }

  /** What a list of rows contributes does not depend, as a multiset, on their order. */
  lemma {:induction false} FlatMapPermuted<T, U>(f: T -> seq<U>, a: seq<T>, b: seq<T>)
    requires multiset(a) == multiset(b)
    ensures multiset(FlatMap(f, a)) == multiset(FlatMap(f, b))
  {
    if a == [] {
      assert |b| == |multiset(b)| == 0;
    } else {
      assert a == [a[0]] + a[1..];
      var before, after := TakeOut(a[0], a[1..], b);
      FlatMapPermuted(f, a[1..], before + after);
      FlatMapAppend(f, before, after);
      FlatMapAppend(f, before, [a[0]] + after);
      assert b == before + ([a[0]] + after);
      FlatMapAppend(f, [a[0]], after);
      assert FlatMap(f, [a[0]]) == f(a[0]) + [];
      assert FlatMap(f, b) == FlatMap(f, before) + (f(a[0]) + FlatMap(f, after));
    }
  }
}
