/** Sequences rearranged by sort.Slice: what a permutation keeps. */
module Sorting {

  /** 0, 1, ..., n-1. */
  function Indices(n: nat): (s: seq<nat>)
    ensures |s| == n && forall i :: 0 <= i < n ==> s[i] == i
  {
    seq(n, i requires 0 <= i < n => i)
  }

  function Elements<T(==, !new)>(s: seq<T>): (r: set<T>)
    ensures forall x :: x in r <==> x in s
  {
    set x | x in s
  }

  ghost predicate Distinct<T(!new)>(s: seq<T>) {
    forall i, j :: 0 <= i < j < |s| ==> s[i] != s[j]
  }

  /** A sequence has as many elements as places exactly when none is repeated. */
  lemma {:induction false} DistinctSize<T(!new)>(s: seq<T>)
    ensures |Elements(s)| <= |s| && (|Elements(s)| == |s| <==> Distinct(s))
  {
    if s != [] {
      var n := |s| - 1;
      var before := s[..n];
      DistinctSize(before);
      assert s == before + [s[n]];
      assert Elements(s) == Elements(before) + {s[n]};
      if s[n] in before {
        assert Elements(s) == Elements(before);
        var i :| 0 <= i < n && before[i] == s[n];
        assert s[i] == s[n];
      } else {
        assert |Elements(s)| == |Elements(before)| + 1;
        assert Distinct(before) ==> Distinct(s) by {
          assert forall i :: 0 <= i < n ==> s[i] == before[i] && s[i] in before;
        }
        assert Distinct(s) ==> Distinct(before) by {
          assert forall i :: 0 <= i < n ==> s[i] == before[i];
        }
      }
    }
  }

  ghost predicate Increasing(s: seq<int>) {
    forall i, j :: 0 <= i < j < |s| ==> s[i] < s[j]
  }

  function Pick<T>(s: seq<T>, order: seq<nat>): (t: seq<T>)
    requires forall i :: 0 <= i < |order| ==> order[i] < |s|
    ensures |t| == |order| && forall i :: 0 <= i < |t| ==> t[i] == s[order[i]]
  {
    seq(|order|, i requires 0 <= i < |order| => s[order[i]])
  }

  lemma RemoveAt<T>(s: seq<T>, k: nat)
    requires k < |s|
    ensures multiset(s) == multiset(s[..k] + s[k + 1..]) + multiset{s[k]}
  {
    assert s == s[..k] + [s[k]] + s[k + 1..];
  }

  lemma Cancel<T>(a: multiset<T>, b: multiset<T>, x: T)
    requires a + multiset{x} == b + multiset{x}
    ensures a == b
  {
    forall y: T | y in a || y in b ensures a[y] == b[y] {
      assert (a + multiset{x})[y] == (b + multiset{x})[y];
    }
  }

  /** The head of one permutation sits somewhere in the other, and what is left still matches. */
  lemma TailMatches<T>(a: seq<T>, b: seq<T>) returns (k: nat)
    requires a != [] && multiset(a) == multiset(b)
    ensures k < |b| && b[k] == a[0]
    ensures multiset(a[1..]) == multiset(b[..k] + b[k + 1..])
  {
    assert a[0] in multiset(b);
    k :| 0 <= k < |b| && b[k] == a[0];
    RemoveAt(a, 0);
    RemoveAt(b, k);
    assert a[..0] + a[1..] == a[1..];
    Cancel(multiset(a[1..]), multiset(b[..k] + b[k + 1..]), a[0]);
  }

  lemma EmptyMatches<T>(b: seq<T>)
    requires multiset(b) == multiset{}
    ensures b == []
  {
    assert |multiset(b)| == 0;
  }

  lemma {:induction false} PickMultiset<T>(s: seq<T>, a: seq<nat>, b: seq<nat>)
    requires forall i :: 0 <= i < |a| ==> a[i] < |s|
    requires forall i :: 0 <= i < |b| ==> b[i] < |s|
    requires multiset(a) == multiset(b)
    ensures multiset(Pick(s, a)) == multiset(Pick(s, b))
  {
    if a == [] {
      EmptyMatches(b);
    } else {
      var k := TailMatches(a, b);
      var rest := b[..k] + b[k + 1..];
      PickMultiset(s, a[1..], rest);
      assert Pick(s, a) == [s[a[0]]] + Pick(s, a[1..]);
      RemoveAt(Pick(s, b), k);
      assert Pick(s, b)[..k] + Pick(s, b)[k + 1..] == Pick(s, rest);
    }
  }

  /** Something that occurs once sits at one place. */
  lemma OnceMeansDistinct<T>(s: seq<T>, i: nat, j: nat)
    requires i < j < |s| && multiset(s)[s[i]] == 1
    ensures s[i] != s[j]
  {
    var rest := s[..j] + s[j + 1..];
    RemoveAt(s, j);
    assert rest[i] == s[i] && s[i] in multiset(rest);
  }

  /** And something that sits at one place only occurs once. */
  lemma DistinctOnce<T>(s: seq<T>, k: nat)
    requires k < |s| && forall i, j :: 0 <= i < j < |s| ==> s[i] != s[j]
    ensures multiset(s)[s[k]] == 1
  {
    RemoveAt(s, k);
    var rest := s[..k] + s[k + 1..];
    forall i | 0 <= i < |rest| ensures rest[i] != s[k] {
      assert rest[i] == if i < k then s[i] else s[i + 1];
    }
    assert s[k] !in rest;
  }

  /** Two places of a permutation hold what two places of the other hold. */
  lemma TwoPlaces<T>(v: seq<T>, w: seq<T>, i: nat, j: nat) returns (k: nat, l: nat)
    requires multiset(v) == multiset(w) && i < j < |v|
    ensures k < |w| && l < |w| && k != l && w[k] == v[i] && w[l] == v[j]
  {
    assert v[j] in multiset(w);
    l :| 0 <= l < |w| && w[l] == v[j];
    RemoveAt(v, j);
    RemoveAt(w, l);
    var restV, restW := v[..j] + v[j + 1..], w[..l] + w[l + 1..];
    Cancel(multiset(restV), multiset(restW), v[j]);
    assert restV[i] == v[i] && restV[i] in multiset(restW);
    var m :| 0 <= m < |restW| && restW[m] == v[i];
    k := if m < l then m else m + 1;
  }

  /** Lists without repetition of the same things are equally long. */
  lemma SameThings<T>(a: seq<T>, b: seq<T>)
    requires forall i, j :: 0 <= i < j < |a| ==> a[i] != a[j]
    requires forall i, j :: 0 <= i < j < |b| ==> b[i] != b[j]
    requires forall x :: x in a <==> x in b
    ensures |a| == |b|
  {
    forall x: T | x in multiset(a) || x in multiset(b) ensures multiset(a)[x] == multiset(b)[x] {
      assert x in a && x in b;
      var i :| 0 <= i < |a| && a[i] == x;
      var j :| 0 <= j < |b| && b[j] == x;
      DistinctOnce(a, i);
      DistinctOnce(b, j);
    }
    assert multiset(a) == multiset(b);
    assert |multiset(a)| == |a| && |multiset(b)| == |b|;
  }

  lemma InsertMultiset<T>(s: seq<T>, at: nat, x: T)
    requires at <= |s|
    ensures multiset(s[..at] + [x] + s[at..]) == multiset(s) + multiset{x}
  {
    assert s == s[..at] + s[at..];
  }

  lemma HeadIn<T>(s: seq<T>)
    ensures s != [] ==> s[0] in s
  {
  }

  lemma PickAll<T>(s: seq<T>)
    ensures Pick(s, Indices(|s|)) == s
  {
  }

  /** A permutation of the indices rearranges without losing or repeating anything. */
  lemma Rearranged<T>(s: seq<T>, order: seq<nat>)
    requires multiset(order) == multiset(Indices(|s|))
    ensures |order| == |s| && forall i :: 0 <= i < |order| ==> order[i] < |s|
    ensures multiset(Pick(s, order)) == multiset(s)
    ensures forall k :: 0 <= k < |s| ==> k in order
  {
    assert |multiset(order)| == |multiset(Indices(|s|))|;
    forall i | 0 <= i < |order| ensures order[i] < |s| {
      assert order[i] in multiset(order);
      assert order[i] in Indices(|s|);
    }
    PickMultiset(s, order, Indices(|s|));
    PickAll(s);
    forall k | 0 <= k < |s| ensures k in order {
      assert Indices(|s|)[k] == k;
      assert k in multiset(Indices(|s|));
    }
  }

  ghost predicate SortedBy<T>(s: seq<T>, key: T -> int) {
    forall i, j :: 0 <= i < j < |s| ==> key(s[i]) <= key(s[j])
  }

  lemma InsertSorted<T>(s: seq<T>, key: T -> int, at: nat, x: T)
    requires SortedBy(s, key) && at <= |s| && (at > 0 ==> key(s[at - 1]) <= key(x))
    requires forall i :: at <= i < |s| ==> key(x) <= key(s[i])
    ensures SortedBy(s[..at] + [x] + s[at..], key)
  {
  }

  /** Where the first element of s stands whose key is t or greater. */
  ghost function Place<T>(s: seq<T>, key: T -> int, t: int): (at: nat)
    requires SortedBy(s, key)
    ensures at <= |s| && (forall i :: 0 <= i < at ==> key(s[i]) < t) && (forall i :: at <= i < |s| ==> t <= key(s[i]))
  {
    if s == [] then 0
    else if key(s[|s| - 1]) < t then |s|
    else Place(s[..|s| - 1], key, t)
  }

  /** s with x before everything whose key is the same or greater. */
  ghost function InsertFirst<T>(s: seq<T>, key: T -> int, x: T): (v: seq<T>)
    requires SortedBy(s, key)
    ensures SortedBy(v, key) && multiset(v) == multiset(s) + multiset{x}
  {
    var at := Place(s, key, key(x));
    InsertMultiset(s, at, x);
    InsertSorted(s, key, at, x);
    s[..at] + [x] + s[at..]
  }

  /** One of the orders a sort may leave. */
  ghost function Arrange<T>(s: seq<T>, key: T -> int): (v: seq<T>)
    ensures SortedBy(v, key) && multiset(v) == multiset(s)
  {
    if s == [] then []
    else
      assert s == [s[0]] + s[1..];
      InsertFirst(Arrange(s[1..], key), key, s[0])
  }

  lemma WithoutTwo<T>(s: seq<T>, a: nat, b: nat) returns (rest: seq<T>)
    requires a < |s| && b < |s| && a != b
    ensures multiset(s) == multiset(rest) + multiset{s[b]} + multiset{s[a]}
  {
    var others, at := s[..a] + s[a + 1..], if b < a then b else b - 1;
    RemoveAt(s, a);
    RemoveAt(others, at);
    rest := others[..at] + others[at + 1..];
  }

  /** No key lies strictly between two others. */
  ghost predicate NoneBetween<T>(s: seq<T>, key: T -> int, low: int, high: int) {
    forall k :: 0 <= k < |s| ==> !(low < key(s[k]) < high)
  }

  /** Some order a sort may leave has one element right before another, if no key lies between theirs. */
  lemma SideBySide<T>(s: seq<T>, key: T -> int, a: nat, b: nat) returns (v: seq<T>, i: nat)
    requires a < |s| && b < |s| && a != b
    requires key(s[a]) <= key(s[b]) && NoneBetween(s, key, key(s[a]), key(s[b]))
    ensures SortedBy(v, key) && multiset(v) == multiset(s)
    ensures i + 1 < |v| && v[i] == s[a] && v[i + 1] == s[b]
  {
    hide *;
    var rest := WithoutTwo(s, a, b);
    var u := Arrange(rest, key);
    i := Place(u, key, key(s[b]));
    BeforeBoth(s, key, u, i, a, b);
    InsertPair(u, key, i, s[a], s[b]);
    v := u[..i] + [s[a], s[b]] + u[i..];
  }

  lemma InsertPair<T>(s: seq<T>, key: T -> int, at: nat, x: T, y: T)
    requires SortedBy(s, key) && at <= |s| && key(x) <= key(y)
    requires (forall k :: 0 <= k < at ==> key(s[k]) <= key(x)) && (forall k :: at <= k < |s| ==> key(y) <= key(s[k]))
    ensures SortedBy(s[..at] + [x, y] + s[at..], key)
    ensures multiset(s[..at] + [x, y] + s[at..]) == multiset(s) + multiset{y} + multiset{x}
  {
    assert s == s[..at] + s[at..];
  }

  lemma BeforeBoth<T>(s: seq<T>, key: T -> int, u: seq<T>, i: nat, a: nat, b: nat)
    requires a < |s| && b < |s| && multiset(s) == multiset(u) + multiset{s[b]} + multiset{s[a]}
    requires NoneBetween(s, key, key(s[a]), key(s[b]))
    requires i <= |u| && forall k :: 0 <= k < i ==> key(u[k]) < key(s[b])
    ensures forall k :: 0 <= k < i ==> key(u[k]) <= key(s[a])
  {
    forall k | 0 <= k < i ensures key(u[k]) <= key(s[a]) {
      assert u[k] in multiset(s);
    }
  }

  /** sort.Slice by a key; where equal keys fall is not specified. */
  method SortBy<T>(given: seq<T>, key: T -> int) returns (s: seq<T>)
    ensures SortedBy(s, key) && multiset(s) == multiset(given) && |s| == |given|
  {
    s := [];
    for n := 0 to |given|
      invariant |s| == n && SortedBy(s, key) && multiset(s) == multiset(given[..n])
    {
      var at := |s|;
      while at > 0 && key(s[at - 1]) > key(given[n])
        invariant 0 <= at <= |s|
        invariant forall i :: at <= i < |s| ==> key(s[i]) > key(given[n])
      {
        at := at - 1;
      }
      InsertMultiset(s, at, given[n]);
      InsertSorted(s, key, at, given[n]);
      assert given[..n + 1] == given[..n] + [given[n]];
      hide SortedBy;
      s := s[..at] + [given[n]] + s[at..];
    }
    assert given[..|given|] == given;
  }
}
