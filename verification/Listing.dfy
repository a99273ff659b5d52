/**
  The order in which directory listings are returned: texts compared character by
  character, as `sorted` compares strings. A set of names has exactly one sorting.
 */
module Listing {

  predicate Le(a: string, b: string) {
    a == "" || (b != "" && (a[0] < b[0] || (a[0] == b[0] && Le(a[1..], b[1..]))))
  }

  lemma {:induction false} LeTransitive(a: string, b: string, c: string)
    requires Le(a, b) && Le(b, c)
    ensures Le(a, c)
  {
    if a != "" && a[0] == b[0] == c[0] {
      LeTransitive(a[1..], b[1..], c[1..]);
    }
  }

  lemma {:induction false} LeTotal(a: string, b: string)
    ensures Le(a, b) || Le(b, a)
  {
    if a != "" && b != "" && a[0] == b[0] {
      LeTotal(a[1..], b[1..]);
    }
  }

  lemma {:induction false} LeAntisymmetric(a: string, b: string)
    requires Le(a, b) && Le(b, a)
    ensures a == b
  {
    if a != "" {
      LeAntisymmetric(a[1..], b[1..]);
      assert a == [a[0]] + a[1..] && b == [b[0]] + b[1..];
    }
  }

  ghost predicate Sorted(l: seq<string>) {
    forall i, j :: 0 <= i < j < |l| ==> l[i] != l[j] && Le(l[i], l[j])
  }

  ghost predicate IsSorting(l: seq<string>, names: set<string>) {
    && Sorted(l)
    && (forall n :: n in l <==> n in names)
  }

  lemma HasMember(l: seq<string>)
    ensures l != [] <==> exists n :: n in l
  {
    if l != [] { assert l[0] in l; }
  }

  lemma {:induction false} SortingUnique(l: seq<string>, m: seq<string>, names: set<string>)
    requires IsSorting(l, names) && IsSorting(m, names)
    ensures l == m
    decreases |l|
  {
    HasMember(l);
    HasMember(m);
    if l != [] {
      assert l[0] in names;
      assert m[0] in names;
      assert l[0] == m[0] by {
        var i :| 0 <= i < |m| && m[i] == l[0];
        var j :| 0 <= j < |l| && l[j] == m[0];
        if i != 0 && j != 0 {
          LeAntisymmetric(l[0], m[0]);
        }
      }
      forall n
        ensures n in l[1..] <==> n in names - {l[0]}
        ensures n in m[1..] <==> n in names - {l[0]}
      {
        assert l == [l[0]] + l[1..] && m == [m[0]] + m[1..];
      }
      SortingUnique(l[1..], m[1..], names - {l[0]});
      assert l == [l[0]] + l[1..] && m == [m[0]] + m[1..];
    }
  }

  /** Where a new name goes in a sorted list. */
  method InsertName(l: seq<string>, n: string) returns (r: seq<string>)
    requires Sorted(l) && n !in l
    ensures Sorted(r)
    ensures forall x :: x in r <==> x in l || x == n
  {
    hide Le;
    var i := 0;
    while i < |l| && Le(l[i], n)
      invariant 0 <= i <= |l|
      invariant forall k :: 0 <= k < i ==> Le(l[k], n)
    {
      i := i + 1;
    }
    r := l[..i] + [n] + l[i..];
    assert l == l[..i] + l[i..];
    if i < |l| {
      LeTotal(l[i], n);
      forall k | i <= k < |l| ensures Le(n, l[k]) {
        if k != i { LeTransitive(n, l[i], l[k]); }
      }
    }
    forall a, b | 0 <= a < b < |r| ensures r[a] != r[b] && Le(r[a], r[b]) {
      assert r[a] == if a < i then l[a] else if a == i then n else l[a - 1];
      assert r[b] == if b < i then l[b] else if b == i then n else l[b - 1];
    }
  }

  /** `sorted(names)`. */
  method SortNames(names: set<string>) returns (l: seq<string>)
    ensures IsSorting(l, names)
    ensures l == Sorting(names)
  {
    l := [];
    var todo := names;
    while todo != {}
      invariant todo <= names
      invariant IsSorting(l, names - todo)
      decreases todo
    {
      var n :| n in todo;
      l := InsertName(l, n);
      todo := todo - {n};
    }
    SortingExists(names);
    SortingUnique(l, Sorting(names), names);
  }

  lemma {:induction false} SortingExists(names: set<string>)
    ensures exists l :: IsSorting(l, names)
  {
    if names == {} {
      assert IsSorting([], names);
    } else {
      var n := Least(names);
      SortingExists(names - {n});
      var l :| IsSorting(l, names - {n});
      assert IsSorting([n] + l, names);
    }
  }

  ghost function Least(names: set<string>): (least: string)
    requires names != {}
    ensures least in names
    ensures forall n :: n in names ==> Le(least, n)
  {
    LeastExists(names);
    var m :| m in names && forall n :: n in names ==> Le(m, n);
    m
  }

  lemma {:induction false} LeastExists(names: set<string>)
    requires names != {}
    ensures exists m :: m in names && forall n :: n in names ==> Le(m, n)
  {
    hide Le;
    var x :| x in names;
    LeTotal(x, x);
    if names != {x} {
      var rest := names - {x};
      assert rest != {};
      LeastExists(rest);
      var m :| m in rest && forall n :: n in rest ==> Le(m, n);
      LeTotal(x, m);
      if Le(x, m) {
        forall n | n in names ensures Le(x, n) {
          if n != x { LeTransitive(x, m, n); }
        }
      } else {
        assert forall n :: n in names ==> n == x || n in rest;
      }
    }
  }

  ghost function Sorting(names: set<string>): (l: seq<string>)
    ensures IsSorting(l, names)
  {
    SortingExists(names);
    var l :| IsSorting(l, names);
    l
  }

  ghost predicate SmallerAt(a: string, b: string, k: nat) {
    k < |a| && k < |b| && a[..k] == b[..k] && a[k] < b[k]
  }

  /** The order is the dictionary's: a text comes no later than another when it starts it, or
      has the smaller character at the first place where they differ. */
  lemma {:induction false} LeExact(a: string, b: string)
    ensures Le(a, b) <==> a <= b || exists k: nat :: SmallerAt(a, b, k)
  {
    if a != "" && b != "" {
      assert a == [a[0]] + a[1..] && b == [b[0]] + b[1..];
      SmallerFirst(a, b);
      if a[0] == b[0] {
        LeExact(a[1..], b[1..]);
        if k: nat :| SmallerAt(a[1..], b[1..], k) { SmallerLater(a, b, k); }
        if k: nat :| SmallerAt(a, b, k) {
          assert k > 0;
          SmallerLater(a, b, k - 1);
        }
      }
    }
  }

  lemma SmallerFirst(a: string, b: string)
    requires a != "" && b != ""
    ensures SmallerAt(a, b, 0) <==> a[0] < b[0]
    ensures forall k :: k > 0 && SmallerAt(a, b, k) ==> a[0] == b[0]
  {
    assert a[..0] == b[..0];
    forall k | k > 0 && SmallerAt(a, b, k) ensures a[0] == b[0] {
      assert a[0] == a[..k][0] && b[0] == b[..k][0];
    }
  }

  lemma SmallerLater(a: string, b: string, k: nat)
    requires a != "" && b != "" && a[0] == b[0]
    ensures SmallerAt(a[1..], b[1..], k) <==> SmallerAt(a, b, k + 1)
  {
    if k < |a| - 1 && k < |b| - 1 {
      assert a[..k + 1] == [a[0]] + a[1..][..k] && b[..k + 1] == [b[0]] + b[1..][..k];
      assert a[1..][..k] == a[..k + 1][1..] && b[1..][..k] == b[..k + 1][1..];
    }
  }
}
