/** Facts about sequences and finite sets shared by the models. */
module Sequences {

  predicate Distinct<T(==)>(s: seq<T>) {
    forall i, j :: 0 <= i < j < |s| ==> s[i] != s[j]
  }

  predicate InRange(s: seq<int>, n: int) {
    forall i :: 0 <= i < |s| ==> 0 <= s[i] < n
  }

  /** s without its element at position i. */
  function Drop<T>(s: seq<T>, i: nat): (r: seq<T>)
    requires i < |s|
    ensures |r| == |s| - 1
  {
    s[..i] + s[i + 1..]
  }

  function Elems<T(==)>(s: seq<T>): set<T> {
    set x | x in s
  }

  lemma {:induction false} DistinctElems<T>(s: seq<T>)
    requires Distinct(s)
    ensures |Elems(s)| == |s|
  {
    if s != [] {
      var t := s[..|s| - 1];
      DistinctElems(t);
      assert Elems(s) == Elems(t) + {s[|s| - 1]};
      assert s[|s| - 1] !in t;
    }
  }

  lemma {:induction false} ElemsBound<T>(s: seq<T>)
    ensures |Elems(s)| <= |s|
    ensures |Elems(s)| == |s| ==> Distinct(s)
  {
    if s != [] {
      var t := s[..|s| - 1];
      ElemsBound(t);
      assert s == t + [s[|s| - 1]];
      assert Elems(s) == Elems(t) + {s[|s| - 1]};
    }
  }

  /** Rearranging keeps distinctness. */
  lemma {:induction false} Rearranged<T>(a: seq<T>, b: seq<T>)
    requires Distinct(a) && |a| == |b| && Elems(a) == Elems(b)
    ensures Distinct(b)
  {
    DistinctElems(a);
    ElemsBound(b);
  }

  lemma {:induction false} DropElems<T>(s: seq<T>, i: nat)
    requires Distinct(s) && i < |s|
    ensures Distinct(Drop(s, i))
    ensures Elems(Drop(s, i)) == Elems(s) - {s[i]}
  {
    var r := Drop(s, i);
    forall x | x in s && x != s[i] ensures x in r {
      var j :| 0 <= j < |s| && s[j] == x;
      assert r[if j < i then j else j - 1] == x;
    }
    assert s[i] !in r;
  }

  lemma {:induction false} PrefixElems<T>(s: seq<T>, i: nat)
    requires Distinct(s) && i < |s|
    ensures Elems(s[..i + 1]) == Elems(s[..i]) + {s[i]}
    ensures s[i] !in Elems(s[..i]) && |Elems(s[..i])| == i && Elems(s[..i]) <= Elems(s)
  {
    assert s[..i + 1] == s[..i] + [s[i]];
    DistinctElems(s[..i]);
  }

  lemma AnyOf<T>(s: set<T>) returns (x: T)
    requires s != {}
    ensures x in s
  {
    x :| x in s;
  }

  /** The set {0, ..., n-1}. */
  function Range(n: nat): (r: set<int>)
    ensures forall x :: x in r <==> 0 <= x < n
  {
    if n == 0 then {} else Range(n - 1) + {n - 1}
  }

  lemma {:induction false} RangeSize(n: nat)
    ensures |Range(n)| == n
  {
    if n > 0 {
      RangeSize(n - 1);
    }
  }

  lemma {:induction false} SubsetSize<T>(a: set<T>, b: set<T>)
    requires a <= b
    ensures |a| <= |b|
    ensures |a| == |b| ==> a == b
  {
    assert b == a + (b - a);
    if |a| == |b| { assert |b - a| == 0; }
  }

  lemma {:induction false} MemberOutside<T>(a: set<T>, b: set<T>) returns (x: T)
    requires |b| < |a|
    ensures x in a && x !in b
  {
    assert !(a <= b) by { if a <= b { SubsetSize(a, b); } }
    x :| x in a && x !in b;
  }

  /** n distinct numbers below n are all the numbers below n. */
  lemma {:induction false} Pigeonhole(s: seq<int>, n: nat)
    requires Distinct(s) && InRange(s, n)
    ensures |s| <= n
    ensures |s| == n ==> forall x :: 0 <= x < n ==> x in s
  {
    DistinctElems(s);
    RangeSize(n);
    SubsetSize(Elems(s), Range(n));
    if |s| == n {
      forall x | 0 <= x < n ensures x in s { assert x in Range(n) && x in Elems(s); }
    }
  }
}

/** Neighbours in a list of node indices or addresses, with NONE at either end. */
module Links {
  const NONE: int := -1

  function First(order: seq<int>): int { if order == [] then NONE else order[0] }
  function Last(order: seq<int>): int { if order == [] then NONE else order[|order| - 1] }

  function Succ(order: seq<int>, i: int): int
    requires 0 <= i < |order|
  {
    if i + 1 < |order| then order[i + 1] else NONE
  }

  function Pred(order: seq<int>, i: int): int
    requires 0 <= i < |order|
  {
    if i > 0 then order[i - 1] else NONE
  }
}
