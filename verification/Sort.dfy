/** Comparators, order and rearrangement. */
module Ordering {

  type Compare<!T> = (T, T) -> int

  /** What a C comparator promises: signs are antisymmetric and "at most" is transitive. */
  ghost predicate TotalPreorder<T(!new)>(cmp: Compare<T>) {
    && (forall x, y :: cmp(x, y) < 0 <==> cmp(y, x) > 0)
    && (forall x, y, z {:trigger Leq(cmp, x, y), Leq(cmp, y, z)} :: Leq(cmp, x, y) && Leq(cmp, y, z) ==> Leq(cmp, x, z))
  }

  predicate Leq<T>(cmp: Compare<T>, x: T, y: T) { cmp(x, y) <= 0 }

  lemma Between<T(!new)>(cmp: Compare<T>, x: T, y: T, z: T)
    requires TotalPreorder(cmp) && cmp(x, y) <= 0 && cmp(z, y) >= 0
    ensures cmp(x, z) <= 0
  {
    assert Leq(cmp, x, y) && Leq(cmp, y, z);
  }

  ghost predicate Sorted<T>(cmp: Compare<T>, s: seq<T>) {
    forall i, j :: 0 <= i < j < |s| ==> cmp(s[i], s[j]) <= 0
  }

  lemma {:induction false} SlicePermuted<T>(s: seq<T>, t: seq<T>, lo: nat, hi: nat)
    requires lo <= hi <= |s| == |t| && multiset(s) == multiset(t) && s[..lo] == t[..lo] && s[hi..] == t[hi..]
    ensures multiset(s[lo..hi]) == multiset(t[lo..hi])
  {
    assert s == s[..lo] + s[lo..hi] + s[hi..];
    assert t == t[..lo] + t[lo..hi] + t[hi..];
    assert multiset(s) == multiset(s[..lo]) + multiset(s[lo..hi]) + multiset(s[hi..]);
    assert multiset(t) == multiset(t[..lo]) + multiset(t[lo..hi]) + multiset(t[hi..]);
    assert multiset(s[lo..hi]) == multiset(s) - multiset(s[..lo]) - multiset(s[hi..]);
    assert multiset(t[lo..hi]) == multiset(t) - multiset(t[..lo]) - multiset(t[hi..]);
  }

  lemma {:induction false} PermutedMember<T>(s: seq<T>, t: seq<T>, i: nat)
    requires multiset(s) == multiset(t) && i < |s|
    ensures s[i] in t
  {
    assert s[i] in multiset(s);
  }

  method Swap<T>(a: array<T>, i: nat, j: nat)
    requires i < a.Length && j < a.Length
    modifies a
    ensures a[..] == old(a[..])[i := old(a[j])][j := old(a[i])]
    ensures multiset(a[..]) == multiset(old(a[..]))
  {
    a[i], a[j] := a[j], a[i];
  }
}

/** Quicksort: Hoare partition whose pivot is read through slot `lo` of the array being partitioned. */
module QuickSort {
  import opened Ordering

  /** Every element of a[lo..p] is at most every element of a[p+1..hi]. */
  ghost predicate Split<T>(cmp: Compare<T>, s: seq<T>, lo: nat, p: int, hi: nat) {
    hi < |s| && forall x, y :: lo <= x <= p < y <= hi ==> cmp(s[x], s[y]) <= 0
  }

  /** Only a[lo..hi] was rearranged. */
  ghost predicate Within<T>(before: seq<T>, after: seq<T>, lo: nat, hi: nat) {
    && lo <= hi + 1 <= |before| == |after| && multiset(after) == multiset(before)
    && after[..lo] == before[..lo] && after[hi + 1..] == before[hi + 1..]
  }

  /** do { i++; } while (a[i] < a[lo]), with a sentinel at `stop`. */
  method ScanUp<T(!new)>(a: array<T>, cmp: Compare<T>, lo: nat, from: int, ghost stop: nat) returns (i: nat)
    requires lo < a.Length && -1 <= from < stop < a.Length && cmp(a[stop], a[lo]) >= 0
    ensures from < i <= stop && cmp(a[i], a[lo]) >= 0
    ensures forall x :: from < x < i ==> cmp(a[x], a[lo]) < 0
  {
    i := from + 1;
    while cmp(a[i], a[lo]) < 0
      invariant from < i <= stop
      invariant forall x :: from < x < i ==> cmp(a[x], a[lo]) < 0
      decreases stop - i
    {
      i := i + 1;
    }
  }

  /** do { j--; } while (a[j] > a[lo]), with a sentinel at `stop`. */
  method ScanDown<T(!new)>(a: array<T>, cmp: Compare<T>, lo: nat, from: nat, ghost stop: nat) returns (j: nat)
    requires lo < a.Length && stop < from <= a.Length && cmp(a[stop], a[lo]) <= 0
    ensures stop <= j < from && cmp(a[j], a[lo]) <= 0
    ensures forall x :: j < x < from ==> cmp(a[x], a[lo]) > 0
  {
    j := from - 1;
    while cmp(a[j], a[lo]) > 0
      invariant stop <= j < from
      invariant forall x :: j < x < from ==> cmp(a[x], a[lo]) > 0
      decreases j
    {
      j := j - 1;
    }
  }

  /** s with slots i and j in order. */
  function PairOrdered<T>(cmp: Compare<T>, s: seq<T>, i: nat, j: nat): (t: seq<T>)
    requires i < |s| && j < |s|
    ensures |t| == |s|
  {
    if cmp(s[i], s[j]) > 0 then s[i := s[j]][j := s[i]] else s
  }

  method OrderPair<T(!new)>(a: array<T>, cmp: Compare<T>, i: nat, j: nat)
    requires i < a.Length && j < a.Length
    modifies a
    ensures a[..] == PairOrdered(cmp, old(a[..]), i, j)
  {
    if cmp(a[i], a[j]) > 0 { Swap(a, i, j); }
  }

  lemma {:induction false} PairWithin<T>(cmp: Compare<T>, before: seq<T>, s: seq<T>, lo: nat, hi: nat, i: nat, j: nat)
    requires Within(before, s, lo, hi) && lo <= i <= hi && lo <= j <= hi
    ensures Within(before, PairOrdered(cmp, s, i, j), lo, hi)
  {
    WithinSwap(before, s, lo, hi, i, j);
  }

  /** Three comparisons sort the three probe slots. */
  lemma {:induction false} ThreeOrdered<T(!new)>(cmp: Compare<T>, s: seq<T>, lo: nat, mid: nat, hi: nat)
    requires TotalPreorder(cmp) && lo <= mid < hi < |s|
    ensures var t := PairOrdered(cmp, PairOrdered(cmp, PairOrdered(cmp, s, lo, mid), lo, hi), mid, hi);
            Leq(cmp, t[lo], t[mid]) && Leq(cmp, t[mid], t[hi])
  {
    var s1 := PairOrdered(cmp, s, lo, mid);
    var s2 := PairOrdered(cmp, s1, lo, hi);
    assert Leq(cmp, s1[lo], s1[mid]);
    assert Leq(cmp, s2[lo], s2[hi]);
    assert Leq(cmp, s2[lo], s2[mid]) by {
      if mid > lo && s2 != s1 { Between(cmp, s1[hi], s1[lo], s1[mid]); }
    }
  }

  /** Sorts the three probe slots and returns the middle one. */
  method MedianOfThree<T(!new)>(a: array<T>, cmp: Compare<T>, lo: nat, hi: nat) returns (mid: nat)
    requires TotalPreorder(cmp) && lo < hi < a.Length
    modifies a
    ensures lo <= mid < hi && Within(old(a[..]), a[..], lo, hi)
    ensures Leq(cmp, a[lo], a[mid]) && Leq(cmp, a[mid], a[hi])
  {
    mid := lo + (hi - lo) / 2;
    ThreeOrdered(cmp, a[..], lo, mid, hi);
    PairWithin(cmp, a[..], a[..], lo, hi, lo, mid);
    OrderPair(a, cmp, lo, mid);
    PairWithin(cmp, old(a[..]), a[..], lo, hi, lo, hi);
    OrderPair(a, cmp, lo, hi);
    PairWithin(cmp, old(a[..]), a[..], lo, hi, mid, hi);
    OrderPair(a, cmp, mid, hi);
  }

  /** Slots up to i hold at most, slots from j on hold at least, what slot lo holds. */
  ghost predicate Partitioned<T>(cmp: Compare<T>, s: seq<T>, lo: nat, i: int, j: int, hi: nat) {
    && lo <= i < j <= hi < |s|
    && (forall x :: lo <= x <= i ==> cmp(s[x], s[lo]) <= 0)
    && (forall y :: j <= y <= hi ==> cmp(s[y], s[lo]) >= 0)
  }

  /** The rounds after the first swap: slot lo no longer changes. */
  method Rounds<T(!new)>(a: array<T>, cmp: Compare<T>, lo: nat, hi: nat, i0: nat, j0: nat) returns (p: nat)
    requires TotalPreorder(cmp) && hi < a.Length && Partitioned(cmp, a[..], lo, i0, j0, hi)
    modifies a
    ensures lo <= p < hi && Split(cmp, a[..], lo, p, hi) && Within(old(a[..]), a[..], lo, hi)
  {
    var i, j := i0, j0;
    while true
      invariant Partitioned(cmp, a[..], lo, i, j, hi)
      invariant Within(old(a[..]), a[..], lo, hi)
      decreases j - i
    {
      ghost var i', j', s := i, j, a[..];
      i := ScanUp(a, cmp, lo, i, j);
      j := ScanDown(a, cmp, lo, j, i');
      assert Scanned(cmp, s, lo, i', j', i, j, hi);
      if i >= j {
        RoundsEnd(cmp, s, lo, i', j', i, j, hi);
        return j;
      }
      RoundSwap(cmp, s, lo, i', j', i, j, hi);
      WithinSwap(old(a[..]), s, lo, hi, i, j);
      Swap(a, i, j);
    }
  }

  lemma {:induction false} WithinSwap<T>(before: seq<T>, s: seq<T>, lo: nat, hi: nat, i: nat, j: nat)
    requires Within(before, s, lo, hi) && lo <= i <= hi && lo <= j <= hi
    ensures Within(before, s[i := s[j]][j := s[i]], lo, hi)
  {
  }

  /**
    * The first swap puts another element into the pivot slot; from then on the partition is around
    * that element, and it is still a partition because the first downward scan only passed
    * elements above the old pivot.
    */
  method Partition<T(!new)>(a: array<T>, cmp: Compare<T>, lo: nat, hi: nat) returns (p: nat)
    requires TotalPreorder(cmp) && lo < hi < a.Length
    modifies a
    ensures lo <= p < hi
    ensures Split(cmp, a[..], lo, p, hi)
    ensures Within(old(a[..]), a[..], lo, hi)
  {
    var mid := MedianOfThree(a, cmp, lo, hi);
    WithinSwap(old(a[..]), a[..], lo, hi, lo, mid);
    Swap(a, lo, mid);
    ghost var s := a[..];
    var i := ScanUp(a, cmp, lo, lo - 1, lo);
    var j := ScanDown(a, cmp, lo, hi + 1, lo);
    if i >= j { return j; }
    FirstSwap(cmp, s, lo, j, hi);
    WithinSwap(old(a[..]), s, lo, hi, i, j);
    Swap(a, i, j);
    p := Rounds(a, cmp, lo, hi, i, j);
  }

  lemma {:induction false} FirstSwap<T(!new)>(cmp: Compare<T>, s: seq<T>, lo: nat, j: nat, hi: nat)
    requires TotalPreorder(cmp) && lo < j <= hi < |s| && cmp(s[j], s[lo]) <= 0
    requires forall x :: j < x <= hi ==> cmp(s[x], s[lo]) > 0
    ensures Partitioned(cmp, s[lo := s[j]][j := s[lo]], lo, lo, j, hi)
  {
    forall y | j < y <= hi ensures cmp(s[y], s[j]) >= 0 { Between(cmp, s[j], s[lo], s[y]); }
  }

  /** What the two scans of a round have established. */
  ghost predicate Scanned<T>(cmp: Compare<T>, s: seq<T>, lo: nat, i0: int, j0: int, i: int, j: int, hi: nat) {
    && Partitioned(cmp, s, lo, i0, j0, hi) && i0 < i <= j0 && i0 <= j < j0
    && cmp(s[i], s[lo]) >= 0 && cmp(s[j], s[lo]) <= 0
    && (forall x :: i0 < x < i ==> cmp(s[x], s[lo]) < 0)
    && (forall y :: j < y < j0 ==> cmp(s[y], s[lo]) > 0)
  }

  lemma {:induction false} RoundSwap<T(!new)>(cmp: Compare<T>, s: seq<T>, lo: nat, i0: int, j0: int, i: int, j: int, hi: nat)
    requires Scanned(cmp, s, lo, i0, j0, i, j, hi) && i < j
    ensures Partitioned(cmp, s[i := s[j]][j := s[i]], lo, i, j, hi)
  {
  }

  lemma {:induction false} RoundsEnd<T(!new)>(cmp: Compare<T>, s: seq<T>, lo: nat, i0: int, j0: int, i: int, j: int, hi: nat)
    requires TotalPreorder(cmp) && Scanned(cmp, s, lo, i0, j0, i, j, hi) && i >= j
    ensures Split(cmp, s, lo, j, hi)
  {
    forall x, y | lo <= x <= j < y <= hi ensures cmp(s[x], s[y]) <= 0 { Between(cmp, s[x], s[lo], s[y]); }
  }

  ghost predicate InOrder<T>(cmp: Compare<T>, s: seq<T>, lo: nat, hi: int) {
    hi < |s| && forall x, y :: lo <= x < y <= hi ==> cmp(s[x], s[y]) <= 0
  }

  method Quicksort<T(!new)>(a: array<T>, cmp: Compare<T>, lo: nat, hi: nat)
    requires TotalPreorder(cmp) && lo <= hi < a.Length
    modifies a
    ensures InOrder(cmp, a[..], lo, hi)
    ensures Within(old(a[..]), a[..], lo, hi)
    decreases hi - lo
  {
    if lo < hi {
      var p := Partition(a, cmp, lo, hi);
      if p - lo < hi - p {
        SortLeftFirst(a, cmp, lo, p, hi);
      } else {
        SortRightFirst(a, cmp, lo, p, hi);
      }
    }
  }

  method SortLeftFirst<T(!new)>(a: array<T>, cmp: Compare<T>, lo: nat, p: nat, hi: nat)
    requires TotalPreorder(cmp) && lo <= p < hi < a.Length && Split(cmp, a[..], lo, p, hi)
    modifies a
    ensures InOrder(cmp, a[..], lo, hi) && Within(old(a[..]), a[..], lo, hi)
    decreases hi - lo, 0
  {
    ghost var s := a[..];
    Quicksort(a, cmp, lo, p);
    ghost var t := a[..];
    SideSorted(cmp, s, t, lo, p, hi, lo, p);
    Quicksort(a, cmp, p + 1, hi);
    ghost var u := a[..];
    SideSorted(cmp, t, u, lo, p, hi, p + 1, hi);
    LeftKept(cmp, t, u, lo, p);
    WithinTwice(s, t, u, lo, p, hi);
  }

  method SortRightFirst<T(!new)>(a: array<T>, cmp: Compare<T>, lo: nat, p: nat, hi: nat)
    requires TotalPreorder(cmp) && lo <= p < hi < a.Length && Split(cmp, a[..], lo, p, hi)
    modifies a
    ensures InOrder(cmp, a[..], lo, hi) && Within(old(a[..]), a[..], lo, hi)
    decreases hi - lo, 0
  {
    ghost var s := a[..];
    Quicksort(a, cmp, p + 1, hi);
    ghost var t := a[..];
    SideSorted(cmp, s, t, lo, p, hi, p + 1, hi);
    Quicksort(a, cmp, lo, p);
    ghost var u := a[..];
    SideSorted(cmp, t, u, lo, p, hi, lo, p);
    assert forall x :: p + 1 <= x <= hi ==> u[x] == u[p + 1..][x - p - 1] && t[x] == t[p + 1..][x - p - 1];
    WithinTwice(s, t, u, lo, p, hi);
  }

  lemma {:induction false} LeftKept<T>(cmp: Compare<T>, t: seq<T>, u: seq<T>, lo: nat, p: nat)
    requires InOrder(cmp, t, lo, p) && |u| == |t| && u[..p + 1] == t[..p + 1]
    ensures InOrder(cmp, u, lo, p)
  {
    assert forall x :: lo <= x <= p ==> u[x] == u[..p + 1][x] && t[x] == t[..p + 1][x];
  }

  /** Rearranging one side of a split keeps it a split. */
  lemma {:induction false} SideSorted<T(!new)>(cmp: Compare<T>, s: seq<T>, t: seq<T>, lo: nat, p: nat, hi: nat, l: nat, r: nat)
    requires lo <= p < hi && Split(cmp, s, lo, p, hi) && Within(s, t, l, r)
    requires (l == lo && r == p) || (l == p + 1 && r == hi)
    ensures Split(cmp, t, lo, p, hi)
  {
    SlicePermuted(s, t, l, r + 1);
    forall x | lo <= x <= hi ensures x < l || x > r ==> t[x] == s[x] {
      if x < l { assert t[x] == t[..l][x] && s[x] == s[..l][x]; }
      else if x > r { assert t[x] == t[r + 1..][x - r - 1] && s[x] == s[r + 1..][x - r - 1]; }
    }
    forall x, y | lo <= x <= p < y <= hi ensures cmp(t[x], t[y]) <= 0 {
      var m := if l <= x <= r then x else y;
      if l <= m <= r {
        PermutedMember(t[l..r + 1], s[l..r + 1], m - l);
        var k :| 0 <= k < r + 1 - l && s[l..r + 1][k] == t[m];
        assert s[l + k] == t[m];
      }
    }
  }

  lemma {:induction false} WithinTwice<T>(s: seq<T>, t: seq<T>, u: seq<T>, lo: nat, p: nat, hi: nat)
    requires lo <= p < hi
    requires (Within(s, t, lo, p) && Within(t, u, p + 1, hi)) || (Within(s, t, p + 1, hi) && Within(t, u, lo, p))
    ensures Within(s, u, lo, hi)
  {
    forall x | 0 <= x < lo ensures u[..lo][x] == s[..lo][x] {
      assert u[x] == u[..p + 1][x] && t[x] == t[..p + 1][x] && s[x] == s[..p + 1][x];
      assert u[..lo][x] == u[x] && t[..lo][x] == t[x] && s[..lo][x] == s[x];
    }
    forall x | hi + 1 <= x < |s| ensures u[x] == s[x] {
      assert u[x] == u[hi + 1..][x - hi - 1] && t[x] == t[hi + 1..][x - hi - 1] && s[x] == s[hi + 1..][x - hi - 1];
      assert u[x] == u[p + 1..][x - p - 1] && t[x] == t[p + 1..][x - p - 1] && s[x] == s[p + 1..][x - p - 1];
    }
  }

  /** The public entry point: a sorted permutation, for every comparator that is a total preorder. */
  method SortQuick<T(!new)>(a: array<T>, cmp: Compare<T>)
    requires TotalPreorder(cmp)
    modifies a
    ensures Sorted(cmp, a[..]) && multiset(a[..]) == multiset(old(a[..]))
  {
    if a.Length < 2 { return; }
    Quicksort(a, cmp, 0, a.Length - 1);
  }
}

/** Merge sort through one shared scratch buffer. */
module MergeSort {
  import opened Ordering

  /** The elements that compare equal to x, in order. */
  function Class<T>(cmp: Compare<T>, s: seq<T>, x: T): seq<T> {
    if s == [] then [] else (if cmp(s[0], x) == 0 then [s[0]] else []) + Class(cmp, s[1..], x)
  }

  /** Elements that compare equal keep their original relative order (and none is lost or added). */
  ghost predicate Stable<T(!new)>(cmp: Compare<T>, before: seq<T>, after: seq<T>) {
    forall x :: Class(cmp, after, x) == Class(cmp, before, x)
  }

  function Merged<T>(cmp: Compare<T>, l: seq<T>, r: seq<T>): seq<T>
    decreases |l| + |r|
  {
    if l == [] then r else if r == [] then l
    else if cmp(l[0], r[0]) <= 0 then [l[0]] + Merged(cmp, l[1..], r)
    else [r[0]] + Merged(cmp, l, r[1..])
  }

  /** What the recursion computes on a sequence. */
  function SortedBy<T>(cmp: Compare<T>, s: seq<T>): seq<T>
    decreases |s|
  {
    if |s| < 2 then s else Merged(cmp, SortedBy(cmp, s[..|s| / 2]), SortedBy(cmp, s[|s| / 2..]))
  }

  lemma Assoc<T>(a: seq<T>, b: seq<T>, c: seq<T>)
    ensures a + (b + c) == (a + b) + c
  {
  }

  /** The contribution of a first element to its class. */
  function Lead<T>(cmp: Compare<T>, h: T, x: T): seq<T> { if cmp(h, x) == 0 then [h] else [] }

  lemma {:induction false} ClassCons<T>(cmp: Compare<T>, h: T, t: seq<T>, x: T)
    ensures Class(cmp, [h] + t, x) == Lead(cmp, h, x) + Class(cmp, t, x)
  {
    assert ([h] + t)[1..] == t;
  }

  lemma {:induction false} ClassConcat<T>(cmp: Compare<T>, s: seq<T>, t: seq<T>, x: T)
    ensures Class(cmp, s + t, x) == Class(cmp, s, x) + Class(cmp, t, x)
  {
    if s == [] {
      assert s + t == t;
    } else {
      assert s == [s[0]] + s[1..] && s + t == [s[0]] + (s[1..] + t);
      ClassCons(cmp, s[0], s[1..], x);
      ClassCons(cmp, s[0], s[1..] + t, x);
      ClassConcat(cmp, s[1..], t, x);
      Assoc(Lead(cmp, s[0], x), Class(cmp, s[1..], x), Class(cmp, t, x));
    }
  }

  lemma {:induction false} ClassEmpty<T>(cmp: Compare<T>, s: seq<T>, x: T)
    requires forall i :: 0 <= i < |s| ==> cmp(s[i], x) != 0
    ensures Class(cmp, s, x) == []
  {
    if s != [] { ClassEmpty(cmp, s[1..], x); }
  }

  /** Taking the head of the right half first passes no equal element of the left half. */
  lemma {:induction false} MergedClass<T(!new)>(cmp: Compare<T>, l: seq<T>, r: seq<T>, x: T)
    requires TotalPreorder(cmp) && Sorted(cmp, l) && Sorted(cmp, r)
    ensures Class(cmp, Merged(cmp, l, r), x) == Class(cmp, l, x) + Class(cmp, r, x)
    decreases |l| + |r|
  {
    if l == [] || r == [] {
    } else if cmp(l[0], r[0]) <= 0 {
      MergedClass(cmp, l[1..], r, x);
      assert l == [l[0]] + l[1..];
      ClassCons(cmp, l[0], l[1..], x);
      ClassCons(cmp, l[0], Merged(cmp, l[1..], r), x);
      Assoc(Lead(cmp, l[0], x), Class(cmp, l[1..], x), Class(cmp, r, x));
    } else {
      MergedClass(cmp, l, r[1..], x);
      assert r == [r[0]] + r[1..];
      ClassCons(cmp, r[0], r[1..], x);
      ClassCons(cmp, r[0], Merged(cmp, l, r[1..]), x);
      if cmp(r[0], x) == 0 {
        forall i | 0 <= i < |l| ensures cmp(l[i], x) != 0 { AllAbove(cmp, l, r[0], x, i); }
        ClassEmpty(cmp, l, x);
      }
    }
  }

  lemma {:induction false} AllAbove<T(!new)>(cmp: Compare<T>, l: seq<T>, y: T, x: T, i: nat)
    requires TotalPreorder(cmp) && Sorted(cmp, l) && i < |l| && cmp(l[0], y) > 0 && cmp(y, x) == 0
    ensures cmp(l[i], x) != 0
  {
    if cmp(l[i], x) == 0 {
      assert cmp(x, y) == 0;
      assert Leq(cmp, l[i], x) && Leq(cmp, x, y);
      assert i > 0 ==> Leq(cmp, l[0], l[i]);
    }
  }

  lemma {:induction false} TakenFirst<T>(h: T, t: seq<T>, r: seq<T>, m: seq<T>)
    requires multiset(m) == multiset(t) + multiset(r)
    ensures multiset([h] + m) == multiset([h] + t) + multiset(r)
  {
    assert multiset([h] + m) == multiset{h} + multiset(m);
    assert multiset([h] + t) == multiset{h} + multiset(t);
  }

  lemma {:induction false} MergedMultiset<T>(cmp: Compare<T>, l: seq<T>, r: seq<T>)
    ensures multiset(Merged(cmp, l, r)) == multiset(l) + multiset(r)
    decreases |l| + |r|
  {
    if l == [] || r == [] {
    } else if cmp(l[0], r[0]) <= 0 {
      var m := Merged(cmp, l[1..], r);
      MergedMultiset(cmp, l[1..], r);
      TakenFirst(l[0], l[1..], r, m);
      assert l == [l[0]] + l[1..];
    } else {
      var m := Merged(cmp, l, r[1..]);
      MergedMultiset(cmp, l, r[1..]);
      TakenFirst(r[0], r[1..], l, m);
      assert r == [r[0]] + r[1..];
    }
  }

  lemma {:induction false} MergedSorted<T(!new)>(cmp: Compare<T>, l: seq<T>, r: seq<T>)
    requires TotalPreorder(cmp) && Sorted(cmp, l) && Sorted(cmp, r)
    ensures Sorted(cmp, Merged(cmp, l, r))
    decreases |l| + |r|
  {
    if l == [] || r == [] {
    } else if cmp(l[0], r[0]) <= 0 {
      MergedSorted(cmp, l[1..], r);
      HeadFirst(cmp, l[0], l[1..], r);
    } else {
      MergedSorted(cmp, l, r[1..]);
      HeadFirst(cmp, r[0], l, r[1..]);
    }
  }

  /** A lower bound of both halves may lead their merge. */
  lemma {:induction false} HeadFirst<T(!new)>(cmp: Compare<T>, h: T, l: seq<T>, r: seq<T>)
    requires TotalPreorder(cmp) && Sorted(cmp, l) && Sorted(cmp, r) && Sorted(cmp, Merged(cmp, l, r))
    requires (l != [] ==> cmp(h, l[0]) <= 0) && (r != [] ==> cmp(h, r[0]) <= 0)
    ensures Sorted(cmp, [h] + Merged(cmp, l, r))
  {
    var rest := Merged(cmp, l, r);
    MergedMultiset(cmp, l, r);
    forall i | 0 <= i < |rest| ensures cmp(h, rest[i]) <= 0 {
      assert rest[i] in multiset(rest);
      assert rest[i] in l || rest[i] in r;
      var side := if rest[i] in l then l else r;
      var k :| 0 <= k < |side| && side[k] == rest[i];
      assert Leq(cmp, h, side[0]);
      if k > 0 { assert Leq(cmp, side[0], side[k]); }
    }
  }

  /** a is s sorted: in order, with the same elements, equals in their original order. */
  ghost predicate IsSorted<T(!new)>(cmp: Compare<T>, s: seq<T>, a: seq<T>) {
    Sorted(cmp, a) && multiset(a) == multiset(s) && Stable(cmp, s, a)
  }

  lemma {:induction false} MergedStable<T(!new)>(cmp: Compare<T>, l: seq<T>, r: seq<T>, a: seq<T>, b: seq<T>)
    requires TotalPreorder(cmp) && Sorted(cmp, a) && Sorted(cmp, b) && Stable(cmp, l, a) && Stable(cmp, r, b)
    ensures Stable(cmp, l + r, Merged(cmp, a, b))
  {
    forall x ensures Class(cmp, Merged(cmp, a, b), x) == Class(cmp, l + r, x) {
      MergedClass(cmp, a, b, x);
      ClassConcat(cmp, l, r, x);
    }
  }

  /** Merging two sorted halves sorts the whole. */
  lemma {:induction false} HalvesSorted<T(!new)>(cmp: Compare<T>, l: seq<T>, r: seq<T>, a: seq<T>, b: seq<T>)
    requires TotalPreorder(cmp) && IsSorted(cmp, l, a) && IsSorted(cmp, r, b)
    ensures IsSorted(cmp, l + r, Merged(cmp, a, b))
  {
    MergedSorted(cmp, a, b);
    MergedMultiset(cmp, a, b);
    MergedStable(cmp, l, r, a, b);
    assert multiset(l + r) == multiset(l) + multiset(r);
  }

  /** The result is sorted, a permutation, and stable. */
  lemma {:induction false} SortedByCorrect<T(!new)>(cmp: Compare<T>, s: seq<T>)
    requires TotalPreorder(cmp)
    ensures IsSorted(cmp, s, SortedBy(cmp, s))
    decreases |s|
  {
    if |s| >= 2 {
      var m := |s| / 2;
      var l, r := s[..m], s[m..];
      SortedByCorrect(cmp, l);
      SortedByCorrect(cmp, r);
      HalvesSorted(cmp, l, r, SortedBy(cmp, l), SortedBy(cmp, r));
      assert s == l + r;
      SortedByHalves(cmp, s, m);
    }
  }

  /** The loop that takes the smaller head while both halves last. */
  method MergeHeads<T(!new)>(a: array<T>, lo: nat, mid: nat, hi: nat, buf: array<T>, cmp: Compare<T>) returns (i: nat, j: nat, k: nat)
    requires lo <= mid <= hi <= a.Length && hi - lo <= buf.Length && a != buf
    modifies buf
    ensures lo <= i <= mid <= j <= hi && k == (i - lo) + (j - mid) && (i == mid || j == hi)
    ensures buf[..k] + Merged(cmp, a[i..mid], a[j..hi]) == Merged(cmp, a[lo..mid], a[mid..hi])
  {
    ghost var target := Merged(cmp, a[lo..mid], a[mid..hi]);
    i, j, k := lo, mid, 0;
    while i < mid && j < hi
      invariant lo <= i <= mid <= j <= hi && k == (i - lo) + (j - mid)
      invariant buf[..k] + Merged(cmp, a[i..mid], a[j..hi]) == target
    {
      ghost var done, l, r := buf[..k], a[i..mid], a[j..hi];
      if cmp(a[i], a[j]) <= 0 {
        buf[k] := a[i];
        i := i + 1;
        Assoc(done, [l[0]], Merged(cmp, l[1..], r));
        assert a[i..mid] == l[1..] && a[j..hi] == r;
      } else {
        buf[k] := a[j];
        j := j + 1;
        Assoc(done, [r[0]], Merged(cmp, l, r[1..]));
        assert a[j..hi] == r[1..] && a[i..mid] == l;
      }
      k := k + 1;
      assert buf[..k] == done + [buf[k - 1]];
    }
  }

  /** The loops that copy what is left of one half. */
  method CopyRun<T>(a: array<T>, from: nat, to: nat, buf: array<T>, k: nat)
    requires from <= to <= a.Length && k + (to - from) <= buf.Length && a != buf
    modifies buf
    ensures buf[..k + (to - from)] == old(buf[..k]) + a[from..to]
  {
    for m := from to to
      invariant buf[..k + (m - from)] == old(buf[..k]) + a[from..m]
    {
      buf[k + (m - from)] := a[m];
    }
  }

  /** Merge a[lo..mid] and a[mid..hi] through buf and copy the result back. */
  method Merge<T(!new)>(a: array<T>, lo: nat, mid: nat, hi: nat, buf: array<T>, cmp: Compare<T>)
    requires lo <= mid <= hi <= a.Length && hi - lo <= buf.Length && a != buf
    modifies a, buf
    ensures a[lo..hi] == Merged(cmp, old(a[lo..mid]), old(a[mid..hi]))
    ensures a[..lo] == old(a[..lo]) && a[hi..] == old(a[hi..])
  {
    var i, j, k := MergeHeads(a, lo, mid, hi, buf, cmp);
    CopyRun(a, i, mid, buf, k);
    k := k + (mid - i);
    CopyRun(a, j, hi, buf, k);
    CopyBack(a, lo, hi, buf);
  }

  method CopyBack<T>(a: array<T>, lo: nat, hi: nat, buf: array<T>)
    requires lo <= hi <= a.Length && hi - lo <= buf.Length && a != buf
    modifies a
    ensures a[lo..hi] == buf[..hi - lo]
    ensures a[..lo] == old(a[..lo]) && a[hi..] == old(a[hi..])
  {
    for m := 0 to hi - lo
      invariant a[lo..lo + m] == buf[..m]
      invariant a[..lo] == old(a[..lo]) && a[hi..] == old(a[hi..])
    {
      a[lo + m] := buf[m];
    }
  }

  method MergeSortRange<T(!new)>(a: array<T>, lo: nat, hi: nat, buf: array<T>, cmp: Compare<T>)
    requires lo <= hi <= a.Length && hi - lo <= buf.Length && a != buf
    modifies a, buf
    ensures a[lo..hi] == SortedBy(cmp, old(a[lo..hi]))
    ensures a[..lo] == old(a[..lo]) && a[hi..] == old(a[hi..])
    decreases hi - lo
  {
    if hi - lo < 2 { return; }
    var mid := lo + (hi - lo) / 2;
    ghost var s := a[..];
    MergeSortRange(a, lo, mid, buf, cmp);
    ghost var t := a[..];
    MergeSortRange(a, mid, hi, buf, cmp);
    HalvesDone(cmp, s, t, a[..], lo, mid, hi);
    Merge(a, lo, mid, hi, buf, cmp);
  }

  lemma {:induction false} PrefixSlice<T>(s: seq<T>, t: seq<T>, n: nat, a: nat, b: nat)
    requires a <= b <= n <= |s| && n <= |t| && s[..n] == t[..n]
    ensures s[a..b] == t[a..b]
  {
    Inner(s, n, a, b);
    Inner(t, n, a, b);
  }

  lemma {:induction false} Inner<T>(s: seq<T>, n: nat, a: nat, b: nat)
    requires a <= b <= n <= |s|
    ensures s[..n][a..b] == s[a..b]
  {
    var u := s[..n];
    assert forall i :: 0 <= i < n ==> u[i] == s[i];
    forall i | 0 <= i < b - a ensures u[a..b][i] == s[a..b][i] { assert u[a + i] == s[a + i]; }
  }

  lemma {:induction false} SuffixSlice<T>(s: seq<T>, t: seq<T>, n: nat, a: nat, b: nat)
    requires n <= a <= b <= |s| == |t| && s[n..] == t[n..]
    ensures s[a..b] == t[a..b]
  {
    Shifted(s, n, a, b);
    Shifted(t, n, a, b);
  }

  lemma {:induction false} Shifted<T>(s: seq<T>, n: nat, a: nat, b: nat)
    requires n <= a <= b <= |s|
    ensures s[n..][a - n..b - n] == s[a..b]
  {
    var u := s[n..];
    assert forall i :: 0 <= i < |u| ==> u[i] == s[n + i];
    forall i | 0 <= i < b - a ensures u[a - n..b - n][i] == s[a..b][i] { assert u[a - n + i] == s[a + i]; }
  }

  lemma {:induction false} Whole<T>(s: seq<T>, n: nat)
    requires n <= |s|
    ensures s[0..n] == s[..n] && s[n..|s|] == s[n..]
  {
  }

  lemma {:induction false} Halves<T>(s: seq<T>, lo: nat, mid: nat, hi: nat)
    requires lo <= mid <= hi <= |s|
    ensures s[lo..hi][..mid - lo] == s[lo..mid] && s[lo..hi][mid - lo..] == s[mid..hi]
  {
    var u := s[lo..hi];
    assert forall i :: 0 <= i < |u| ==> u[i] == s[lo + i];
    forall i | 0 <= i < hi - mid ensures u[mid - lo..][i] == s[mid..hi][i] { assert u[mid - lo + i] == s[mid + i]; }
  }

  lemma {:induction false} SortedByHalves<T>(cmp: Compare<T>, x: seq<T>, m: nat)
    requires |x| >= 2 && m == |x| / 2
    ensures SortedBy(cmp, x) == Merged(cmp, SortedBy(cmp, x[..m]), SortedBy(cmp, x[m..]))
  {
  }

  /** After both recursive calls each half is the sorted half of the original, and nothing else moved. */
  lemma {:induction false} HalvesDone<T>(cmp: Compare<T>, s: seq<T>, t: seq<T>, u: seq<T>, lo: nat, mid: nat, hi: nat)
    requires lo + 2 <= hi <= |s| == |t| == |u| && mid == lo + (hi - lo) / 2
    requires t[lo..mid] == SortedBy(cmp, s[lo..mid]) && t[..lo] == s[..lo] && t[mid..] == s[mid..]
    requires u[mid..hi] == SortedBy(cmp, t[mid..hi]) && u[..mid] == t[..mid] && u[hi..] == t[hi..]
    ensures Merged(cmp, u[lo..mid], u[mid..hi]) == SortedBy(cmp, s[lo..hi])
    ensures u[..lo] == s[..lo] && u[hi..] == s[hi..]
  {
    PrefixSlice(u, t, mid, lo, mid);
    SuffixSlice(t, s, mid, mid, hi);
    Halves(s, lo, mid, hi);
    SortedByHalves(cmp, s[lo..hi], mid - lo);
    RestKept(s, t, u, lo, mid, hi);
  }

  lemma {:induction false} RestKept<T>(s: seq<T>, t: seq<T>, u: seq<T>, lo: nat, mid: nat, hi: nat)
    requires lo <= mid <= hi <= |s| == |t| == |u|
    requires t[..lo] == s[..lo] && t[mid..] == s[mid..] && u[..mid] == t[..mid] && u[hi..] == t[hi..]
    ensures u[..lo] == s[..lo] && u[hi..] == s[hi..]
  {
    PrefixSlice(u, t, mid, 0, lo);
    SuffixSlice(t, s, mid, hi, |s|);
    Whole(u, lo);
    Whole(t, lo);
    Whole(t, hi);
    Whole(s, hi);
  }

  /** The public entry point; on allocation failure the array is untouched. */
  method SortStable<T(!new, 0)>(a: array<T>, cmp: Compare<T>, allocates: bool) returns (ok: bool)
    requires TotalPreorder(cmp)
    modifies a
    ensures ok == (allocates || a.Length < 2)
    ensures ok ==> Sorted(cmp, a[..]) && multiset(a[..]) == multiset(old(a[..])) && Stable(cmp, old(a[..]), a[..])
    ensures !ok ==> a[..] == old(a[..])
  {
    if a.Length < 2 { return true; }
    if !allocates { return false; }
    var buf := new T[a.Length];
    assert a[0..a.Length] == a[..];
    SortedByCorrect(cmp, a[..]);
    MergeSortRange(a, 0, a.Length, buf, cmp);
    assert a[0..a.Length] == a[..];
    return true;
  }
}
