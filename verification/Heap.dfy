/** Heap order on a prefix of the buffer, as facts about sequences. */
module HeapOrder {
  import opened Ordering

  function Parent(k: nat): nat
    requires k > 0
  {
    (k - 1) / 2
  }

  /** No element outranks its parent, for parents from `lo` on. */
  ghost predicate OrderFrom<T>(cmp: Compare<T>, s: seq<T>, lo: nat) {
    forall k: nat {:trigger Parent(k)} :: 0 < k < |s| && Parent(k) >= lo ==> cmp(s[k], s[Parent(k)]) <= 0
  }

  /** Heap order but between `hole` and its parent; the children of `hole` are below its parent too. */
  ghost predicate OrderAbove<T>(cmp: Compare<T>, s: seq<T>, hole: nat) {
    && hole < |s|
    && (forall k: nat {:trigger Parent(k)} :: 0 < k < |s| && k != hole ==> cmp(s[k], s[Parent(k)]) <= 0)
    && (forall k: nat {:trigger Parent(k)} :: 0 < k < |s| && hole > 0 && Parent(k) == hole ==> cmp(s[k], s[Parent(hole)]) <= 0)
  }

  /** Heap order from `lo` on but between `hole` and its children; those are below the parent of `hole`. */
  ghost predicate OrderBelow<T>(cmp: Compare<T>, s: seq<T>, lo: nat, hole: nat) {
    && lo <= hole < |s|
    && (forall k: nat {:trigger Parent(k)} :: 0 < k < |s| && Parent(k) >= lo && Parent(k) != hole ==> cmp(s[k], s[Parent(k)]) <= 0)
    && (forall k: nat {:trigger Parent(k)} :: 0 < k < |s| && Parent(k) == hole && hole > lo && hole > 0 && Parent(hole) >= lo ==> cmp(s[k], s[Parent(hole)]) <= 0)
  }

  lemma {:induction false} SiftedUp<T(!new)>(cmp: Compare<T>, s: seq<T>, hole: nat)
    requires TotalPreorder(cmp) && OrderAbove(cmp, s, hole) && hole > 0 && cmp(s[hole], s[Parent(hole)]) > 0
    ensures OrderAbove(cmp, s[hole := s[Parent(hole)]][Parent(hole) := s[hole]], Parent(hole))
  {
    var p := Parent(hole);
    var t := s[hole := s[p]][p := s[hole]];
    forall k: nat | 0 < k < |t| && k != p ensures cmp(t[k], t[Parent(k)]) <= 0 {
      assert k != hole ==> cmp(s[k], s[Parent(k)]) <= 0;
      if Parent(k) == p && k != hole { assert Leq(cmp, s[k], s[p]) && Leq(cmp, s[p], s[hole]); }
    }
    forall k: nat | 0 < k < |t| && p > 0 && Parent(k) == p ensures cmp(t[k], t[Parent(p)]) <= 0 {
      assert cmp(s[p], s[Parent(p)]) <= 0;
      assert Leq(cmp, s[p], s[Parent(p)]);
      if k != hole { assert Leq(cmp, s[k], s[p]); }
    }
  }

  /** Swapping the hole with its largest child. */
  lemma {:induction false} SiftedDown<T(!new)>(cmp: Compare<T>, s: seq<T>, lo: nat, hole: nat, c: nat)
    requires TotalPreorder(cmp) && OrderBelow(cmp, s, lo, hole) && 0 < c < |s| && Parent(c) == hole
    requires cmp(s[c], s[hole]) > 0
    requires forall k: nat {:trigger Parent(k)} :: 0 < k < |s| && Parent(k) == hole ==> cmp(s[k], s[c]) <= 0
    ensures OrderBelow(cmp, s[hole := s[c]][c := s[hole]], lo, c)
  {
    var t := s[hole := s[c]][c := s[hole]];
    forall k: nat | 0 < k < |t| && Parent(k) >= lo && Parent(k) != c ensures cmp(t[k], t[Parent(k)]) <= 0 {
      if k == hole {
        assert cmp(s[c], s[Parent(hole)]) <= 0;
      } else if Parent(k) == hole && k != c {
        assert cmp(s[k], s[c]) <= 0;
      }
    }
    forall k: nat | 0 < k < |t| && Parent(k) == c ensures cmp(t[k], t[Parent(c)]) <= 0 {
      assert cmp(s[k], s[Parent(k)]) <= 0;
    }
  }

  /** The root outranks everything. */
  lemma {:induction false} RootIsMax<T(!new)>(cmp: Compare<T>, s: seq<T>, k: nat)
    requires TotalPreorder(cmp) && OrderFrom(cmp, s, 0) && k < |s|
    ensures cmp(s[k], s[0]) <= 0
  {
    if k > 0 {
      RootIsMax(cmp, s, Parent(k));
      assert Leq(cmp, s[k], s[Parent(k)]) && Leq(cmp, s[Parent(k)], s[0]);
    } else {
      assert cmp(s[0], s[0]) <= 0;
    }
  }
}

/** The binary heap: a growing buffer sifted in place. */
module Heap {
  import opened Ordering
  import opened HeapOrder

  const DEFAULT_CAPACITY: nat := 8

  /** HEAP_GROWTH_FACTOR, or the default from zero. */
  function Grown(cap: nat): nat { if cap == 0 then DEFAULT_CAPACITY else cap + cap / 2 }

  function GrownTimes(cap: nat, n: nat): nat { if n == 0 then cap else Grown(GrownTimes(cap, n - 1)) }

  /** The growth loop reaches the demanded capacity if and only if it does not start at 1 below it. */
  lemma {:induction false} GrowthEndsIff(cap: nat, demand: nat)
    ensures (exists n: nat :: GrownTimes(cap, n) >= demand) <==> cap != 1 || demand <= 1
  {
    if cap == 1 {
      forall n: nat ensures GrownTimes(cap, n) == 1 { StuckAtOne(n); }
      assert GrownTimes(cap, 0) == 1;
    } else {
      GrowthUnbounded(cap, demand);
      assert GrownTimes(cap, demand + 1) >= demand;
    }
  }

  lemma {:induction false} StuckAtOne(n: nat)
    ensures GrownTimes(1, n) == 1
  {
    if n > 0 { StuckAtOne(n - 1); }
  }

  lemma {:induction false} GrowthUnbounded(cap: nat, n: nat)
    requires cap != 1
    ensures GrownTimes(cap, n + 1) >= 2 && GrownTimes(cap, n + 1) > n
    decreases n
  {
    if n > 0 { GrowthUnbounded(cap, n - 1); }
    assert GrownTimes(cap, n + 1) == Grown(GrownTimes(cap, n));
    assert GrownTimes(cap, 0) == cap;
  }

  class Heap<T(!new, 0)> {
    const cmp: Compare<T>
    var buffer: array<T>
    var count: nat
    var capacity: nat

    ghost predicate Shape()
      reads this
    {
      TotalPreorder(cmp) && 1 <= capacity == buffer.Length && count <= capacity
    }

    ghost predicate Valid()
      reads this, buffer
    {
      Shape() && OrderFrom(cmp, buffer[..count], 0)
    }

    ghost function Contents(): multiset<T>
      requires Shape()
      reads this, buffer
    {
      multiset(buffer[..count])
    }

    constructor (cmp: Compare<T>, capacity: nat)
      requires TotalPreorder(cmp) && capacity >= 1
      ensures Valid() && Contents() == multiset{} && this.cmp == cmp && this.capacity == capacity
      ensures fresh(buffer)
    {
      this.cmp, this.capacity, count := cmp, capacity, 0;
      buffer := new T[capacity];
    }

    method SwapAt(i: nat, j: nat)
      requires Shape() && i < count && j < count
      modifies buffer
      ensures buffer[..count] == old(buffer[..count])[i := old(buffer[j])][j := old(buffer[i])]
      ensures multiset(buffer[..count]) == multiset(old(buffer[..count]))
    {
      buffer[i], buffer[j] := buffer[j], buffer[i];
      ghost var s := old(buffer[..count]);
      assert buffer[..count] == s[i := s[j]][j := s[i]];
    }

    method SiftUp(start: nat)
      requires Shape() && OrderAbove(cmp, buffer[..count], start)
      modifies buffer
      ensures Valid() && Contents() == old(Contents())
    {
      var idx: nat := start;
      while idx > 0
        invariant OrderAbove(cmp, buffer[..count], idx)
        invariant multiset(buffer[..count]) == old(multiset(buffer[..count]))
        decreases idx
      {
        var parent := (idx - 1) / 2;
        if cmp(buffer[idx], buffer[parent]) <= 0 {
          assert parent == Parent(idx);
          break;
        }
        SiftedUp(cmp, buffer[..count], idx);
        SwapAt(idx, parent);
        idx := parent;
      }
    }

    /** The higher-ranked child of idx if it outranks idx, else idx. */
    method Largest(idx: nat) returns (largest: nat)
      requires Shape() && idx < count
      ensures largest < count && (largest != idx ==> largest > 0 && Parent(largest) == idx && cmp(buffer[largest], buffer[idx]) > 0)
      ensures forall k: nat {:trigger Parent(k)} :: 0 < k < count && Parent(k) == idx ==> cmp(buffer[k], buffer[largest]) <= 0
    {
      largest := idx;
      var left, right := 2 * idx + 1, 2 * idx + 2;
      if left < count && cmp(buffer[left], buffer[largest]) > 0 { largest := left; }
      if right < count && cmp(buffer[right], buffer[largest]) > 0 {
        if largest != idx { AboveBoth(idx, left, right); } else { Between(cmp, buffer[left], buffer[idx], buffer[right]); }
        largest := right;
      }
      assert cmp(buffer[largest], buffer[largest]) <= 0;
      assert forall k: nat {:trigger Parent(k)} :: 0 < k && Parent(k) == idx ==> k == left || k == right;
    }

    lemma AboveBoth(idx: nat, mid: nat, top: nat)
      requires Shape() && idx < count && mid < count && top < count
      requires cmp(buffer[mid], buffer[idx]) > 0 && cmp(buffer[top], buffer[mid]) > 0
      ensures cmp(buffer[top], buffer[idx]) > 0
    {
      if cmp(buffer[top], buffer[idx]) <= 0 {
        assert Leq(cmp, buffer[top], buffer[idx]) && Leq(cmp, buffer[idx], buffer[mid]);
      }
    }

    method SiftDown(start: nat)
      requires Shape() && start < count && OrderFrom(cmp, buffer[..count], start + 1)
      modifies buffer
      ensures OrderFrom(cmp, buffer[..count], start) && multiset(buffer[..count]) == old(multiset(buffer[..count]))
    {
      var idx: nat := start;
      while true
        invariant OrderBelow(cmp, buffer[..count], start, idx)
        invariant multiset(buffer[..count]) == old(multiset(buffer[..count]))
        decreases count - idx
      {
        var largest := Largest(idx);
        if largest == idx { break; }
        SiftedDown(cmp, buffer[..count], start, idx, largest);
        SwapAt(idx, largest);
        idx := largest;
      }
    }

    /** Reallocate to `newCapacity` slots; nothing changes when the allocator fails. */
    method Realloc(newCapacity: nat, allocates: bool) returns (ok: bool)
      requires Shape() && newCapacity >= capacity
      modifies this`buffer, this`capacity
      ensures ok == allocates && (!ok ==> unchanged(this))
      ensures ok ==> Shape() && capacity == newCapacity && fresh(buffer) && buffer[..count] == old(buffer[..count])
    {
      if !allocates { return false; }
      var bigger := new T[newCapacity];
      for i := 0 to count
        invariant bigger[..i] == buffer[..i]
        modifies bigger
      {
        bigger[i] := buffer[i];
      }
      buffer, capacity := bigger, newCapacity;
      return true;
    }

    /** Room for at least `demand` slots. The loop makes no progress from capacity 1, hence the precondition. */
    method Grow(demand: nat, allocates: bool) returns (ok: bool)
      requires Shape() && (capacity >= 2 || demand <= 1)
      modifies this`buffer, this`capacity
      ensures ok == allocates && (!ok ==> unchanged(this))
      ensures ok ==> Shape() && capacity >= demand && fresh(buffer) && buffer[..count] == old(buffer[..count])
      ensures ok && demand == old(capacity) + 1 ==> capacity == if demand == 1 then 8 else old(capacity) + old(capacity) / 2
    {
      var newCap := capacity;
      while newCap < demand
        invariant newCap >= capacity && (newCap >= 2 || demand <= 1)
        invariant demand == capacity + 1 ==>
                    newCap == capacity || newCap == if demand == 1 then 8 else capacity + capacity / 2
        decreases demand - newCap
      {
        newCap := if newCap == 0 then DEFAULT_CAPACITY else newCap + newCap / 2;
      }
      ok := Realloc(newCap, allocates);
    }

    method Push(elem: T, allocates: bool) returns (ok: bool)
      requires Valid() && (count < capacity || capacity >= 2)
      modifies this, buffer
      ensures Valid() && ok == (old(count) < old(capacity) || allocates)
      ensures Contents() == if ok then old(Contents()) + multiset{elem} else old(Contents())
      ensures buffer == old(buffer) || fresh(buffer)
      ensures capacity == if !ok || old(count) < old(capacity) then old(capacity) else old(capacity) + old(capacity) / 2
    {
      ok := true;
      if count == capacity { ok := Grow(capacity + 1, allocates); }
      if ok { Append(elem); }
    }

    method Append(elem: T)
      requires Valid() && count < capacity
      modifies this`count, buffer
      ensures Valid() && Contents() == old(Contents()) + multiset{elem}
    {
      ghost var s := buffer[..count];
      buffer[count] := elem;
      count := count + 1;
      assert buffer[..count] == s + [elem];
      SiftUp(count - 1);
    }

    /** The highest-ranked element leaves; EMPTY when there is none. */
    method Pop() returns (popped: bool, top: T)
      requires Valid()
      modifies this`count, buffer
      ensures Valid() && popped == (old(count) > 0)
      ensures popped ==> count == old(count) - 1 && old(Contents()) == Contents() + multiset{top}
                         && Outranks(cmp, top, old(Contents()))
      ensures !popped ==> Contents() == old(Contents()) && count == 0
    {
      if count == 0 { return false, *; }
      top := buffer[0];
      TopRanks(cmp, buffer[..count]);
      RemoveTop();
      popped := true;
    }

    /** Move the last element to the root and let it sink. */
    method RemoveTop()
      requires Valid() && count > 0
      modifies this`count, buffer
      ensures Valid() && count == old(count) - 1 && old(Contents()) == Contents() + multiset{old(buffer[0])}
    {
      ghost var s := buffer[..count];
      count := count - 1;
      if count > 0 {
        buffer[0] := buffer[count];
        ghost var rest := buffer[..count];
        assert rest == s[0 := s[count]][..count];
        PoppedOrder(cmp, s);
        SiftDown(0);
        assert multiset(s) == multiset{s[0]} + multiset(rest) by { PoppedMultiset(s); }
      } else {
        assert multiset(s) == multiset{s[0]} by { PoppedMultiset(s); }
        assert buffer[..count] == [];
      }
    }

    /** Floyd's heapify of a copied array. */
    method Build(items: seq<T>, allocates: bool) returns (ok: bool)
      requires Shape()
      modifies this, buffer
      ensures ok == (|items| <= old(capacity) || allocates)
      ensures ok ==> Valid() && Contents() == multiset(items)
      ensures !ok ==> unchanged(this) && buffer[..] == old(buffer[..])
      ensures buffer == old(buffer) || fresh(buffer)
    {
      ok := true;
      if |items| == 0 {
        count := 0;
        return;
      }
      if |items| > capacity { ok := Realloc(|items|, allocates); }
      if ok {
        CopyIn(items);
        Heapify();
      }
    }

    method CopyIn(items: seq<T>)
      requires Shape() && |items| <= capacity
      modifies this`count, buffer
      ensures Shape() && buffer[..count] == items
    {
      for i := 0 to |items|
        invariant buffer[..i] == items[..i]
        modifies buffer
      {
        buffer[i] := items[i];
      }
      count := |items|;
    }

    /** Sift down from the last parent to the root. */
    method Heapify()
      requires Shape()
      modifies buffer
      ensures Valid() && multiset(buffer[..count]) == old(multiset(buffer[..count]))
    {
      var idx: nat := count / 2;
      while idx > 0
        invariant idx <= count / 2 && OrderFrom(cmp, buffer[..count], idx)
        invariant multiset(buffer[..count]) == old(multiset(buffer[..count]))
      {
        idx := idx - 1;
        SiftDown(idx);
      }
    }

    /** Popping until empty yields everything, in non-increasing rank. */
    method Drain() returns (out: seq<T>)
      requires Valid()
      modifies this`count, buffer
      ensures Valid() && count == 0
      ensures multiset(out) == old(Contents())
      ensures Descending(cmp, out)
    {
      out := [];
      while count > 0
        invariant Valid() && multiset(out) + Contents() == old(Contents())
        invariant Descending(cmp, out) && Above(cmp, out, Contents())
        decreases count
      {
        ghost var before := Contents();
        var popped, top := Pop();
        DrainStep(cmp, out, before, Contents(), top);
        out := out + [top];
      }
    }
  }

  /** A heap created with capacity 1 and filled by one push asks for 2, which no number of growth steps reaches. */
  method SecondPushNeverGrows<T(!new, 0)>(cmp: Compare<T>, x: T) returns (h: Heap<T>)
    requires TotalPreorder(cmp)
    ensures h.Valid() && h.Contents() == multiset{x} && h.count == h.capacity == 1
    ensures forall n: nat :: GrownTimes(h.capacity, n) < h.count + 1
  {
    h := new Heap(cmp, 1);
    assert |h.Contents()| == h.count;
    var ok := h.Push(x, true);
    assert |h.Contents()| == h.count;
    forall n: nat ensures GrownTimes(1, n) < 2 { StuckAtOne(n); }
  }

  ghost predicate Descending<T>(cmp: Compare<T>, out: seq<T>) {
    forall i, j :: 0 <= i < j < |out| ==> cmp(out[j], out[i]) <= 0
  }

  ghost predicate Above<T>(cmp: Compare<T>, out: seq<T>, m: multiset<T>) {
    forall i :: 0 <= i < |out| ==> Outranks(cmp, out[i], m)
  }

  ghost predicate Outranks<T>(cmp: Compare<T>, x: T, m: multiset<T>) {
    forall e :: e in m ==> cmp(e, x) <= 0
  }

  lemma {:induction false} DrainStep<T>(cmp: Compare<T>, out: seq<T>, before: multiset<T>, after: multiset<T>, top: T)
    requires Descending(cmp, out) && Above(cmp, out, before) && before == after + multiset{top} && Outranks(cmp, top, before)
    ensures Descending(cmp, out + [top]) && Above(cmp, out + [top], after)
    ensures multiset(out + [top]) == multiset(out) + multiset{top}
  {
    assert top in before;
    assert forall e :: e in after ==> e in before;
    forall i | 0 <= i < |out| ensures cmp(top, out[i]) <= 0 && Outranks(cmp, out[i], after) { assert Outranks(cmp, out[i], before); }
  }

  lemma {:induction false} TopRanks<T(!new)>(cmp: Compare<T>, s: seq<T>)
    requires TotalPreorder(cmp) && OrderFrom(cmp, s, 0) && s != []
    ensures Outranks(cmp, s[0], multiset(s))
  {
    forall e | e in multiset(s) ensures cmp(e, s[0]) <= 0 {
      var k :| 0 <= k < |s| && s[k] == e;
      RootIsMax(cmp, s, k);
    }
  }

  lemma {:induction false} EndsSwapped<T>(x: T, m: seq<T>, y: T)
    ensures multiset([x] + m + [y]) == multiset{x} + multiset([y] + m)
  {
    assert multiset([x] + m + [y]) == multiset([x] + m) + multiset{y};
    assert multiset([x] + m) == multiset{x} + multiset(m);
    assert multiset([y] + m) == multiset{y} + multiset(m);
  }

  lemma {:induction false} PoppedMultiset<T>(s: seq<T>)
    requires s != []
    ensures var n := |s| - 1;
            multiset(s) == multiset{s[0]} + (if n == 0 then multiset{} else multiset(s[0 := s[n]][..n]))
  {
    var n := |s| - 1;
    if n == 0 {
      assert s == [s[0]];
    } else {
      var m := s[1..n];
      assert s == [s[0]] + m + [s[n]];
      assert s[0 := s[n]][..n] == [s[n]] + m;
      EndsSwapped(s[0], m, s[n]);
    }
  }

  lemma {:induction false} PoppedOrder<T>(cmp: Compare<T>, s: seq<T>)
    requires |s| >= 2 && OrderFrom(cmp, s, 0)
    ensures OrderFrom(cmp, s[0 := s[|s| - 1]][..|s| - 1], 1)
  {
  }
}
