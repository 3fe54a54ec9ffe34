/** The cache itself: six index arrays updated in place, proved to implement LruSpec. */
module LruCache {
  import opened Bits
  import opened Probing
  import opened Sequences
  import opened Links
  import opened LruLists
  import opened LruTable
  import Spec = LruSpec

  ghost function EntriesOf<K, V>(order: seq<int>, keys: seq<K>, values: seq<V>): (e: Spec.Entries<K, V>)
    requires |keys| == |values| && InRange(order, |keys|)
    ensures |e| == |order|
    ensures forall i :: 0 <= i < |order| ==> e[i] == (keys[order[i]], values[order[i]])
  {
    seq(|order|, i requires 0 <= i < |order| => (keys[order[i]], values[order[i]]))
  }

  lemma {:induction false} EntriesPrefix<K, V>(order: seq<int>, keys: seq<K>, values: seq<V>, n: nat)
    requires |keys| == |values| && InRange(order, |keys|) && n <= |order|
    ensures EntriesOf(order[..n], keys, values) == EntriesOf(order, keys, values)[..n]
  {
  }

  /** Taking the last node off the recency list and holding it keeps the partition. */
  lemma {:induction false} LastDropped(order: seq<int>, free: seq<int>, cap: nat)
    requires Partition(order, free, cap) && order != []
    ensures var n := |order| - 1;
            && Drop(order, n) == order[..n] && Partition([order[n]] + order[..n], free, cap)
            && Elems(order[..n]) <= Elems(order)
  {
    var n := |order| - 1;
    PartitionParts(order, free, cap);
    DropElems(order, n);
    assert Drop(order, n) == order[..n];
    assert Elems([order[n]] + order[..n]) == Elems(order);
    PartitionKept(order, free, [order[n]] + order[..n], free, cap);
  }

  lemma {:induction false} ScanFinds<K, V>(order: seq<int>, keys: seq<K>, values: seq<V>, key: K, i: nat)
    requires |keys| == |values| && InRange(order, |keys|) && Distinct(order)
    requires KeysDistinct(keys, Elems(order))
    requires i < |order| && keys[order[i]] == key
    ensures Spec.IndexOf(EntriesOf(order, keys, values), key) == i
  {
    var e := EntriesOf(order, keys, values);
    var j := Spec.IndexOf(e, key);
    assert e[i].0 == key && forall p :: 0 <= p < |order| ==> order[p] in Elems(order);
  }

  lemma {:induction false} ScanMisses<K, V>(order: seq<int>, keys: seq<K>, values: seq<V>, key: K)
    requires |keys| == |values| && InRange(order, |keys|)
    requires forall n :: n in Elems(order) ==> keys[n] != key
    ensures Spec.IndexOf(EntriesOf(order, keys, values), key) == |order|
  {
    var e := EntriesOf(order, keys, values);
    var j := Spec.IndexOf(e, key);
    assert forall p :: 0 <= p < |order| ==> order[p] in Elems(order);
  }

  lemma {:induction false} DropEntries<K, V>(order: seq<int>, keys: seq<K>, values: seq<V>, i: nat)
    requires |keys| == |values| && InRange(order, |keys|) && i < |order|
    ensures EntriesOf(Drop(order, i), keys, values) == Drop(EntriesOf(order, keys, values), i)
  {
  }

  lemma {:induction false} PromoteEntries<K, V>(order: seq<int>, keys: seq<K>, values: seq<V>, i: nat)
    requires |keys| == |values| && InRange(order, |keys|) && i < |order|
    ensures InRange([order[i]] + Drop(order, i), |keys|)
    ensures var e := EntriesOf(order, keys, values);
            EntriesOf([order[i]] + Drop(order, i), keys, values) == [e[i]] + Drop(e, i)
  {
  }

  class Lru<K(==, 0), V(0)> {
    const capacity: nat
    const hash: K -> nat
    const notifies: bool            // an eviction callback is registered
    const keys: array<K>
    const values: array<V>
    const prev: array<int>
    const next: array<int>
    const hashIndex: array<int>
    const hashTable: array<int>
    var head: int
    var tail: int
    var freeHead: int
    var count: nat
    ghost var order: seq<int>       // the recency list, most recent first
    ghost var free: seq<int>        // the free list

    ghost predicate Shape() {
      && 1 <= capacity == keys.Length == values.Length == prev.Length == next.Length == hashIndex.Length
      && IsPow2(hashTable.Length) && 2 * capacity <= hashTable.Length
      && prev != next && prev != hashIndex && prev != hashTable && next != hashIndex && next != hashTable
      && hashIndex != hashTable
      && (keys as object) !in {values as object, prev, next, hashIndex, hashTable}
      && (values as object) !in {prev as object, next, hashIndex, hashTable}
    }

    ghost predicate Lists()
      reads this, prev, next
    {
      && Linked(prev[..], next[..], order, head, tail)
      && Threaded(next[..], free, freeHead)
      && Partition(order, free, next.Length)
    }

    ghost predicate Table(live: set<int>)
      reads keys, hashIndex, hashTable
    {
      TableOk(hashTable[..], hashIndex[..], keys[..], live, hash) && KeysDistinct(keys[..], live)
    }

    ghost predicate Valid()
      reads this, keys, prev, next, hashIndex, hashTable
    {
      Shape() && Lists() && count == |order| && Table(Elems(order))
    }

    ghost function Contents(): Spec.Entries<K, V>
      requires Shape() && Lists()
      reads this, keys, values, prev, next
    {
      EntriesOf(order, keys[..], values[..])
    }

    constructor (capacity: nat, hash: K -> nat, notifies: bool)
      requires 1 <= capacity && 2 * capacity <= Pow2(SIZE_BITS - 1)
      ensures Valid() && Contents() == []
      ensures this.capacity == capacity && this.hash == hash && this.notifies == notifies
      ensures fresh(keys) && fresh(values) && fresh(prev) && fresh(next) && fresh(hashIndex) && fresh(hashTable)
    {
      var tableSize := TableSize(2 * capacity);
      this.capacity, this.hash, this.notifies := capacity, hash, notifies;
      keys, values := new K[capacity], new V[capacity];
      prev, next, hashIndex := new int[capacity], new int[capacity], new int[capacity];
      hashTable := new int[tableSize];
      head, tail, freeHead, count := NONE, NONE, 0, 0;
      order := [];
      new;
      Reset();
    }

    /** Every slot EMPTY, every node free. */
    method Reset()
      requires Shape()
      modifies this, next, hashTable
      ensures Valid() && Contents() == []
    {
      ResetTable();
      ResetFreeList();
      count := 0;
      assert Elems(order) == {};
    }

    /** The loop that marks every slot EMPTY. */
    method ResetTable()
      requires Shape()
      modifies hashTable
      ensures Table({})
    {
      for i := 0 to hashTable.Length
        invariant forall s :: 0 <= s < i ==> hashTable[s] == EMPTY
      {
        hashTable[i] := EMPTY;
      }
    }

    /** Thread every node index, in order, onto the free list. */
    method ResetFreeList()
      requires Shape()
      modifies this`free, this`freeHead, this`order, this`head, this`tail, next
      ensures Lists() && order == []
    {
      head, tail := NONE, NONE;
      freeHead := 0;
      for i := 0 to capacity
        invariant forall j :: 0 <= j < i ==> next[j] == j + 1
        modifies next
      {
        next[i] := i + 1;
      }
      next[capacity - 1] := NONE;
      order, free := [], Iota(capacity);
      AllFree(next[..]);
    }

    /** The node index stored under `key` and the slot it is in, exactly when a linear scan finds the key. */
    method FindSlot(key: K) returns (slot: nat, found: bool)
      requires Valid()
      ensures found == Spec.Has(Contents(), key)
      ensures slot < hashTable.Length
      ensures found ==> hashTable[slot] == order[Spec.IndexOf(Contents(), key)]
      ensures !found ==> hashTable[slot] == EMPTY && forall n :: n in order ==> keys[n] != key
    {
      slot, found := 0, false;
      var home := Home(hash, key, hashTable.Length);
      var idx: nat := home;
      var cap := hashTable.Length;
      ghost var table, ks := hashTable[..], keys[..];
      for i := 0 to cap
        invariant idx < cap && Passed(table, ks, key, home, i)
        invariant i < cap ==> Dist(home, idx, cap) == i
      {
        var node := hashTable[idx];
        if node == EMPTY {
          AbsentAtEmpty(table, hashIndex[..], ks, Elems(order), hash, key, idx);
          ScanMisses(order, ks, values[..], key);
          return idx, false;
        }
        assert table[idx] in Elems(order);
        if keys[node] == key {
          ghost var p :| 0 <= p < |order| && order[p] == node;
          ScanFinds(order, ks, values[..], key, p);
          return idx, true;
        }
        AfterAdvances(home, idx, cap);
        forall x | 0 <= x < cap && Dist(home, x, cap) < i + 1 ensures table[x] != EMPTY && 0 <= table[x] < |ks| && ks[table[x]] != key {
          if Dist(home, x, cap) == i { DistInjective(home, x, idx, cap); }
        }
        idx := After(idx, cap);
      }
      DistinctElems(order);
      ghost var e := SomeEmpty(table, hashIndex[..], ks, Elems(order), hash);
      assert false;
    }

    /** Linear probe for the first EMPTY slot on the key's path. */
    method FirstEmpty(key: K, ghost live: set<int>) returns (slot: nat)
      requires Shape() && Table(live) && |live| < hashTable.Length
      ensures slot < hashTable.Length && hashTable[slot] == EMPTY
      ensures var home := Home(hash, key, hashTable.Length);
              Occupied(hashTable[..], home, Dist(home, slot, hashTable.Length))
    {
      var cap := hashTable.Length;
      var home := Home(hash, key, cap);
      slot := home;
      ghost var e := SomeEmpty(hashTable[..], hashIndex[..], keys[..], live, hash);
      ghost var d := 0;
      while hashTable[slot] != EMPTY
        invariant slot < cap && d == Dist(home, slot, cap) <= Dist(home, e, cap)
        invariant Occupied(hashTable[..], home, d)
        decreases Dist(home, e, cap) - d
      {
        if d == Dist(home, e, cap) { DistInjective(home, e, slot, cap); }
        AfterAdvances(home, slot, cap);
        forall x | 0 <= x < cap && Dist(home, x, cap) < d + 1 ensures hashTable[x] != EMPTY {
          if Dist(home, x, cap) == d { DistInjective(home, x, slot, cap); }
        }
        slot := After(slot, cap);
        d := d + 1;
      }
    }

    method InsertNode(node: int, ghost live: set<int>)
      requires Shape() && Table(live) && |live| < hashTable.Length
      requires 0 <= node < capacity && node !in live && forall n :: n in live ==> keys[n] != keys[node]
      modifies hashTable, hashIndex
      ensures Table(live + {node})
    {
      var idx := FirstEmpty(keys[node], live);
      ghost var table, index := hashTable[..], hashIndex[..];
      Inserted(table, index, keys[..], live, hash, node, idx);
      hashTable[idx] := node;
      hashIndex[node] := idx;
      assert hashTable[..] == table[idx := node] && hashIndex[..] == index[node := idx];
    }

    /** Enter the i-th node of the list and go on to the next. */
    method ReinsertNext(n: int, ghost i: nat) returns (n': int)
      requires Shape() && Threaded(next[..], order, head) && Distinct(order) && KeysDistinct(keys[..], Elems(order))
      requires i < |order| <= capacity && n == order[i] && Table(Elems(order[..i]))
      modifies hashTable, hashIndex
      ensures Table(Elems(order[..i + 1])) && n' == if i + 1 < |order| then order[i + 1] else NONE
    {
      PrefixElems(order, i);
      assert next[..][order[i]] == Succ(order, i);
      InsertNode(n, Elems(order[..i]));
      n' := next[n];
    }

    /** Rebuild the table from the recency list. */
    method Rebuild()
      requires Shape() && Threaded(next[..], order, head) && Distinct(order)
      requires KeysDistinct(keys[..], Elems(order))
      modifies hashTable, hashIndex
      ensures Table(Elems(order))
    {
      ResetTable();
      var n := head;
      ghost var i := 0;
      assert Elems(order[..0]) == {};
      Pigeonhole(order, capacity);
      while n != NONE
        invariant 0 <= i <= |order| && n == if i < |order| then order[i] else NONE
        invariant Table(Elems(order[..i]))
        decreases |order| - i
      {
        n := ReinsertNext(n, i);
        i := i + 1;
      }
      assert order[..i] == order;
    }

    method Unlink(node: int, ghost i: nat)
      requires Shape() && Linked(prev[..], next[..], order, head, tail)
      requires i < |order| && order[i] == node
      modifies this`head, this`tail, this`order, prev, next
      ensures Linked(prev[..], next[..], order, head, tail)
      ensures order == Drop(old(order), i)
      ensures forall x :: 0 <= x < next.Length && x !in old(order) ==> next[x] == old(next[x])
    {
      ghost var prev0, next0 := prev[..], next[..];
      var p, n := prev[node], next[node];
      assert p == Pred(order, i) && n == Succ(order, i);
      Unlinked(prev0, next0, order, head, tail, i);
      if p != NONE { next[p] := n; } else { head := n; }
      if n != NONE { prev[n] := p; } else { tail := p; }
      prev[node] := NONE;
      next[node] := NONE;
      order := Drop(order, i);
      assert next[..] == LruLists.Put(next0, p, n)[node := NONE];
      assert prev[..] == LruLists.Put(prev0, n, p)[node := NONE];
    }

    method PushFront(node: int)
      requires Shape() && Linked(prev[..], next[..], order, head, tail)
      requires 0 <= node < capacity && node !in order
      modifies this`head, this`tail, this`order, prev, next
      ensures Linked(prev[..], next[..], order, head, tail)
      ensures order == [node] + old(order)
      ensures forall x :: 0 <= x < next.Length && x != node ==> next[x] == old(next[x])
    {
      ghost var prev0, next0, head0 := prev[..], next[..], head;
      Pushed(prev0, next0, order, head, tail, node);
      prev[node] := NONE;
      next[node] := head;
      if head != NONE { prev[head] := node; } else { tail := node; }
      head := node;
      order := [node] + order;
      assert next[..] == next0[node := head0];
      assert prev[..] == LruLists.Put(prev0[node := NONE], head0, node);
    }

    method MoveToFront(node: int, ghost i: nat)
      requires Shape() && Lists() && i < |order| && order[i] == node
      modifies this`head, this`tail, this`order, prev, next
      ensures Lists() && order == [node] + Drop(old(order), i)
    {
      if head == node {
        assert i == 0;
        assert order == [node] + Drop(order, i);
        return;
      }
      PartitionParts(order, free, capacity);
      DropElems(order, i);
      Unlink(node, i);
      PushFront(node);
      assert Elems(order) == Elems(old(order));
      PartitionKept(old(order), free, order, free, capacity);
      ThreadedFrame(old(next[..]), next[..], free, freeHead, old(order));
    }

    /** freelist_pop; the caller guarantees a free node. */
    method PopFree() returns (node: int)
      requires Shape() && Lists() && free != []
      modifies this`freeHead, this`free
      ensures [node] + free == old(free)
      ensures Threaded(next[..], free, freeHead)
    {
      node := freeHead;
      assert next[..][free[0]] == Succ(free, 0);
      freeHead := next[node];
      ghost var free0 := free;
      free := free[1..];
      forall i | 0 <= i < |free| ensures next[..][free[i]] == Succ(free, i) {
        assert next[..][free0[i + 1]] == Succ(free0, i + 1);
      }
    }

    /** freelist_push; the node is in neither list. */
    method PushFree(node: int)
      requires Shape() && Threaded(next[..], free, freeHead) && 0 <= node < capacity && node !in free
      modifies this`freeHead, this`free, next
      ensures free == [node] + old(free) && Threaded(next[..], free, freeHead)
      ensures forall x :: 0 <= x < next.Length && x != node ==> next[x] == old(next[x])
    {
      ghost var next0 := next[..];
      next[node] := freeHead;
      freeHead := node;
      free := [node] + free;
      forall i | 0 <= i < |free| ensures next[..][free[i]] == Succ(free, i) {
        if i > 0 { assert next0[old(free)[i - 1]] == Succ(old(free), i - 1); }
      }
    }

    /** lru_move_to_front, seen as a step on the whole cache. */
    method Promote(node: int, ghost i: nat)
      requires Valid() && i < |order| && order[i] == node
      modifies this`head, this`tail, this`order, prev, next
      ensures Valid() && Contents() == [old(Contents()[i])] + Drop(old(Contents()), i)
    {
      PartitionParts(order, free, capacity);
      DropElems(order, i);
      PromoteEntries(order, keys[..], values[..], i);
      MoveToFront(node, i);
      assert Elems(order) == Elems(old(order));
    }

    method Get(key: K) returns (found: bool, value: V)
      requires Valid()
      modifies this`head, this`tail, this`order, prev, next
      ensures Valid() && Contents() == Spec.Get(old(Contents()), key)
      ensures found == Spec.Has(old(Contents()), key)
      ensures found ==> (key, value) == Contents()[0]
    {
      var slot, hit := FindSlot(key);
      if !hit { return false, *; }
      var node := hashTable[slot];
      found, value := true, values[node];
      Promote(node, Spec.IndexOf(Contents(), key));
    }

    method Peek(key: K) returns (found: bool, value: V)
      requires Valid()
      ensures found == Spec.Has(Contents(), key)
      ensures found ==> (key, value) == Contents()[Spec.IndexOf(Contents(), key)]
    {
      var slot, hit := FindSlot(key);
      if !hit { return false, *; }
      found, value := true, values[hashTable[slot]];
    }

    method Contains(key: K) returns (found: bool)
      requires Valid()
      ensures found == Spec.Has(Contents(), key)
    {
      var slot: nat;
      slot, found := FindSlot(key);
    }

    /** A node held by the caller, in neither list. */
    ghost predicate Holding(node: int)
      reads this, prev, next
    {
      && Linked(prev[..], next[..], order, head, tail)
      && Threaded(next[..], free, freeHead)
      && Partition([node] + order, free, next.Length)
    }

    /** The least recent node of a full cache leaves the list; its entry goes to the callback. */
    method EvictLast() returns (node: int, evicted: Spec.Entries<K, V>)
      requires Valid() && |order| == capacity
      modifies this`head, this`tail, this`order, prev, next
      ensures Holding(node) && count == |order| + 1 && order == old(order)[..capacity - 1] && InRange(order, capacity)
      ensures KeysDistinct(keys[..], Elems(order))
      ensures EntriesOf(order, keys[..], values[..]) == old(Contents())[..capacity - 1]
      ensures evicted == if notifies then [old(Contents())[capacity - 1]] else []
    {
      ghost var order0 := order;
      PartitionParts(order, free, capacity);
      LastDropped(order, free, capacity);
      EntriesPrefix(order, keys[..], values[..], capacity - 1);
      node := tail;
      evicted := if notifies then [(keys[node], values[node])] else [];
      Unlink(node, |order| - 1);
      ThreadedFrame(old(next[..]), next[..], free, freeHead, order0);
    }

    /** A node of the free list. */
    method TakeFree() returns (node: int)
      requires Valid() && |order| < capacity
      modifies this`free, this`freeHead, this`count
      ensures Holding(node) && count == |order| + 1
    {
      ghost var free0 := free;
      PartitionParts(order, free, capacity);
      node := PopFree();
      count := count + 1;
      assert Elems([node] + order) + Elems(free) == Elems(order) + Elems(free0);
      PartitionKept(order, free0, [node] + order, free, capacity);
    }

    /** The node a new key will live in: the least recent one when the cache is full, else a free one. */
    method TakeNode() returns (node: int, evicted: Spec.Entries<K, V>, rebuild: bool)
      requires Valid()
      modifies this`head, this`tail, this`order, this`free, this`freeHead, this`count, prev, next
      ensures Holding(node) && count == |order| + 1
      ensures rebuild == (|old(order)| == capacity)
      ensures order == if rebuild then old(order)[..capacity - 1] else old(order)
      ensures KeysDistinct(keys[..], Elems(order)) && (!rebuild ==> Table(Elems(order)))
      ensures InRange(order, capacity)
      ensures EntriesOf(order, keys[..], values[..]) == if rebuild then old(Contents())[..capacity - 1] else old(Contents())
      ensures evicted == if rebuild && notifies then [old(Contents())[capacity - 1]] else []
    {
      evicted, rebuild := [], count == capacity;
      PartitionParts(order, free, capacity);
      if rebuild { node, evicted := EvictLast(); } else { node := TakeFree(); }
    }

    /** Copy key and value into the held node and link it at the MRU end. */
    method StoreFront(node: int, key: K, value: V)
      requires Shape() && Holding(node)
      modifies this`head, this`tail, this`order, keys, values, prev, next
      ensures Lists() && order == [node] + old(order)
      ensures keys[..] == old(keys[..])[node := key] && values[..] == old(values[..])[node := value]
      ensures Contents() == [(key, value)] + EntriesOf(old(order), old(keys[..]), old(values[..]))
    {
      HeldApart(node, order, free, capacity);
      keys[node] := key;
      values[node] := value;
      PushFront(node);
      ThreadedFrame(old(next[..]), next[..], free, freeHead, [node]);
    }

    /** Store a new key in the held node and make the hash table agree. */
    method PutNew(node: int, key: K, value: V, rebuild: bool)
      requires Shape() && Holding(node) && count == |order| + 1
      requires !rebuild ==> Table(Elems(order))
      requires KeysDistinct(keys[..], Elems(order)) && InRange(order, capacity) && forall n :: n in order ==> keys[n] != key
      modifies this`head, this`tail, this`order, keys, values, prev, next, hashIndex, hashTable
      ensures Valid()
      ensures Contents() == [(key, value)] + EntriesOf(old(order), old(keys[..]), old(values[..]))
    {
      HeldApart(node, order, free, capacity);
      ghost var live := Elems(order);
      StoreFront(node, key, value);
      assert Elems(order) == live + {node};
      assert KeysDistinct(keys[..], Elems(order));
      if rebuild {
        Rebuild();
      } else {
        KeyFrame(hashTable[..], hashIndex[..], old(keys[..]), keys[..], live, hash);
        PartitionParts(order, free, capacity);
        DistinctElems(order);
        InsertNode(node, live);
      }
    }

    /** Overwrite the value of a key already stored and promote it. */
    method Update(node: int, value: V, ghost i: nat)
      requires Valid() && i < |order| && order[i] == node
      modifies this`head, this`tail, this`order, values, prev, next
      ensures Valid()
      ensures Contents() == [(old(Contents()[i].0), value)] + Drop(old(Contents()), i)
    {
      values[node] := value;
      assert Contents() == old(Contents())[i := (keys[node], value)];
      Promote(node, i);
    }

    method Put(key: K, value: V) returns (evicted: Spec.Entries<K, V>)
      requires Valid()
      modifies this, keys, values, prev, next, hashIndex, hashTable
      ensures Valid() && Contents() == Spec.Put(old(Contents()), capacity, key, value)
      ensures evicted == if notifies then Spec.Evicted(old(Contents()), capacity, key) else []
    {
      var slot, found := FindSlot(key);
      if found {
        evicted := [];
        Update(hashTable[slot], value, Spec.IndexOf(Contents(), key));
      } else {
        var node, rebuild;
        node, evicted, rebuild := TakeNode();
        PutNew(node, key, value, rebuild);
      }
    }

    /** Take a live node out of the recency list and give it back to the free list. */
    method Discard(node: int, ghost i: nat)
      requires Valid() && i < |order| && order[i] == node
      modifies this`head, this`tail, this`order, this`free, this`freeHead, prev, next
      ensures Lists() && order == Drop(old(order), i)
      ensures Contents() == Drop(old(Contents()), i)
    {
      ghost var order0, free0 := order, free;
      PartitionParts(order, free, capacity);
      DropElems(order, i);
      DropEntries(order, keys[..], values[..], i);
      Unlink(node, i);
      ThreadedFrame(old(next[..]), next[..], free, freeHead, order0);
      assert node in Elems(order0) && node !in Elems(free0);
      ghost var next1 := next[..];
      PushFree(node);
      assert Elems(order) + Elems(free) == Elems(order0) + Elems(free0);
      PartitionKept(order0, free0, order, free, capacity);
      assert Elems([node]) == {node};
      ThreadedFrame(next1, next[..], order, head, [node]);
    }

    method Remove(key: K) returns (found: bool)
      requires Valid()
      modifies this, prev, next, hashIndex, hashTable
      ensures Valid() && Contents() == Spec.Remove(old(Contents()), key)
      ensures found == Spec.Has(old(Contents()), key)
    {
      var slot: nat;
      slot, found := FindSlot(key);
      if !found { return; }
      slot, found := FindSlot(key);
      ghost var i := Spec.IndexOf(Contents(), key);
      PartitionParts(order, free, capacity);
      DropElems(order, i);
      Discard(hashTable[slot], i);
      count := count - 1;
      Rebuild();
    }

    /** Calls the eviction callback on every live entry, most recent first. */
    method NotifyAll() returns (evicted: Spec.Entries<K, V>)
      requires Valid()
      ensures evicted == if notifies then Contents() else []
    {
      evicted := [];
      if notifies {
        var node := head;
        ghost var i := 0;
        while node != NONE
          invariant 0 <= i <= |order| && node == if i < |order| then order[i] else NONE
          invariant evicted == Contents()[..i]
          decreases |order| - i
        {
          evicted := evicted + [(keys[node], values[node])];
          assert next[..][order[i]] == Succ(order, i);
          node := next[node];
          i := i + 1;
        }
      }
    }

    method Clear() returns (evicted: Spec.Entries<K, V>)
      requires Valid()
      modifies this, next, hashTable
      ensures Valid() && Contents() == []
      ensures evicted == if notifies then old(Contents()) else []
    {
      evicted := NotifyAll();
      Reset();
    }

    /** A get or a peek. */
    method Look(key: K, promotes: bool) returns (answer: Spec.Answer<V>)
      requires Valid()
      modifies this`head, this`tail, this`order, prev, next
      ensures Valid() && Contents() == if promotes then Spec.Get(old(Contents()), key) else old(Contents())
      ensures answer == Spec.Found(old(Contents()), key)
    {
      var found, v;
      if promotes { found, v := Get(key); } else { found, v := Peek(key); }
      answer := if found then Spec.Hit(v) else Spec.Miss;
    }

    /** A put, a remove or a clear. */
    method Change(op: Spec.Op<K, V>) returns (reply: Spec.Reply<K, V>)
      requires Valid() && !op.OpGet? && !op.OpPeek?
      modifies this, keys, values, prev, next, hashIndex, hashTable
      ensures Valid() && Contents() == Spec.Apply(old(Contents()), capacity, op)
      ensures reply == Spec.ReplyTo(old(Contents()), capacity, notifies, op)
    {
      var found, evicted := true, [];
      if op.OpPut? {
        evicted := Put(op.key, op.value);
      } else if op.OpRemove? {
        found := Remove(op.key);
      } else {
        evicted := Clear();
      }
      reply := Spec.Reply(if found then Spec.Done else Spec.Miss, evicted);
    }

    /** Carries out one operation of a run. */
    method Perform(op: Spec.Op<K, V>) returns (reply: Spec.Reply<K, V>)
      requires Valid()
      modifies this, keys, values, prev, next, hashIndex, hashTable
      ensures Valid() && Contents() == Spec.Apply(old(Contents()), capacity, op)
      ensures reply == Spec.ReplyTo(old(Contents()), capacity, notifies, op)
    {
      if op.OpGet? || op.OpPeek? {
        var answer := Look(op.key, op.OpGet?);
        reply := Spec.Reply(answer, []);
      } else {
        reply := Change(op);
      }
    }

    /** One more operation of a run. */
    method PerformNext(ops: seq<Spec.Op<K, V>>, i: nat, replies: seq<Spec.Reply<K, V>>) returns (replies': seq<Spec.Reply<K, V>>)
      requires Valid() && i < |ops| && Contents() == Spec.Run(capacity, ops[..i])
      requires Spec.RepliesTo(capacity, notifies, ops, i, replies)
      modifies this, keys, values, prev, next, hashIndex, hashTable
      ensures Valid() && Contents() == Spec.Run(capacity, ops[..i + 1])
      ensures Spec.RepliesTo(capacity, notifies, ops, i + 1, replies')
    {
      Spec.RunNext(capacity, ops, i);
      var reply := Perform(ops[i]);
      Spec.RepliesNext(capacity, notifies, ops, i, replies, reply);
      replies' := replies + [reply];
    }
  }

  /** Twice the capacity, rounded in 64-bit arithmetic. */
  function TableSlots(capacity: nat): nat { RoundPow2(2 * capacity % Pow2(SIZE_BITS), SIZE_BITS) }

  /** The table size is 0 from 2^62 + 1 to 2^63 nodes; above, the multiplication has wrapped. */
  lemma {:induction false} TableVanishesIff(capacity: nat)
    requires 1 <= capacity < Pow2(SIZE_BITS)
    ensures TableSlots(capacity) == 0 <==> Pow2(SIZE_BITS - 2) < capacity <= Pow2(SIZE_BITS - 1)
                                           || capacity > Pow2(SIZE_BITS - 1) + Pow2(SIZE_BITS - 2)
    ensures capacity <= Pow2(SIZE_BITS - 2) ==> 2 * capacity <= TableSlots(capacity) < 4 * capacity
  {
    var word, half := Pow2(SIZE_BITS), Pow2(SIZE_BITS - 1);
    assert word == 2 * half && half == 2 * Pow2(SIZE_BITS - 2);
    var n := if capacity < half then 2 * capacity else 2 * capacity - word;
    DivModUnique(2 * capacity, word, if capacity < half then 0 else 1, n);
    if 1 <= n <= half {
      RoundPow2IsPow2(n, SIZE_BITS);
    } else {
      RoundPow2Wraps(n, SIZE_BITS);
    }
  }

  const WORD_BYTES: nat := 8

  /** The size in bytes of the node arrays or of the table overflows, so that they come out too short. */
  predicate Short(capacity: nat) {
    WORD_BYTES * capacity >= Pow2(SIZE_BITS) || WORD_BYTES * TableSlots(capacity) >= Pow2(SIZE_BITS)
  }

  /** Up to 2^58 nodes every array has its full size. */
  lemma {:induction false} LongEnough(capacity: nat)
    requires 1 <= capacity <= Pow2(SIZE_BITS - 6)
    ensures !Short(capacity) && TableSlots(capacity) != 0
  {
    SixBits(SIZE_BITS, 6);
    TableVanishesIff(capacity);
  }

  lemma {:induction false} SixBits(bits: nat, six: nat)
    requires six == 6 <= bits
    ensures Pow2(bits) == 64 * Pow2(bits - six) && Pow2(bits - six) <= Pow2(bits - 2)
  {
    Pow2Sum(bits - six, six);
    assert Pow2(6) == 64;
    Pow2Mono(bits - six, bits - 2);
  }

  /**
    * NULL for capacity 0, for a table size that overflows to 0, or when the allocator fails; otherwise an empty cache.
    * Of a cache whose arrays came out short nothing is promised.
    */
  method Create<K(==, 0), V(0)>(capacity: nat, hash: K -> nat, notifies: bool, allocates: bool)
      returns (c: Lru?<K, V>, short: bool)
    requires capacity < Pow2(SIZE_BITS)
    ensures short <==> capacity > 0 && allocates && TableSlots(capacity) != 0 && Short(capacity)
    ensures !short ==> (c == null <==> capacity == 0 || !allocates || TableSlots(capacity) == 0)
    ensures !short && c != null ==>
              fresh(c) && c.Valid() && c.Contents() == [] && c.capacity == capacity && c.notifies == notifies
  {
    c, short := null, false;
    if capacity == 0 || !allocates { return; }
    TableVanishesIff(capacity);
    if TableSlots(capacity) == 0 { return; }
    if Short(capacity) {
      short := true;
    } else {
      FitsBelow(capacity);
      c := new Lru(capacity, hash, notifies);
    }
  }

  lemma {:induction false} FitsBelow(capacity: nat)
    requires !Short(capacity)
    ensures 2 * capacity <= Pow2(SIZE_BITS - 1)
  {
    assert Pow2(SIZE_BITS) == 2 * Pow2(SIZE_BITS - 1);
  }

  /**
    * Every run of operations on a fresh cache, for every hash function and with or without a callback, is
    * the run of the recency list: its contents, and the answer and evicted entries of every step.
    */
  method Execute<K(==, 0), V(0)>(capacity: nat, hash: K -> nat, notifies: bool, ops: seq<Spec.Op<K, V>>)
      returns (c: Lru<K, V>, replies: seq<Spec.Reply<K, V>>)
    requires 1 <= capacity && 2 * capacity <= Pow2(SIZE_BITS - 1)
    ensures fresh(c) && c.Valid() && c.capacity == capacity && c.Contents() == Spec.Run(capacity, ops)
    ensures Spec.RepliesTo(capacity, notifies, ops, |ops|, replies)
  {
    c := new Lru(capacity, hash, notifies);
    replies := [];
    var i := 0;
    while i < |ops|
      invariant 0 <= i <= |ops| && Spec.RepliesTo(capacity, notifies, ops, i, replies)
      invariant fresh(c) && fresh(c.keys) && fresh(c.values) && fresh(c.prev) && fresh(c.next)
      invariant fresh(c.hashIndex) && fresh(c.hashTable)
      invariant c.Valid() && c.capacity == capacity && c.notifies == notifies && c.Contents() == Spec.Run(capacity, ops[..i])
    {
      replies := c.PerformNext(ops, i, replies);
      i := i + 1;
    }
    assert ops[..i] == ops;
  }

  /** In every valid state at least half the table is EMPTY and each node is in exactly one list. */
  lemma {:induction false} ValidStateFacts<K(0), V(0)>(c: Lru<K, V>, n: int)
    requires c.Valid() && 0 <= n < c.capacity
    ensures |OccupiedSlots(c.hashTable[..])| == c.count
    ensures 2 * |OccupiedSlots(c.hashTable[..])| <= c.hashTable.Length
    ensures (n in c.order) != (n in c.free)
  {
    PartitionParts(c.order, c.free, c.capacity);
    DistinctElems(c.order);
    OccupiedCount(c.hashTable[..], c.hashIndex[..], c.keys[..], Elems(c.order), c.hash);
    ExactlyOneList(c.order, c.free, c.capacity, n);
  }
}
