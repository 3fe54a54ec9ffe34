/** Open addressing with tombstones, as facts about the slot arrays. */
module MapTable {
  import opened Bits
  import opened Probing
  import opened Sequences

  const EMPTY: int := 0
  const OCCUPIED: int := 1
  const DELETED: int := 2

  /** The slots in a given state. */
  ghost function Slots(states: seq<int>, state: int): set<int> {
    set s | 0 <= s < |states| && states[s] == state
  }

  /**
    * `where` places every key of `m` in a slot that holds it, no other slot is OCCUPIED, and no
    * EMPTY slot lies on the probe path in front of a key.
    */
  ghost predicate MapOk<K, V>(states: seq<int>, keys: seq<K>, vals: seq<V>, m: map<K, V>, where: map<K, int>, hash: K -> nat) {
    && |states| == |keys| == |vals| && |states| >= 1
    && (forall s :: 0 <= s < |states| ==> states[s] == EMPTY || states[s] == OCCUPIED || states[s] == DELETED)
    && where.Keys == m.Keys
    && (forall k :: k in m ==> 0 <= where[k] < |states|)
    && (forall k :: k in m ==> states[where[k]] == OCCUPIED && keys[where[k]] == k && vals[where[k]] == m[k])
    && (forall s :: 0 <= s < |states| && states[s] == OCCUPIED ==> keys[s] in m && where[keys[s]] == s)
    && (forall k, x {:trigger NoGap(states, hash, k, where[k], x)} :: k in m && 0 <= x < |states| ==> NoGap(states, hash, k, where[k], x))
  }

  ghost predicate NoGap<K>(states: seq<int>, hash: K -> nat, k: K, slot: int, x: int)
    requires 0 <= slot < |states| && 0 <= x < |states|
  {
    var home := Home(hash, k, |states|);
    Dist(home, x, |states|) < Dist(home, slot, |states|) ==> states[x] != EMPTY
  }

  /** The first `steps` slots of the probe path neither are EMPTY nor hold the key. */
  ghost predicate Passed<K>(states: seq<int>, keys: seq<K>, key: K, home: nat, steps: nat) {
    home < |states| == |keys| &&
    forall x :: 0 <= x < |states| && Dist(home, x, |states|) < steps ==>
                  states[x] != EMPTY && (states[x] == OCCUPIED ==> keys[x] != key)
  }

  lemma {:induction false} AbsentAtEmpty<K, V>(states: seq<int>, keys: seq<K>, vals: seq<V>, m: map<K, V>, where: map<K, int>,
                                               hash: K -> nat, key: K, slot: nat)
    requires MapOk(states, keys, vals, m, where, hash)
    requires slot < |states| && states[slot] == EMPTY
    requires Passed(states, keys, key, Home(hash, key, |states|), Dist(Home(hash, key, |states|), slot, |states|))
    ensures key !in m
  {
    if key in m {
      assert NoGap(states, hash, key, where[key], slot);
      DistInjective(Home(hash, key, |states|), slot, where[key], |states|);
    }
  }

  /** Storing an absent key in a slot whose probe path has no EMPTY slot in front of it. */
  lemma {:induction false} Stored<K, V>(states: seq<int>, keys: seq<K>, vals: seq<V>, m: map<K, V>, where: map<K, int>,
                                        hash: K -> nat, key: K, value: V, slot: nat)
    requires MapOk(states, keys, vals, m, where, hash)
    requires key !in m && slot < |states| && states[slot] != OCCUPIED
    requires forall x :: 0 <= x < |states| ==> NoGap(states, hash, key, slot, x)
    ensures MapOk(states[slot := OCCUPIED], keys[slot := key], vals[slot := value], m[key := value], where[key := slot], hash)
  {
    var states', m', where' := states[slot := OCCUPIED], m[key := value], where[key := slot];
    forall k, x | k in m' && 0 <= x < |states'| ensures NoGap(states', hash, k, where'[k], x) {
      assert NoGap(states, hash, k, where'[k], x);
    }
  }

  lemma {:induction false} Overwritten<K, V>(states: seq<int>, keys: seq<K>, vals: seq<V>, m: map<K, V>, where: map<K, int>,
                                             hash: K -> nat, key: K, value: V)
    requires MapOk(states, keys, vals, m, where, hash) && key in m
    ensures MapOk(states, keys, vals[where[key] := value], m[key := value], where, hash)
  {
  }

  lemma {:induction false} Buried<K, V>(states: seq<int>, keys: seq<K>, vals: seq<V>, m: map<K, V>, where: map<K, int>,
                                        hash: K -> nat, key: K)
    requires MapOk(states, keys, vals, m, where, hash) && key in m
    ensures MapOk(states[where[key] := DELETED], keys, vals, m - {key}, where - {key}, hash)
  {
    var states', where' := states[where[key] := DELETED], where - {key};
    forall k, x | k in m - {key} && 0 <= x < |states'| ensures NoGap(states', hash, k, where'[k], x) {
      assert NoGap(states, hash, k, where[k], x);
    }
  }

  /** The part of the map stored in the first i slots. */
  ghost function Below<K, V>(m: map<K, V>, where: map<K, int>, i: int): (r: map<K, V>)
    requires where.Keys == m.Keys
    ensures r.Keys <= m.Keys
  {
    map k | k in m && where[k] < i :: m[k]
  }

  /** Reading the slots in order collects the map one entry at a time. */
  ghost predicate Enumerates<K, V>(states: seq<int>, keys: seq<K>, vals: seq<V>, m: map<K, V>, where: map<K, int>) {
    && |states| == |keys| == |vals| && where.Keys == m.Keys
    && (forall i :: 0 <= i < |states| ==> EnumeratesAt(states, keys, vals, m, where, i))
    && Below(m, where, 0) == map[] && Below(m, where, |states|) == m
  }

  ghost predicate EnumeratesAt<K, V>(states: seq<int>, keys: seq<K>, vals: seq<V>, m: map<K, V>, where: map<K, int>, i: int)
    requires 0 <= i < |states| == |keys| == |vals| && where.Keys == m.Keys
  {
    if states[i] == OCCUPIED then
      keys[i] !in Below(m, where, i) && Below(m, where, i + 1) == Below(m, where, i)[keys[i] := vals[i]]
    else
      Below(m, where, i + 1) == Below(m, where, i)
  }

  lemma {:induction false} SlotEnumerated<K, V>(states: seq<int>, keys: seq<K>, vals: seq<V>, m: map<K, V>, where: map<K, int>,
                                                hash: K -> nat, i: nat)
    requires MapOk(states, keys, vals, m, where, hash) && i < |states|
    ensures EnumeratesAt(states, keys, vals, m, where, i)
  {
    var low, next := Below(m, where, i), Below(m, where, i + 1);
    assert forall k :: k in m && where[k] == i ==> states[i] == OCCUPIED && keys[i] == k;
    if states[i] == OCCUPIED {
      assert next == low[keys[i] := vals[i]];
    } else {
      assert next == low;
    }
  }

  lemma {:induction false} TableEnumerates<K, V>(states: seq<int>, keys: seq<K>, vals: seq<V>, m: map<K, V>, where: map<K, int>,
                                                 hash: K -> nat)
    requires MapOk(states, keys, vals, m, where, hash)
    ensures Enumerates(states, keys, vals, m, where)
  {
    forall i | 0 <= i < |states| ensures EnumeratesAt(states, keys, vals, m, where, i) {
      SlotEnumerated(states, keys, vals, m, where, hash, i);
    }
    assert Below(m, where, 0) == map[];
    assert Below(m, where, |states|) == m;
  }

  /** Changing one slot's state moves it from one state's slots to another's. */
  lemma {:induction false} StateCounts(states: seq<int>, slot: nat, state: int, of: int)
    requires slot < |states|
    ensures |Slots(states[slot := state], of)| ==
            |Slots(states, of)| + (if state == of then 1 else 0) - (if states[slot] == of then 1 else 0)
  {
    var a, b := Slots(states, of), Slots(states[slot := state], of);
    assert b == if state == of then a + {slot} else a - {slot};
  }

  lemma {:induction false} StatesPartition(states: seq<int>)
    requires forall s :: 0 <= s < |states| ==> states[s] == EMPTY || states[s] == OCCUPIED || states[s] == DELETED
    ensures |Slots(states, EMPTY)| + |Slots(states, OCCUPIED)| + |Slots(states, DELETED)| == |states|
  {
    RangeSize(|states|);
    var e, o, d := Slots(states, EMPTY), Slots(states, OCCUPIED), Slots(states, DELETED);
    assert Range(|states|) == e + o + d;
    assert e !! o && (e + o) !! d;
  }

  lemma {:induction false} AllEmpty<K, V>(states: seq<int>, keys: seq<K>, vals: seq<V>, hash: K -> nat)
    requires |states| == |keys| == |vals| && |states| >= 1
    requires forall s :: 0 <= s < |states| ==> states[s] == EMPTY
    ensures MapOk(states, keys, vals, map[], map[], hash)
    ensures |Slots(states, OCCUPIED)| == 0 && |Slots(states, DELETED)| == 0
  {
    assert Slots(states, OCCUPIED) == {} && Slots(states, DELETED) == {};
  }

  lemma {:induction false} PassOne<K>(states: seq<int>, keys: seq<K>, key: K, home: nat, slot: nat)
    requires home < |states| && slot < |states| && Passed(states, keys, key, home, Dist(home, slot, |states|))
    requires !StopsAt(states, keys, key, slot)
    ensures Passed(states, keys, key, home, Dist(home, slot, |states|) + 1)
  {
    forall x | 0 <= x < |states| && Dist(home, x, |states|) == Dist(home, slot, |states|) ensures x == slot {
      DistInjective(home, x, slot, |states|);
    }
  }

  lemma {:induction false} LiveBound<K, V>(states: seq<int>, m: map<K, V>)
    requires |m| == |Slots(states, OCCUPIED)|
    ensures |m| <= |states|
  {
    RangeSize(|states|);
    SubsetSize(Slots(states, OCCUPIED), Range(|states|));
  }

  // ---- When a probe ends ------------------------------------------------------------------

  /** The slot a probe looks at after n steps. */
  function Visit(home: nat, n: nat, cap: nat): (s: nat)
    requires home < cap
    ensures s < cap
  {
    if n == 0 then home else After(Visit(home, n - 1, cap), cap)
  }

  ghost predicate StopsAt<K>(states: seq<int>, keys: seq<K>, key: K, s: int) {
    0 <= s < |states| == |keys| && (states[s] == EMPTY || (states[s] == OCCUPIED && keys[s] == key))
  }

  lemma {:induction false} VisitReaches(home: nat, d: nat, s: nat, cap: nat)
    requires home < cap && s < cap && IsPow2(cap) && d == Dist(home, s, cap)
    ensures Visit(home, d, cap) == s
    decreases d
  {
    if d > 0 {
      var p := if s > 0 then s - 1 else cap - 1;
      VisitReaches(home, d - 1, p, cap);
      AfterAdvances(home, p, cap);
      DistInjective(home, After(p, cap), s, cap);
    }
  }

  /** The unbounded probe loop ends if and only if some slot is EMPTY or holds the key. */
  lemma {:induction false} ProbeEndsIff<K>(states: seq<int>, keys: seq<K>, key: K, home: nat)
    requires home < |states| == |keys| && IsPow2(|states|)
    ensures (exists n: nat :: StopsAt(states, keys, key, Visit(home, n, |states|))) <==> (exists s :: StopsAt(states, keys, key, s))
  {
    if s :| StopsAt(states, keys, key, s) {
      VisitReaches(home, Dist(home, s, |states|), s, |states|);
      assert StopsAt(states, keys, key, Visit(home, Dist(home, s, |states|), |states|));
    }
  }
}

/** The map: slot arrays updated in place and replaced on growth, proved to be a mathematical map. */
module HashMap {
  import opened Bits
  import opened Probing
  import opened Sequences
  import opened MapTable

  const LOAD_PERCENT: nat := 75
  const GROWTH_FACTOR: nat := 2

  class Map<K(==, 0), V(0)> {
    const hash: K -> nat
    var keys: array<K>
    var vals: array<V>
    var states: array<int>
    var capacity: nat
    var count: nat
    var deleted: nat
    ghost var contents: map<K, V>
    ghost var where: map<K, int>

    ghost predicate Shape()
      reads this
    {
      && capacity == states.Length == keys.Length == vals.Length && IsPow2(capacity)
      && (keys as object) != vals && (keys as object) != states && (vals as object) != states
    }

    ghost predicate Valid()
      reads this, keys, vals, states
    {
      && Shape()
      && MapOk(states[..], keys[..], vals[..], contents, where, hash)
      && count == |contents| == |Slots(states[..], OCCUPIED)|
      && deleted == |Slots(states[..], DELETED)|
      && 4 * (count + deleted) <= 3 * capacity + 4
    }

    /** Load before an insertion demands a rehash: used * 100 > capacity * 75. */
    predicate Overloaded()
      reads this
    {
      (count + deleted) * 100 > capacity * 75
    }

    constructor (requested: nat, hash: K -> nat)
      requires 1 <= requested <= Pow2(SIZE_BITS - 1)
      ensures Valid() && contents == map[] && deleted == 0 && this.hash == hash
      ensures requested <= capacity < 2 * requested
      ensures fresh(keys) && fresh(vals) && fresh(states)
    {
      var cap := TableSize(requested);
      this.hash := hash;
      keys, vals, states := new K[cap], new V[cap], new int[cap];
      new;
      Restart(cap);
    }

    /**
      * Walk from the key's home slot to the key, or to the first EMPTY slot; an absent key gets the
      * first tombstone passed on the way, else that EMPTY slot.
      */
    method ProbeSlot(key: K) returns (state: int, index: nat)
      requires Valid() && (key in contents || count + deleted < capacity)
      ensures index < capacity && state == states[index]
      ensures state == OCCUPIED <==> key in contents
      ensures key in contents ==> index == where[key]
      ensures key !in contents ==> forall x :: 0 <= x < capacity ==> NoGap(states[..], hash, key, index, x)
    {
      var cap := capacity;
      var home := Home(hash, key, cap);
      index := home;
      var firstDeleted: nat := cap;
      var foundDeleted := false;
      ghost var st, ks, d := states[..], keys[..], 0;
      ghost var stop: nat := StoppingSlot(key);
      while true
        invariant index < cap && d == Dist(home, index, cap) <= Dist(home, stop, cap)
        invariant Passed(st, ks, key, home, d)
        invariant foundDeleted ==> firstDeleted < cap && states[firstDeleted] == DELETED && Dist(home, firstDeleted, cap) < d
        decreases Dist(home, stop, cap) - d
      {
        state := states[index];
        if state == EMPTY {
          AbsentAtEmpty(st, ks, vals[..], contents, where, hash, key, index);
          if foundDeleted { return DELETED, firstDeleted; }
          return EMPTY, index;
        }
        if state == DELETED {
          if !foundDeleted { firstDeleted, foundDeleted := index, true; }
        } else if keys[index] == key {
          return OCCUPIED, index;
        }
        DistInjective(home, index, stop, cap);
        AfterAdvances(home, index, cap);
        PassOne(st, ks, key, home, index);
        index := After(index, cap);
        d := d + 1;
      }
    }

    /** A slot that ends the probe for `key`. */
    lemma StoppingSlot(key: K) returns (s: nat)
      requires Valid() && (key in contents || count + deleted < capacity)
      ensures s < capacity && StopsAt(states[..], keys[..], key, s)
    {
      if key in contents {
        s := where[key];
      } else {
        StatesPartition(states[..]);
        s := AnyOf(Slots(states[..], EMPTY));
      }
    }

    /** Write an absent key into a slot that is not OCCUPIED. */
    method Fill(index: nat, key: K, value: V)
      requires Shape() && MapOk(states[..], keys[..], vals[..], contents, where, hash)
      requires count == |contents| == |Slots(states[..], OCCUPIED)|
      requires key !in contents && index < capacity && states[index] != OCCUPIED
      requires forall x :: 0 <= x < capacity ==> NoGap(states[..], hash, key, index, x)
      modifies this`count, this`contents, this`where, keys, vals, states
      ensures MapOk(states[..], keys[..], vals[..], contents, where, hash)
      ensures contents == old(contents)[key := value]
      ensures count == old(count) + 1 == |contents| == |Slots(states[..], OCCUPIED)|
      ensures states[..] == old(states[..])[index := OCCUPIED]
    {
      ghost var st, ks, vs := states[..], keys[..], vals[..];
      Stored(st, ks, vs, contents, where, hash, key, value, index);
      StateCounts(st, index, OCCUPIED, OCCUPIED);
      keys[index] := key;
      vals[index] := value;
      states[index] := OCCUPIED;
      count := count + 1;
      contents, where := contents[key := value], where[key := index];
      assert states[..] == st[index := OCCUPIED] && keys[..] == ks[index := key] && vals[..] == vs[index := value];
    }

    /** Linear probe of rehash: past OCCUPIED slots only, the new table having no tombstones. */
    method FirstUnoccupied(key: K) returns (index: nat)
      requires Valid() && deleted == 0 && key !in contents && count < capacity
      ensures index < capacity && states[index] == EMPTY
      ensures forall x :: 0 <= x < capacity ==> NoGap(states[..], hash, key, index, x)
    {
      var cap := capacity;
      var home := Home(hash, key, cap);
      index := home;
      ghost var st, ks, d := states[..], keys[..], 0;
      ghost var stop := StoppingSlot(key);
      while states[index] == OCCUPIED
        invariant index < cap && d == Dist(home, index, cap) <= Dist(home, stop, cap)
        invariant Passed(st, ks, key, home, d)
        decreases Dist(home, stop, cap) - d
      {
        DistInjective(home, index, stop, cap);
        AfterAdvances(home, index, cap);
        PassOne(st, ks, key, home, index);
        index := After(index, cap);
        d := d + 1;
      }
      assert index !in Slots(st, DELETED) by { assert Slots(st, DELETED) == {}; }
    }

    method Place(key: K, value: V)
      requires Valid() && deleted == 0 && key !in contents && count < capacity
      requires 4 * (count + 1) <= 3 * capacity + 4
      modifies this`count, this`contents, this`where, keys, vals, states
      ensures Valid() && contents == old(contents)[key := value] && count == old(count) + 1
    {
      var index := FirstUnoccupied(key);
      StateCounts(states[..], index, OCCUPIED, DELETED);
      Fill(index, key, value);
    }

    /** Swap in fresh, all-EMPTY arrays. */
    method Restart(newCapacity: nat)
      requires IsPow2(newCapacity) && newCapacity >= 1
      modifies this
      ensures Valid() && contents == map[] && deleted == 0 && capacity == newCapacity
      ensures fresh(keys) && fresh(vals) && fresh(states)
    {
      keys, vals, states := new K[newCapacity], new V[newCapacity], new int[newCapacity](_ => EMPTY);
      capacity, count, deleted := newCapacity, 0, 0;
      contents, where := map[], map[];
      AllEmpty(states[..], keys[..], vals[..], hash);
    }

    /** Re-insert every live entry of an old table whose arrays are not the current ones. */
    method Reinsert(oldKeys: array<K>, oldVals: array<V>, oldStates: array<int>, ghost m: map<K, V>, ghost w: map<K, int>)
      requires Valid() && contents == map[] && deleted == 0 && capacity == 2 * oldStates.Length
      requires Enumerates(oldStates[..], oldKeys[..], oldVals[..], m, w) && |m| <= oldStates.Length
      requires {keys as object, vals, states} !! {oldKeys as object, oldVals, oldStates}
      modifies this`count, this`contents, this`where, keys, vals, states
      ensures Valid() && contents == m
    {
      ghost var st, ks, vs := oldStates[..], oldKeys[..], oldVals[..];
      for i := 0 to oldStates.Length
        invariant Valid() && contents == Below(m, w, i)
        invariant oldStates[..] == st && oldKeys[..] == ks && oldVals[..] == vs
      {
        assert EnumeratesAt(st, ks, vs, m, w, i);
        if oldStates[i] == OCCUPIED {
          SubsetSize(contents.Keys, m.Keys);
          Place(oldKeys[i], oldVals[i]);
        }
      }
    }

    /** Grow into fresh arrays and re-insert every live entry; on allocation failure nothing changes. */
    method Rehash(newCapacity: nat, allocates: bool) returns (ok: bool)
      requires Valid() && IsPow2(newCapacity) && newCapacity == 2 * capacity
      modifies this
      ensures ok == allocates
      ensures !ok ==> unchanged(this)
      ensures ok ==> Valid() && contents == old(contents) && deleted == 0 && capacity == newCapacity
      ensures ok ==> fresh(keys) && fresh(vals) && fresh(states)
    {
      if !allocates { return false; }
      var oldKeys, oldVals, oldStates := keys, vals, states;
      LiveBound(states[..], contents);
      TableEnumerates(states[..], keys[..], vals[..], contents, where, hash);
      Restart(newCapacity);
      Reinsert(oldKeys, oldVals, oldStates, old(contents), old(where));
      return true;
    }

    /** Double the table when the load check fires; this is what lets the following probe end. */
    method EnsureLoad(allocates: bool) returns (ok: bool)
      requires Valid()
      modifies this
      ensures ok == (allocates || !old(Overloaded()))
      ensures !ok || !old(Overloaded()) ==> unchanged(this)
      ensures Valid() && contents == old(contents)
      ensures ok ==> count + deleted < capacity && 4 * (count + deleted) <= 3 * capacity
      ensures ok && old(Overloaded()) ==> capacity == 2 * old(capacity) && deleted == 0
      ensures (keys == old(keys) || fresh(keys)) && (vals == old(vals) || fresh(vals)) && (states == old(states) || fresh(states))
    {
      var used := count + deleted;
      if used * 100 > capacity * LOAD_PERCENT {
        LiveBound(states[..], contents);
        DoublePow2(capacity);
        ok := Rehash(capacity * GROWTH_FACTOR, allocates);
      } else {
        ok := true;
      }
    }

    method Overwrite(index: nat, key: K, value: V)
      requires Valid() && key in contents && index == where[key]
      modifies this`contents, vals
      ensures Valid() && contents == old(contents)[key := value]
    {
      Overwritten(states[..], keys[..], vals[..], contents, where, hash, key, value);
      ghost var vs := vals[..];
      vals[index] := value;
      contents := contents[key := value];
      assert vals[..] == vs[index := value];
    }

    /** Fill the slot the probe chose and settle the tombstone counter. */
    method StoreNew(state: int, index: nat, key: K, value: V)
      requires Valid() && key !in contents && index < capacity && state == states[index] != OCCUPIED
      requires 4 * (count + deleted) <= 3 * capacity
      requires forall x :: 0 <= x < capacity ==> NoGap(states[..], hash, key, index, x)
      modifies this`count, this`deleted, this`contents, this`where, keys, vals, states
      ensures Valid() && contents == old(contents)[key := value] && deleted <= old(deleted)
    {
      StateCounts(states[..], index, OCCUPIED, DELETED);
      Fill(index, key, value);
      if state == DELETED { deleted := deleted - 1; }
    }

    /** Insert once the load check has left room. */
    method InsertRoomy(key: K, value: V)
      requires Valid() && 4 * (count + deleted) <= 3 * capacity
      modifies this`count, this`deleted, this`contents, this`where, keys, vals, states
      ensures Valid() && contents == old(contents)[key := value] && deleted <= old(deleted)
    {
      var state, index := ProbeSlot(key);
      if state == OCCUPIED {
        Overwrite(index, key, value);
      } else {
        StoreNew(state, index, key, value);
      }
    }

    method Insert(key: K, value: V, allocates: bool) returns (ok: bool)
      requires Valid()
      modifies this, keys, vals, states
      ensures ok == (allocates || !old(Overloaded()))
      ensures Valid() && contents == if ok then old(contents)[key := value] else old(contents)
      ensures capacity == if ok && old(Overloaded()) then 2 * old(capacity) else old(capacity)
      ensures deleted <= old(deleted)
      ensures (keys == old(keys) || fresh(keys)) && (vals == old(vals) || fresh(vals)) && (states == old(states) || fresh(states))
    {
      ok := EnsureLoad(allocates);
      if ok { InsertRoomy(key, value); }
    }

    method Get(key: K) returns (found: bool, value: V)
      requires Valid() && (key in contents || count + deleted < capacity)
      ensures found == (key in contents)
      ensures found ==> value == contents[key]
    {
      var state, index := ProbeSlot(key);
      if state != OCCUPIED { return false, *; }
      return true, vals[index];
    }

    method Contains(key: K) returns (found: bool)
      requires Valid() && (key in contents || count + deleted < capacity)
      ensures found == (key in contents)
    {
      var state, index := ProbeSlot(key);
      found := state == OCCUPIED;
    }

    /** Leave a tombstone. */
    method Bury(index: nat, key: K)
      requires Valid() && key in contents && index == where[key]
      modifies this`count, this`deleted, this`contents, this`where, states
      ensures Valid() && contents == old(contents) - {key}
      ensures count + deleted == old(count + deleted)
    {
      ghost var st := states[..];
      Buried(st, keys[..], vals[..], contents, where, hash, key);
      StateCounts(st, index, DELETED, DELETED);
      StateCounts(st, index, DELETED, OCCUPIED);
      states[index] := DELETED;
      assert states[..] == st[index := DELETED];
      count := count - 1;
      deleted := deleted + 1;
      contents, where := contents - {key}, where - {key};
    }

    method Remove(key: K) returns (found: bool)
      requires Valid() && (key in contents || count + deleted < capacity)
      modifies this`count, this`deleted, this`contents, this`where, states
      ensures Valid() && found == (key in old(contents))
      ensures contents == old(contents) - {key}
      ensures count + deleted == old(count + deleted)
    {
      var state, index := ProbeSlot(key);
      if state != OCCUPIED {
        assert contents == contents - {key};
        return false;
      }
      Bury(index, key);
      return true;
    }

    method Clear()
      requires Valid()
      modifies this`count, this`deleted, this`contents, this`where, states
      ensures Valid() && contents == map[] && deleted == 0
    {
      for i := 0 to capacity
        invariant forall s :: 0 <= s < i ==> states[s] == EMPTY
        modifies states
      {
        states[i] := EMPTY;
      }
      count, deleted := 0, 0;
      contents, where := map[], map[];
      AllEmpty(states[..], keys[..], vals[..], hash);
    }

    /** The operation looks up a key that is not there, in a table without an unused slot. */
    ghost predicate Endless(op: Op<K, V>)
      reads this
    {
      (op.OpGet? || op.OpRemove?) && op.key !in contents && count + deleted == capacity
    }

    /** Decides that by looking into every slot. */
    method WouldNotEnd(op: Op<K, V>) returns (endless: bool)
      requires Valid()
      ensures endless <==> Endless(op)
    {
      assert count + deleted <= capacity by { StatesPartition(states[..]); }
      if op.OpInsert? || op.OpClear? || count + deleted < capacity { return false; }
      assert forall k :: k in contents ==> states[..][where[k]] == OCCUPIED && keys[..][where[k]] == k;
      var i := 0;
      while i < capacity
        invariant 0 <= i <= capacity
        invariant forall s :: 0 <= s < i ==> states[s] != OCCUPIED || keys[s] != op.key
      {
        if states[i] == OCCUPIED && keys[i] == op.key {
          assert states[..][i] == OCCUPIED && keys[..][i] in contents;
          return false;
        }
        i := i + 1;
      }
      return true;
    }

    method Perform(op: Op<K, V>) returns (answer: Answer<V>)
      requires Valid() && !Endless(op)
      modifies this, keys, vals, states
      ensures Valid() && capacity >= old(capacity) && Matches(old(contents), op, contents, answer)
      ensures (keys == old(keys) || fresh(keys)) && (vals == old(vals) || fresh(vals)) && (states == old(states) || fresh(states))
    {
      assert count + deleted <= capacity by { StatesPartition(states[..]); }
      match op {
        case OpInsert(k, v, allocates) =>
          var ok := Insert(k, v, allocates);
          answer := if ok then Done else AllocFailed;
        case OpGet(k) =>
          var found, v := Get(k);
          answer := if found then Hit(v) else Miss;
        case OpRemove(k) =>
          var found := Remove(k);
          answer := if found then Done else Miss;
        case OpClear =>
          Clear();
          answer := Done;
      }
    }

    /** One more operation of a run, unless it would not end. */
    method TryNext(ops: seq<Op<K, V>>, answers: seq<Answer<V>>, ghost trace: seq<map<K, V>>)
        returns (endless: bool, answers': seq<Answer<V>>, ghost trace': seq<map<K, V>>)
      requires Valid() && |answers| < |ops| && IsRun(trace, ops[..|answers|], answers) && contents == trace[|answers|]
      modifies this, keys, vals, states
      ensures Valid() && capacity >= old(capacity) && (capacity >= 8 ==> !endless)
      ensures endless ==> answers' == answers && trace' == trace && contents == old(contents) && Endless(ops[|answers|])
      ensures !endless ==> |answers'| == |answers| + 1
      ensures IsRun(trace', ops[..|answers'|], answers') && contents == trace'[|answers'|]
      ensures (keys == old(keys) || fresh(keys)) && (vals == old(vals) || fresh(vals)) && (states == old(states) || fresh(states))
    {
      if capacity >= 8 { EightSlotsSuffice(this); }
      endless := WouldNotEnd(ops[|answers|]);
      answers', trace' := answers, trace;
      if !endless { answers', trace' := PerformNext(ops, |answers|, answers, trace); }
    }

    /** One more operation of a run. */
    method PerformNext(ops: seq<Op<K, V>>, i: nat, answers: seq<Answer<V>>, ghost trace: seq<map<K, V>>)
        returns (answers': seq<Answer<V>>, ghost trace': seq<map<K, V>>)
      requires Valid() && i < |ops| && !Endless(ops[i])
      requires IsRun(trace, ops[..i], answers) && contents == trace[i]
      modifies this, keys, vals, states
      ensures Valid() && capacity >= old(capacity)
      ensures IsRun(trace', ops[..i + 1], answers') && contents == trace'[i + 1]
      ensures (keys == old(keys) || fresh(keys)) && (vals == old(vals) || fresh(vals)) && (states == old(states) || fresh(states))
    {
      var answer := Perform(ops[i]);
      RunExtends(trace, ops[..i], answers, ops[i], contents, answer);
      assert ops[..i] + [ops[i]] == ops[..i + 1];
      answers', trace' := answers + [answer], trace + [contents];
    }
  }

  /** For every state and every key: the unbounded probe loop ends if and only if the key is present or some slot is unused. */
  lemma {:induction false} LookupEndsIff<K(0), V(0)>(c: Map<K, V>, key: K)
    requires c.Valid()
    ensures (exists n: nat :: StopsAt(c.states[..], c.keys[..], key, Visit(Home(c.hash, key, c.capacity), n, c.capacity)))
            <==> key in c.contents || c.count + c.deleted < c.capacity
  {
    ProbeEndsIff(c.states[..], c.keys[..], key, Home(c.hash, key, c.capacity));
    StatesPartition(c.states[..]);
    assert forall s :: StopsAt(c.states[..], c.keys[..], key, s) ==> key in c.contents || s in Slots(c.states[..], EMPTY);
    if key in c.contents || c.count + c.deleted < c.capacity {
      var s := c.StoppingSlot(key);
    }
  }

  /** From eight slots up an EMPTY slot always remains, so every lookup ends. */
  lemma {:induction false} EightSlotsSuffice<K(0), V(0)>(c: Map<K, V>)
    requires c.Valid() && c.capacity >= 8
    ensures c.count + c.deleted < c.capacity
    ensures 0 < |Slots(c.states[..], EMPTY)|
  {
    StatesPartition(c.states[..]);
  }

  predicate Tiny(cap: nat) { cap == 1 || cap == 2 || cap == 4 }

  /** In a tiny table without tombstones an insertion never triggers growth. */
  method TinyInsert(c: Map<int, int>, i: nat)
    requires c.Valid() && Tiny(c.capacity) && i < c.capacity && c.deleted == 0 && c.contents.Keys == Range(i)
    modifies c, c.keys, c.vals, c.states
    ensures c.Valid() && c.capacity == old(c.capacity) && c.deleted == 0 && c.contents.Keys == Range(i + 1)
    ensures c.keys == old(c.keys) || fresh(c.keys)
    ensures c.vals == old(c.vals) || fresh(c.vals)
    ensures c.states == old(c.states) || fresh(c.states)
  {
    assert c.count == i by { RangeSize(i); }
    assert !c.Overloaded();
    ghost var m := c.contents;
    var ok := c.Insert(i, 0, true);
    KeysGrow(m, i);
  }

  lemma KeysGrow(m: map<int, int>, i: nat)
    requires m.Keys == Range(i)
    ensures m[i := 0].Keys == Range(i + 1)
  {
  }

  /** Insert the keys 0 .. cap - 1. */
  method TinyFill(c: Map<int, int>, cap: nat)
    requires c.Valid() && Tiny(cap) && c.capacity == cap && c.deleted == 0 && c.contents == map[]
    modifies c, c.keys, c.vals, c.states
    ensures c.Valid() && c.capacity == cap && c.deleted == 0 && c.contents.Keys == Range(cap)
  {
    var i := 0;
    while i < cap
      invariant 0 <= i <= cap
      invariant c.Valid() && c.capacity == cap && c.deleted == 0 && c.contents.Keys == Range(i)
      invariant c.keys == old(c.keys) || fresh(c.keys)
      invariant c.vals == old(c.vals) || fresh(c.vals)
      invariant c.states == old(c.states) || fresh(c.states)
    {
      TinyInsert(c, i);
      i := i + 1;
    }
  }

  /** Tables of 1, 2 or 4 slots can fill up completely: the load check runs before the insertion. */
  method TinyTableFills(cap: nat, hash: int -> nat) returns (c: Map<int, int>)
    requires Tiny(cap)
    ensures fresh(c) && c.Valid() && c.capacity == cap == c.count + c.deleted
    ensures c.contents.Keys == Range(cap)
  {
    TinySizes();
    c := new Map(cap, hash);
    TinySize(cap, c.capacity);
    TinyFill(c, cap);
    RangeSize(cap);
    assert |c.contents| == |c.contents.Keys|;
  }

  /**
    * NULL for capacity 0 or a failed allocation. A request above half the word range is rounded to 0 slots; of such
    * a hollow map nothing is promised.
    */
  method Create<K(==, 0), V(0)>(requested: nat, hash: K -> nat, allocates: bool) returns (c: Map?<K, V>, hollow: bool)
    requires requested < Pow2(SIZE_BITS)
    ensures hollow <==> requested > Pow2(SIZE_BITS - 1) && allocates
    ensures !hollow ==> (c == null <==> requested == 0 || !allocates)
    ensures !hollow && c != null ==>
              fresh(c) && c.Valid() && c.contents == map[] && c.deleted == 0 && requested <= c.capacity < 2 * requested
  {
    c, hollow := null, false;
    if requested == 0 || !allocates { return; }
    HollowIff(requested);
    if RoundPow2(requested, SIZE_BITS) == 0 {
      hollow := true;
    } else {
      c := new Map(requested, hash);
    }
  }

  /** The rounded capacity is 0 if and only if the request exceeds half the word range. */
  lemma {:induction false} HollowIff(requested: nat)
    requires 1 <= requested < Pow2(SIZE_BITS)
    ensures RoundPow2(requested, SIZE_BITS) == 0 <==> requested > Pow2(SIZE_BITS - 1)
  {
    if requested <= Pow2(SIZE_BITS - 1) {
      RoundPow2IsPow2(requested, SIZE_BITS);
    } else {
      RoundPow2Wraps(requested, SIZE_BITS);
    }
  }

  lemma TinySizes()
    ensures 4 <= Pow2(SIZE_BITS - 1)
  {
    Pow2Mono(2, SIZE_BITS - 1);
  }

  lemma {:induction false} TinySize(n: nat, r: nat)
    requires IsPow2(r) && n <= r < 2 * n
    ensures Tiny(n) ==> r == n
    ensures n >= 5 ==> r >= 8
  {
    var k: nat :| k <= r && r == Pow2(k);
    if k >= 3 { Pow2Mono(3, k); }
    assert k == 0 || k == 1 || k == 2 || k >= 3;
  }

  datatype Op<K, V> = OpInsert(key: K, value: V, allocates: bool) | OpGet(key: K) | OpRemove(key: K) | OpClear
  datatype Answer<V> = Done | Hit(value: V) | Miss | AllocFailed

  /** A run matches a mathematical map `m`: state after each operation and the answer it returned. */
  ghost predicate Matches<K, V>(m: map<K, V>, op: Op<K, V>, m': map<K, V>, answer: Answer<V>) {
    match op
    case OpInsert(k, v, allocates) =>
      (m' == m[k := v] && answer == Done) || (m' == m && answer == AllocFailed && !allocates)
    case OpGet(k) => m' == m && answer == (if k in m then Hit(m[k]) else Miss)
    case OpRemove(k) => m' == m - {k} && answer == (if k in m then Done else Miss)
    case OpClear => m' == map[] && answer == Done
  }

  ghost predicate IsRun<K, V>(trace: seq<map<K, V>>, ops: seq<Op<K, V>>, answers: seq<Answer<V>>) {
    && |trace| == |ops| + 1 && |answers| == |ops| && trace[0] == map[]
    && forall i {:trigger ops[i]} :: 0 <= i < |ops| ==> Matches(trace[i], ops[i], trace[i + 1], answers[i])
  }

  lemma {:induction false} RunExtends<K, V>(trace: seq<map<K, V>>, ops: seq<Op<K, V>>, answers: seq<Answer<V>>,
                                            op: Op<K, V>, m: map<K, V>, answer: Answer<V>)
    requires IsRun(trace, ops, answers) && Matches(trace[|ops|], op, m, answer)
    ensures IsRun(trace + [m], ops + [op], answers + [answer])
  {
    forall i | 0 <= i < |ops| + 1
      ensures Matches((trace + [m])[i], (ops + [op])[i], (trace + [m])[i + 1], (answers + [answer])[i])
    {
      if i < |ops| { assert Matches(trace[i], ops[i], trace[i + 1], answers[i]); }
    }
  }

  /**
    * Every run on a table of any capacity answers as a mathematical map does, to its end or up to the first lookup
    * that never ends. With at least 5 slots requested there is no such lookup.
    */
  method Execute<K(==, 0), V(0)>(requested: nat, hash: K -> nat, ops: seq<Op<K, V>>)
      returns (c: Map<K, V>, answers: seq<Answer<V>>, ghost trace: seq<map<K, V>>)
    requires 1 <= requested <= Pow2(SIZE_BITS - 1)
    ensures |answers| <= |ops| && IsRun(trace, ops[..|answers|], answers)
    ensures fresh(c) && c.Valid() && c.contents == trace[|answers|]
    ensures |answers| < |ops| ==> c.Endless(ops[|answers|])
    ensures requested >= 5 ==> |answers| == |ops|
  {
    c := new Map(requested, hash);
    TinySize(requested, c.capacity);
    answers, trace := [], [c.contents];
    while |answers| < |ops|
      invariant |answers| <= |ops| && fresh(c) && fresh(c.keys) && fresh(c.vals) && fresh(c.states)
      invariant c.Valid() && (requested >= 5 ==> c.capacity >= 8)
      invariant IsRun(trace, ops[..|answers|], answers) && c.contents == trace[|answers|]
      decreases |ops| - |answers|
    {
      var endless;
      endless, answers, trace := c.TryNext(ops, answers, trace);
      if endless { return; }
    }
  }
}
