/** What a cache promises: a bounded list of (key, value) pairs, most recent first. */
module LruSpec {
  import opened Sequences

  type Entries<K, V> = seq<(K, V)>

  /** Position of `k` in a linear scan, or |e| when no entry has it. */
  function IndexOf<K(==), V>(e: Entries<K, V>, k: K): (i: nat)
    ensures i <= |e|
    ensures i < |e| ==> e[i].0 == k
    ensures forall j :: 0 <= j < i ==> e[j].0 != k
  {
    if e == [] then 0 else if e[0].0 == k then 0 else 1 + IndexOf(e[1..], k)
  }

  predicate Has<K(==), V>(e: Entries<K, V>, k: K) { IndexOf(e, k) < |e| }

  function Put<K(==), V>(e: Entries<K, V>, cap: nat, k: K, v: V): Entries<K, V>
    requires cap >= 1
  {
    var i := IndexOf(e, k);
    [(k, v)] + (if i < |e| then Drop(e, i) else if |e| == cap then e[..cap - 1] else e)
  }

  /** The entries handed to the eviction callback by that put. */
  function Evicted<K(==), V>(e: Entries<K, V>, cap: nat, k: K): Entries<K, V>
    requires cap >= 1
  {
    if !Has(e, k) && |e| == cap then [e[cap - 1]] else []
  }

  function Get<K(==), V>(e: Entries<K, V>, k: K): Entries<K, V> {
    var i := IndexOf(e, k);
    if i < |e| then [e[i]] + Drop(e, i) else e
  }

  function Remove<K(==), V>(e: Entries<K, V>, k: K): Entries<K, V> {
    var i := IndexOf(e, k);
    if i < |e| then Drop(e, i) else e
  }

  ghost predicate DistinctKeys<K, V>(e: Entries<K, V>) {
    forall i, j :: 0 <= i < j < |e| ==> e[i].0 != e[j].0
  }

  datatype Op<K, V> = OpPut(key: K, value: V) | OpGet(key: K) | OpPeek(key: K) | OpRemove(key: K) | OpClear

  function Apply<K(==), V>(e: Entries<K, V>, cap: nat, op: Op<K, V>): Entries<K, V>
    requires cap >= 1
  {
    match op
    case OpPut(k, v) => Put(e, cap, k, v)
    case OpGet(k) => Get(e, k)
    case OpPeek(_) => e
    case OpRemove(k) => Remove(e, k)
    case OpClear => []
  }

  /** The list after a whole run of operations on an empty cache. */
  function Run<K(==), V>(cap: nat, ops: seq<Op<K, V>>): Entries<K, V>
    requires cap >= 1
  {
    if ops == [] then [] else Apply(Run(cap, ops[..|ops| - 1]), cap, ops[|ops| - 1])
  }

  datatype Answer<V> = Done | Hit(value: V) | Miss

  /** What an operation answers, and the entries it hands to the callback. */
  datatype Reply<K, V> = Reply(answer: Answer<V>, evicted: Entries<K, V>)

  function Found<K(==), V>(e: Entries<K, V>, k: K): Answer<V> { if Has(e, k) then Hit(e[IndexOf(e, k)].1) else Miss }

  function ReplyTo<K(==), V>(e: Entries<K, V>, cap: nat, notifies: bool, op: Op<K, V>): Reply<K, V>
    requires cap >= 1
  {
    match op
    case OpPut(k, v) => Reply(Done, if notifies then Evicted(e, cap, k) else [])
    case OpGet(k) => Reply(Found(e, k), [])
    case OpPeek(k) => Reply(Found(e, k), [])
    case OpRemove(k) => Reply(if Has(e, k) then Done else Miss, [])
    case OpClear => Reply(Done, if notifies then e else [])
  }

  lemma {:induction false} PutKeeps<K, V>(e: Entries<K, V>, cap: nat, k: K, v: V)
    requires cap >= 1 && |e| <= cap && DistinctKeys(e)
    ensures |Put(e, cap, k, v)| <= cap && DistinctKeys(Put(e, cap, k, v))
  {
    RemoveDistinct(e, k);
  }

  lemma {:induction false} GetKeeps<K, V>(e: Entries<K, V>, k: K)
    requires DistinctKeys(e)
    ensures |Get(e, k)| == |e| && DistinctKeys(Get(e, k))
  {
    RemoveDistinct(e, k);
  }

  lemma {:induction false} RunKeepsInvariant<K, V>(cap: nat, ops: seq<Op<K, V>>)
    requires cap >= 1
    ensures |Run(cap, ops)| <= cap && DistinctKeys(Run(cap, ops))
  {
    if ops != [] {
      var rest := ops[..|ops| - 1];
      RunKeepsInvariant(cap, rest);
      match ops[|ops| - 1]
      case OpPut(k, v) => PutKeeps(Run(cap, rest), cap, k, v);
      case OpGet(k) => GetKeeps(Run(cap, rest), k);
      case OpRemove(k) => RemoveDistinct(Run(cap, rest), k);
      case _ =>
    }
  }

  /** The replies to the first n operations of a run. */
  ghost predicate RepliesTo<K, V>(cap: nat, notifies: bool, ops: seq<Op<K, V>>, n: nat, replies: seq<Reply<K, V>>)
    requires cap >= 1 && n <= |ops|
  {
    |replies| == n && forall i :: 0 <= i < n ==> replies[i] == ReplyTo(Run(cap, ops[..i]), cap, notifies, ops[i])
  }

  lemma {:induction false} RunNext<K, V>(cap: nat, ops: seq<Op<K, V>>, i: nat)
    requires cap >= 1 && i < |ops|
    ensures Run(cap, ops[..i + 1]) == Apply(Run(cap, ops[..i]), cap, ops[i])
  {
    var upTo := ops[..i + 1];
    assert upTo[..i] == ops[..i] && upTo[i] == ops[i] && |upTo| == i + 1;
  }

  lemma {:induction false} RepliesNext<K, V>(cap: nat, notifies: bool, ops: seq<Op<K, V>>, i: nat, replies: seq<Reply<K, V>>,
                                             reply: Reply<K, V>)
    requires cap >= 1 && i < |ops| && RepliesTo(cap, notifies, ops, i, replies)
    requires reply == ReplyTo(Run(cap, ops[..i]), cap, notifies, ops[i])
    ensures RepliesTo(cap, notifies, ops, i + 1, replies + [reply])
  {
    forall j | 0 <= j < i + 1 ensures (replies + [reply])[j] == ReplyTo(Run(cap, ops[..j]), cap, notifies, ops[j]) {
      if j < i { assert (replies + [reply])[j] == replies[j]; }
    }
  }

  // ---- LRU order: the cache is the `cap` most recently used distinct keys --------------------

  /** What an operation uses: the entry a put writes or a successful get reads. */
  function Touched<K(==), V>(e: Entries<K, V>, op: Op<K, V>): Entries<K, V> {
    match op
    case OpPut(k, v) => [(k, v)]
    case OpGet(k) => if Has(e, k) then [e[IndexOf(e, k)]] else []
    case _ => []
  }

  /** All uses since the last clear, oldest first, in a run that removes no key. */
  function Uses<K(==), V>(cap: nat, ops: seq<Op<K, V>>): Entries<K, V>
    requires cap >= 1
  {
    if ops == [] then []
    else
      var rest := ops[..|ops| - 1];
      var op := ops[|ops| - 1];
      if op.OpClear? then [] else Uses(cap, rest) + Touched(Run(cap, rest), op)
  }

  lemma {:induction false} RemoveDistinct<K, V>(e: Entries<K, V>, k: K)
    requires DistinctKeys(e)
    ensures DistinctKeys(Remove(e, k)) && forall i :: 0 <= i < |Remove(e, k)| ==> Remove(e, k)[i].0 != k
  {
    var j, r := IndexOf(e, k), Remove(e, k);
    forall i | 0 <= i < |r| ensures r[i].0 != k {
      assert r[i] == e[if i < j then i else i + 1];
    }
  }

  /** The last use of every key in `uses`, most recent first, with no bound on their number. */
  function LatestUses<K(==), V>(uses: Entries<K, V>): (r: Entries<K, V>)
    ensures DistinctKeys(r)
  {
    if uses == [] then []
    else
      var last := uses[|uses| - 1];
      var older := LatestUses(uses[..|uses| - 1]);
      RemoveDistinct(older, last.0);
      [last] + Remove(older, last.0)
  }

  function Take<T>(s: seq<T>, n: nat): (r: seq<T>)
    ensures |r| == if |s| <= n then |s| else n
    ensures r <= s
  {
    if |s| <= n then s else s[..n]
  }

  lemma {:induction false} IndexOfPrefix<K, V>(e: Entries<K, V>, n: nat, k: K)
    requires n <= |e|
    ensures IndexOf(e[..n], k) == if IndexOf(e, k) < n then IndexOf(e, k) else n
  {
    var i, j := IndexOf(e, k), IndexOf(e[..n], k);
    if j < n { assert e[..n][j].0 == k; }
    if i < n { assert e[..n][i].0 == k; }
  }

  /** The key is within the bound: it moves to the front and nothing is evicted. */
  lemma {:induction false} TouchWithin<K, V>(l: Entries<K, V>, cap: nat, i: nat, x: Entries<K, V>)
    requires i < |l| && i < cap && |x| == 1
    ensures x + Drop(Take(l, cap), i) == Take(x + Drop(l, i), cap)
  {
    if |l| > cap {
      var a, b := l[..i], l[i + 1..];
      PrefixOfParts(x, a, b, cap);
      assert b[..cap - 1 - i] == l[i + 1..cap];
      assert Drop(l[..cap], i) == a + l[i + 1..cap] by { assert l[..cap][..i] == a && l[..cap][i + 1..] == l[i + 1..cap]; }
    }
  }

  /** The key is beyond the bound or nowhere: the last entry of a full cache goes. */
  lemma {:induction false} TouchBeyond<K, V>(l: Entries<K, V>, cap: nat, i: nat, x: Entries<K, V>)
    requires 1 <= cap <= |l| && cap <= i <= |l| && |x| == 1
    ensures x + l[..cap][..cap - 1] == Take(x + (if i < |l| then Drop(l, i) else l), cap)
  {
    var r := if i < |l| then Drop(l, i) else l;
    assert |r| >= cap - 1 && r[..cap - 1] == l[..cap - 1];
    assert l[..cap][..cap - 1] == l[..cap - 1];
    PrefixOfParts(x, [], r, cap);
    assert x + ([] + r) == x + r && x + ([] + r[..cap - 1]) == x + r[..cap - 1];
  }

  /** Touching a key at the front of an unbounded list and truncating is what the bounded cache does. */
  lemma {:induction false} TouchTruncates<K, V>(l: Entries<K, V>, cap: nat, k: K, v: V)
    requires cap >= 1
    ensures Put(Take(l, cap), cap, k, v) == Take([(k, v)] + Remove(l, k), cap)
  {
    var e, i, x := Take(l, cap), IndexOf(l, k), [(k, v)];
    assert l[..|e|] == e;
    IndexOfPrefix(l, |e|, k);
    if i < |l| && i < cap {
      TouchWithin(l, cap, i, x);
    } else if |l| >= cap {
      TouchBeyond(l, cap, i, x);
    }
  }

  lemma PrefixOfParts<T>(x: seq<T>, a: seq<T>, b: seq<T>, n: nat)
    requires |x| + |a| <= n <= |x| + |a| + |b|
    ensures (x + (a + b))[..n] == x + (a + b[..n - |x| - |a|])
  {
  }

  /**
    * For every run of puts, gets, peeks and clears: the cache holds exactly the last uses of the
    * `cap` most recently used distinct keys, most recent first.
    */
  lemma {:induction false} HoldsMostRecentlyUsed<K, V>(cap: nat, ops: seq<Op<K, V>>)
    requires cap >= 1
    requires forall i :: 0 <= i < |ops| ==> !ops[i].OpRemove?
    ensures Run(cap, ops) == Take(LatestUses(Uses(cap, ops)), cap)
  {
    if ops != [] {
      var rest, op := ops[..|ops| - 1], ops[|ops| - 1];
      HoldsMostRecentlyUsed(cap, rest);
      var e, l := Run(cap, rest), LatestUses(Uses(cap, rest));
      var t := Touched(e, op);
      if op.OpClear? || t == [] {
        assert Uses(cap, rest) + [] == Uses(cap, rest);
      } else {
        assert (Uses(cap, rest) + t)[..|Uses(cap, rest)|] == Uses(cap, rest);
        TouchTruncates(l, cap, t[0].0, t[0].1);
      }
    }
  }

  // ---- Every run, removals included: what is found, what was evicted, and the order ----------

  /** The entries of a list with distinct keys are what a lookup finds. */
  lemma {:induction false} FoundIff<K, V>(e: Entries<K, V>, k: K, v: V)
    requires DistinctKeys(e)
    ensures Found(e, k) == Hit(v) <==> (k, v) in e
  {
    var i := IndexOf(e, k);
    if (k, v) in e {
      var j :| 0 <= j < |e| && e[j] == (k, v);
      assert i == j;
    }
  }

  lemma {:induction false} DropIn<T>(s: seq<T>, i: nat, x: T)
    requires i < |s| && forall j :: 0 <= j < |s| && s[j] == x ==> j != i
    ensures x in Drop(s, i) <==> x in s
  {
    var r := Drop(s, i);
    if x in s {
      var j :| 0 <= j < |s| && s[j] == x;
      assert r[if j < i then j else j - 1] == x;
    }
    if x in r {
      var j :| 0 <= j < |r| && r[j] == x;
      assert s[if j < i then j else j + 1] == x;
    }
  }

  /** Removing a key removes its entry and no other. */
  lemma {:induction false} RemoveEffect<K, V>(e: Entries<K, V>, k: K, x: (K, V))
    requires DistinctKeys(e)
    ensures x in Remove(e, k) <==> x in e && x.0 != k
  {
    RemoveDistinct(e, k);
    var i := IndexOf(e, k);
    if i < |e| && x.0 != k { DropIn(e, i, x); }
    if x in e && x.0 == k { assert i < |e|; }
  }

  /** A put stores its entry; every other entry stays, but for the one that is evicted. */
  lemma {:induction false} PutEffect<K, V>(e: Entries<K, V>, cap: nat, k: K, v: V, x: (K, V))
    requires cap >= 1 && DistinctKeys(e) && |e| <= cap
    ensures x in Put(e, cap, k, v) <==> x == (k, v) || (x.0 != k && x in e && x !in Evicted(e, cap, k))
    ensures Evicted(e, cap, k) != [] <==> |e| == cap && forall w :: (k, w) !in e
    ensures |Put(e, cap, k, v)| + |Evicted(e, cap, k)| == |e| + (if Has(e, k) then 0 else 1)
  {
    RemoveEffect(e, k, x);
    var i := IndexOf(e, k);
    if i < |e| {
      assert (k, e[i].1) in e;
    } else if |e| == cap {
      assert e == e[..cap - 1] + [e[cap - 1]];
      assert e[cap - 1] !in e[..cap - 1];
    }
  }

  /** A get changes the order only. */
  lemma {:induction false} GetEffect<K, V>(e: Entries<K, V>, k: K, x: (K, V))
    requires DistinctKeys(e)
    ensures x in Get(e, k) <==> x in e
    ensures Has(e, k) ==> Get(e, k)[0].0 == k
  {
    RemoveEffect(e, k, x);
    var i := IndexOf(e, k);
    if x in e && x.0 == k {
      assert i < |e|;
      FoundIff(e, k, x.1);
    }
  }

  /** The value of the last put of k since it was removed or everything was cleared. */
  function LastPut<K(==), V>(ops: seq<Op<K, V>>, k: K): Answer<V> {
    if ops == [] then Miss
    else
      match ops[|ops| - 1]
      case OpPut(k', v) => if k' == k then Hit(v) else LastPut(ops[..|ops| - 1], k)
      case OpRemove(k') => if k' == k then Miss else LastPut(ops[..|ops| - 1], k)
      case OpClear => Miss
      case _ => LastPut(ops[..|ops| - 1], k)
  }

  /** The put at position i of the run evicted the entry x. */
  ghost predicate EvictedAt<K, V>(cap: nat, ops: seq<Op<K, V>>, i: nat, x: (K, V))
    requires cap >= 1
  {
    i < |ops| && ops[i].OpPut? && x in Evicted(Run(cap, ops[..i]), cap, ops[i].key)
  }

  /** One operation, entry by entry: an entry of the history is kept, or handed out by this very put. */
  lemma {:induction false} ApplyEffect<K, V>(e: Entries<K, V>, cap: nat, op: Op<K, V>, x: (K, V))
    requires cap >= 1 && DistinctKeys(e) && |e| <= cap
    ensures x in Apply(e, cap, op) <==>
            match op
            case OpPut(k, v) => if k == x.0 then v == x.1 else x in e && x !in Evicted(e, cap, k)
            case OpRemove(k) => k != x.0 && x in e
            case OpClear => false
            case _ => x in e
  {
    match op
    case OpPut(k, v) => PutEffect(e, cap, k, v, x);
    case OpGet(k) => GetEffect(e, k, x);
    case OpRemove(k) => RemoveEffect(e, k, x);
    case _ =>
  }

  /**
    * After every run, removals included: what the cache holds is what was put last, and what was put last and is not held
    * was handed out by an eviction since.
    */
  lemma {:induction false} HoldsLastPut<K, V>(cap: nat, ops: seq<Op<K, V>>, x: (K, V))
    requires cap >= 1
    ensures x in Run(cap, ops) ==> LastPut(ops, x.0) == Hit(x.1)
    ensures LastPut(ops, x.0) == Hit(x.1) && x !in Run(cap, ops) ==> exists i: nat :: EvictedAt(cap, ops, i, x)
  {
    if ops != [] {
      var rest, op := ops[..|ops| - 1], ops[|ops| - 1];
      var e := Run(cap, rest);
      HoldsLastPut(cap, rest, x);
      RunKeepsInvariant(cap, rest);
      ApplyEffect(e, cap, op, x);
      if LastPut(ops, x.0) == Hit(x.1) && x !in Run(cap, ops) {
        if x in e {
          assert EvictedAt(cap, ops, |rest|, x);
        } else {
          var i: nat :| EvictedAt(cap, rest, i, x);
          assert ops[..i] == rest[..i];
          assert EvictedAt(cap, ops, i, x);
        }
      }
    }
  }

  /** Where the key was last put or asked for, or -1. */
  function LastUse<K(==), V>(ops: seq<Op<K, V>>, k: K): (i: int)
    ensures -1 <= i < |ops|
  {
    if ops == [] then -1
    else
      var op := ops[|ops| - 1];
      if (op.OpPut? || op.OpGet?) && op.key == k then |ops| - 1 else LastUse(ops[..|ops| - 1], k)
  }

  /** x stands before y. */
  ghost predicate Before<K, V>(e: Entries<K, V>, x: K, y: K) {
    exists i, j :: 0 <= i < j < |e| && e[i].0 == x && e[j].0 == y
  }

  lemma {:induction false} BeforeDrop<K, V>(e: Entries<K, V>, d: nat, x: K, y: K)
    requires d < |e| && Before(Drop(e, d), x, y)
    ensures Before(e, x, y)
  {
    var r := Drop(e, d);
    var i, j :| 0 <= i < j < |r| && r[i].0 == x && r[j].0 == y;
    var i', j' := if i < d then i else i + 1, if j < d then j else j + 1;
    assert e[i'].0 == x && e[j'].0 == y;
  }

  lemma {:induction false} BeforePrefix<K, V>(e: Entries<K, V>, n: nat, x: K, y: K)
    requires n <= |e| && Before(e[..n], x, y)
    ensures Before(e, x, y)
  {
    var i, j :| 0 <= i < j < n && e[..n][i].0 == x && e[..n][j].0 == y;
    assert e[i].0 == x && e[j].0 == y;
  }

  lemma {:induction false} BeforeFront<K, V>(a: (K, V), r: Entries<K, V>, x: K, y: K)
    requires Before([a] + r, x, y)
    ensures x == a.0 || Before(r, x, y)
  {
    var s := [a] + r;
    var i, j :| 0 <= i < j < |s| && s[i].0 == x && s[j].0 == y;
    if i > 0 { assert r[i - 1].0 == x && r[j - 1].0 == y; }
  }

  /** An operation brings its own key to the front and changes the order of no others. */
  lemma {:induction false} ApplyOrder<K, V>(e: Entries<K, V>, cap: nat, op: Op<K, V>, x: K, y: K)
    requires cap >= 1 && DistinctKeys(e) && |e| <= cap && Before(Apply(e, cap, op), x, y)
    ensures Before(e, x, y) || ((op.OpPut? || op.OpGet?) && op.key == x)
  {
    match op
    case OpPut(k, v) => PutOrder(e, cap, k, v, x, y);
    case OpGet(k) =>
      var i := IndexOf(e, k);
      if i < |e| {
        BeforeFront(e[i], Drop(e, i), x, y);
        if x != k { BeforeDrop(e, i, x, y); }
      }
    case OpRemove(k) => if Has(e, k) { BeforeDrop(e, IndexOf(e, k), x, y); }
    case _ =>
  }

  lemma {:induction false} PutOrder<K, V>(e: Entries<K, V>, cap: nat, k: K, v: V, x: K, y: K)
    requires cap >= 1 && |e| <= cap && Before(Put(e, cap, k, v), x, y)
    ensures Before(e, x, y) || x == k
  {
    var i := IndexOf(e, k);
    var r := if i < |e| then Drop(e, i) else if |e| == cap then e[..cap - 1] else e;
    BeforeFront((k, v), r, x, y);
    if x != k {
      if i < |e| { BeforeDrop(e, i, x, y); } else if |e| == cap { BeforePrefix(e, cap - 1, x, y); }
    }
  }

  lemma {:induction false} BeforeDiffers<K, V>(e: Entries<K, V>, x: K, y: K)
    requires DistinctKeys(e) && Before(e, x, y)
    ensures x != y && !Before(e, y, x)
  {
  }

  /** After a put or a successful get its key stands before all others. */
  lemma {:induction false} TouchedFirst<K, V>(e: Entries<K, V>, cap: nat, op: Op<K, V>, y: K)
    requires cap >= 1 && DistinctKeys(e) && |e| <= cap && (op.OpPut? || op.OpGet?)
    ensures !Before(Apply(e, cap, op), y, op.key)
  {
    var a := Apply(e, cap, op);
    if op.OpPut? { PutKeeps(e, cap, op.key, op.value); } else { GetKeeps(e, op.key); }
    assert Has(e, op.key) || op.OpPut? ==> a[0].0 == op.key;
  }

  /** After every run, removals included, the entries stand in the order of their last uses, most recent first. */
  lemma {:induction false} RecencyOrder<K, V>(cap: nat, ops: seq<Op<K, V>>, x: K, y: K)
    requires cap >= 1 && Before(Run(cap, ops), x, y)
    ensures LastUse(ops, x) > LastUse(ops, y)
  {
    if ops != [] {
      var rest, op := ops[..|ops| - 1], ops[|ops| - 1];
      var e := Run(cap, rest);
      RunKeepsInvariant(cap, rest);
      RunKeepsInvariant(cap, ops);
      BeforeDiffers(Run(cap, ops), x, y);
      ApplyOrder(e, cap, op, x, y);
      if op.OpPut? || op.OpGet? { TouchedFirst(e, cap, op, x); }
      if Before(e, x, y) { RecencyOrder(cap, rest, x, y); }
    }
  }
}

/** The two linked lists that share `next[]`, as facts about the index arrays. */
module LruLists {
  import opened Links
  import opened Sequences

  /** `next` threads the indices in `order`, and `start` is where it begins. */
  ghost predicate Threaded(next: seq<int>, order: seq<int>, start: int) {
    && InRange(order, |next|)
    && start == First(order)
    && (forall i {:trigger Succ(order, i)} :: 0 <= i < |order| ==> next[order[i]] == Succ(order, i))
  }

  /** The doubly linked recency list. */
  ghost predicate Linked(prev: seq<int>, next: seq<int>, order: seq<int>, head: int, tail: int) {
    && |prev| == |next|
    && Distinct(order)
    && Threaded(next, order, head)
    && tail == Last(order)
    && (forall i {:trigger Pred(order, i)} :: 0 <= i < |order| ==> prev[order[i]] == Pred(order, i))
  }

  function Put(a: seq<int>, i: int, v: int): seq<int> {
    if 0 <= i < |a| then a[i := v] else a
  }

  lemma {:induction false} Unlinked(prev: seq<int>, next: seq<int>, order: seq<int>, head: int, tail: int, i: nat)
    requires Linked(prev, next, order, head, tail) && i < |order|
    ensures
      var node := order[i];
      var p, n := prev[node], next[node];
      var next' := Put(next, p, n)[node := NONE];
      var prev' := Put(prev, n, p)[node := NONE];
      var head' := if p != NONE then head else n;
      var tail' := if n != NONE then tail else p;
      Linked(prev', next', Drop(order, i), head', tail')
  {
    var node := order[i];
    var p, n := prev[node], next[node];
    assert p == Pred(order, i) && n == Succ(order, i);
    DropElems(order, i);
    SuccAfterDrop(next, Put(next, p, n)[node := NONE], order, i);
    PredAfterDrop(prev, Put(prev, n, p)[node := NONE], order, i);
  }

  lemma {:induction false} SuccPointwise(next: seq<int>, order: seq<int>, i: nat, o: nat)
    requires InRange(order, |next|) && Distinct(order) && i < |order| && o < |order| && o != i
    ensures Put(next, Pred(order, i), Succ(order, i))[order[i] := NONE][order[o]]
            == if o + 1 == i then Succ(order, i) else next[order[o]]
  {
    assert order[o] != order[i];
  }

  lemma {:induction false} SuccAfterDrop(next: seq<int>, next': seq<int>, order: seq<int>, i: nat)
    requires InRange(order, |next|) && Distinct(order) && i < |order|
    requires forall j {:trigger Succ(order, j)} :: 0 <= j < |order| ==> next[order[j]] == Succ(order, j)
    requires next' == Put(next, Pred(order, i), Succ(order, i))[order[i] := NONE]
    ensures forall j {:trigger Succ(Drop(order, i), j)} :: 0 <= j < |order| - 1 ==> next'[Drop(order, i)[j]] == Succ(Drop(order, i), j)
  {
    var order' := Drop(order, i);
    forall j | 0 <= j < |order'| ensures next'[order'[j]] == Succ(order', j) {
      var o := if j < i then j else j + 1;
      assert order'[j] == order[o] && next[order[o]] == Succ(order, o);
      SuccPointwise(next, order, i, o);
    }
  }

  lemma {:induction false} PredAfterDrop(prev: seq<int>, prev': seq<int>, order: seq<int>, i: nat)
    requires InRange(order, |prev|) && Distinct(order) && i < |order|
    requires forall j {:trigger Pred(order, j)} :: 0 <= j < |order| ==> prev[order[j]] == Pred(order, j)
    requires prev' == Put(prev, Succ(order, i), Pred(order, i))[order[i] := NONE]
    ensures forall j {:trigger Pred(Drop(order, i), j)} :: 0 <= j < |order| - 1 ==> prev'[Drop(order, i)[j]] == Pred(Drop(order, i), j)
  {
    var order' := Drop(order, i);
    forall j | 0 <= j < |order'| ensures prev'[order'[j]] == Pred(order', j) {
      var o := if j < i then j else j + 1;
      assert order'[j] == order[o] && prev[order[o]] == Pred(order, o);
      assert order[o] != order[i];
      assert i + 1 < |order| && o != i + 1 ==> order[o] != order[i + 1];
    }
  }

  lemma {:induction false} Pushed(prev: seq<int>, next: seq<int>, order: seq<int>, head: int, tail: int, node: int)
    requires Linked(prev, next, order, head, tail) && 0 <= node < |next| && node !in order
    ensures
      var prev' := Put(prev[node := NONE], head, node);
      var next' := next[node := head];
      Linked(prev', next', [node] + order, node, if head != NONE then tail else node)
  {
    var prev' := Put(prev[node := NONE], head, node);
    var next' := next[node := head];
    var order' := [node] + order;
    forall j | 0 <= j < |order'|
      ensures 0 <= order'[j] < |next| && next'[order'[j]] == Succ(order', j) && prev'[order'[j]] == Pred(order', j)
    {
      if j > 0 {
        assert order'[j] == order[j - 1];
        assert next[order[j - 1]] == Succ(order, j - 1) && prev[order[j - 1]] == Pred(order, j - 1);
        if j > 1 { assert order[j - 1] != order[0]; }
      }
    }
  }

  /** Writing `next` only at nodes in `touched` does not disturb a list without those nodes. */
  lemma {:induction false} ThreadedFrame(next: seq<int>, next': seq<int>, order: seq<int>, start: int, touched: seq<int>)
    requires Threaded(next, order, start) && |next'| == |next|
    requires forall x :: 0 <= x < |next| && x !in touched ==> next'[x] == next[x]
    requires Elems(touched) !! Elems(order)
    ensures Threaded(next', order, start)
  {
    forall i | 0 <= i < |order| ensures next'[order[i]] == Succ(order, i) {
      assert order[i] in Elems(order) && order[i] !in Elems(touched);
    }
  }

  lemma Apart(order: seq<int>, free: seq<int>, i: nat, j: nat)
    requires Distinct(order + free) && i < |order| && j < |free|
    ensures order[i] != free[j]
  {
    assert (order + free)[i] != (order + free)[|order| + j];
  }

  /** The two lists stay a partition of the node indices when a node moves within or between them. */
  ghost predicate Partition(order: seq<int>, free: seq<int>, cap: nat) {
    Distinct(order + free) && InRange(order + free, cap) && |order| + |free| == cap
  }

  lemma {:induction false} PartitionKept(order: seq<int>, free: seq<int>, order': seq<int>, free': seq<int>, cap: nat)
    requires Partition(order, free, cap)
    requires |order'| + |free'| == cap
    requires Elems(order') + Elems(free') == Elems(order) + Elems(free)
    ensures Partition(order', free', cap)
  {
    var a, b := order + free, order' + free';
    assert Elems(a) == Elems(order) + Elems(free);
    assert Elems(b) == Elems(order') + Elems(free');
    Rearranged(a, b);
    forall i | 0 <= i < |b| ensures 0 <= b[i] < cap { assert b[i] in Elems(a); }
  }

  lemma {:induction false} PartitionParts(order: seq<int>, free: seq<int>, cap: nat)
    requires Partition(order, free, cap)
    ensures Distinct(order) && Distinct(free) && InRange(order, cap) && InRange(free, cap)
    ensures Elems(order) !! Elems(free)
    ensures |order| <= cap
  {
    forall i, j | 0 <= i < j < |order| ensures order[i] != order[j] { assert (order + free)[i] != (order + free)[j]; }
    forall i, j | 0 <= i < j < |free| ensures free[i] != free[j] {
      assert (order + free)[|order| + i] != (order + free)[|order| + j];
    }
    forall i, j | 0 <= i < |order| && 0 <= j < |free| ensures order[i] != free[j] { Apart(order, free, i, j); }
    forall i | 0 <= i < |order| ensures 0 <= order[i] < cap { assert (order + free)[i] == order[i]; }
    forall i | 0 <= i < |free| ensures 0 <= free[i] < cap { assert (order + free)[|order| + i] == free[i]; }
  }

  ghost function Iota(n: nat): (r: seq<int>)
    ensures |r| == n && forall i :: 0 <= i < n ==> r[i] == i
  {
    seq(n, i => i)
  }

  /** The array 1, 2, ..., cap-1, NONE threads all indices in order. */
  lemma {:induction false} AllFree(next: seq<int>)
    requires |next| >= 1
    requires forall i :: 0 <= i < |next| ==> next[i] == if i + 1 < |next| then i + 1 else NONE
    ensures Threaded(next, Iota(|next|), 0)
    ensures Partition([], Iota(|next|), |next|)
  {
    assert [] + Iota(|next|) == Iota(|next|);
  }

  lemma {:induction false} HeldApart(node: int, order: seq<int>, free: seq<int>, cap: nat)
    requires Partition([node] + order, free, cap)
    ensures node !in order && node !in free && 0 <= node < cap
    ensures InRange(order, cap) && Elems(order) !! Elems(free)
  {
    var s := [node] + order;
    PartitionParts(s, free, cap);
    forall i | 0 <= i < |order| ensures order[i] != node && 0 <= order[i] < cap { assert s[i + 1] == order[i] && s[0] == node; }
    assert node in Elems(s) && Elems(order) <= Elems(s);
  }

  /** Every node index is in exactly one of the two lists. */
  lemma {:induction false} ExactlyOneList(order: seq<int>, free: seq<int>, cap: nat, n: int)
    requires Partition(order, free, cap) && 0 <= n < cap
    ensures (n in order) != (n in free)
  {
    Pigeonhole(order + free, cap);
    assert n in order + free;
    if n in order && n in free {
      var i :| 0 <= i < |order| && order[i] == n;
      var j :| 0 <= j < |free| && free[j] == n;
      Apart(order, free, i, j);
    }
  }
}

/** The hash table of node indices: no gaps on any probe path, at least half the slots EMPTY. */
module LruTable {
  import opened Sequences
  import opened Probing
  import opened Bits

  const EMPTY: int := -1

  ghost predicate TableOk<K>(table: seq<int>, index: seq<int>, keys: seq<K>, live: set<int>, hash: K -> nat) {
    && |index| == |keys| && |table| >= 1
    && (forall n :: n in live ==> 0 <= n < |keys|)
    && (forall n :: n in live ==> 0 <= index[n] < |table| && table[index[n]] == n)
    && (forall s :: 0 <= s < |table| && table[s] != EMPTY ==> table[s] in live && index[table[s]] == s)
    && (forall n, x :: n in live && 0 <= x < |table| ==> NoGap(table, index, keys, hash, n, x))
  }

  /** If slot x comes before node n's slot on the probe path of n's key, x is not EMPTY. */
  ghost predicate NoGap<K>(table: seq<int>, index: seq<int>, keys: seq<K>, hash: K -> nat, n: int, x: int)
    requires 0 <= n < |keys| && |index| == |keys| && 0 <= index[n] < |table| && 0 <= x < |table|
  {
    var home := Home(hash, keys[n], |table|);
    Dist(home, x, |table|) < Dist(home, index[n], |table|) ==> table[x] != EMPTY
  }

  ghost predicate KeysDistinct<K>(keys: seq<K>, live: set<int>) {
    forall a, b :: a in live && b in live && 0 <= a < |keys| && 0 <= b < |keys| && a != b ==> keys[a] != keys[b]
  }

  /** The first `steps` slots of the probe path hold nodes with other keys. */
  ghost predicate Passed<K>(table: seq<int>, keys: seq<K>, key: K, home: nat, steps: nat) {
    home < |table| &&
    forall x :: 0 <= x < |table| && Dist(home, x, |table|) < steps ==>
                  table[x] != EMPTY && 0 <= table[x] < |keys| && keys[table[x]] != key
  }

  /** The first `steps` slots of the probe path are occupied. */
  ghost predicate Occupied(table: seq<int>, home: nat, steps: nat) {
    home < |table| && forall x :: 0 <= x < |table| && Dist(home, x, |table|) < steps ==> table[x] != EMPTY
  }

  ghost function OccupiedSlots(table: seq<int>): set<int> {
    set s | 0 <= s < |table| && table[s] != EMPTY
  }

  lemma {:induction false} OccupiedCount<K>(table: seq<int>, index: seq<int>, keys: seq<K>, live: set<int>, hash: K -> nat)
    requires TableOk(table, index, keys, live, hash)
    ensures |OccupiedSlots(table)| == |live|
  {
    InjectiveImage(index, live, OccupiedSlots(table));
  }

  lemma {:induction false} InjectiveImage(index: seq<int>, live: set<int>, slots: set<int>)
    requires forall n :: n in live ==> 0 <= n < |index| && index[n] in slots
    requires forall s :: s in slots ==> exists n :: n in live && index[n] == s
    requires forall a, b :: a in live && b in live && a != b ==> index[a] != index[b]
    ensures |slots| == |live|
    decreases |live|
  {
    if live != {} {
      var n := AnyOf(live);
      forall s | s in slots - {index[n]} ensures exists m :: m in live - {n} && index[m] == s {
        var m :| m in live && index[m] == s;
        assert m in live - {n};
      }
      InjectiveImage(index, live - {n}, slots - {index[n]});
    } else if slots != {} {
      var s := AnyOf(slots);
    }
  }

  /** With fewer live nodes than slots some slot is EMPTY, so a probe cannot walk the whole table. */
  lemma {:induction false} SomeEmpty<K>(table: seq<int>, index: seq<int>, keys: seq<K>, live: set<int>, hash: K -> nat)
      returns (e: nat)
    requires TableOk(table, index, keys, live, hash) && |live| < |table|
    ensures e < |table| && table[e] == EMPTY
  {
    OccupiedCount(table, index, keys, live, hash);
    RangeSize(|table|);
    e := MemberOutside(Range(|table|), OccupiedSlots(table));
  }

  /** An EMPTY slot at the end of a passed probe path means the key is stored nowhere. */
  lemma {:induction false} AbsentAtEmpty<K>(table: seq<int>, index: seq<int>, keys: seq<K>, live: set<int>, hash: K -> nat,
                                            key: K, slot: nat)
    requires TableOk(table, index, keys, live, hash)
    requires slot < |table| && table[slot] == EMPTY
    requires Passed(table, keys, key, Home(hash, key, |table|), Dist(Home(hash, key, |table|), slot, |table|))
    ensures forall n :: n in live ==> keys[n] != key
  {
    var home := Home(hash, key, |table|);
    forall n | n in live ensures keys[n] != key {
      if keys[n] == key {
        assert NoGap(table, index, keys, hash, n, slot);
        var d, dn := Dist(home, slot, |table|), Dist(home, index[n], |table|);
        if d == dn { DistInjective(home, slot, index[n], |table|); }
      }
    }
  }

  lemma {:induction false} Inserted<K>(table: seq<int>, index: seq<int>, keys: seq<K>, live: set<int>, hash: K -> nat,
                                       node: int, slot: nat)
    requires TableOk(table, index, keys, live, hash)
    requires 0 <= node < |keys| && node !in live
    requires slot < |table| && table[slot] == EMPTY
    requires Occupied(table, Home(hash, keys[node], |table|), Dist(Home(hash, keys[node], |table|), slot, |table|))
    ensures TableOk(table[slot := node], index[node := slot], keys, live + {node}, hash)
  {
    var table', index' := table[slot := node], index[node := slot];
    forall n, x | n in live + {node} && 0 <= x < |table'| ensures NoGap(table', index', keys, hash, n, x) {
      if n != node { assert NoGap(table, index, keys, hash, n, x); }
    }
  }

  /** Overwriting the keys of dead nodes does not disturb the table. */
  lemma {:induction false} KeyFrame<K>(table: seq<int>, index: seq<int>, keys: seq<K>, keys': seq<K>, live: set<int>, hash: K -> nat)
    requires TableOk(table, index, keys, live, hash)
    requires |keys'| == |keys| && forall n :: n in live ==> keys'[n] == keys[n]
    ensures TableOk(table, index, keys', live, hash)
  {
    forall n, x | n in live && 0 <= x < |table| ensures NoGap(table, index, keys', hash, n, x) {
      assert NoGap(table, index, keys, hash, n, x);
    }
  }
}
