/** Runs of allocations and frees, as the owner of the buffers sees them. */
module ArenaRun {
  import opened Sequences
  import opened Words
  import opened ArenaBlocks
  import opened ArenaFreeList
  import opened UsableArena

  /** Free(i) frees the i-th buffer held, if there are so many. */
  datatype Op = OpAllocate(request: Size) | OpFree(i: nat)

  ghost function UsedBlocks(l: Layout): set<Block> { set k | k in l && k.used }

  /** A buffer as its owner knows it. */
  datatype Payload = Payload(data: int, size: nat)

  /** The buffer is the payload of block k, or part of it. */
  predicate Holder(k: Block, buf: Payload) { buf.data == k.start + HEADER && buf.data + buf.size <= k.Foot() }

  ghost predicate Held(used: set<Block>, buf: Payload) { exists k :: k in used && Holder(k, buf) }

  ghost predicate Owned(live: seq<Payload>, k: Block) {
    exists i :: 0 <= i < |live| && live[i].data == k.start + HEADER
  }

  /** The buffers handed out and not yet freed correspond one to one to the blocks in use. */
  ghost predicate Holds(used: set<Block>, live: seq<Payload>) {
    && (forall i :: 0 <= i < |live| ==> Held(used, live[i]))
    && (forall i, j :: 0 <= i < j < |live| ==> live[i].data != live[j].data)
    && (forall k :: k in used ==> Owned(live, k))
  }

  ghost predicate StartsDiffer(used: set<Block>) {
    forall j, k :: j in used && k in used && j.start == k.start ==> j == k
  }

  lemma {:induction false} TilesDiffer(l: Layout, size: nat)
    requires Tiles(l, 0, size)
    ensures StartsDiffer(UsedBlocks(l))
  {
    forall j, k | j in UsedBlocks(l) && k in UsedBlocks(l) && j.start == k.start ensures j == k {
      var a :| 0 <= a < |l| && l[a] == j;
      var b :| 0 <= b < |l| && l[b] == k;
      SameStart(l, size, a, b);
    }
  }

  lemma {:induction false} UsedConcat(a: Layout, b: Layout)
    ensures UsedBlocks(a + b) == UsedBlocks(a) + UsedBlocks(b)
  {
  }

  lemma {:induction false} UsedAround(l: Layout, b: nat)
    requires b < |l|
    ensures UsedBlocks(l) == UsedBlocks(l[..b]) + UsedBlocks([l[b]]) + UsedBlocks(l[b + 1..])
  {
    assert l == l[..b] + [l[b]] + l[b + 1..];
    UsedConcat(l[..b] + [l[b]], l[b + 1..]);
    UsedConcat(l[..b], [l[b]]);
  }

  /** A claim puts one block in use. */
  lemma {:induction false} ClaimUsed(l: Layout, b: nat, needed: nat)
    requires b < |l| && !l[b].used && needed <= l[b].size
    ensures UsedBlocks(Claim(l, b, needed)) == UsedBlocks(l) + {Claim(l, b, needed)[b]}
  {
    var m := Claim(l, b, needed);
    UsedAround(l, b);
    UsedAround(m, b);
    assert m[..b] == l[..b];
    if l[b].size - needed >= MIN_SPLIT {
      var rest := m[b + 1];
      assert m[b + 1..] == [rest] + l[b + 1..];
      UsedConcat([rest], l[b + 1..]);
    } else {
      assert m[b + 1..] == l[b + 1..];
    }
  }

  /** A release takes one block out of use. */
  lemma {:induction false} ReleaseUsed(l: Layout, b: nat, size: nat)
    requires Tiles(l, 0, size) && b < |l| && l[b].used
    ensures UsedBlocks(Release(l, b)) == UsedBlocks(l) - {l[b]}
  {
    var front, back := UsedBlocks(l[..b]), UsedBlocks(l[b + 1..]);
    UsedAround(l, b);
    assert UsedBlocks([l[b]]) == {l[b]};
    ReleaseAround(l, b);
    OnceOnly(l, b, size);
    assert l[b] !in front && l[b] !in back;
  }

  lemma {:induction false} ReleaseAround(l: Layout, b: nat)
    requires b < |l| && l[b].used
    ensures UsedBlocks(Release(l, b)) == UsedBlocks(l[..b]) + UsedBlocks(l[b + 1..])
  {
    var m := Release(l, b);
    UsedAround(m, b);
    assert m[..b] == l[..b] && UsedBlocks([m[b]]) == {};
    if b + 1 < |l| && !l[b + 1].used {
      assert m[b + 1..] == l[b + 2..] && l[b + 1..] == [l[b + 1]] + l[b + 2..];
      UsedConcat([l[b + 1]], l[b + 2..]);
      assert UsedBlocks([l[b + 1]]) == {};
    } else {
      assert m[b + 1..] == l[b + 1..];
    }
  }

  lemma {:induction false} OnceOnly(l: Layout, b: nat, size: nat)
    requires Tiles(l, 0, size) && b < |l|
    ensures l[b] !in l[..b] && l[b] !in l[b + 1..]
  {
    forall i | 0 <= i < |l| && i != b ensures l[i] != l[b] {
      if i < b { TilesOrdered(l, 0, size, i, b); } else { TilesOrdered(l, 0, size, b, i); }
    }
  }

  lemma {:induction false} HeldBySome(used: set<Block>, used': set<Block>, buf: Payload)
    requires Held(used, buf) && used <= used'
    ensures Held(used', buf)
  {
    var h :| h in used && Holder(h, buf);
    assert h in used';
  }

  lemma {:induction false} OwnedBySome(live: seq<Payload>, buf: Payload, h: Block)
    requires Owned(live, h) || buf.data == h.start + HEADER
    ensures Owned(live + [buf], h)
  {
    var live' := live + [buf];
    if i :| 0 <= i < |live| && live[i].data == h.start + HEADER {
      assert live'[i] == live[i];
    } else {
      assert live'[|live|] == buf;
    }
  }

  /** One more buffer and its block. */
  lemma {:induction false} HoldsMore(used: set<Block>, live: seq<Payload>, k: Block, buf: Payload)
    requires Holds(used, live) && Holder(k, buf) && StartsDiffer(used + {k}) && k !in used
    ensures Holds(used + {k}, live + [buf])
  {
    var used', live' := used + {k}, live + [buf];
    assert k in used' && Held(used', buf);
    forall i | 0 <= i < |live| ensures Held(used', live[i]) && live[i].data != buf.data {
      HeldBySome(used, used', live[i]);
      var h :| h in used && Holder(h, live[i]);
      assert h in used' && h != k;
    }
    forall h | h in used' ensures Owned(live', h) { OwnedBySome(live, buf, h); }
  }

  lemma {:induction false} StillHeld(used: set<Block>, live: seq<Payload>, k: Block, i: nat, o: nat)
    requires Holds(used, live) && i < |live| && Holder(k, live[i]) && o < |live| && o != i
    ensures Held(used - {k}, live[o])
  {
    assert Held(used, live[o]);
    var h :| h in used && Holder(h, live[o]);
    assert live[o].data != live[i].data;
    assert h in used - {k} && Holder(h, live[o]);
  }

  lemma {:induction false} StillOwned(used: set<Block>, live: seq<Payload>, k: Block, i: nat, h: Block)
    requires Holds(used, live) && i < |live| && k in used && Holder(k, live[i]) && StartsDiffer(used) && h in used && h != k
    ensures Owned(Drop(live, i), h)
  {
    assert Owned(live, h);
    var o :| 0 <= o < |live| && live[o].data == h.start + HEADER;
    assert h.start != k.start;
    var live', p := Drop(live, i), if o < i then o else o - 1;
    assert live'[p] == live[o];
  }

  /** One buffer less, and its block. */
  lemma {:induction false} HoldsLess(used: set<Block>, live: seq<Payload>, k: Block, i: nat)
    requires Holds(used, live) && i < |live| && k in used && Holder(k, live[i]) && StartsDiffer(used)
    ensures Holds(used - {k}, Drop(live, i))
  {
    var used', live' := used - {k}, Drop(live, i);
    assert forall j :: 0 <= j < |live'| ==> live'[j] == live[if j < i then j else j + 1];
    forall j | 0 <= j < |live'| ensures Held(used', live'[j]) { StillHeld(used, live, k, i, if j < i then j else j + 1); }
    forall h | h in used' ensures Owned(live', h) { StillOwned(used, live, k, i, h); }
  }

  /** Two buffers held lie in different blocks, clear of each other and of all tags. */
  lemma {:induction false} BuffersApart(l: Layout, size: nat, live: seq<Payload>, i: nat, j: nat)
    requires Tiles(l, 0, size) && Holds(UsedBlocks(l), live) && i < |live| && j < |live| && i != j
    ensures HEADER <= live[i].data && live[i].data + live[i].size + FOOTER <= size
    ensures live[i].data + live[i].size + FOOTER + HEADER <= live[j].data || live[j].data + live[j].size + FOOTER + HEADER <= live[i].data
  {
    assert Held(UsedBlocks(l), live[i]) && Held(UsedBlocks(l), live[j]);
    var h :| h in UsedBlocks(l) && Holder(h, live[i]);
    var k :| k in UsedBlocks(l) && Holder(k, live[j]);
    var a :| 0 <= a < |l| && l[a] == h;
    var b :| 0 <= b < |l| && l[b] == k;
    TilesOrdered(l, 0, size, a, a);
    if a < b { TilesOrdered(l, 0, size, a, b); }
    if b < a { TilesOrdered(l, 0, size, b, a); }
    assert a != b;
  }

  /** What the owner's buffers say about the arena. */
  ghost predicate Consistent(l: Layout, size: nat, live: seq<Payload>) { Tiles(l, 0, size) && Holds(UsedBlocks(l), live) }

  /** The operations at which the arena loses its way: a request whose sum overflows, a free behind a free block. */
  ghost predicate Derails(l: Layout, live: seq<Payload>, op: Op) {
    match op
    case OpAllocate(request) => SumWraps(request) && !Unmet(l, request)
    case OpFree(i) => i < |live| && exists b: nat :: b < |l| && LeftFree(l, b) && Holder(l[b], live[i])
  }

  /** The layout, the free list, and the buffers the owner holds. */
  datatype View = View(l: Layout, order: seq<int>, live: seq<Payload>)

  /** Block b, the first fit, is handed out for the request; a rest of 64 bytes or more takes its place in the list. */
  ghost predicate HandedOut(v: View, request: Size, v': View, b: nat, i: nat) {
    && FirstFit(v.l, v.order, Needed(request), b, i) && !SumWraps(request) && Served(v.l, b, Needed(request), v'.l)
    && v'.order == Relisted(v.l, v.order, Needed(request), b, i)
    && v'.live == v.live + [Payload(v.l[b].start + HEADER, AlignUp(request))]
  }

  /** Block b is given back with the i-th buffer and heads the free list. */
  ghost predicate GivenBack(v: View, i: nat, v': View, b: nat) {
    && i < |v.live| && b < |v.l| && v.l[b].used && !LeftFree(v.l, b) && Holder(v.l[b], v.live[i])
    && Returned(v.l, b, v'.l) && v'.live == Drop(v.live, i)
    && v'.order != [] && v'.order[0] == v.l[b].start && Unlisted(v.l, b, v.order, v'.order[1..])
  }

  ghost predicate Step(v: View, op: Op, v': View) {
    match op
    case OpAllocate(request) =>
      if Unmet(v.l, request) then v' == v else exists b: nat, i: nat :: HandedOut(v, request, v', b, i)
    case OpFree(i) =>
      if i >= |v.live| then v' == v else exists b: nat :: GivenBack(v, i, v', b)
  }

  ghost predicate StepAt(trace: seq<View>, ops: seq<Op>, i: nat)
    requires i < |ops| && |trace| == |ops| + 1
  {
    Step(trace[i], ops[i], trace[i + 1])
  }

  ghost predicate IsRun(trace: seq<View>, ops: seq<Op>) {
    |trace| == |ops| + 1 && forall i: nat {:trigger StepAt(trace, ops, i)} :: i < |ops| ==> StepAt(trace, ops, i)
  }

  lemma {:induction false} RunExtends(trace: seq<View>, ops: seq<Op>, op: Op, v: View)
    requires IsRun(trace, ops) && Step(trace[|ops|], op, v)
    ensures IsRun(trace + [v], ops + [op])
  {
    forall i: nat | i < |ops| + 1 ensures StepAt(trace + [v], ops + [op], i) {
      if i < |ops| { assert StepAt(trace, ops, i); }
    }
  }

  lemma {:induction false} Claimed(l: Layout, size: nat, live: seq<Payload>, b: nat, needed: nat, buf: Payload)
    requires Consistent(l, size, live) && b < |l| && !l[b].used && needed <= l[b].size
    requires Tiles(Claim(l, b, needed), 0, size) && Holder(Claim(l, b, needed)[b], buf)
    ensures Consistent(Claim(l, b, needed), size, live + [buf])
  {
    var m := Claim(l, b, needed);
    ClaimUsed(l, b, needed);
    TilesDiffer(m, size);
    assert m[b].start == l[b].start && m[b].used;
    if m[b] in UsedBlocks(l) {
      var a :| 0 <= a < |l| && l[a] == m[b];
      SameStart(l, size, a, b);
    }
    HoldsMore(UsedBlocks(l), live, m[b], buf);
  }

  lemma {:induction false} Released(l: Layout, size: nat, live: seq<Payload>, b: nat, i: nat)
    requires Consistent(l, size, live) && b < |l| && l[b].used && i < |live| && Holder(l[b], live[i])
    requires Tiles(Release(l, b), 0, size)
    ensures Consistent(Release(l, b), size, Drop(live, i))
  {
    ReleaseUsed(l, b, size);
    TilesDiffer(l, size);
    assert l[b] in UsedBlocks(l);
    HoldsLess(UsedBlocks(l), live, l[b], i);
  }

  /** The block of a buffer that is held. */
  lemma {:induction false} BlockOf(l: Layout, size: nat, live: seq<Payload>, i: nat) returns (b: nat)
    requires Consistent(l, size, live) && i < |live|
    ensures b < |l| && l[b].used && Holder(l[b], live[i])
  {
    assert Held(UsedBlocks(l), live[i]);
    var k :| k in UsedBlocks(l) && Holder(k, live[i]);
    b :| 0 <= b < |l| && l[b] == k;
  }

  lemma {:induction false} Handed(v: View, size: nat, request: Size, v': View, b: nat, i: nat)
    requires HandedOut(v, request, v', b, i) && Consistent(v.l, size, v.live) && Tiles(v'.l, 0, size)
    requires b < |v'.l| && Holder(v'.l[b], Payload(v.l[b].start + HEADER, AlignUp(request)))
    requires !Unmet(v.l, request)
    ensures Consistent(v'.l, size, v'.live) && Step(v, OpAllocate(request), v')
  {
    ClaimServes(v.l, b, Needed(request), v'.l);
    Claimed(v.l, size, v.live, b, Needed(request), Payload(v.l[b].start + HEADER, AlignUp(request)));
  }

  method AllocateNext(ua: UsableArena, request: Size, live: seq<Payload>) returns (live': seq<Payload>, derailed: bool)
    requires ua.Valid() && Consistent(ua.layout, ua.size, live)
    modifies ua
    ensures derailed ==> Derails(old(ua.layout), live, OpAllocate(request))
    ensures !derailed ==> ua.Valid() && Consistent(ua.layout, ua.size, live')
    ensures !derailed ==> Step(View(old(ua.layout), old(ua.order), live), OpAllocate(request), View(ua.layout, ua.order, live'))
  {
    ghost var b, i;
    var buf;
    ghost var v := View(ua.layout, ua.order, live);
    buf, b, i := ua.Allocate(request);
    if buf.NoBuffer? { return live, false; }
    if buf.Wild? { return live, true; }
    live', derailed := live + [Payload(buf.data, buf.size)], false;
    Handed(v, ua.size, request, View(ua.layout, ua.order, live'), b, i);
  }

  method FreeNext(ua: UsableArena, i: nat, live: seq<Payload>) returns (live': seq<Payload>, derailed: bool)
    requires ua.Valid() && Consistent(ua.layout, ua.size, live) && i < |live|
    modifies ua
    ensures derailed ==> Derails(old(ua.layout), live, OpFree(i))
    ensures !derailed ==> ua.Valid() && Consistent(ua.layout, ua.size, live')
    ensures !derailed ==> Step(View(old(ua.layout), old(ua.order), live), OpFree(i), View(ua.layout, ua.order, live'))
  {
    ghost var l := ua.layout;
    ghost var k := BlockOf(l, ua.size, live, i);
    assert TagOk(ua.headers, ua.footers, l[k]);
    derailed := ua.BehindFree(live[i].data, k);
    ghost var b;
    var r;
    r, b := ua.Free(live[i].data);
    assert b == k by { SameStart(l, ua.size, b, k); }
    live' := Drop(live, i);
    if !derailed {
      Released(l, ua.size, live, k, i);
      assert GivenBack(View(l, old(ua.order), live), i, View(ua.layout, ua.order, live'), k);
    }
  }

  method Next(ua: UsableArena, op: Op, live: seq<Payload>) returns (live': seq<Payload>, derailed: bool)
    requires ua.Valid() && Consistent(ua.layout, ua.size, live)
    modifies ua
    ensures derailed ==> Derails(old(ua.layout), live, op)
    ensures !derailed ==> ua.Valid() && Consistent(ua.layout, ua.size, live')
    ensures !derailed ==> Step(View(old(ua.layout), old(ua.order), live), op, View(ua.layout, ua.order, live'))
  {
    match op {
      case OpAllocate(request) => live', derailed := AllocateNext(ua, request, live);
      case OpFree(i) =>
        live', derailed := live, false;
        if i < |live| { live', derailed := FreeNext(ua, i, live); }
    }
  }

  method ExecuteNext(ua: UsableArena, ops: seq<Op>, done: nat, live: seq<Payload>, ghost trace: seq<View>)
      returns (live': seq<Payload>, derailed: bool, ghost trace': seq<View>)
    requires ua.Valid() && Consistent(ua.layout, ua.size, live) && done < |ops|
    requires IsRun(trace, ops[..done]) && trace[done] == View(ua.layout, ua.order, live)
    modifies ua
    ensures derailed ==> Derails(trace[done].l, live, ops[done]) && trace' == trace && live' == live
    ensures !derailed ==> ua.Valid() && Consistent(ua.layout, ua.size, live')
    ensures !derailed ==> IsRun(trace', ops[..done + 1]) && trace'[done + 1] == View(ua.layout, ua.order, live') && trace <= trace'
  {
    live', derailed := Next(ua, ops[done], live);
    trace' := trace;
    if derailed {
      live' := live;
    } else {
      RunExtends(trace, ops[..done], ops[done], View(ua.layout, ua.order, live'));
      assert ops[..done] + [ops[done]] == ops[..done + 1];
      trace' := trace + [View(ua.layout, ua.order, live')];
    }
  }

  /**
    * Any run of allocations and frees in a region, step by step to its end or up to the first operation that
    * derails the arena: the buffers the owner holds are exactly the blocks in use.
    */
  method Execute(size: nat, ops: seq<Op>)
      returns (ua: UsableArena, live: seq<Payload>, done: nat, ghost trace: seq<View>)
    requires size >= HEADER + FOOTER
    ensures done <= |ops| && IsRun(trace, ops[..done]) && trace[0] == View([Block(0, size, false)], [0], [])
    ensures trace[done].live == live && Consistent(trace[done].l, size, live)
    ensures if done == |ops| then fresh(ua) && ua.Valid() && ua.size == size && View(ua.layout, ua.order, live) == trace[done]
            else Derails(trace[done].l, live, ops[done])
  {
    ua := new UsableArena(size, 0, 1);
    live, done, trace := [], 0, [View(ua.layout, ua.order, [])];
    assert UsedBlocks(ua.layout) == {};
    while done < |ops|
      invariant 0 <= done <= |ops| && fresh(ua) && ua.Valid() && ua.size == size
      invariant IsRun(trace, ops[..done]) && trace[done] == View(ua.layout, ua.order, live) && trace[0] == View([Block(0, size, false)], [0], [])
      invariant Consistent(ua.layout, size, live)
    {
      var derailed;
      live, derailed, trace := ExecuteNext(ua, ops, done, live, trace);
      if derailed { return; }
      done := done + 1;
    }
  }
}
