/** Blocks of a usable arena: how they tile the region and what their boundary tags say. */
module ArenaBlocks {
  import opened Sequences

  const HEADER: nat := 40         // sizeof(zenit_buf_header_t) on a 64-bit target
  const FOOTER: nat := 16         // sizeof(zenit_buf_footer_t)
  const ALIGNMENT: nat := 8
  const MIN_SPLIT: nat := HEADER + ALIGNMENT + FOOTER

  datatype BufState = BufFree | BufInUse
  datatype Header = Header(state: BufState, size: nat, next: int, prev: int)
  datatype Footer = Footer(size: nat, state: BufState)

  /** A block as the layout sees it; its payload lies between its two tags. */
  datatype Block = Block(start: nat, size: nat, used: bool) {
    function End(): nat { start + size }
    function Foot(): int { start + size - FOOTER }
    function State(): BufState { if used then BufInUse else BufFree }
  }

  type Layout = seq<Block>

  /** The blocks cover [from, to) end to end, each large enough for its tags. */
  ghost predicate Tiles(l: Layout, from: nat, to: nat) {
    if l == [] then from == to
    else l[0].start == from && l[0].size >= HEADER + FOOTER && Tiles(l[1..], l[0].End(), to)
  }

  lemma {:induction false} TilesApart(a: Layout, b: Layout, from: nat, to: nat) returns (mid: nat)
    requires Tiles(a + b, from, to)
    ensures Tiles(a, from, mid) && Tiles(b, mid, to)
  {
    if a == [] {
      mid := from;
      assert a + b == b;
    } else {
      assert (a + b)[1..] == a[1..] + b;
      mid := TilesApart(a[1..], b, a[0].End(), to);
    }
  }

  lemma {:induction false} TilesTogether(a: Layout, b: Layout, from: nat, mid: nat, to: nat)
    requires Tiles(a, from, mid) && Tiles(b, mid, to)
    ensures Tiles(a + b, from, to)
  {
    if a == [] {
      assert a + b == b;
    } else {
      assert (a + b)[1..] == a[1..] + b;
      TilesTogether(a[1..], b, a[0].End(), mid, to);
    }
  }

  /** Blocks lie inside the region, one after another. */
  lemma {:induction false} TilesOrdered(l: Layout, from: nat, to: nat, i: nat, j: nat)
    requires Tiles(l, from, to) && i <= j < |l|
    ensures from <= l[i].start && l[j].End() <= to && l[j].size >= HEADER + FOOTER && l[i].size >= HEADER + FOOTER
    ensures i < j ==> l[i].End() <= l[j].start
    ensures i + 1 == j ==> l[i].End() == l[j].start
    ensures i + 1 == |l| ==> l[i].End() == to
    ensures i == 0 ==> l[i].start == from
    ensures i > 0 ==> l[i].start > from
    decreases |l|
  {
    TilesBound(l[1..], l[0].End(), to);
    if i > 0 {
      TilesOrdered(l[1..], l[0].End(), to, i - 1, j - 1);
    } else if j > 0 {
      TilesOrdered(l[1..], l[0].End(), to, 0, j - 1);
    }
  }

  lemma {:induction false} TilesBound(l: Layout, from: nat, to: nat)
    requires Tiles(l, from, to)
    ensures from <= to
    ensures l != [] ==> l[0].start == from < to
    ensures l == [] ==> from == to
  {
    if l != [] { TilesBound(l[1..], l[0].End(), to); }
  }

  /** Live payloads never overlap each other or any block's tags. */
  lemma {:induction false} PayloadsDisjoint(l: Layout, from: nat, to: nat, i: nat, j: nat)
    requires Tiles(l, from, to) && i < |l| && j < |l| && i != j
    ensures var a, b := l[i], l[j];
            && (a.End() <= b.start || b.End() <= a.start)
            && a.start + HEADER <= a.Foot() && b.start + HEADER <= b.Foot()
            && (a.Foot() <= b.start || b.End() <= a.start + HEADER)
  {
    if i < j { TilesOrdered(l, from, to, i, j); } else { TilesOrdered(l, from, to, j, i); }
  }

  ghost function FreeStarts(l: Layout): set<int> {
    if l == [] then {} else FreeStarts(l[1..]) + (if l[0].used then {} else {l[0].start})
  }

  lemma {:induction false} FreeStartsConcat(a: Layout, b: Layout)
    ensures FreeStarts(a + b) == FreeStarts(a) + FreeStarts(b)
  {
    if a == [] {
      assert a + b == b;
    } else {
      assert (a + b)[1..] == a[1..] + b;
      FreeStartsConcat(a[1..], b);
    }
  }

  lemma {:induction false} FreeStartsOne(b: Block)
    ensures FreeStarts([b]) == if b.used then {} else {b.start as int}
  {
    assert [b][1..] == [];
  }

  lemma {:induction false} FreeStartsAre(l: Layout, x: int)
    ensures x in FreeStarts(l) <==> exists i :: 0 <= i < |l| && !l[i].used && l[i].start == x
  {
    if l != [] {
      FreeStartsAre(l[1..], x);
      if i :| 0 <= i < |l[1..]| && !l[1..][i].used && l[1..][i].start == x { assert l[i + 1].start == x; }
      if i :| 0 <= i < |l| && !l[i].used && l[i].start == x {
        if i > 0 { assert l[1..][i - 1].start == x; }
      }
    }
  }

  lemma {:induction false} FreeStartsWithin(l: Layout, from: nat, to: nat)
    requires Tiles(l, from, to)
    ensures forall x :: x in FreeStarts(l) ==> from <= x < to
  {
    if l != [] {
      TilesBound(l[1..], l[0].End(), to);
      FreeStartsWithin(l[1..], l[0].End(), to);
    }
  }

  /** No two neighbouring blocks are both free. */
  predicate PairOk(l: Layout, i: nat) { i + 1 < |l| ==> l[i].used || l[i + 1].used }
  ghost predicate Coalesced(l: Layout) { forall i: nat {:trigger PairOk(l, i)} :: i < |l| ==> PairOk(l, i) }

  ghost predicate TagOk(hs: map<int, Header>, fs: map<int, Footer>, b: Block) {
    && b.start in hs && hs[b.start].size == b.size && hs[b.start].state == b.State()
    && b.Foot() in fs && fs[b.Foot()] == Footer(b.size, b.State())
  }

  /** Header and footer of every block agree with the layout. */
  ghost predicate Tagged(hs: map<int, Header>, fs: map<int, Footer>, l: Layout) {
    forall i :: 0 <= i < |l| ==> TagOk(hs, fs, l[i])
  }

  /** Writes confined to [lo, hi) leave the tags of blocks outside it alone; link fields may change anywhere. */
  ghost predicate TagsKept(hs: map<int, Header>, fs: map<int, Footer>, hs': map<int, Header>, fs': map<int, Footer>, lo: int, hi: int) {
    && (forall a :: a in hs && !(lo <= a < hi) ==> a in hs' && hs'[a].size == hs[a].size && hs'[a].state == hs[a].state)
    && (forall a :: a in fs && !(lo <= a < hi) ==> a in fs' && fs'[a] == fs[a])
  }

  lemma {:induction false} TaggedOutside(hs: map<int, Header>, fs: map<int, Footer>, hs': map<int, Header>, fs': map<int, Footer>,
                                         l: Layout, from: nat, to: nat, lo: int, hi: int)
    requires Tagged(hs, fs, l) && Tiles(l, from, to) && TagsKept(hs, fs, hs', fs', lo, hi) && (to <= lo || hi <= from)
    ensures Tagged(hs', fs', l)
  {
    forall i | 0 <= i < |l| ensures TagOk(hs', fs', l[i]) {
      TilesOrdered(l, from, to, i, i);
      assert TagOk(hs, fs, l[i]);
    }
  }
}

/** The explicit doubly linked free list threaded through the headers. */
module ArenaFreeList {
  import opened Sequences
  import opened Links
  import opened ArenaBlocks

  type Headers = map<int, Header>

  function SetNext(hs: Headers, a: int, v: int): (r: Headers)
    ensures r.Keys == hs.Keys
  {
    if a in hs then hs[a := hs[a].(next := v)] else hs
  }

  function SetPrev(hs: Headers, a: int, v: int): (r: Headers)
    ensures r.Keys == hs.Keys
  {
    if a in hs then hs[a := hs[a].(prev := v)] else hs
  }

  /** `order` is what following `next` from `start` visits, and `prev` leads back. */
  ghost predicate Chain(hs: Headers, order: seq<int>, start: int) {
    && NONE !in hs && Distinct(order) && start == First(order)
    && (forall i :: 0 <= i < |order| ==> order[i] in hs)
    && (forall i {:trigger Succ(order, i)} :: 0 <= i < |order| ==> hs[order[i]].next == Succ(order, i))
    && (forall i {:trigger Pred(order, i)} :: 0 <= i < |order| ==> hs[order[i]].prev == Pred(order, i))
  }

  lemma {:induction false} ChainFrame(hs: Headers, hs': Headers, order: seq<int>, start: int)
    requires Chain(hs, order, start) && NONE !in hs'
    requires forall i :: 0 <= i < |order| ==> order[i] in hs' && SameLinks(hs'[order[i]], hs[order[i]])
    ensures Chain(hs', order, start)
  {
  }

  predicate SameLinks(h: Header, h': Header) { h.next == h'.next && h.prev == h'.prev }

  /** Take order[i] out by making its neighbours point past it. */
  lemma {:induction false} Bypassed(hs: Headers, order: seq<int>, start: int, i: nat)
    requires Chain(hs, order, start) && i < |order|
    ensures var p, n := hs[order[i]].prev, hs[order[i]].next;
            Chain(SetPrev(SetNext(hs, p, n), n, p), Drop(order, i), if p != NONE then start else n)
  {
    var p, n := hs[order[i]].prev, hs[order[i]].next;
    assert p == Pred(order, i) && n == Succ(order, i);
    var hs', order' := SetPrev(SetNext(hs, p, n), n, p), Drop(order, i);
    DropElems(order, i);
    forall j | 0 <= j < |order'|
      ensures order'[j] in hs' && hs'[order'[j]].next == Succ(order', j) && hs'[order'[j]].prev == Pred(order', j)
    {
      var o := if j < i then j else j + 1;
      assert order'[j] == order[o];
      BypassedAt(hs, order, start, i, o);
    }
  }

  lemma {:induction false} BypassedAt(hs: Headers, order: seq<int>, start: int, i: nat, o: nat)
    requires Chain(hs, order, start) && i < |order| && o < |order| && o != i
    ensures var p, n := Pred(order, i), Succ(order, i);
            var hs' := SetPrev(SetNext(hs, p, n), n, p);
            && order[o] in hs'
            && hs'[order[o]].next == (if o + 1 == i then Succ(order, i) else Succ(order, o))
            && hs'[order[o]].prev == (if o == i + 1 then Pred(order, i) else Pred(order, o))
  {
    assert hs[order[o]].next == Succ(order, o) && hs[order[o]].prev == Pred(order, o);
    assert i > 0 && o + 1 != i ==> order[o] != order[i - 1];
    assert i + 1 < |order| && o != i + 1 ==> order[o] != order[i + 1];
  }

  /** The insertion at the head that ends every free. */
  function PushFront(hs: Headers, node: int, start: int): Headers
    requires node in hs
  {
    SetPrev(hs[node := hs[node].(next := start, prev := NONE)], start, node)
  }

  lemma {:induction false} Pushed(hs: Headers, order: seq<int>, start: int, node: int)
    requires Chain(hs, order, start) && node in hs && node !in order
    ensures Chain(PushFront(hs, node, start), [node] + order, node)
  {
    var hs', order' := PushFront(hs, node, start), [node] + order;
    forall j | 0 <= j < |order'|
      ensures order'[j] in hs' && hs'[order'[j]].next == Succ(order', j) && hs'[order'[j]].prev == Pred(order', j)
    {
      if j > 0 {
        assert order'[j] == order[j - 1];
        assert hs[order[j - 1]].next == Succ(order, j - 1) && hs[order[j - 1]].prev == Pred(order, j - 1);
        assert j > 1 ==> order[j - 1] != order[0];
      }
    }
  }

  /** Inserting `node` right after `walk`, as the split does. */
  function InsertAfter(hs: Headers, walk: int, node: int): Headers
    requires walk in hs && node in hs
  {
    var n := hs[walk].next;
    SetNext(SetPrev(hs[node := hs[node].(next := n, prev := walk)], n, node), walk, node)
  }

  lemma {:induction false} InsertedAfter(hs: Headers, order: seq<int>, start: int, i: nat, node: int)
    requires Chain(hs, order, start) && i < |order| && node in hs && node !in order
    ensures Chain(InsertAfter(hs, order[i], node), order[..i + 1] + [node] + order[i + 1..], start)
  {
    var hs', order' := InsertAfter(hs, order[i], node), order[..i + 1] + [node] + order[i + 1..];
    assert hs[order[i]].next == Succ(order, i);
    forall j | 0 <= j < |order'|
      ensures order'[j] in hs' && hs'[order'[j]].next == Succ(order', j) && hs'[order'[j]].prev == Pred(order', j)
    {
      if j != i + 1 {
        var o := if j <= i then j else j - 1;
        assert order'[j] == order[o];
        InsertedAt(hs, order, start, i, node, o);
      }
    }
  }

  lemma {:induction false} InsertedAt(hs: Headers, order: seq<int>, start: int, i: nat, node: int, o: nat)
    requires Chain(hs, order, start) && i < |order| && o < |order| && node in hs && node !in order
    ensures var hs' := InsertAfter(hs, order[i], node);
            && order[o] in hs'
            && hs'[order[o]].next == (if o == i then node else Succ(order, o))
            && hs'[order[o]].prev == (if o == i + 1 then node else Pred(order, o))
  {
    assert hs[order[i]].next == Succ(order, i);
    assert hs[order[o]].next == Succ(order, o) && hs[order[o]].prev == Pred(order, o);
    assert i + 1 < |order| && o != i + 1 ==> order[o] != order[i + 1];
    assert o != i ==> order[o] != order[i];
  }

  /** No sequence of nodes is what this list holds: it has a cycle. */
  ghost predicate Broken(hs: Headers, start: int) { forall order :: !Chain(hs, order, start) }

  /**
    * Pushing a node that is already in the list destroys it: following `next` from the new head
    * comes back to the head, so no sequence of distinct nodes describes the list any more.
    */
  lemma {:induction false} RepushBreaks(hs: Headers, order: seq<int>, start: int, i: nat, order': seq<int>)
    requires Chain(hs, order, start) && i < |order|
    ensures !Chain(PushFront(hs, order[i], start), order', order[i])
  {
    var hs', p := PushFront(hs, order[i], start), order[i];
    if Chain(hs', order', p) {
      assert hs'[p].next == start by { assert start == order[0]; }
      assert hs'[order'[0]].next == Succ(order', 0);
      FollowsOld(hs, order, start, i, order', 0);
    }
  }

  /** After a re-push the new list would repeat the old one up to the pushed node. */
  lemma {:induction false} FollowsOld(hs: Headers, order: seq<int>, start: int, i: nat, order': seq<int>, m: nat)
    requires Chain(hs, order, start) && m <= i < |order|
    requires Chain(PushFront(hs, order[i], start), order', order[i])
    requires m + 1 < |order'| && order'[m + 1] == order[m]
    ensures false
    decreases i - m
  {
    var hs' := PushFront(hs, order[i], start);
    if m < i {
      assert hs[order[m]].next == Succ(order, m);
      assert hs'[order'[m + 1]].next == Succ(order', m + 1);
      assert order[m] != order[i];
      FollowsOld(hs, order, start, i, order', m + 1);
    }
  }
}

/** A usable arena: sub-allocation with boundary tags, splitting and coalescing. */
module UsableArena {
  import opened Sequences
  import opened Words
  import opened Links
  import opened ArenaBlocks
  import opened ArenaFreeList

  /** Wild: a buffer of that size in a block far too short for it. */
  datatype Buffer = NoBuffer | Buffer(data: int, size: nat) | Wild(data: int, size: nat)
  datatype FreeResult = Freed | DoubleFree

  const SIZE_MAX: nat := WORD - 1

  /** `(n + ALIGNMENT - 1) & ~(ALIGNMENT - 1)`, or SIZE_MAX where that would overflow. */
  function AlignUp(n: Size): (r: Size)
    ensures n <= SIZE_MAX - (ALIGNMENT - 1) ==> n <= r < n + ALIGNMENT && r % ALIGNMENT == 0
    ensures n > SIZE_MAX - (ALIGNMENT - 1) <==> r == SIZE_MAX
  {
    if n > SIZE_MAX - (ALIGNMENT - 1) then SIZE_MAX else (n + ALIGNMENT - 1) / ALIGNMENT * ALIGNMENT
  }

  /** The block size for a request, as the unguarded sum computes it. */
  function Needed(request: Size): Size { Wrap(HEADER + AlignUp(request) + FOOTER) }

  /** The sum of a request that passes the alignment check overflows. */
  predicate SumWraps(request: Size) { AlignUp(request) != SIZE_MAX && HEADER + AlignUp(request) + FOOTER >= WORD }

  /** The alignment check lets the 56 requests from 2^64 - 63 to 2^64 - 8 through, and no block is too short for them. */
  lemma {:induction false} NeededWrapsIff(request: Size)
    ensures SumWraps(request) <==> WORD - 63 <= request <= WORD - 8
    ensures SumWraps(request) ==> Needed(request) < HEADER + FOOTER
    ensures AlignUp(request) != SIZE_MAX && !SumWraps(request) ==> Needed(request) == HEADER + AlignUp(request) + FOOTER
  {
    var r := AlignUp(request);
    if r != SIZE_MAX {
      assert WORD % ALIGNMENT == 0 && r % ALIGNMENT == 0;
      assert request > WORD - 64 ==> r > WORD - 64;
      assert r > WORD - 64 ==> r >= WORD - 56;
      var sum := HEADER + r + FOOTER;
      assert sum >= WORD ==> Wrap(sum) == Wrap(sum - WORD) == sum - WORD;
    }
  }

  /** The layout after cutting block b in two free blocks, the first of `needed` bytes. */
  function SplitAt(l: Layout, b: nat, needed: nat): Layout
    requires b < |l| && needed <= l[b].size
  {
    l[..b] + [Block(l[b].start, needed, false), Block(l[b].start + needed, l[b].size - needed, false)] + l[b + 1..]
  }

  /** The layout after handing out block b: split first when the rest is worth keeping. */
  function Claim(l: Layout, b: nat, needed: nat): (r: Layout)
    requires b < |l| && needed <= l[b].size
    ensures b < |r|
  {
    var m := if l[b].size - needed >= MIN_SPLIT then SplitAt(l, b, needed) else l;
    m[b := m[b].(used := true)]
  }

  /** The layout after block b absorbs its right neighbour. */
  function Merge(l: Layout, b: nat): Layout
    requires b + 1 < |l|
  {
    l[..b] + [l[b].(size := l[b].size + l[b + 1].size)] + l[b + 2..]
  }

  /** The layout after block b is freed, its left neighbour being in use. */
  function Release(l: Layout, b: nat): Layout
    requires b < |l|
  {
    var m := l[b := l[b].(used := false)];
    if b + 1 < |m| && !m[b + 1].used then Merge(m, b) else m
  }

  /** The request cannot be met: nothing asked, too much to align, or no free block large enough. */
  ghost predicate Unmet(l: Layout, request: Size) {
    || request == 0 || AlignUp(request) == SIZE_MAX
    || forall j :: 0 <= j < |l| ==> l[j].used || l[j].size < Needed(request)
  }

  /** The i-th block of the free list is block b, large enough, and no block before it in the list is. */
  ghost predicate FirstFit(l: Layout, order: seq<int>, needed: nat, b: nat, i: nat) {
    && b < |l| && !l[b].used && l[b].size >= needed && i < |order| && order[i] == l[b].start
    && forall j, k :: 0 <= j < i && 0 <= k < |l| && l[k].start == order[j] ==> l[k].size < needed
  }

  /** The free list after block b, its i-th entry, is handed out: a rest of 64 bytes or more takes its place. */
  ghost function Relisted(l: Layout, order: seq<int>, needed: nat, b: nat, i: nat): seq<int>
    requires b < |l| && i < |order|
  {
    if l[b].size < needed + 64 then Drop(order, i) else order[i := l[b].start + needed]
  }

  /**
    * Block b serves a request for a block of `needed` bytes, as the owner of the region sees it: less than 64 bytes of it are
    * wasted, a rest of 64 bytes or more becomes a free block of its own, and every other block stays as it is.
    */
  ghost predicate Served(l: Layout, b: nat, needed: nat, l': Layout) {
    && b < |l| && b < |l'| && l'[..b] == l[..b]
    && l'[b].used && l'[b].start == l[b].start && needed <= l'[b].size < needed + 64
    && if l[b].size < needed + 64 then
         l'[b].size == l[b].size && l'[b + 1..] == l[b + 1..]
       else
         && l'[b].size == needed && b + 1 < |l'| && l'[b + 2..] == l[b + 1..]
         && !l'[b + 1].used && l'[b + 1].start == l'[b].End() && l'[b + 1].End() == l[b].End()
  }

  /** Block b is free again, over the bytes of its right neighbour too if that is free; every other block stays. */
  ghost predicate Returned(l: Layout, b: nat, l': Layout) {
    && b < |l| && b < |l'| && l'[..b] == l[..b] && !l'[b].used && l'[b].start == l[b].start
    && if b + 1 < |l| && !l[b + 1].used then l'[b].size == l[b].size + l[b + 1].size && l'[b + 1..] == l[b + 2..]
       else l'[b].size == l[b].size && l'[b + 1..] == l[b + 1..]
  }

  /** A claim serves the request, and nothing else does. */
  lemma {:induction false} ClaimServes(l: Layout, b: nat, needed: nat, l': Layout)
    requires b < |l| && needed <= l[b].size
    ensures Served(l, b, needed, l') <==> l' == Claim(l, b, needed)
  {
    var m := Claim(l, b, needed);
    assert m[..b] == l[..b];
    assert if l[b].size < needed + 64 then m[b + 1..] == l[b + 1..] else m[b + 2..] == l[b + 1..];
    if Served(l, b, needed, l') {
      var n := if l[b].size < needed + 64 then b + 1 else b + 2;
      assert l' == l'[..b] + l'[b..n] + l'[n..];
      assert m == m[..b] + m[b..n] + m[n..];
      assert l'[b..n] == m[b..n];
    }
  }

  /** A release returns the block, and nothing else does. */
  lemma {:induction false} ReleaseReturns(l: Layout, b: nat, l': Layout)
    requires b < |l|
    ensures Returned(l, b, l') <==> l' == Release(l, b)
  {
    var m := Release(l, b);
    assert m[..b] == l[..b];
    assert if b + 1 < |l| && !l[b + 1].used then m[b + 1..] == l[b + 2..] else m[b + 1..] == l[b + 1..];
    if Returned(l, b, l') {
      assert l' == l'[..b] + [l'[b]] + l'[b + 1..];
      assert m == m[..b] + [m[b]] + m[b + 1..];
    }
  }

  /** All but coalescing: tiling, tags, the free list, and stale headers never look in use. */
  ghost predicate Sound(hs: Headers, fs: map<int, Footer>, l: Layout, size: nat, order: seq<int>, start: int) {
    && Tiles(l, 0, size) && Tagged(hs, fs, l)
    && Chain(hs, order, start) && Elems(order) == FreeStarts(l)
    && InUseListed(hs, l)
  }

  /** What a broken free list leaves intact: tiling and tags. */
  ghost predicate Mapped(hs: Headers, fs: map<int, Footer>, l: Layout, size: nat) {
    Tiles(l, 0, size) && Tagged(hs, fs, l) && InUseListed(hs, l)
  }

  ghost predicate InUseListed(hs: Headers, l: Layout) {
    forall a :: InUse(hs, a) ==> StartsAt(l, a)
  }

  predicate InUse(hs: Headers, a: int) { a in hs && hs[a].state.BufInUse? }
  predicate StartsAt(l: Layout, a: int) { exists i :: 0 <= i < |l| && l[i].start == a }

  /** Replacing the blocks b..c by other blocks over the same bytes. */
  ghost predicate Replaces(l: Layout, b: nat, c: nat, mid: Layout, size: nat) {
    && b < c <= |l| && Tiles(l, 0, size) && Tiles(mid, l[b].start, l[c - 1].End())
  }

  function Splice(l: Layout, b: nat, c: nat, mid: Layout): Layout
    requires b <= c <= |l|
  {
    l[..b] + mid + l[c..]
  }

  lemma {:induction false} FrontTiles(l: Layout, b: nat, size: nat)
    requires b < |l| && Tiles(l, 0, size)
    ensures Tiles(l[..b], 0, l[b].start)
  {
    assert l == l[..b] + l[b..];
    var x := TilesApart(l[..b], l[b..], 0, size);
    assert l[b..][0] == l[b];
  }

  lemma {:induction false} BackTiles(l: Layout, c: nat, size: nat)
    requires 0 < c <= |l| && Tiles(l, 0, size)
    ensures Tiles(l[c..], l[c - 1].End(), size)
  {
    var front := l[..c];
    assert l == front + l[c..];
    var y := TilesApart(front, l[c..], 0, size);
    TilesOrdered(front, 0, y, c - 1, c - 1);
    assert front[c - 1] == l[c - 1];
  }

  lemma {:induction false} Replaced(l: Layout, b: nat, c: nat, mid: Layout, size: nat)
    requires Replaces(l, b, c, mid, size)
    ensures Tiles(Splice(l, b, c, mid), 0, size)
    ensures Tiles(l[..b], 0, l[b].start) && Tiles(l[c..], l[c - 1].End(), size)
  {
    FrontTiles(l, b, size);
    BackTiles(l, c, size);
    TilesTogether(mid, l[c..], l[b].start, l[c - 1].End(), size);
    TilesTogether(l[..b], mid + l[c..], 0, l[b].start, size);
    assert l[..b] + (mid + l[c..]) == l[..b] + mid + l[c..];
  }

  /** Tags of the replaced layout, given the tags of the new blocks. */
  lemma {:induction false} ReplacedTags(hs: Headers, fs: map<int, Footer>, hs': Headers, fs': map<int, Footer>,
                                        l: Layout, b: nat, c: nat, mid: Layout, size: nat)
    requires Replaces(l, b, c, mid, size)
    requires Tagged(hs, fs, l) && Tagged(hs', fs', mid) && TagsKept(hs, fs, hs', fs', l[b].start, l[c - 1].End())
    ensures Tagged(hs', fs', Splice(l, b, c, mid))
  {
    Replaced(l, b, c, mid, size);
    var lo, hi := l[b].start, l[c - 1].End();
    TaggedOutside(hs, fs, hs', fs', l[..b], 0, lo, lo, hi);
    var t := l[c..];
    assert forall i :: 0 <= i < |t| ==> t[i] == l[c + i];
    TaggedOutside(hs, fs, hs', fs', t, hi, size, lo, hi);
  }

  /** Free blocks outside b..c. */
  ghost function OtherFree(l: Layout, b: nat, c: nat): set<int>
    requires b <= c <= |l|
  {
    FreeStarts(l[..b]) + FreeStarts(l[c..])
  }

  lemma {:induction false} ReplacedFree(l: Layout, b: nat, c: nat, mid: Layout, size: nat)
    requires Replaces(l, b, c, mid, size)
    ensures FreeStarts(Splice(l, b, c, mid)) == OtherFree(l, b, c) + FreeStarts(mid)
    ensures FreeStarts(l) == OtherFree(l, b, c) + FreeStarts(l[b..c])
    ensures forall x :: x in OtherFree(l, b, c) ==> x < l[b].start || x >= l[c - 1].End()
  {
    Replaced(l, b, c, mid, size);
    FreeStartsConcat(l[..b] + mid, l[c..]);
    FreeStartsConcat(l[..b], mid);
    assert l == l[..b] + l[b..c] + l[c..];
    FreeStartsConcat(l[..b] + l[b..c], l[c..]);
    FreeStartsConcat(l[..b], l[b..c]);
    FreeStartsWithin(l[..b], 0, l[b].start);
    FreeStartsWithin(l[c..], l[c - 1].End(), size);
  }

  lemma {:induction false} ReplacedInUse(hs: Headers, hs': Headers, l: Layout, b: nat, c: nat, mid: Layout)
    requires InUseListed(hs, l) && b < c <= |l|
    requires forall a :: InUse(hs', a) ==> (InUse(hs, a) && !StartsAt(l[b..c], a)) || StartsAt(mid, a)
    ensures InUseListed(hs', Splice(l, b, c, mid))
  {
    var l' := Splice(l, b, c, mid);
    forall k | b <= k < c ensures StartsAt(l[b..c], l[k].start) { assert l[b..c][k - b].start == l[k].start; }
    forall a | InUse(hs', a) ensures StartsAt(l', a) {
      if i :| 0 <= i < |mid| && mid[i].start == a {
        assert l'[b + i].start == a;
      } else {
        var i :| 0 <= i < |l| && l[i].start == a;
        assert l'[if i < b then i else i - c + b + |mid|].start == a;
      }
    }
  }

  /** The layout half of Sound for a replaced layout. */
  lemma {:induction false} ReplacedSound(hs: Headers, fs: map<int, Footer>, hs': Headers, fs': map<int, Footer>,
                                         l: Layout, b: nat, c: nat, mid: Layout, size: nat)
    requires Replaces(l, b, c, mid, size) && Tagged(hs, fs, l) && InUseListed(hs, l)
    requires Tagged(hs', fs', mid) && TagsKept(hs, fs, hs', fs', l[b].start, l[c - 1].End())
    requires forall a :: InUse(hs', a) ==> (InUse(hs, a) && !StartsAt(l[b..c], a)) || StartsAt(mid, a)
    ensures var l' := Splice(l, b, c, mid);
            Tiles(l', 0, size) && Tagged(hs', fs', l') && InUseListed(hs', l')
  {
    Replaced(l, b, c, mid, size);
    ReplacedTags(hs, fs, hs', fs', l, b, c, mid, size);
    ReplacedInUse(hs, hs', l, b, c, mid);
  }

  class UsableArena {
    const size: nat
    const blockOffset: nat
    const blockCount: nat
    var headers: Headers
    var footers: map<int, Footer>
    var freeList: int
    ghost var layout: Layout
    ghost var order: seq<int>       // the free list, head first

    ghost predicate Ok()
      reads this
    {
      Sound(headers, footers, layout, size, order, freeList)
    }

    ghost predicate Tags()
      reads this
    {
      Mapped(headers, footers, layout, size)
    }

    /** Blocks tile the region, tags agree, no two neighbours are free, and the list holds exactly the free blocks. */
    ghost predicate Valid()
      reads this
    {
      Ok() && Coalesced(layout)
    }

    constructor (size: nat, blockOffset: nat, blockCount: nat)
      requires size >= HEADER + FOOTER
      ensures Valid() && layout == [Block(0, size, false)] && order == [0]
      ensures this.size == size && this.blockOffset == blockOffset && this.blockCount == blockCount
    {
      this.size, this.blockOffset, this.blockCount := size, blockOffset, blockCount;
      headers := map[0 := Header(BufFree, size, NONE, NONE)];
      footers := map[size - FOOTER := Footer(size, BufFree)];
      freeList := 0;
      layout, order := [Block(0, size, false)], [0];
    }

    /** The two tags of the block at h agree again; no other footer changes. */
    method SyncFooter(h: int)
      requires h in headers
      modifies this`footers
      ensures h >= 0 ==> TagOk(headers, footers, Block(h, headers[h].size, headers[h].state.BufInUse?))
      ensures footers == old(footers)[h + headers[h].size - FOOTER := Footer(headers[h].size, headers[h].state)]
    {
      footers := footers[h + headers[h].size - FOOTER := Footer(headers[h].size, headers[h].state)];
    }

    /** The writes of a split: shrink `walk`, tag the rest as a free block, link it behind `walk`. */
    method CutBlock(walk: int, needed: nat)
      requires walk in headers && needed <= headers[walk].size && NONE !in headers && walk >= 0 && needed >= 1
      modifies this`headers, this`footers
      ensures headers == SplitHeaders(old(headers), walk, needed)
      ensures footers == SplitFooters(old(headers), old(footers), walk, needed)
    {
      var remainder := headers[walk].size - needed;
      headers := headers[walk := headers[walk].(size := needed)];
      SyncFooter(walk);
      var rest := walk + needed;
      headers := headers[rest := Header(BufFree, remainder, NONE, NONE)];
      SyncFooter(rest);
      headers := headers[rest := headers[rest].(next := headers[walk].next, prev := walk)];
      if headers[walk].next != NONE { headers := SetPrev(headers, headers[walk].next, rest); }
      headers := SetNext(headers, walk, rest);
    }

    /** A split keeps everything but coalescing: the rest is a new free block right after `walk` in the list. */
    method Split(walk: int, needed: nat, ghost b: nat, ghost i: nat)
      requires Ok() && b < |layout| && layout[b].start == walk && !layout[b].used
      requires i < |order| && order[i] == walk
      requires HEADER + FOOTER <= needed && layout[b].size - needed >= MIN_SPLIT
      modifies this
      ensures Ok() && layout == SplitAt(old(layout), b, needed)
      ensures order == old(order)[..i + 1] + [walk + needed] + old(order)[i + 1..]
    {
      SplitKeepsSound(headers, footers, layout, size, order, freeList, b, i, needed);
      CutBlock(walk, needed);
      order := order[..i + 1] + [walk + needed] + order[i + 1..];
      layout := SplitAt(layout, b, needed);
    }

    /** The writes that bypass a block in the free list. */
    method BypassBlock(walk: int)
      requires walk in headers && NONE !in headers && headers[walk].prev != walk && headers[walk].next != walk
      modifies this`headers, this`freeList
      ensures headers == Unlink(old(headers), walk)
      ensures freeList == if old(headers)[walk].prev != NONE then old(freeList) else old(headers)[walk].next
    {
      if headers[walk].prev != NONE {
        headers := SetNext(headers, headers[walk].prev, headers[walk].next);
      } else {
        freeList := headers[walk].next;
      }
      if headers[walk].next != NONE {
        headers := SetPrev(headers, headers[walk].next, headers[walk].prev);
      }
    }

    /** The writes that take a block off the free list and mark it in use. */
    method TakeBlock(walk: int)
      requires walk in headers && NONE !in headers && headers[walk].prev != walk && headers[walk].next != walk
      modifies this`headers, this`footers, this`freeList
      ensures headers == TakeHeaders(old(headers), walk)
      ensures footers == TakeFooters(old(headers), old(footers), walk)
      ensures freeList == if old(headers)[walk].prev != NONE then old(freeList) else old(headers)[walk].next
    {
      BypassBlock(walk);
      headers := headers[walk := headers[walk].(prev := NONE)];
      headers := headers[walk := headers[walk].(next := NONE)];
      headers := headers[walk := headers[walk].(state := BufInUse)];
      SyncFooter(walk);
    }

    method Take(walk: int, ghost b: nat, ghost i: nat)
      requires Ok() && b < |layout| && layout[b].start == walk && !layout[b].used
      requires i < |order| && order[i] == walk
      modifies this
      ensures Ok() && layout == old(layout)[b := old(layout)[b].(used := true)] && order == Drop(old(order), i)
    {
      TakeKeepsSound(headers, footers, layout, size, order, freeList, b, i);
      TakeBlock(walk);
      order := Drop(order, i);
      layout := layout[b := layout[b].(used := true)];
    }

    /** First fit along the free list. */
    method FindFit(needed: nat) returns (walk: int, ghost i: nat)
      requires Ok()
      ensures i <= |order| && walk == (if i < |order| then order[i] else NONE)
      ensures forall j :: 0 <= j < i ==> headers[order[j]].size < needed
      ensures walk != NONE ==> walk in headers && headers[walk].state == BufFree && headers[walk].size >= needed
    {
      walk, i := freeList, 0;
      while walk != NONE
        invariant i <= |order| && walk == if i < |order| then order[i] else NONE
        invariant forall j :: 0 <= j < i ==> headers[order[j]].size < needed
        decreases |order| - i
      {
        ghost var b := ListedBlock(layout, order, i);
        assert TagOk(headers, footers, layout[b]);
        if headers[walk].state == BufFree && headers[walk].size >= needed { return; }
        assert headers[order[i]].next == Succ(order, i);
        walk := headers[walk].next;
        i := i + 1;
      }
    }

    /** Split the i-th block of the list if its rest is worth keeping, and hand it out. */
    method ClaimBlock(walk: int, needed: nat, ghost b: nat, ghost i: nat)
      requires Valid() && b < |layout| && layout[b].start == walk && !layout[b].used && i < |order| && order[i] == walk
      requires HEADER + FOOTER <= needed <= layout[b].size && walk in headers && headers[walk].size == layout[b].size
      modifies this
      ensures Valid() && Served(old(layout), b, needed, layout) && layout == Claim(old(layout), b, needed)
      ensures order == Relisted(old(layout), old(order), needed, b, i)
    {
      ClaimCoalesced(layout, b, needed);
      ClaimServes(layout, b, needed, Claim(layout, b, needed));
      RestListed(order, i, walk + needed);
      var remainder := headers[walk].size - needed;
      if remainder >= MIN_SPLIT { Split(walk, needed, b, i); }
      Take(walk, b, i);
    }

    /**
      * First-fit allocation. `b` is the block handed out, `i` its place in the free list. A request whose
      * sum overflows gets the first free block, whatever its size; what its overlapping tags leave behind is
      * not modelled, and nothing is promised about it.
      */
    method Allocate(request: Size) returns (buf: Buffer, ghost b: nat, ghost i: nat)
      requires Valid()
      modifies this
      ensures !buf.Wild? ==> Valid()
      ensures buf.NoBuffer? <==> Unmet(old(layout), request)
      ensures buf.NoBuffer? ==> unchanged(this)
      ensures !buf.NoBuffer? ==>
                && FirstFit(old(layout), old(order), Needed(request), b, i)
                && buf.data == old(layout)[b].start + HEADER && buf.size == AlignUp(request)
      ensures !buf.NoBuffer? ==> (buf.Wild? <==> SumWraps(request))
      ensures buf.Buffer? ==>
                && Served(old(layout), b, Needed(request), layout) && layout == Claim(old(layout), b, Needed(request))
                && buf.data + buf.size <= layout[b].Foot() && request <= buf.size && layout[b].size < Needed(request) + 64
                && order == Relisted(old(layout), old(order), Needed(request), b, i)
    {
      b, i := 0, 0;
      if request == 0 { return NoBuffer, b, i; }
      var aligned := AlignUp(request);
      if aligned == SIZE_MAX { return NoBuffer, b, i; }
      var needed := Wrap(HEADER + aligned + FOOTER);
      NeededWrapsIff(request);
      var walk;
      walk, i := FindFit(needed);
      if walk == NONE {
        NoneFits(headers, footers, layout, order, needed);
        return NoBuffer, b, i;
      }
      b := ListedBlock(layout, order, i);
      assert TagOk(headers, footers, layout[b]);
      WalkFitsFirst(headers, footers, layout, order, needed, b, i);
      if needed < HEADER + FOOTER { return Wild(walk + HEADER, aligned), b, i; }
      ClaimBlock(walk, needed, b, i);
      buf := Buffer(walk + HEADER, aligned);
    }

    /** The writes that merge the free right neighbour into h and take it off the list. */
    method AbsorbNext(h: int, next: int)
      requires h in headers && next in headers && h != next && NONE !in headers
      requires headers[next].prev != h && headers[next].next != h && headers[next].prev != next && headers[next].next != next
      modifies this`headers, this`footers, this`freeList
      ensures headers == AbsorbHeaders(old(headers), h, next)
      ensures footers == AbsorbFooters(old(headers), old(footers), h, next)
      ensures freeList == if old(headers)[next].prev != NONE then old(freeList) else old(headers)[next].next
    {
      headers := headers[h := headers[h].(size := headers[h].size + headers[next].size)];
      SyncFooter(h);
      BypassBlock(next);
    }

    /** h is free but not yet on the list; everything else is in order. */
    ghost predicate Loose(h: int)
      reads this
    {
      LooseAt(headers, footers, layout, size, order, freeList, h)
    }

    /** Mark a block in use as free, in both its tags. */
    method MarkFree(h: int, ghost b: nat)
      requires Ok() && b < |layout| && layout[b].start == h && layout[b].used
      modifies this`headers, this`footers, this`layout
      ensures Loose(h) && layout == old(layout)[b := old(layout)[b].(used := false)]
    {
      MarkKeeps(headers, footers, layout, size, order, freeList, b);
      assert TagOk(headers, footers, layout[b]);
      headers := headers[h := headers[h].(state := BufFree)];
      SyncFooter(h);
      layout := layout[b := layout[b].(used := false)];
    }

    /** Coalesce h with the block after it, if there is one and it is free. */
    method CoalesceNext(h: int, ghost b: nat)
      requires Loose(h) && b < |layout| && layout[b].start == h
      modifies this
      ensures Loose(h) && b < |layout| && layout[b].start == h
      ensures layout == if b + 1 < |old(layout)| && !old(layout)[b + 1].used then Merge(old(layout), b) else old(layout)
      ensures Unlisted(old(layout), b, old(order), order)
    {
      assert TagOk(headers, footers, layout[b]);
      NextBlock(layout, size, b);
      var next := h + headers[h].size;
      if next < size {
        assert TagOk(headers, footers, layout[b + 1]);
        if headers[next].state == BufFree {
          ghost var i := AbsorbKeeps(headers, footers, layout, size, order, freeList, b);
          AbsorbNext(h, next);
          order := Drop(order, i);
          layout := Merge(layout, b);
        }
      }
    }

    /** Put a block at the head of the free list, whatever the list holds. */
    method Insert(h: int)
      requires h in headers && NONE !in headers
      modifies this`headers, this`freeList
      ensures headers == PushFront(old(headers), h, old(freeList)) && freeList == h
    {
      headers := headers[h := headers[h].(next := freeList, prev := NONE)];
      if freeList != NONE { headers := SetPrev(headers, freeList, h); }
      freeList := h;
    }

    /** The writes that merge h into the block before it. */
    method GrowPrev(h: int, prev: int)
      requires h in headers && prev in headers
      modifies this`headers, this`footers
      ensures headers == GrownHeaders(old(headers), h, prev) && footers == AbsorbFooters(old(headers), old(footers), prev, h)
    {
      headers := headers[prev := headers[prev].(size := headers[prev].size + headers[h].size)];
      SyncFooter(prev);
    }

    /** h after a block in use, or at the start: it joins the list. */
    method InsertLoose(h: int)
      requires Loose(h) && h in headers
      modifies this
      ensures Ok() && layout == old(layout) && order == [h] + old(order)
    {
      PushKeeps(headers, footers, layout, size, order, freeList, h);
      Insert(h);
      order := [h] + order;
    }

    /** h after a free block: the tags become one block's, and that block is listed a second time. */
    method MergeIntoPrev(h: int, prev: int, ghost b: nat)
      requires Loose(h) && 0 < b < |layout| && layout[b].start == h && layout[b - 1].start == prev && !layout[b - 1].used
      requires h in headers && prev in headers
      modifies this
      ensures Broken(headers, freeList) && Tags() && layout == Merge(old(layout), b - 1)
    {
      RepushedForEver(headers, layout, size, order, freeList, b, headers[prev].size + headers[h].size);
      RepushKeepsTags(headers, footers, layout, size, freeList, b);
      GrowPrev(h, prev);
      Insert(prev);
      layout := Merge(layout, b - 1);
    }

    /** Coalesce h into the block before it if that is free, then insert the result into the list. */
    method CoalescePrevAndInsert(h: int, ghost b: nat)
      requires Loose(h) && b < |layout| && layout[b].start == h
      modifies this
      ensures !LeftFree(old(layout), b) ==> Ok() && layout == old(layout) && order == [h] + old(order)
      ensures LeftFree(old(layout), b) ==> Broken(headers, freeList) && Tags() && layout == Merge(old(layout), b - 1)
    {
      NextBlock(layout, size, b);
      assert TagOk(headers, footers, layout[b]) && (b > 0 ==> TagOk(headers, footers, layout[b - 1]));
      if h > 0 {
        var f := footers[h - FOOTER];
        if f.state == BufFree {
          var prev := h - f.size;
          if headers[prev].state == BufFree {
            MergeIntoPrev(h, prev, b);
            return;
          }
        }
      }
      InsertLoose(h);
    }

    /** Would a free find the block in front free? The test of its footer. */
    method BehindFree(data: int, ghost b: nat) returns (behind: bool)
      requires Ok() && b < |layout| && layout[b].start == data - HEADER
      ensures behind == LeftFree(layout, b)
    {
      var h := data - HEADER;
      NextBlock(layout, size, b);
      assert b > 0 ==> TagOk(headers, footers, layout[b - 1]);
      behind := h > 0 && footers[h - FOOTER].state == BufFree;
    }

    /**
      * Free a buffer. `b` is its block. With the left neighbour in use (or absent) the block and its
      * free right neighbour become one free block; with the left neighbour free, the tags are merged
      * too, but that neighbour is put on the list a second time and the list is broken for good.
      */
    method Free(data: int) returns (r: FreeResult, ghost b: nat)
      requires Valid() && data - HEADER in headers
      modifies this
      ensures r == DoubleFree <==> old(headers)[data - HEADER].state == BufFree
      ensures r == DoubleFree ==> unchanged(this)
      ensures r == Freed ==> b < |old(layout)| && old(layout)[b].start == data - HEADER && old(layout)[b].used
      ensures r == Freed && !LeftFree(old(layout), b) ==>
                && Valid() && Returned(old(layout), b, layout) && layout == Release(old(layout), b)
                && order != [] && order[0] == data - HEADER && Unlisted(old(layout), b, old(order), order[1..])
      ensures r == Freed && LeftFree(old(layout), b) ==>
                Broken(headers, freeList) && Tags() && layout == Merge(Release(old(layout), b), b - 1)
    {
      var h := data - HEADER;
      b := 0;
      if headers[h].state != BufInUse { return DoubleFree, b; }
      b := UsedBlock(headers, footers, layout, h);
      if !LeftFree(layout, b) { ReleaseCoalesced(layout, b); }
      ReleaseReturns(layout, b, Release(layout, b));
      ghost var l := layout;
      MarkFree(h, b);
      CoalesceNext(h, b);
      assert Unlisted(l, b, old(order), order);
      CoalescePrevAndInsert(h, b);
      r := Freed;
    }
  }

  /** A header that looks in use is that of a block in use. */
  lemma {:induction false} UsedBlock(hs: Headers, fs: map<int, Footer>, l: Layout, h: int) returns (b: nat)
    requires Tagged(hs, fs, l) && InUseListed(hs, l) && InUse(hs, h)
    ensures b < |l| && l[b].start == h && l[b].used
  {
    b :| 0 <= b < |l| && l[b].start == h;
    assert TagOk(hs, fs, l[b]);
  }

  lemma {:induction false} NoneFits(hs: Headers, fs: map<int, Footer>, l: Layout, order: seq<int>, needed: nat)
    requires Tagged(hs, fs, l) && Elems(order) == FreeStarts(l)
    requires forall j :: 0 <= j < |order| ==> order[j] in hs && hs[order[j]].size < needed
    ensures forall j :: 0 <= j < |l| ==> l[j].used || l[j].size < needed
  {
    forall j | 0 <= j < |l| && !l[j].used ensures l[j].size < needed {
      assert TagOk(hs, fs, l[j]);
      FreeStartsAre(l, l[j].start);
      assert (l[j].start as int) in Elems(order);
    }
  }

  /** The walk along the list reads the sizes of the layout. */
  lemma {:induction false} WalkFitsFirst(hs: Headers, fs: map<int, Footer>, l: Layout, order: seq<int>, needed: nat, b: nat, i: nat)
    requires Tagged(hs, fs, l) && b < |l| && !l[b].used && l[b].size >= needed && i < |order| && order[i] == l[b].start
    requires forall j :: 0 <= j < i ==> order[j] in hs && hs[order[j]].size < needed
    ensures FirstFit(l, order, needed, b, i)
  {
    forall j, k | 0 <= j < i && 0 <= k < |l| && l[k].start == order[j] ensures l[k].size < needed {
      assert TagOk(hs, fs, l[k]);
    }
  }

  /** A rest inserted behind its block takes over the block's place when that leaves. */
  lemma {:induction false} RestListed(order: seq<int>, i: nat, rest: int)
    requires i < |order|
    ensures Drop(order[..i + 1] + [rest] + order[i + 1..], i) == order[i := rest]
  {
  }

  lemma {:induction false} ClaimCoalesced(l: Layout, b: nat, needed: nat)
    requires Coalesced(l) && b < |l| && !l[b].used && needed <= l[b].size
    ensures Coalesced(Claim(l, b, needed))
  {
    var r := Claim(l, b, needed);
    var extra := if l[b].size - needed >= MIN_SPLIT then 1 else 0;
    assert PairOk(l, b) && (b > 0 ==> PairOk(l, b - 1));
    forall i: nat | i < |r| ensures PairOk(r, i) {
      if i < b { assert PairOk(l, i); } else if i > b + extra { assert PairOk(l, i - extra); }
    }
  }

  function Unlink(hs: Headers, walk: int): Headers
    requires walk in hs
  {
    SetPrev(SetNext(hs, hs[walk].prev, hs[walk].next), hs[walk].next, hs[walk].prev)
  }

  function TakeHeaders(hs: Headers, walk: int): Headers
    requires walk in hs
  {
    var u := Unlink(hs, walk);
    u[walk := u[walk].(next := NONE, prev := NONE, state := BufInUse)]
  }

  function TakeFooters(hs: Headers, fs: map<int, Footer>, walk: int): map<int, Footer>
    requires walk in hs
  {
    fs[walk + hs[walk].size - FOOTER := Footer(hs[walk].size, BufInUse)]
  }

  /** The block of a listed address. */
  lemma {:induction false} ListedBlock(l: Layout, order: seq<int>, i: nat) returns (b: nat)
    requires Elems(order) == FreeStarts(l) && i < |order|
    ensures b < |l| && l[b].start == order[i] && !l[b].used
  {
    assert order[i] in Elems(order);
    FreeStartsAre(l, order[i]);
    b :| 0 <= b < |l| && !l[b].used && l[b].start == order[i];
  }

  lemma {:induction false} TakeKeepsSound(hs: Headers, fs: map<int, Footer>, l: Layout, size: nat, order: seq<int>, start: int, b: nat, i: nat)
    requires Sound(hs, fs, l, size, order, start) && b < |l| && !l[b].used && i < |order| && order[i] == l[b].start
    ensures var walk := l[b].start;
            && walk in hs && hs[walk].prev != walk && hs[walk].next != walk
            && Sound(TakeHeaders(hs, walk), TakeFooters(hs, fs, walk), l[b := l[b].(used := true)], size, Drop(order, i),
                     if hs[walk].prev != NONE then start else hs[walk].next)
  {
    var walk := l[b].start;
    assert TagOk(hs, fs, l[b]);
    TilesOrdered(l, 0, size, b, b);
    assert hs[order[i]].prev == Pred(order, i) && hs[order[i]].next == Succ(order, i);
    TakeChain(hs, order, start, i);
    var hs', fs', mid := TakeHeaders(hs, walk), TakeFooters(hs, fs, walk), [l[b].(used := true)];
    assert TagOk(hs', fs', mid[0]);
    Restated(hs, fs, hs', fs', l, b, true, size);
    DropElems(order, i);
  }

  /** Rewriting the tags of one block to change its state only. */
  lemma {:induction false} Restated(hs: Headers, fs: map<int, Footer>, hs': Headers, fs': map<int, Footer>, l: Layout, b: nat, used: bool, size: nat)
    requires Tiles(l, 0, size) && Tagged(hs, fs, l) && InUseListed(hs, l) && b < |l|
    requires TagOk(hs', fs', l[b].(used := used)) && TagsKept(hs, fs, hs', fs', l[b].start, l[b].End())
    requires forall a :: InUse(hs', a) ==> InUse(hs, a) || a == l[b].start
    ensures var l' := l[b := l[b].(used := used)];
            && Tiles(l', 0, size) && Tagged(hs', fs', l') && InUseListed(hs', l')
            && FreeStarts(l') == if used then FreeStarts(l) - {l[b].start as int} else FreeStarts(l) + {l[b].start as int}
  {
    var mid := [l[b].(used := used)];
    TilesOrdered(l, 0, size, b, b);
    assert mid[1..] == [] && l[b..b + 1] == [l[b]];
    assert l[b := l[b].(used := used)] == Splice(l, b, b + 1, mid);
    assert mid[0].start == l[b].start;
    ReplacedSound(hs, fs, hs', fs', l, b, b + 1, mid, size);
    ReplacedFree(l, b, b + 1, mid, size);
    FreeStartsOne(l[b]);
    FreeStartsOne(mid[0]);
  }

  lemma {:induction false} TakeChain(hs: Headers, order: seq<int>, start: int, i: nat)
    requires Chain(hs, order, start) && i < |order|
    ensures Chain(TakeHeaders(hs, order[i]), Drop(order, i), if hs[order[i]].prev != NONE then start else hs[order[i]].next)
  {
    Bypassed(hs, order, start, i);
    DropElems(order, i);
    assert forall j :: 0 <= j < |Drop(order, i)| ==> Drop(order, i)[j] in Elems(Drop(order, i));
    ChainFrame(Unlink(hs, order[i]), TakeHeaders(hs, order[i]), Drop(order, i),
               if hs[order[i]].prev != NONE then start else hs[order[i]].next);
  }

  /** What the split writes into headers and footers. */
  function SplitHeaders(hs: Headers, walk: int, needed: nat): Headers
    requires walk in hs && needed <= hs[walk].size
  {
    var resized := hs[walk := hs[walk].(size := needed)];
    InsertAfter(resized[walk + needed := Header(BufFree, hs[walk].size - needed, NONE, NONE)], walk, walk + needed)
  }

  function SplitFooters(hs: Headers, fs: map<int, Footer>, walk: int, needed: nat): map<int, Footer>
    requires walk in hs && needed <= hs[walk].size
  {
    fs[walk + needed - FOOTER := Footer(needed, hs[walk].state)]
      [walk + hs[walk].size - FOOTER := Footer(hs[walk].size - needed, BufFree)]
  }

  lemma {:induction false} ElemsInserted(order: seq<int>, i: nat, x: int)
    requires i < |order|
    ensures Elems(order[..i + 1] + [x] + order[i + 1..]) == Elems(order) + {x}
  {
    var a, b := order[..i + 1], order[i + 1..];
    assert order == a + b;
  }

  lemma {:induction false} SplitKeepsSound(hs: Headers, fs: map<int, Footer>, l: Layout, size: nat, order: seq<int>, start: int,
                                           b: nat, i: nat, needed: nat)
    requires Sound(hs, fs, l, size, order, start) && b < |l| && !l[b].used && i < |order| && order[i] == l[b].start
    requires HEADER + FOOTER <= needed && l[b].size - needed >= MIN_SPLIT
    ensures l[b].start in hs && needed <= hs[l[b].start].size
    ensures Sound(SplitHeaders(hs, l[b].start, needed), SplitFooters(hs, fs, l[b].start, needed), SplitAt(l, b, needed), size,
                  order[..i + 1] + [l[b].start + needed] + order[i + 1..], start)
  {
    var walk, rest := l[b].start, l[b].start + needed;
    assert TagOk(hs, fs, l[b]);
    TilesOrdered(l, 0, size, b, b);
    RestIsNew(l, size, b, rest, order);
    SplitChain(hs, order, start, i, needed);
    SplitTags(hs, fs, l, size, b, needed);
    ElemsInserted(order, i, rest);
  }

  lemma {:induction false} SplitTags(hs: Headers, fs: map<int, Footer>, l: Layout, size: nat, b: nat, needed: nat)
    requires Mapped(hs, fs, l, size) && b < |l| && !l[b].used
    requires HEADER + FOOTER <= needed && l[b].size - needed >= MIN_SPLIT
    ensures l[b].start in hs && needed <= hs[l[b].start].size
    ensures Mapped(SplitHeaders(hs, l[b].start, needed), SplitFooters(hs, fs, l[b].start, needed), SplitAt(l, b, needed), size)
    ensures FreeStarts(SplitAt(l, b, needed)) == FreeStarts(l) + {l[b].start + needed}
  {
    var walk, rest := l[b].start, l[b].start + needed;
    assert TagOk(hs, fs, l[b]);
    TilesOrdered(l, 0, size, b, b);
    var mid := [Block(walk, needed, false), Block(rest, l[b].size - needed, false)];
    var hs', fs' := SplitHeaders(hs, walk, needed), SplitFooters(hs, fs, walk, needed);
    assert TagOk(hs', fs', mid[0]) && TagOk(hs', fs', mid[1]);
    SplitSound(hs, fs, hs', fs', l, size, b, needed, mid);
  }

  lemma {:induction false} SplitChain(hs: Headers, order: seq<int>, start: int, i: nat, needed: nat)
    requires Chain(hs, order, start) && i < |order| && order[i] >= 0 && needed <= hs[order[i]].size
    requires order[i] + needed !in order
    ensures Chain(SplitHeaders(hs, order[i], needed), order[..i + 1] + [order[i] + needed] + order[i + 1..], start)
  {
    var walk, rest := order[i], order[i] + needed;
    var hs2 := hs[walk := hs[walk].(size := needed)][rest := Header(BufFree, hs[walk].size - needed, NONE, NONE)];
    assert forall j :: 0 <= j < |order| ==> order[j] in order && order[j] != rest;
    ChainFrame(hs, hs2, order, start);
    InsertedAfter(hs2, order, start, i, rest);
  }

  lemma {:induction false} SplitTiles(blk: Block, needed: nat, mid: Layout)
    requires HEADER + FOOTER <= needed && blk.size - needed >= MIN_SPLIT
    requires mid == [Block(blk.start, needed, false), Block(blk.start + needed, blk.size - needed, false)]
    ensures Tiles(mid, blk.start, blk.End())
    ensures FreeStarts(mid) == {blk.start as int, blk.start + needed}
  {
    assert mid == [mid[0]] + [mid[1]];
    assert mid[1..] == [mid[1]] && mid[1..][1..] == [];
    FreeStartsConcat([mid[0]], [mid[1]]);
    FreeStartsOne(mid[0]);
    FreeStartsOne(mid[1]);
  }

  /** An address strictly inside a free block is no block's start. */
  lemma {:induction false} RestIsNew(l: Layout, size: nat, b: nat, rest: int, order: seq<int>)
    requires Tiles(l, 0, size) && b < |l| && l[b].start < rest < l[b].End() && Elems(order) == FreeStarts(l)
    ensures rest !in order && forall j :: 0 <= j < |l| ==> l[j].start != rest
  {
    forall j | 0 <= j < |l| ensures l[j].start != rest {
      if j < b { TilesOrdered(l, 0, size, j, b); } else { TilesOrdered(l, 0, size, b, j); }
    }
    FreeStartsAre(l, rest);
    assert rest !in Elems(order);
  }

  lemma {:induction false} SplitSound(hs: Headers, fs: map<int, Footer>, hs': Headers, fs': map<int, Footer>,
                                      l: Layout, size: nat, b: nat, needed: nat, mid: Layout)
    requires Tiles(l, 0, size) && Tagged(hs, fs, l) && InUseListed(hs, l) && b < |l| && !l[b].used
    requires HEADER + FOOTER <= needed && l[b].size - needed >= MIN_SPLIT
    requires mid == [Block(l[b].start, needed, false), Block(l[b].start + needed, l[b].size - needed, false)]
    requires Tagged(hs', fs', mid) && TagsKept(hs, fs, hs', fs', l[b].start, l[b].End())
    requires forall a :: InUse(hs', a) ==> InUse(hs, a)
    ensures var l' := SplitAt(l, b, needed);
            && Tiles(l', 0, size) && Tagged(hs', fs', l') && InUseListed(hs', l')
            && FreeStarts(l') == FreeStarts(l) + {l[b].start + needed}
  {
    SplitTiles(l[b], needed, mid);
    assert TagOk(hs, fs, l[b]);
    SplitInUse(hs, hs', l, b);
    ReplacedSound(hs, fs, hs', fs', l, b, b + 1, mid, size);
    assert l[b..b + 1] == [l[b]];
    ReplacedFree(l, b, b + 1, mid, size);
    FreeStartsOne(l[b]);
  }

  lemma {:induction false} SplitInUse(hs: Headers, hs': Headers, l: Layout, b: nat)
    requires b < |l| && l[b].start in hs && hs[l[b].start].state == BufFree
    requires forall a :: InUse(hs', a) ==> InUse(hs, a)
    ensures forall a :: InUse(hs', a) ==> InUse(hs, a) && !StartsAt(l[b..b + 1], a)
  {
    assert l[b..b + 1] == [l[b]];
  }

  /** The free list loses the right neighbour of block b if that is free, and keeps its order. */
  ghost predicate Unlisted(l: Layout, b: nat, order: seq<int>, order': seq<int>) {
    if b + 1 < |l| && !l[b + 1].used then exists i: nat :: i < |order| && order[i] == l[b + 1].start && order' == Drop(order, i)
    else order' == order
  }

  predicate LeftFree(l: Layout, b: nat) { 0 < b < |l| && !l[b - 1].used }

  ghost predicate LooseAt(hs: Headers, fs: map<int, Footer>, l: Layout, size: nat, order: seq<int>, start: int, h: int) {
    && Tiles(l, 0, size) && Tagged(hs, fs, l) && InUseListed(hs, l)
    && Chain(hs, order, start) && h in FreeStarts(l) && Elems(order) == FreeStarts(l) - {h}
  }

  lemma {:induction false} MarkKeeps(hs: Headers, fs: map<int, Footer>, l: Layout, size: nat, order: seq<int>, start: int, b: nat)
    requires Sound(hs, fs, l, size, order, start) && b < |l| && l[b].used
    ensures var h := l[b].start;
            h in hs && LooseAt(hs[h := hs[h].(state := BufFree)], fs[h + hs[h].size - FOOTER := Footer(hs[h].size, BufFree)],
                               l[b := l[b].(used := false)], size, order, start, h)
  {
    var h := l[b].start;
    assert TagOk(hs, fs, l[b]);
    TilesOrdered(l, 0, size, b, b);
    var hs', fs' := hs[h := hs[h].(state := BufFree)], fs[h + hs[h].size - FOOTER := Footer(hs[h].size, BufFree)];
    Restated(hs, fs, hs', fs', l, b, false, size);
    NotFreeStart(l, size, b);
    ChainFrame(hs, hs', order, start);
  }

  lemma {:induction false} NotFreeStart(l: Layout, size: nat, b: nat)
    requires Tiles(l, 0, size) && b < |l| && l[b].used
    ensures (l[b].start as int) !in FreeStarts(l)
  {
    FreeStartsAre(l, l[b].start);
    forall j | 0 <= j < |l| && j != b ensures l[j].start != l[b].start {
      if j < b { TilesOrdered(l, 0, size, j, b); } else { TilesOrdered(l, 0, size, b, j); }
    }
  }

  /** The end of block b is the start of block b + 1, or of nothing. */
  lemma {:induction false} NextBlock(l: Layout, size: nat, b: nat)
    requires Tiles(l, 0, size) && b < |l|
    ensures l[b].End() < size <==> b + 1 < |l|
    ensures b + 1 < |l| ==> l[b].End() == l[b + 1].start
    ensures b > 0 ==> l[b].start > 0 && l[b - 1].Foot() == l[b].start - FOOTER && l[b - 1].End() == l[b].start
    ensures b == 0 ==> l[b].start == 0
  {
    TilesOrdered(l, 0, size, b, b);
    if b + 1 < |l| { TilesOrdered(l, 0, size, b, b + 1); }
    if b > 0 { TilesOrdered(l, 0, size, b - 1, b); }
  }

  function AbsorbHeaders(hs: Headers, h: int, next: int): Headers
    requires h in hs && next in hs
  {
    Unlink(hs[h := hs[h].(size := hs[h].size + hs[next].size)], next)
  }

  function AbsorbFooters(hs: Headers, fs: map<int, Footer>, h: int, next: int): map<int, Footer>
    requires h in hs && next in hs
  {
    fs[h + (hs[h].size + hs[next].size) - FOOTER := Footer(hs[h].size + hs[next].size, hs[h].state)]
  }

  /** Absorbing the free right neighbour of a loose block; `i` is the neighbour's place in the list. */
  lemma {:induction false} AbsorbKeeps(hs: Headers, fs: map<int, Footer>, l: Layout, size: nat, order: seq<int>, start: int, b: nat)
      returns (i: nat)
    requires b + 1 < |l| && LooseAt(hs, fs, l, size, order, start, l[b].start) && !l[b + 1].used
    ensures var h, next := l[b].start, l[b + 1].start;
            && i < |order| && order[i] == next && h in hs && next in hs && h != next
            && hs[next].prev != h && hs[next].next != h && hs[next].prev != next && hs[next].next != next
            && LooseAt(AbsorbHeaders(hs, h, next), AbsorbFooters(hs, fs, h, next), Merge(l, b), size, Drop(order, i),
                       if hs[next].prev != NONE then start else hs[next].next, h)
  {
    var h, next := l[b].start, l[b + 1].start;
    assert TagOk(hs, fs, l[b]) && TagOk(hs, fs, l[b + 1]);
    TilesOrdered(l, 0, size, b, b + 1);
    if l[b].used { NotFreeStart(l, size, b); }
    FreeStartsAre(l, next);
    assert (next as int) in Elems(order) && (h as int) !in Elems(order);
    i :| 0 <= i < |order| && order[i] == next;
    assert hs[order[i]].prev == Pred(order, i) && hs[order[i]].next == Succ(order, i);
    assert forall j :: 0 <= j < |order| ==> order[j] in Elems(order);
    AbsorbChain(hs, order, start, i, h);
    MergeSound(hs, fs, l, b, size);
    DropElems(order, i);
  }

  lemma {:induction false} AbsorbChain(hs: Headers, order: seq<int>, start: int, i: nat, h: int)
    requires Chain(hs, order, start) && i < |order| && h in hs && h !in order
    ensures Chain(AbsorbHeaders(hs, h, order[i]), Drop(order, i), if hs[order[i]].prev != NONE then start else hs[order[i]].next)
  {
    var hs1 := hs[h := hs[h].(size := hs[h].size + hs[order[i]].size)];
    ChainFrame(hs, hs1, order, start);
    Bypassed(hs1, order, start, i);
  }

  lemma {:induction false} MergeSound(hs: Headers, fs: map<int, Footer>, l: Layout, b: nat, size: nat)
    requires Tiles(l, 0, size) && Tagged(hs, fs, l) && InUseListed(hs, l) && b + 1 < |l| && !l[b].used && !l[b + 1].used
    requires l[b].start in hs && l[b + 1].start in hs
    ensures var hs', fs' := AbsorbHeaders(hs, l[b].start, l[b + 1].start), AbsorbFooters(hs, fs, l[b].start, l[b + 1].start);
            && Tiles(Merge(l, b), 0, size) && Tagged(hs', fs', Merge(l, b)) && InUseListed(hs', Merge(l, b))
            && FreeStarts(Merge(l, b)) == FreeStarts(l) - {l[b + 1].start as int}
            && (l[b].start as int) in FreeStarts(Merge(l, b))
  {
    var hs', fs' := AbsorbHeaders(hs, l[b].start, l[b + 1].start), AbsorbFooters(hs, fs, l[b].start, l[b + 1].start);
    var one := l[b].(size := l[b].size + l[b + 1].size);
    assert TagOk(hs, fs, l[b]) && TagOk(hs, fs, l[b + 1]);
    MergeReplaces(l, b, size);
    assert TagOk(hs', fs', one);
    MergedInUse(hs, l, b);
    ReplacedSound(hs, fs, hs', fs', l, b, b + 2, [one], size);
    MergeFree(l, b, size);
  }

  lemma {:induction false} MergeReplaces(l: Layout, b: nat, size: nat)
    requires Tiles(l, 0, size) && b + 1 < |l|
    ensures var mid := [l[b].(size := l[b].size + l[b + 1].size)];
            Replaces(l, b, b + 2, mid, size) && Merge(l, b) == Splice(l, b, b + 2, mid) && l[b].End() == l[b + 1].start
  {
    var mid := [l[b].(size := l[b].size + l[b + 1].size)];
    TilesOrdered(l, 0, size, b, b + 1);
    assert mid[1..] == [];
  }

  lemma {:induction false} MergeFree(l: Layout, b: nat, size: nat)
    requires Tiles(l, 0, size) && b + 1 < |l| && !l[b].used && !l[b + 1].used
    ensures FreeStarts(Merge(l, b)) == FreeStarts(l) - {l[b + 1].start as int}
    ensures (l[b].start as int) in FreeStarts(Merge(l, b))
  {
    var one := l[b].(size := l[b].size + l[b + 1].size);
    MergeReplaces(l, b, size);
    TilesOrdered(l, 0, size, b, b + 1);
    ReplacedFree(l, b, b + 2, [one], size);
    assert l[b..b + 2] == [l[b]] + [l[b + 1]];
    FreeStartsConcat([l[b]], [l[b + 1]]);
    FreeStartsOne(l[b]);
    FreeStartsOne(l[b + 1]);
    FreeStartsOne(one);
  }

  lemma {:induction false} MergedInUse(hs: Headers, l: Layout, b: nat)
    requires b + 1 < |l| && l[b].start in hs && l[b + 1].start in hs
    requires hs[l[b].start].state == BufFree && hs[l[b + 1].start].state == BufFree
    ensures forall a :: InUse(AbsorbHeaders(hs, l[b].start, l[b + 1].start), a) ==> InUse(hs, a) && !StartsAt(l[b..b + 2], a)
  {
    assert l[b..b + 2] == [l[b], l[b + 1]];
  }

  lemma {:induction false} PushKeeps(hs: Headers, fs: map<int, Footer>, l: Layout, size: nat, order: seq<int>, start: int, h: int)
    requires LooseAt(hs, fs, l, size, order, start, h) && h in hs
    ensures Sound(PushFront(hs, h, start), fs, l, size, [h] + order, h)
  {
    assert h !in Elems(order);
    Pushed(hs, order, start, h);
    var hs' := PushFront(hs, h, start);
    assert Elems([h] + order) == Elems(order) + {h};
    forall i | 0 <= i < |l| ensures TagOk(hs', fs, l[i]) { assert TagOk(hs, fs, l[i]); }
    assert forall a :: InUse(hs', a) ==> InUse(hs, a);
  }

  /** With a free left neighbour the insertion re-pushes a block that is on the list already, whatever its new size. */
  lemma {:induction false} RepushedForEver(hs: Headers, l: Layout, size: nat, order: seq<int>, start: int, b: nat, grown: nat)
    requires 0 < b < |l| && !l[b - 1].used && Tiles(l, 0, size)
    requires Chain(hs, order, start) && Elems(order) == FreeStarts(l) - {l[b].start as int}
    ensures var prev := l[b - 1].start;
            prev in hs && Broken(PushFront(hs[prev := hs[prev].(size := grown)], prev, start), prev)
  {
    var prev := l[b - 1].start;
    TilesOrdered(l, 0, size, b - 1, b);
    FreeStartsAre(l, prev);
    assert (prev as int) in Elems(order);
    var i :| 0 <= i < |order| && order[i] == prev;
    var hs1 := hs[prev := hs[prev].(size := grown)];
    ChainFrame(hs, hs1, order, start);
    forall o ensures !Chain(PushFront(hs1, prev, start), o, prev) { RepushBreaks(hs1, order, start, i, o); }
  }

  predicate SameTag(hs: Headers, hs': Headers, a: int) {
    (a in hs <==> a in hs') && (a in hs ==> a in hs' && hs'[a].size == hs[a].size && hs'[a].state == hs[a].state)
  }

  /** Tiling and tags do not depend on the links. */
  lemma {:induction false} LinksAside(hs: Headers, hs': Headers, fs: map<int, Footer>, l: Layout, size: nat)
    requires Mapped(hs, fs, l, size) && forall a :: SameTag(hs, hs', a)
    ensures Mapped(hs', fs, l, size)
  {
    forall i | 0 <= i < |l| ensures TagOk(hs', fs, l[i]) {
      assert TagOk(hs, fs, l[i]) && SameTag(hs, hs', l[i].start);
    }
    forall a | InUse(hs', a) ensures StartsAt(l, a) { assert SameTag(hs, hs', a) && InUse(hs, a); }
  }

  lemma {:induction false} PushedTags(hs: Headers, node: int, start: int, a: int)
    requires node in hs
    ensures SameTag(hs, PushFront(hs, node, start), a)
  {
  }

  lemma {:induction false} UnlinkedTags(hs: Headers, node: int, a: int)
    requires node in hs
    ensures SameTag(hs, Unlink(hs, node), a)
  {
  }

  /** The block at prev grown by the block at h. */
  function GrownHeaders(hs: Headers, h: int, prev: int): Headers
    requires h in hs && prev in hs
  {
    hs[prev := hs[prev].(size := hs[prev].size + hs[h].size)]
  }

  lemma {:induction false} SameTags(hs: Headers, h: int, prev: int, start: int)
    requires h in hs && prev in hs
    ensures forall a :: SameTag(Unlink(hs, h), PushFront(hs, prev, start), a)
  {
    forall a ensures SameTag(Unlink(hs, h), PushFront(hs, prev, start), a) {
      PushedTags(hs, prev, start, a);
      UnlinkedTags(hs, h, a);
    }
  }

  /** With a free left neighbour the two blocks become one in the tags, whatever happens to the list. */
  lemma {:induction false} RepushKeepsTags(hs: Headers, fs: map<int, Footer>, l: Layout, size: nat, start: int, b: nat)
    requires Mapped(hs, fs, l, size) && 0 < b < |l| && !l[b - 1].used && (l[b].start as int) in FreeStarts(l)
    ensures var prev, h := l[b - 1].start, l[b].start;
            && prev in hs && h in hs
            && Mapped(PushFront(GrownHeaders(hs, h, prev), prev, start), AbsorbFooters(hs, fs, prev, h), Merge(l, b - 1), size)
  {
    var prev, h := l[b - 1].start, l[b].start;
    assert TagOk(hs, fs, l[b - 1]) && TagOk(hs, fs, l[b]);
    if l[b].used { NotFreeStart(l, size, b); }
    MergeSound(hs, fs, l, b - 1, size);
    var hs1 := GrownHeaders(hs, h, prev);
    SameTags(hs1, h, prev, start);
    LinksAside(Unlink(hs1, h), PushFront(hs1, prev, start), AbsorbFooters(hs, fs, prev, h), Merge(l, b - 1), size);
  }

  lemma {:induction false} ReleaseCoalesced(l: Layout, b: nat)
    requires Coalesced(l) && b < |l| && l[b].used && !LeftFree(l, b)
    ensures Coalesced(Release(l, b))
  {
    var r := Release(l, b);
    var fewer := |l| - |r|;
    assert b + 1 < |l| ==> PairOk(l, b + 1);
    forall i: nat | i < |r| ensures PairOk(r, i) {
      if i + 1 < b { assert PairOk(l, i); } else if i > b { assert PairOk(l, i + fewer); }
    }
  }

  /** Freeing the buffer just allocated is always safe and restores the layout block for block. */
  lemma {:induction false} AllocateThenFree(l: Layout, b: nat, needed: nat)
    requires Coalesced(l) && b < |l| && !l[b].used && needed <= l[b].size
    ensures var m := Claim(l, b, needed);
            b < |m| && m[b].used && !LeftFree(m, b) && Release(m, b) == l
  {
    assert PairOk(l, b) && (b > 0 ==> PairOk(l, b - 1));
    var m := Claim(l, b, needed);
    if l[b].size - needed >= MIN_SPLIT {
      assert m[b + 1] == Block(l[b].start + needed, l[b].size - needed, false);
      assert Release(m, b)[b] == l[b];
      assert m[b + 2..] == l[b + 1..];
    }
    assert Release(m, b) == l;
  }

  /** A request of 2^64 - 63 bytes is granted in a region of 512. */
  method WildClaim() returns (ua: UsableArena, buf: Buffer)
    ensures ua.size == 512 && buf == Wild(HEADER, WORD - 56)
  {
    ua := new UsableArena(512, 0, 1);
    NeededWrapsIff(WORD - 63);
    ghost var b, i;
    assert ua.layout[0] == Block(0, 512, false);
    buf, b, i := ua.Allocate(WORD - 63);
  }

  /** The layouts of two allocations of 8 bytes in a region of 512, and of freeing the first. */
  lemma {:induction false} ThreeLayouts(l0: Layout, l1: Layout, l2: Layout, l3: Layout)
    requires l0 == [Block(0, 512, false)] && l1 == [Block(0, 64, true), Block(64, 448, false)]
    requires l2 == [Block(0, 64, true), Block(64, 64, true), Block(128, 384, false)] && l3 == l2[0 := Block(0, 64, false)]
    ensures Claim(l0, 0, 64) == l1 && Claim(l1, 1, 64) == l2 && Release(l2, 0) == l3
  {
    assert SplitAt(l0, 0, 64) == [Block(0, 64, false), Block(64, 448, false)];
    assert SplitAt(l1, 1, 64) == [Block(0, 64, true), Block(64, 64, false), Block(128, 384, false)];
  }

  lemma {:induction false} EightBytes()
    ensures AlignUp(8) == 8 && Needed(8) == 64 && !SumWraps(8)
  {
    NeededWrapsIff(8);
  }

  /** Allocate 8 bytes when only the last block is free. */
  method AllocateLast(ua: UsableArena, ghost l: Layout) returns (buf: Buffer)
    requires ua.Valid() && l == ua.layout && l != [] && !l[|l| - 1].used && l[|l| - 1].size >= 64
    requires forall j :: 0 <= j < |l| - 1 ==> l[j].used
    modifies ua
    ensures ua.Valid() && ua.layout == Claim(l, |l| - 1, 64) && buf == Buffer(l[|l| - 1].start + HEADER, 8)
  {
    EightBytes();
    ghost var b, i;
    buf, b, i := ua.Allocate(8);
    assert b == |l| - 1;
  }

  /** Two allocations freed in the order they were made: the second free breaks the list. */
  method FreeInOrderBreaks() returns (ua: UsableArena)
    ensures Broken(ua.headers, ua.freeList)
  {
    ua := new UsableArena(512, 0, 1);
    ghost var l0 := ua.layout;
    ghost var l1 := [Block(0, 64, true), Block(64, 448, false)];
    ghost var l2 := [Block(0, 64, true), Block(64, 64, true), Block(128, 384, false)];
    ghost var l3 := l2[0 := Block(0, 64, false)];
    ThreeLayouts(l0, l1, l2, l3);
    var first := AllocateLast(ua, l0);
    var second := AllocateLast(ua, l1);
    FreeTwo(ua, first.data, second.data, l2, l3);
  }

  method FreeTwo(ua: UsableArena, first: int, second: int, ghost l: Layout, ghost l': Layout)
    requires ua.Valid() && ua.layout == l && |l| >= 2 && l[0].used && l[1].used && Release(l, 0) == l' == l[0 := l'[0]]
    requires |l'| > 1 && !l'[0].used && l[0].start + HEADER == first && l[1].start + HEADER == second
    modifies ua
    ensures Broken(ua.headers, ua.freeList)
  {
    ghost var b;
    var r;
    assert TagOk(ua.headers, ua.footers, l[0]);
    r, b := ua.Free(first);
    assert b == 0 by { SameStart(l, ua.size, b, 0); }
    assert l'[1] == l[1];
    assert TagOk(ua.headers, ua.footers, l'[1]);
    r, b := ua.Free(second);
    assert b == 1 by { SameStart(l', ua.size, b, 1); }
  }

  lemma {:induction false} SameStart(l: Layout, size: nat, i: nat, j: nat)
    requires Tiles(l, 0, size) && i < |l| && j < |l| && l[i].start == l[j].start
    ensures i == j
  {
    if i < j { TilesOrdered(l, 0, size, i, j); }
    if j < i { TilesOrdered(l, 0, size, j, i); }
  }

  /** In every valid state the payload of a block is clear of every other block and of all tags. */
  lemma {:induction false} LivePayloadsDisjoint(ua: UsableArena, i: nat, j: nat)
    requires ua.Valid() && i < |ua.layout| && j < |ua.layout| && i != j
    ensures var a, b := ua.layout[i], ua.layout[j];
            && a.End() <= ua.size && a.start + HEADER <= a.Foot()
            && (a.Foot() <= b.start || b.End() <= a.start + HEADER)
  {
    PayloadsDisjoint(ua.layout, 0, ua.size, i, j);
    TilesOrdered(ua.layout, 0, ua.size, i, i);
  }
}
