/** The arena: a bitmap of fixed-size blocks from which usable arenas are carved. */
module ArenaBitmap {
  import opened Sequences
  import opened ArenaBlocks
  import Sub = UsableArena

  // ---- Bits of a byte -----------------------------------------------------------------------

  function Mask(bit: nat): bv8
    requires bit < 8
  {
    (1 as bv8) << bit
  }

  function SetBit(b: bv8, bit: nat, value: bool): bv8
    requires bit < 8
  {
    if value then b | Mask(bit) else b & !Mask(bit)
  }

  predicate GetBit(b: bv8, bit: nat)
    requires bit < 8
  {
    (b >> bit) & 1 == 1
  }

  lemma {:induction false} BitRaised(b: bv8, i: nat, j: nat)
    requires i < 8 && j < 8
    ensures GetBit(b | Mask(i), j) == (i == j || GetBit(b, j))
  {
    assert i == 0 || i == 1 || i == 2 || i == 3 || i == 4 || i == 5 || i == 6 || i == 7;
    assert j == 0 || j == 1 || j == 2 || j == 3 || j == 4 || j == 5 || j == 6 || j == 7;
  }

  lemma {:induction false} LowBitLowered(b: bv8, i: nat, j: nat)
    requires i < 4 && j < 8
    ensures GetBit(b & !Mask(i), j) == (i != j && GetBit(b, j))
  {
    assert i == 0 || i == 1 || i == 2 || i == 3;
    assert j == 0 || j == 1 || j == 2 || j == 3 || j == 4 || j == 5 || j == 6 || j == 7;
  }

  lemma {:induction false} HighBitLowered(b: bv8, i: nat, j: nat)
    requires 4 <= i < 8 && j < 8
    ensures GetBit(b & !Mask(i), j) == (i != j && GetBit(b, j))
  {
    assert i == 4 || i == 5 || i == 6 || i == 7;
    assert j == 0 || j == 1 || j == 2 || j == 3 || j == 4 || j == 5 || j == 6 || j == 7;
  }

  lemma {:induction false} BitLowered(b: bv8, i: nat, j: nat)
    requires i < 8 && j < 8
    ensures GetBit(b & !Mask(i), j) == (i != j && GetBit(b, j))
  {
    if i < 4 { LowBitLowered(b, i, j); } else { HighBitLowered(b, i, j); }
  }

  lemma {:induction false} BitUpdate(b: bv8, i: nat, value: bool, j: nat)
    requires i < 8 && j < 8
    ensures GetBit(SetBit(b, i, value), j) == if i == j then value else GetBit(b, j)
  {
    if value { BitRaised(b, i, j); } else { BitLowered(b, i, j); }
  }

  /** Bit i of a bitmap: byte i / 8, bit i % 8. */
  predicate Taken(bitmap: seq<bv8>, i: nat)
    requires i < 8 * |bitmap|
  {
    GetBit(bitmap[i / 8], i % 8)
  }

  lemma {:induction false} BitmapUpdate(bitmap: seq<bv8>, i: nat, value: bool, j: nat)
    requires i < 8 * |bitmap| && j < 8 * |bitmap|
    ensures Taken(bitmap[i / 8 := SetBit(bitmap[i / 8], i % 8, value)], j) == if i == j then value else Taken(bitmap, j)
  {
    if i / 8 == j / 8 {
      BitUpdate(bitmap[i / 8], i % 8, value, j % 8);
    }
  }

  // ---- The arena ----------------------------------------------------------------------------

  datatype ReleaseResult = Released | StillInUse | Corrupt

  predicate Covers(ua: Sub.UsableArena, i: int) { ua.blockOffset <= i < ua.blockOffset + ua.blockCount }

  /** Blocks start .. start + count - 1 exist and are all free. */
  ghost predicate FreeRun(bitmap: seq<bv8>, blocks: nat, start: int, count: nat) {
    0 <= start && start + count <= blocks <= 8 * |bitmap| && forall i :: start <= i < start + count ==> !Taken(bitmap, i)
  }

  /** The run is taken and no other block changed. */
  ghost predicate RunTaken(before: seq<bv8>, after: seq<bv8>, blocks: nat, start: int, count: nat) {
    blocks <= 8 * |before| == 8 * |after|
    && forall i :: 0 <= i < blocks ==> Taken(after, i) == (start <= i < start + count || Taken(before, i))
  }

  class Arena {
    const blockSize: nat
    const blockCount: nat
    const bitmap: array<bv8>
    ghost var live: set<Sub.UsableArena>

    ghost predicate Shape() { blockSize >= 1 && blockCount <= 8 * bitmap.Length }

    /** Live usable arenas own disjoint block ranges, and the bitmap is set exactly on their union. */
    ghost predicate Valid()
      reads this, bitmap
    {
      && Shape()
      && (forall u :: u in live ==> u.blockCount >= 1 && u.blockOffset + u.blockCount <= blockCount)
      && (forall u, v :: u in live && v in live && u != v ==>
            u.blockOffset + u.blockCount <= v.blockOffset || v.blockOffset + v.blockCount <= u.blockOffset)
      && (forall i :: 0 <= i < blockCount ==> (Taken(bitmap[..], i) <==> exists u :: u in live && Covers(u, i)))
    }

    constructor (totalSize: nat, blockSize: nat)
      requires totalSize >= 1 && blockSize >= 1 && totalSize % blockSize == 0
      ensures Valid() && live == {} && this.blockSize == blockSize && blockCount * blockSize == totalSize
      ensures fresh(bitmap)
    {
      this.blockSize := blockSize;
      blockCount := totalSize / blockSize;
      bitmap := new bv8[(totalSize / blockSize + 7) / 8](_ => 0);
      live := {};
      new;
      forall i | 0 <= i < blockCount ensures !Taken(bitmap[..], i) { NoBits(i % 8); }
    }

    method SetBlock(index: nat, value: bool)
      requires Shape() && index < blockCount
      modifies bitmap
      ensures forall i :: 0 <= i < blockCount ==> Taken(bitmap[..], i) == if i == index then value else Taken(old(bitmap[..]), i)
    {
      ghost var before := bitmap[..];
      bitmap[index / 8] := SetBit(bitmap[index / 8], index % 8, value);
      assert bitmap[..] == before[index / 8 := SetBit(before[index / 8], index % 8, value)];
      forall i | 0 <= i < blockCount ensures Taken(bitmap[..], i) == if i == index then value else Taken(before, i) {
        BitmapUpdate(before, index, value, i);
      }
    }

    method SetRange(start: nat, count: nat, value: bool)
      requires Shape() && start + count <= blockCount
      modifies bitmap
      ensures forall i :: 0 <= i < blockCount ==>
                Taken(bitmap[..], i) == if start <= i < start + count then value else Taken(old(bitmap[..]), i)
    {
      for k := start to start + count
        invariant forall i :: 0 <= i < blockCount ==>
                    Taken(bitmap[..], i) == if start <= i < k then value else Taken(old(bitmap[..]), i)
      {
        SetBlock(k, value);
      }
    }

    /** The lowest run of `needed` free blocks, or none if no such run exists. */
    method FindContiguous(needed: nat) returns (found: bool, start: nat)
      requires Shape() && needed >= 1
      ensures found ==> FreeRun(bitmap[..], blockCount, start, needed)
                        && forall s :: 0 <= s < start ==> !FreeRun(bitmap[..], blockCount, s, needed)
      ensures !found ==> forall s :: !FreeRun(bitmap[..], blockCount, s, needed)
    {
      start := 0;
      var run := 0;
      for i := 0 to blockCount
        invariant 0 <= run <= i && run < needed
        invariant forall j :: i - run <= j < i ==> !Taken(bitmap[..], j)
        invariant run < i ==> Taken(bitmap[..], i - run - 1)
        invariant forall s :: s + needed <= i ==> !FreeRun(bitmap[..], blockCount, s, needed)
      {
        if !GetBit(bitmap[i / 8], i % 8) {
          run := run + 1;
          if run == needed {
            return true, i + 1 - needed;
          }
          if needed <= i + 1 { Blocked(bitmap[..], blockCount, i + 1 - needed, needed, i - run); }
        } else {
          run := 0;
          if needed <= i + 1 { Blocked(bitmap[..], blockCount, i + 1 - needed, needed, i); }
        }
      }
      return false, 0;
    }

    /**
      * NULL for a bad size, for no free run, or when the handle cannot be allocated (the bitmap is then
      * restored). A region too small for one header and footer is handed out as well, with its tags written
      * outside; of that case only the bitmap is modelled, and nothing else is promised.
      */
    method Acquire(size: nat, allocates: bool) returns (ua: Sub.UsableArena?, cramped: bool)
      requires Valid()
      modifies this`live, bitmap
      ensures cramped <==> 0 < size < HEADER + FOOTER && size % blockSize == 0 && allocates
                           && exists s :: FreeRun(old(bitmap[..]), blockCount, s, size / blockSize)
      ensures cramped ==> exists s :: FreeRun(old(bitmap[..]), blockCount, s, size / blockSize)
                                      && RunTaken(old(bitmap[..]), bitmap[..], blockCount, s, size / blockSize)
      ensures !cramped ==> Valid()
      ensures !cramped ==> (ua == null <==> size == 0 || size % blockSize != 0 || !allocates
                                            || forall s :: !FreeRun(old(bitmap[..]), blockCount, s, size / blockSize))
      ensures !cramped && ua == null ==>
                live == old(live) && forall i :: 0 <= i < blockCount ==> Taken(bitmap[..], i) == Taken(old(bitmap[..]), i)
      ensures !cramped && ua != null ==>
                && fresh(ua) && ua.Valid() && ua.size == size && ua.layout == [Block(0, size, false)] && live == old(live) + {ua}
                && ua.blockCount == size / blockSize
                && FreeRun(old(bitmap[..]), blockCount, ua.blockOffset, ua.blockCount)
                && forall s :: 0 <= s < ua.blockOffset ==> !FreeRun(old(bitmap[..]), blockCount, s, ua.blockCount)
    {
      cramped, ua := false, null;
      ghost var before := bitmap[..];
      if size == 0 || size % blockSize != 0 { return; }
      var needed := size / blockSize;
      PositiveQuotient(size, blockSize);
      var found, start := FindContiguous(needed);
      assert bitmap[..] == before;
      if !found { return; }
      assert FreeRun(before, blockCount, start, needed);
      if !allocates {
        MarkAndRestore(start, needed);
      } else if size < HEADER + FOOTER {
        SetRange(start, needed, true);
        assert RunTaken(before, bitmap[..], blockCount, start, needed);
        cramped := true;
      } else {
        ua := HandOut(size, start, needed);
      }
    }

    /** The run is marked, the handle cannot be allocated, and the marks are taken back. */
    method MarkAndRestore(start: nat, needed: nat)
      requires Valid() && FreeRun(bitmap[..], blockCount, start, needed)
      modifies bitmap
      ensures Valid() && forall i :: 0 <= i < blockCount ==> Taken(bitmap[..], i) == Taken(old(bitmap[..]), i)
    {
      ghost var before := bitmap[..];
      SetRange(start, needed, true);
      SetRange(start, needed, false);
      forall i | 0 <= i < blockCount
        ensures Taken(bitmap[..], i) == Taken(before, i)
        ensures Taken(bitmap[..], i) <==> exists u :: u in live && Covers(u, i)
      {
        if start <= i < start + needed { assert !Taken(before, i); }
      }
    }

    /** The run is marked and becomes a usable arena of one free block. */
    method HandOut(size: nat, start: nat, needed: nat) returns (ua: Sub.UsableArena)
      requires Valid() && FreeRun(bitmap[..], blockCount, start, needed) && needed >= 1 && size >= HEADER + FOOTER
      modifies this`live, bitmap
      ensures Valid() && fresh(ua) && ua.Valid() && live == old(live) + {ua}
      ensures ua.size == size && ua.layout == [Block(0, size, false)] && ua.blockOffset == start && ua.blockCount == needed
    {
      ghost var before := bitmap[..];
      SetRange(start, needed, true);
      ua := new Sub.UsableArena(size, start, needed);
      AcquiredDisjoint(before, blockCount, live, ua);
      live := live + {ua};
      forall i | 0 <= i < blockCount ensures Taken(bitmap[..], i) <==> exists u :: u in live && Covers(u, i) {
        if Covers(ua, i) { assert ua in live; }
        else if Taken(before, i) { var u :| u in old(live) && Covers(u, i); assert u in live; }
      }
    }

    /** Give the blocks back, unless some buffer is still in use or a damaged header stops the walk. */
    method Release(ua: Sub.UsableArena) returns (r: ReleaseResult)
      requires Valid() && ua in live && Readable(ua.headers, 0, ua.size)
      modifies this`live, bitmap
      ensures Valid() && r == Walked(ua.headers, 0, ua.size)
      ensures r != Released ==> live == old(live) && bitmap[..] == old(bitmap[..])
      ensures r == Released ==> live == old(live) - {ua}
    {
      r := CheckIdle(ua);
      if r != Released { return; }
      ghost var before := bitmap[..];
      SetRange(ua.blockOffset, ua.blockCount, false);
      live := live - {ua};
      forall i | 0 <= i < blockCount ensures Taken(bitmap[..], i) <==> exists u :: u in live && Covers(u, i) {
        if Taken(before, i) && !Covers(ua, i) {
          var u :| u in old(live) && Covers(u, i);
          assert u in live;
        }
      }
    }
  }

  /** Every header the walk from pos reads is there, whatever it says. */
  ghost predicate Readable(hs: map<int, Header>, pos: nat, size: nat)
    decreases size - pos
  {
    pos >= size || (pos in hs && (hs[pos].state == BufInUse || hs[pos].size == 0 || Readable(hs, pos + hs[pos].size, size)))
  }

  /** What a walk along the headers finds first. */
  ghost function Walked(hs: map<int, Header>, pos: nat, size: nat): ReleaseResult
    requires Readable(hs, pos, size)
    decreases size - pos
  {
    if pos >= size then Released
    else if hs[pos].state == BufInUse then StillInUse
    else if hs[pos].size == 0 then Corrupt
    else Walked(hs, pos + hs[pos].size, size)
  }

  /** With its tags right a usable arena is released if and only if no block is in use, and never found corrupt. */
  lemma {:induction false} TaggedWalk(hs: map<int, Header>, fs: map<int, Footer>, l: Layout, size: nat, b: nat)
    requires Tiles(l, 0, size) && Tagged(hs, fs, l) && b <= |l|
    ensures var pos := if b < |l| then l[b].start else size;
            && Readable(hs, pos, size)
            && Walked(hs, pos, size) == if exists i :: b <= i < |l| && l[i].used then StillInUse else Released
    decreases |l| - b
  {
    if b < |l| {
      assert TagOk(hs, fs, l[b]);
      Sub.NextBlock(l, size, b);
      TilesOrdered(l, 0, size, b, b);
      TaggedWalk(hs, fs, l, size, b + 1);
      if exists i :: b + 1 <= i < |l| && l[i].used {
        var i :| b + 1 <= i < |l| && l[i].used;
        assert l[i].used;
      }
    }
  }

  lemma {:induction false} ReleasedIffIdle(ua: Sub.UsableArena)
    requires ua.Tags()
    ensures Readable(ua.headers, 0, ua.size)
    ensures Walked(ua.headers, 0, ua.size) == if exists i :: 0 <= i < |ua.layout| && ua.layout[i].used then StillInUse else Released
  {
    TaggedWalk(ua.headers, ua.footers, ua.layout, ua.size, 0);
    TilesBound(ua.layout, 0, ua.size);
    if ua.layout != [] { Sub.NextBlock(ua.layout, ua.size, 0); }
  }

  /** Walk along the headers of the usable arena looking for a block in use. */
  method CheckIdle(ua: Sub.UsableArena) returns (r: ReleaseResult)
    requires Readable(ua.headers, 0, ua.size)
    ensures r == Walked(ua.headers, 0, ua.size)
  {
    var pos := 0;
    while pos < ua.size
      invariant Readable(ua.headers, pos, ua.size) && Walked(ua.headers, pos, ua.size) == Walked(ua.headers, 0, ua.size)
      decreases ua.size - pos
    {
      var h := ua.headers[pos];
      if h.state == BufInUse { return StillInUse; }
      if h.size == 0 { return Corrupt; }
      pos := pos + h.size;
    }
    r := Released;
  }

  /** An arena of two blocks of 32 bytes hands out one of them, which has no room for a header. */
  method CrampedRegion() returns (a: Arena, cramped: bool)
    ensures a.blockSize == 32 && cramped
  {
    a := new Arena(64, 32);
    assert a.blockCount == 2 && 32 / a.blockSize == 1;
    assert FreeRun(a.bitmap[..], a.blockCount, 0, 32 / a.blockSize);
    var ua;
    ua, cramped := a.Acquire(32, true);
  }

  /** NULL exactly for a zero size, a total that is no multiple of the block size, or a failed allocation. */
  method Create(totalSize: nat, blockSize: nat, allocates: bool) returns (a: Arena?)
    ensures a == null <==> totalSize == 0 || blockSize == 0 || totalSize % blockSize != 0 || !allocates
    ensures a != null ==>
              && fresh(a) && fresh(a.bitmap) && a.Valid() && a.live == {}
              && a.blockSize == blockSize && a.blockCount * blockSize == totalSize
  {
    if totalSize == 0 || blockSize == 0 || totalSize % blockSize != 0 || !allocates { return null; }
    a := new Arena(totalSize, blockSize);
  }

  lemma {:induction false} PositiveQuotient(n: nat, d: nat)
    requires n >= 1 && d >= 1 && n % d == 0
    ensures n / d >= 1
  {
    assert n == d * (n / d) + n % d;
  }

  /** A run of free blocks meets no live range. */
  lemma {:induction false} AcquiredDisjoint(bitmap: seq<bv8>, blocks: nat, live: set<Sub.UsableArena>, ua: Sub.UsableArena)
    requires FreeRun(bitmap, blocks, ua.blockOffset, ua.blockCount) && ua.blockCount >= 1
    requires forall u :: u in live ==> u.blockCount >= 1 && u.blockOffset + u.blockCount <= blocks
    requires forall i :: 0 <= i < blocks ==> (Taken(bitmap, i) <==> exists u :: u in live && Covers(u, i))
    ensures forall u :: u in live ==>
              u.blockOffset + u.blockCount <= ua.blockOffset || ua.blockOffset + ua.blockCount <= u.blockOffset
  {
    forall u | u in live
      ensures u.blockOffset + u.blockCount <= ua.blockOffset || ua.blockOffset + ua.blockCount <= u.blockOffset
    {
      var i := if u.blockOffset >= ua.blockOffset then u.blockOffset else ua.blockOffset;
      if Covers(u, i) && Covers(ua, i) { assert Taken(bitmap, i); }
    }
  }

  lemma {:induction false} Blocked(bitmap: seq<bv8>, blocks: nat, start: nat, count: nat, i: nat)
    requires start <= i < start + count && i < 8 * |bitmap| && Taken(bitmap, i)
    ensures !FreeRun(bitmap, blocks, start, count)
  {
  }

  lemma {:induction false} NoBits(bit: nat)
    requires bit < 8
    ensures !GetBit(0, bit)
  {
    assert bit == 0 || bit == 1 || bit == 2 || bit == 3 || bit == 4 || bit == 5 || bit == 6 || bit == 7;
  }
}
