/** Linear probing in a power-of-two table, for an arbitrary hash function. */
module Probing {
  import opened Bits

  const SIZE_BITS: nat := 64

  /** A requested table size, rounded up on a 64-bit word. */
  function TableSize(requested: nat): (r: nat)
    requires 1 <= requested <= Pow2(SIZE_BITS - 1)
    ensures IsPow2(r) && requested <= r < 2 * requested
  {
    RoundPow2IsPow2(requested, SIZE_BITS);
    RoundPow2(requested, SIZE_BITS)
  }

  /** The slot a key hashes to: `hash & mask`. */
  function Home<K>(hash: K -> nat, key: K, cap: nat): (s: nat)
    requires cap >= 1
    ensures s < cap
  {
    BitAnd(hash(key), cap - 1)
  }

  /** The slot after `slot`: `(slot + 1) & mask`. */
  function After(slot: nat, cap: nat): (s: nat)
    requires cap >= 1
    ensures s < cap
  {
    BitAnd(slot + 1, cap - 1)
  }

  /** Number of probe steps from `home` to `slot`, wrapping at the end of the table. */
  function Dist(home: nat, slot: nat, cap: nat): (d: nat)
    requires home < cap && slot < cap
    ensures d < cap
  {
    if slot >= home then slot - home else slot + cap - home
  }

  /** In a power-of-two table one probe step moves one slot on, and only a full turn comes home. */
  lemma {:induction false} AfterAdvances(home: nat, slot: nat, cap: nat)
    requires home < cap && slot < cap && IsPow2(cap)
    ensures Dist(home, slot, cap) + 1 < cap ==> Dist(home, After(slot, cap), cap) == Dist(home, slot, cap) + 1
    ensures Dist(home, slot, cap) + 1 == cap ==> After(slot, cap) == home
  {
    var k: nat :| k <= cap && cap == Pow2(k);
    AndMask(slot + 1, k);
    if slot + 1 == cap {
      DivModUnique(slot + 1, cap, 1, 0);
    } else {
      DivModUnique(slot + 1, cap, 0, slot + 1);
    }
  }

  /** Two slots at the same distance from home are the same slot. */
  lemma DistInjective(home: nat, a: nat, b: nat, cap: nat)
    requires home < cap && a < cap && b < cap
    ensures Dist(home, a, cap) == Dist(home, b, cap) ==> a == b
  {
  }
}
