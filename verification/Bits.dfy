/** Natural-number bit operations: the masks, shifts and smears that size the tables and rings. */
module Bits {

  function Pow2(k: nat): (r: nat)
    ensures r >= 1
  {
    if k == 0 then 1 else 2 * Pow2(k - 1)
  }

  predicate IsPow2(n: nat) {
    exists k: nat :: k <= n && n == Pow2(k)
  }

  /** Bit i of n. */
  predicate Bit(n: nat, i: nat)
    decreases i
  {
    if i == 0 then n % 2 == 1 else Bit(n / 2, i - 1)
  }

  function BitAnd(x: nat, y: nat): (r: nat)
    ensures r <= x && r <= y
  {
    if x == 0 || y == 0 then 0
    else 2 * BitAnd(x / 2, y / 2) + (if x % 2 == 1 && y % 2 == 1 then 1 else 0)
  }

  function BitOr(x: nat, y: nat): (r: nat)
    ensures r >= x && r >= y
    decreases x + y
  {
    if x == 0 then y else if y == 0 then x
    else 2 * BitOr(x / 2, y / 2) + (if x % 2 == 1 || y % 2 == 1 then 1 else 0)
  }

  function Shr(n: nat, k: nat): (r: nat)
    ensures r <= n
    decreases k
  {
    if k == 0 then n else Shr(n / 2, k - 1)
  }

  lemma {:induction false} Pow2Mono(i: nat, j: nat)
    requires i <= j
    ensures Pow2(i) <= Pow2(j)
    ensures i < j ==> 2 * Pow2(i) <= Pow2(j)
    decreases j - i
  {
    if i < j { Pow2Mono(i, j - 1); }
  }

  lemma {:induction false} Pow2Sum(a: nat, b: nat)
    ensures Pow2(a + b) == Pow2(a) * Pow2(b)
  {
    if b > 0 {
      Pow2Sum(a, b - 1);
      assert Pow2(a) * Pow2(b) == 2 * (Pow2(a) * Pow2(b - 1));
    }
  }

  lemma {:induction false} Pow2Words()
    ensures Pow2(31) == 0x8000_0000 && Pow2(32) == 0x1_0000_0000
  {
    assert Pow2(4) == 16;
    Pow2Sum(4, 4);
    Pow2Sum(8, 8);
    Pow2Sum(16, 16);
    assert Pow2(32) == 2 * Pow2(31);
  }

  lemma {:induction false} DoublePow2(n: nat)
    requires IsPow2(n)
    ensures IsPow2(2 * n)
  {
    var k: nat :| k <= n && n == Pow2(k);
    assert 2 * n == Pow2(k + 1);
  }

  lemma {:induction false} Pow2Exceeds(n: nat)
    ensures n < Pow2(n)
  {
    if n > 0 { Pow2Exceeds(n - 1); }
  }

  /** Masking with 2^k - 1 is reduction modulo 2^k: what every `h & mask` in the tables relies on. */
  lemma {:induction false} AndMask(x: nat, k: nat)
    ensures BitAnd(x, Pow2(k) - 1) == x % Pow2(k)
    decreases k
  {
    if k == 0 {
    } else if x == 0 {
    } else {
      var m := Pow2(k - 1);
      AndMask(x / 2, k - 1);
      assert Pow2(k) - 1 == 2 * (m - 1) + 1;
      assert (Pow2(k) - 1) / 2 == m - 1;
      ModHalf(x, m);
      if m == 1 { assert (Pow2(k) - 1) == 1; }
    }
  }

  lemma {:induction false} ModHalf(x: nat, m: nat)
    requires m >= 1
    ensures x % (2 * m) == 2 * ((x / 2) % m) + x % 2
  {
    var q, r := (x / 2) / m, (x / 2) % m;
    assert x / 2 == q * m + r;
    assert x == (2 * m) * q + (2 * r + x % 2) by { assert x == 2 * (x / 2) + x % 2; assert 2 * (q * m) == (2 * m) * q; }
    DivModUnique(x, 2 * m, q, 2 * r + x % 2);
  }

  lemma {:induction false} DivModUnique(x: int, d: int, q: int, r: int)
    requires d > 0 && x == d * q + r && 0 <= r < d
    ensures x / d == q && x % d == r
  {
    var q', r' := x / d, x % d;
    assert d * q' + r' == d * q + r;
    if q > q' {
      MulAtLeast(d, q - q');
    } else if q < q' {
      MulAtLeast(d, q' - q);
    }
  }

  lemma MulAtLeast(d: int, k: int)
    requires d > 0 && k >= 1
    ensures d * k >= d
  {
  }

  lemma {:induction false} BitOfOr(x: nat, y: nat, i: nat)
    ensures Bit(BitOr(x, y), i) <==> Bit(x, i) || Bit(y, i)
    decreases i
  {
    if x == 0 { ZeroBits(i); }
    else if y == 0 { ZeroBits(i); }
    else if i > 0 { BitOfOr(x / 2, y / 2, i - 1); }
  }

  lemma {:induction false} ZeroBits(i: nat)
    ensures !Bit(0, i)
  {
    if i > 0 { ZeroBits(i - 1); }
  }

  lemma {:induction false} BitOfShr(n: nat, k: nat, i: nat)
    ensures Bit(Shr(n, k), i) <==> Bit(n, i + k)
    decreases k
  {
    if k > 0 { BitOfShr(n / 2, k - 1, i); }
  }

  /** n < 2^L exactly when no bit at or above L is set. */
  lemma {:induction false} HighBitsClear(n: nat, L: nat, i: nat)
    requires n < Pow2(L) && i >= L
    ensures !Bit(n, i)
    decreases L
  {
    if L == 0 { ZeroBits(i); } else { HighBitsClear(n / 2, L - 1, i - 1); }
  }

  lemma {:induction false} BoundedByBits(n: nat, L: nat)
    requires forall i: nat :: i >= L ==> !Bit(n, i)
    ensures n < Pow2(L)
    decreases n, L
  {
    if n == 0 {
    } else if L == 0 {
      assert !Bit(n, 0);
      forall i: nat ensures !Bit(n / 2, i) { assert !Bit(n, i + 1); }
      BoundedByBits(n / 2, 0);
    } else {
      forall i: nat | i >= L - 1 ensures !Bit(n / 2, i) { assert !Bit(n, i + 1); }
      BoundedByBits(n / 2, L - 1);
    }
  }

  lemma {:induction false} TopBit(n: nat, L: nat)
    requires Pow2(L) <= n < Pow2(L + 1)
    ensures Bit(n, L)
    decreases L
  {
    if L > 0 { TopBit(n / 2, L - 1); }
  }

  lemma {:induction false} AllOnes(n: nat, L: nat)
    requires n < Pow2(L)
    requires forall i: nat :: i < L ==> Bit(n, i)
    ensures n == Pow2(L) - 1
    decreases L
  {
    if L > 0 {
      forall i: nat | i < L - 1 ensures Bit(n / 2, i) { assert Bit(n, i + 1); }
      AllOnes(n / 2, L - 1);
      assert Bit(n, 0);
    }
  }

  /** The bits of n from L - m up to L - 1 are all set and n < 2^L. */
  ghost predicate Smeared(n: nat, L: nat, m: nat) {
    n < Pow2(L) && forall i: nat :: i < L && i + m >= L ==> Bit(n, i)
  }

  lemma {:induction false} SmearStep(n: nat, L: nat, m: nat)
    requires Smeared(n, L, m)
    ensures Smeared(BitOr(n, Shr(n, m)), L, 2 * m)
  {
    var r := BitOr(n, Shr(n, m));
    forall i: nat | i >= L ensures !Bit(r, i) {
      BitOfOr(n, Shr(n, m), i);
      BitOfShr(n, m, i);
      HighBitsClear(n, L, i);
      HighBitsClear(n, L, i + m);
    }
    BoundedByBits(r, L);
    forall i: nat | i < L && i + 2 * m >= L ensures Bit(r, i) {
      BitOfOr(n, Shr(n, m), i);
      BitOfShr(n, m, i);
      if i + m < L { assert Bit(n, i + m); }
    }
  }

  function SmearBy(n: nat, m: nat): nat { BitOr(n, Shr(n, m)) }

  /** The successive `n |= n >> m` of round_pow2, for m = 1, 2, 4, ... below the word width. */
  function Smear(n: nat, m: nat, width: nat): (r: nat)
    requires m >= 1
    ensures r >= n
    decreases if m < width then width - m else 0
  {
    if m >= width then n else Smear(SmearBy(n, m), 2 * m, width)
  }

  lemma {:induction false} SmearAll(n: nat, L: nat, m: nat, width: nat)
    requires m >= 1 && L <= width && Smeared(n, L, m)
    ensures Smear(n, m, width) == Pow2(L) - 1
    decreases if m < width then width - m else 0
  {
    if m >= width {
      AllOnes(n, L);
    } else {
      SmearStep(n, L, m);
      SmearAll(SmearBy(n, m), L, 2 * m, width);
    }
  }

  /** round_pow2 on a `width`-bit unsigned word, both wrap-arounds (n - 1 and n + 1) included. */
  function RoundPow2(n: nat, width: nat): (r: nat)
    requires n < Pow2(width)
  {
    var d := if n == 0 then Pow2(width) - 1 else n - 1;
    var s := Smear(d, 1, width);
    if s + 1 == Pow2(width) then 0 else s + 1
  }

  lemma {:induction false} BitLength(n: nat) returns (L: nat)
    requires n >= 1
    ensures Pow2(L) <= n < Pow2(L + 1)
  {
    if n == 1 { L := 0; }
    else { var l := BitLength(n / 2); L := l + 1; }
  }

  /** The result is the least power of two >= n, for every n a word can round without wrapping. */
  lemma {:induction false} RoundPow2Correct(n: nat, width: nat) returns (k: nat)
    requires width >= 1 && 1 <= n <= Pow2(width - 1)
    ensures n < Pow2(width)
    ensures k <= width - 1 && RoundPow2(n, width) == Pow2(k)
    ensures n <= Pow2(k) < 2 * n
  {
    assert Pow2(width) == 2 * Pow2(width - 1);
    if n == 1 {
      k := 0;
      ZeroSmear(1, width);
    } else {
      var L := BitLength(n - 1);
      k := L + 1;
      if k > width - 1 { Pow2Mono(width - 1, L); assert false; }
      TopBit(n - 1, L);
      assert Smeared(n - 1, L + 1, 1);
      SmearAll(n - 1, L + 1, 1, width);
      Pow2Mono(k, width - 1);
    }
  }

  lemma {:induction false} RoundPow2IsPow2(n: nat, width: nat)
    requires width >= 1 && 1 <= n <= Pow2(width - 1)
    ensures n < Pow2(width) && IsPow2(RoundPow2(n, width)) && n <= RoundPow2(n, width) < 2 * n
  {
    var k := RoundPow2Correct(n, width);
    Pow2Exceeds(k);
  }

  lemma {:induction false} ZeroSmear(m: nat, width: nat)
    requires m >= 1
    ensures Smear(0, m, width) == 0
    decreases if m < width then width - m else 0
  {
    if m < width {
      ZeroShr(m);
      ZeroSmear(2 * m, width);
    }
  }

  lemma {:induction false} ZeroShr(m: nat)
    ensures Shr(0, m) == 0
  {
    if m > 0 { ZeroShr(m - 1); }
  }

  /** Above half the word range the sum wraps: the result is 0, never a usable capacity. */
  lemma {:induction false} RoundPow2Wraps(n: nat, width: nat)
    requires width >= 1 && n < Pow2(width)
    requires n == 0 || n > Pow2(width - 1)
    ensures RoundPow2(n, width) == 0
  {
    var d := if n == 0 then Pow2(width) - 1 else n - 1;
    assert Pow2(width) == 2 * Pow2(width - 1);
    TopBit(d, width - 1);
    assert Smeared(d, width, 1);
    SmearAll(d, width, 1, width);
  }
}
