/** Arithmetic of a 64-bit size_t. */
module Words {
  import opened Bits

  const WORD: nat := 0x1_0000_0000_0000_0000

  type Size = x: int | 0 <= x < WORD

  /** x modulo 2^64. */
  function Wrap(x: int): (r: Size)
    decreases if x < 0 then WORD - x else x
  {
    if x < 0 then Wrap(x + WORD) else if x < WORD then x else Wrap(x - WORD)
  }

  lemma {:induction false} WrapIsMod(x: int)
    ensures Wrap(x) == x % WORD
    decreases if x < 0 then WORD - x else x
  {
    if x < 0 { WrapIsMod(x + WORD); } else if x >= WORD { WrapIsMod(x - WORD); }
  }

  lemma {:induction false} WrapAdd(x: int, k: int)
    ensures Wrap(Wrap(x) + k) == Wrap(x + k)
  {
    var y := Wrap(x) + k;
    WrapIsMod(x);
    WrapIsMod(y);
    WrapIsMod(x + k);
    assert x + k == WORD * (x / WORD + y / WORD) + y % WORD;
    DivModUnique(x + k, WORD, x / WORD + y / WORD, y % WORD);
  }

  lemma {:induction false} SameWrap(x: int, k: int)
    ensures Wrap(x - k) == Wrap(x) <==> Wrap(k) == 0
  {
    WrapIsMod(x - k);
    WrapIsMod(x);
    WrapIsMod(k);
    if Wrap(k) == 0 {
      DivModUnique(x - k, WORD, x / WORD - k / WORD, x % WORD);
    }
    if Wrap(x - k) == Wrap(x) {
      DivModUnique(k, WORD, x / WORD - (x - k) / WORD, 0);
    }
  }
}
