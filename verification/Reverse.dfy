/**
 The bit-reversal loop of dict.c, proved to compute `RevN` on a 64-bit word.
 */
module Reverse {
  import opened Words

  ghost predicate Bit(x: nat, i: nat) {
    High(x, i) % 2 == 1
  }

  // ------------------------------------------------ bits of the C operators

  lemma {:induction false} BitAnd(x: nat, y: nat, i: nat)
    ensures Bit(And(x, y), i) == (Bit(x, i) && Bit(y, i))
  {
    if x == 0 {
      HighZero(i);
    } else if i != 0 {
      BitAnd(x / 2, y / 2, i - 1);
    }
  }

  lemma {:induction false} BitOr(x: nat, y: nat, i: nat)
    ensures Bit(Or(x, y), i) == (Bit(x, i) || Bit(y, i))
  {
    if x == 0 && y == 0 {
      HighZero(i);
    } else if i != 0 {
      BitOr(x / 2, y / 2, i - 1);
    }
  }

  lemma {:induction false} BitXor(x: nat, y: nat, i: nat)
    ensures Bit(Xor(x, y), i) == (Bit(x, i) != Bit(y, i))
  {
    if x == 0 && y == 0 {
      HighZero(i);
    } else if i != 0 {
      BitXor(x / 2, y / 2, i - 1);
    }
  }

  lemma {:induction false} HighZero(i: nat)
    ensures High(0, i) == 0
  {
    if i != 0 {
      HighZero(i - 1);
    }
  }

  /** Complementing w bits flips each of them. */
  lemma {:induction false} BitComplement(x: nat, w: nat, i: nat)
    requires x < Pow2(w) && i < w
    ensures Bit(Pow2(w) - 1 - x, i) == !Bit(x, i)
  {
    if i != 0 {
      BitComplement(x / 2, w - 1, i - 1);
    }
  }

  lemma {:induction false} HighHigh(x: nat, s: nat, i: nat)
    ensures High(High(x, s), i) == High(x, s + i)
  {
    if s != 0 {
      HighHigh(x / 2, s - 1, i);
    }
  }

  lemma {:induction false} HighAtMost(x: nat, k: nat)
    ensures High(x, k) <= x
  {
    if k != 0 {
      HighAtMost(x / 2, k - 1);
    }
  }

  lemma BitShr(x: nat, s: nat, i: nat)
    ensures Bit(Shr(x, s), i) == Bit(x, s + i)
  {
    HighHigh(x, s, i);
  }

  lemma {:induction false} BitLow(x: nat, w: nat, i: nat)
    requires i < w
    ensures Bit(Low(x, w), i) == Bit(x, i)
  {
    if i != 0 {
      BitLow(x / 2, w - 1, i - 1);
    }
  }

  lemma {:induction false} BitUp(x: nat, s: nat, i: nat)
    ensures Bit(Up(x, s), i) == (i >= s && Bit(x, i - s))
  {
    if s != 0 && i != 0 {
      BitUp(x, s - 1, i - 1);
    }
  }

  lemma BitShl(x: nat, s: nat, i: nat)
    requires i < WORD
    ensures Bit(Shl(x, s), i) == (i >= s && Bit(x, i - s))
  {
    BitLow(Up(x, s), WORD, i);
    BitUp(x, s, i);
  }

  lemma {:induction false} BitRevN(w: nat, x: nat, i: nat)
    requires i < w
    ensures Bit(RevN(w, x), i) == Bit(x, w - 1 - i)
  {
    var r := RevN(w - 1, x / 2);
    UpPow2(0, w - 1);
    UpZero(w - 1);
    LowHighUnique(RevN(w, x), w - 1, x % 2, r);
    if i < w - 1 {
      BitRevN(w - 1, x / 2, i);
      BitLow(RevN(w, x), w - 1, i);
    }
  }

  /** Words with the same bits are the same word. */
  lemma {:induction false} BitsDetermine(x: nat, y: nat, w: nat)
    requires x < Pow2(w) && y < Pow2(w)
    requires forall i: nat :: i < w ==> Bit(x, i) == Bit(y, i)
    ensures x == y
  {
    if w != 0 {
      assert Bit(x, 0) == Bit(y, 0);
      forall i: nat | i < w - 1 ensures Bit(x / 2, i) == Bit(y / 2, i) {
        assert Bit(x, i + 1) == Bit(y, i + 1);
      }
      BitsDetermine(x / 2, y / 2, w - 1);
    }
  }

  lemma AndFits(x: nat, y: nat, w: nat)
    requires x < Pow2(w)
    ensures And(x, y) < Pow2(w)
  {
    AndAtMost(x, y);
  }

  lemma {:induction false} AndAtMost(x: nat, y: nat)
    ensures And(x, y) <= x
    decreases x
  {
    if x != 0 {
      AndAtMost(x / 2, y / 2);
    }
  }

  lemma {:induction false} OrFits(x: nat, y: nat, w: nat)
    requires x < Pow2(w) && y < Pow2(w)
    ensures Or(x, y) < Pow2(w)
  {
    if w != 0 {
      OrFits(x / 2, y / 2, w - 1);
    }
  }

  lemma {:induction false} XorFits(x: nat, y: nat, w: nat)
    requires x < Pow2(w) && y < Pow2(w)
    ensures Xor(x, y) < Pow2(w)
  {
    if w != 0 {
      XorFits(x / 2, y / 2, w - 1);
    }
  }

  // ------------------------------------------------------------- the loop

  /** Whether the chunk of c bits that holds bit i has an even number. */
  ghost predicate InEvenChunk(i: nat, c: nat)
    requires c > 0
    decreases i
  {
    i < c || !InEvenChunk(i - c, c)
  }

  /** The place of bit i in its chunk of c bits. */
  ghost function Offset(i: nat, c: nat): (r: nat)
    requires c > 0
    ensures r < c && r <= i
    decreases i
  {
    if i < c then i else Offset(i - c, c)
  }

  /** Where bit i of a word comes from when its c-bit chunks are put in reverse order. */
  ghost function Source(i: nat, c: nat): (j: int)
    requires c > 0
  {
    64 - c - (i - Offset(i, c)) + Offset(i, c)
  }

  ghost predicate MaskOfEven(mask: nat, c: nat)
    requires c > 0
  {
    mask < Pow2(WORD) && forall i: nat :: i < 64 ==> Bit(mask, i) == InEvenChunk(i, c)
  }

  ghost predicate ChunksReversed(v: nat, v0: nat, c: nat)
    requires c > 0
  {
    v < Pow2(WORD) &&
    forall i: nat :: i < 64 ==> 0 <= Source(i, c) < 64 && Bit(v, i) == Bit(v0, Source(i, c))
  }

  /** How chunks of s bits lie in chunks of 2*s bits. */
  lemma {:induction false} Halving(i: nat, s: nat)
    requires s > 0
    ensures InEvenChunk(i, s) == (InEvenChunk(i, 2 * s) != (i >= s && InEvenChunk(i - s, 2 * s)))
    ensures InEvenChunk(i, s) ==> Offset(i + s, 2 * s) == Offset(i, s) + s
    ensures !InEvenChunk(i, s) ==> i >= s && Offset(i - s, 2 * s) == Offset(i, s)
    decreases i
  {
    if i >= 2 * s {
      Halving(i - 2 * s, s);
    }
  }

  /** A bit of an even chunk has its whole neighbour chunk above it. */
  lemma {:induction false} EvenChunkBelow(i: nat, s: nat, n: nat)
    requires s > 0 && i < n && InEvenChunk(i, s)
    requires Offset(n, 2 * s) == 0
    ensures i + s < n
    decreases i
  {
    if i >= 2 * s {
      EvenChunkBelow(i - 2 * s, s, n - 2 * s);
    }
  }

  predicate Shift(s: nat) {
    s == 32 || s == 16 || s == 8 || s == 4 || s == 2 || s == 1
  }

  lemma ShiftDivides(s: nat)
    requires Shift(s)
    ensures Offset(64, 2 * s) == 0
  {
    Multiple(64 / (2 * s), 2 * s);
  }

  lemma {:induction false} Multiple(n: nat, c: nat)
    requires c > 0
    ensures n * c >= 0 && Offset(n * c, c) == 0
  {
    if n > 0 {
      assert n * c - c == (n - 1) * c;
      Multiple(n - 1, c);
    }
  }

  lemma MaskStep(mask: nat, s: nat)
    requires Shift(s) && MaskOfEven(mask, 2 * s)
    ensures Xor(mask, Shl(mask, s)) < Pow2(WORD)
    ensures MaskOfEven(Xor(mask, Shl(mask, s)), s)
  {
    assert Shl(mask, s) < Pow2(WORD);
    XorFits(mask, Shl(mask, s), WORD);
    forall i: nat | i < 64
      ensures Bit(Xor(mask, Shl(mask, s)), i) == InEvenChunk(i, s)
    {
      BitXor(mask, Shl(mask, s), i);
      BitShl(mask, s, i);
      Halving(i, s);
    }
  }

  function SwapChunks(v: nat, mask: nat, s: nat): (r: nat)
    requires mask < Pow2(WORD)
  {
    Or(And(Shr(v, s), mask), And(Shl(v, s), Not(mask)))
  }

  lemma SwapBit(v: nat, mask: nat, s: nat, i: nat)
    requires mask < Pow2(WORD) && i < 64
    ensures Bit(SwapChunks(v, mask, s), i) ==
            if Bit(mask, i) then Bit(v, s + i) else i >= s && Bit(v, i - s)
  {
    hide And, Or, Shr, Shl, Bit, Pow2;
    BitOr(And(Shr(v, s), mask), And(Shl(v, s), Not(mask)), i);
    BitAnd(Shr(v, s), mask, i);
    BitAnd(Shl(v, s), Not(mask), i);
    BitComplement(mask, WORD, i);
    BitShr(v, s, i);
    BitShl(v, s, i);
  }

  lemma SwapFits(v: nat, mask: nat, s: nat)
    requires mask < Pow2(WORD)
    requires v < Pow2(WORD)
    ensures SwapChunks(v, mask, s) < Pow2(WORD)
  {
    HighAtMost(v, s);
    AndFits(Shr(v, s), mask, WORD);
    AndFits(Shl(v, s), Not(mask), WORD);
    OrFits(And(Shr(v, s), mask), And(Shl(v, s), Not(mask)), WORD);
  }

  lemma SwapStep(v: nat, v0: nat, mask: nat, s: nat)
    requires Shift(s) && MaskOfEven(mask, s) && ChunksReversed(v, v0, 2 * s)
    ensures ChunksReversed(SwapChunks(v, mask, s), v0, s)
  {
    hide SwapChunks, Bit, Pow2;
    SwapFits(v, mask, s);
    forall i: nat | i < 64
      ensures 0 <= Source(i, s) < 64
      ensures Bit(SwapChunks(v, mask, s), i) == Bit(v0, Source(i, s))
    {
      SwapBit(v, mask, s, i);
      Halving(i, s);
      if InEvenChunk(i, s) {
        ShiftDivides(s);
        EvenChunkBelow(i, s, 64);
        assert Source(i, s) == Source(s + i, 2 * s);
      } else {
        assert Source(i, s) == Source(i - s, 2 * s);
      }
    }
  }

  lemma AllOnes()
    ensures MaskOfEven(Pow2(WORD) - 1, 64)
  {
    forall i: nat | i < 64 ensures Bit(Pow2(WORD) - 1, i) == InEvenChunk(i, 64) {
      BitComplement(0, WORD, i);
      HighZero(i);
    }
  }

  lemma OneChunk(v: nat)
    requires v < Pow2(WORD)
    ensures ChunksReversed(v, v, 64)
  {
  }

  /** The reversal loop returns the 64 bits of v in the opposite order. */
  method Rev(v0: nat) returns (v: nat)
    requires v0 < Pow2(WORD)
    ensures v == RevN(WORD, v0)
  {
    hide ChunksReversed, MaskOfEven, Pow2, And, Or, Xor, Shl, Shr, RevN;
    v := v0;
    var s: nat := 64;
    var mask: nat := Pow2(WORD) - 1;
    AllOnes();
    s := s / 2;
    OneChunk(v);
    while s > 0
      invariant s == 0 || Shift(s)
      invariant mask < Pow2(WORD)
      invariant s > 0 ==> MaskOfEven(mask, 2 * s) && ChunksReversed(v, v0, 2 * s)
      invariant s == 0 ==> ChunksReversed(v, v0, 1)
    {
      MaskStep(mask, s);
      mask := Xor(mask, Shl(mask, s));
      SwapStep(v, v0, mask, s);
      v := Or(And(Shr(v, s), mask), And(Shl(v, s), Not(mask)));
      s := s / 2;
    }
    Reversed(v, v0);
  }

  lemma Reversed(v: nat, v0: nat)
    requires v0 < Pow2(WORD) && ChunksReversed(v, v0, 1)
    ensures v == RevN(WORD, v0)
  {
    forall i: nat | i < WORD ensures Bit(v, i) == Bit(RevN(WORD, v0), i) {
      BitRevN(WORD, v0, i);
      assert Source(i, 1) == 63 - i;
    }
    BitsDetermine(v, RevN(WORD, v0), WORD);
  }
}
