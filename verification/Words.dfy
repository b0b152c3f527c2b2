/**
 Unsigned machine words as natural numbers below 2^w, with C's bitwise operators
 given bit by bit and the arithmetic facts that power-of-two masks obey.
 `RevN` is the reference meaning of bit reversal; `Rev` is the loop of dict.c.
 */
module Words {

  const WORD: nat := 64

  function Pow2(k: nat): (p: nat)
    ensures p > 0
  {
    if k == 0 then 1 else 2 * Pow2(k - 1)
  }

  // ---------------------------------------------------------------- operators

  /** The C operator `&`. */
  function And(x: nat, y: nat): (r: nat)
    decreases x
  {
    if x == 0 then 0 else (if x % 2 == 1 && y % 2 == 1 then 1 else 0) + 2 * And(x / 2, y / 2)
  }

  /** The C operator `|`. */
  function Or(x: nat, y: nat): (r: nat)
    decreases x + y
  {
    if x == 0 && y == 0 then 0
    else (if x % 2 == 1 || y % 2 == 1 then 1 else 0) + 2 * Or(x / 2, y / 2)
  }

  /** The C operator `^`. */
  function Xor(x: nat, y: nat): (r: nat)
    decreases x + y
  {
    if x == 0 && y == 0 then 0
    else (if x % 2 == y % 2 then 0 else 1) + 2 * Xor(x / 2, y / 2)
  }

  /** The C operator `~` on an unsigned long. */
  function Not(x: nat): (r: nat)
    requires x < Pow2(WORD)
  {
    Pow2(WORD) - 1 - x
  }

  /** x times 2^k. */
  function Up(x: nat, k: nat): (r: nat) {
    if k == 0 then x else 2 * Up(x, k - 1)
  }

  /** The C operator `<<` on an unsigned long: bits shifted out at the top are lost. */
  function Shl(x: nat, s: nat): (r: nat) {
    Low(Up(x, s), WORD)
  }

  /** The C operator `>>` on an unsigned long. */
  function Shr(x: nat, s: nat): (r: nat) {
    High(x, s)
  }

  /** `x + 1` on an unsigned long. */
  function Increment(x: nat): (r: nat)
    ensures r < Pow2(WORD)
  {
    if x + 1 >= Pow2(WORD) then 0 else x + 1
  }

  // ------------------------------------------------------- powers of two

  lemma {:induction false} Pow2Mono(a: nat, b: nat)
    requires a <= b
    ensures Pow2(a) <= Pow2(b)
    ensures a < b ==> 2 * Pow2(a) <= Pow2(b)
  {
    if a < b {
      Pow2Mono(a, b - 1);
    }
  }

  // ------------------------------------------------ the k low bits and the rest

  function Low(x: nat, k: nat): (r: nat)
    ensures r < Pow2(k)
  {
    if k == 0 then 0 else x % 2 + 2 * Low(x / 2, k - 1)
  }

  function High(x: nat, k: nat): (r: nat) {
    if k == 0 then x else High(x / 2, k - 1)
  }

  lemma {:induction false} LowHigh(x: nat, k: nat)
    ensures x == Up(High(x, k), k) + Low(x, k)
    ensures x < Pow2(k) ==> Low(x, k) == x && High(x, k) == 0
  {
    if k != 0 {
      LowHigh(x / 2, k - 1);
    }
  }

  /** The low k bits and the rest are determined by one equation. */
  lemma {:induction false} LowHighUnique(x: nat, k: nat, h: nat, l: nat)
    requires x == Up(h, k) + l && l < Pow2(k)
    ensures High(x, k) == h && Low(x, k) == l
  {
    if k != 0 {
      LowHighUnique(x / 2, k - 1, h, l / 2);
    }
  }

  lemma {:induction false} LowSplit(v: nat, a: nat, d: nat)
    ensures Low(v, a + d) == Up(Low(High(v, a), d), a) + Low(v, a)
  {
    if a > 0 {
      LowSplit(v / 2, a - 1, d);
    }
  }

  lemma {:induction false} UpAdd(x: nat, y: nat, k: nat)
    ensures Up(x + y, k) == Up(x, k) + Up(y, k)
  {
    if k != 0 {
      UpAdd(x, y, k - 1);
    }
  }

  lemma {:induction false} UpPow2(a: nat, k: nat)
    ensures Up(Pow2(a), k) == Pow2(a + k)
  {
    if k != 0 {
      UpPow2(a, k - 1);
    }
  }

  lemma UpMono(x: nat, y: nat, k: nat)
    requires x <= y
    ensures Up(x, k) <= Up(y, k)
    ensures x < y ==> Up(x, k) + Pow2(k) <= Up(y, k)
  {
    UpAdd(x, y - x, k);
    if x < y {
      UpAdd(1, y - x - 1, k);
      UpPow2(0, k);
    }
  }

  lemma {:induction false} UpInjective(x: nat, y: nat, k: nat)
    requires Up(x, k) == Up(y, k)
    ensures x == y
  {
    if k > 0 {
      UpInjective(x, y, k - 1);
    }
  }

  lemma {:induction false} UpUp(x: nat, j: nat, k: nat)
    ensures Up(Up(x, j), k) == Up(x, j + k)
  {
    if k != 0 {
      UpUp(x, j, k - 1);
    }
  }

  lemma Up6(h: nat)
    ensures Up(h, 6) == 64 * h
  {
    assert Up(h, 2) == 4 * h by { assert Up(h, 1) == 2 * h; }
    assert Up(h, 4) == 16 * h by { assert Up(h, 3) == 8 * h; }
    assert Up(h, 5) == 32 * h;
  }

  lemma Low8(x: nat)
    ensures Low(x, 8) == x % 256
  {
    hide *;
    var h := High(x, 8);
    LowHigh(x, 8);
    Up8(h);
    Up8(1);
    UpPow2(0, 8);
    Pow2Zero();
    Remainder(h, Low(x, 8));
  }

  lemma Up8(h: nat)
    ensures Up(h, 8) == 256 * h
  {
    Up6(h);
    assert Up(h, 7) == 128 * h;
  }

  lemma Remainder(h: nat, l: nat)
    requires l < 256
    ensures (256 * h + l) % 256 == l
  {
  }

  // ----------------------------------------------------------- masks

  /** The mask of bits k up to l. */
  function Band(k: nat, l: nat): (m: nat)
    requires k <= l
  {
    if l == 0 then 0
    else if k == 0 then 1 + 2 * Band(0, l - 1)
    else 2 * Band(k - 1, l - 1)
  }

  lemma {:induction false} BandIs(k: nat, l: nat)
    requires k <= l
    ensures Band(k, l) == Pow2(l) - Pow2(k)
  {
    if k > 0 {
      BandIs(k - 1, l - 1);
    } else if l > 0 {
      BandIs(0, l - 1);
    }
  }

  lemma {:induction false} AndBand(x: nat, k: nat, l: nat)
    requires k <= l
    ensures And(x, Band(k, l)) == Low(x, l) - Low(x, k)
  {
    if l == 0 {
      AndZero(x);
    } else {
      var j := if k == 0 then 0 else k - 1;
      AndBand(x / 2, j, l - 1);
      BandHead(k, l);
      Halved(Band(k, l), Band(j, l - 1));
      AndHead(x, Band(k, l));
      LowHead(x, l);
      if k > 0 {
        LowHead(x, k);
      }
      hide And, Band, Low;
    }
  }

  lemma AndHead(x: nat, y: nat)
    ensures And(x, y) == (if x % 2 == 1 && y % 2 == 1 then 1 else 0) + 2 * And(x / 2, y / 2)
  {
  }

  lemma OrHead(x: nat, y: nat)
    ensures Or(x, y) == (if x % 2 == 1 || y % 2 == 1 then 1 else 0) + 2 * Or(x / 2, y / 2)
  {
  }

  lemma BandHead(k: nat, l: nat)
    requires k <= l && l > 0
    ensures Band(k, l) == if k == 0 then 1 + 2 * Band(0, l - 1) else 2 * Band(k - 1, l - 1)
  {
  }

  lemma LowHead(x: nat, k: nat)
    requires k > 0
    ensures Low(x, k) == x % 2 + 2 * Low(x / 2, k - 1)
  {
  }

  lemma HighHead(x: nat, k: nat)
    requires k > 0
    ensures High(x, k) == High(x / 2, k - 1)
  {
  }

  lemma Pow2Head(k: nat)
    requires k > 0
    ensures Pow2(k) == 2 * Pow2(k - 1)
  {
  }

  lemma {:induction false} AndZero(x: nat)
    ensures And(x, 0) == 0
  {
    if x != 0 {
      AndZero(x / 2);
    }
  }

  /** `x & mask` keeps the k low bits. */
  lemma AndMask(x: nat, k: nat)
    ensures And(x, Pow2(k) - 1) == Low(x, k)
  {
    BandIs(0, k);
    AndBand(x, 0, k);
  }

  /** `x & ~mask` clears the k low bits of a w-bit word. */
  lemma AndHighMask(x: nat, k: nat, w: nat)
    requires k <= w && x < Pow2(w)
    ensures Pow2(k) <= Pow2(w) && And(x, Pow2(w) - Pow2(k)) == x - Low(x, k)
  {
    BandIs(k, w);
    AndBand(x, k, w);
    LowHigh(x, w);
  }

  /** `x & (m0 ^ m1)` keeps the bits between two masks. */
  lemma AndBetween(x: nat, k: nat, l: nat)
    requires k <= l
    ensures And(x, Xor(Pow2(k) - 1, Pow2(l) - 1)) == Low(x, l) - Low(x, k)
  {
    hide *;
    BandIs(0, k);
    BandIs(0, l);
    Pow2Zero();
    XorBand(k, l);
    AndBand(x, k, l);
  }

  lemma Pow2Zero()
    ensures Pow2(0) == 1
  {
  }

  lemma {:induction false} XorBand(k: nat, l: nat)
    requires k <= l
    ensures Xor(Band(0, k), Band(0, l)) == Band(k, l)
  {
    if l > 0 {
      var a, b := if k > 0 then Band(0, k - 1) else 0, Band(0, l - 1);
      assert Band(0, k) == (if k > 0 then 1 + 2 * a else 0) && Band(0, l) == 1 + 2 * b;
      XorBand(if k > 0 then k - 1 else 0, l - 1);
      Halved(Band(0, k), a);
      Halved(Band(0, l), b);
      XorHead(Band(0, k), Band(0, l));
      hide Xor;
    }
  }

  lemma Halved(n: nat, m: nat)
    requires n == 2 * m || n == 2 * m + 1
    ensures n / 2 == m && n % 2 == n - 2 * m
  {
  }

  lemma XorHead(x: nat, y: nat)
    ensures Xor(x, y) == (if x % 2 == y % 2 then 0 else 1) + 2 * Xor(x / 2, y / 2)
  {
  }

  lemma {:induction false} OrBand(x: nat, k: nat, w: nat)
    requires k <= w && x < Pow2(w)
    ensures Or(x, Band(k, w)) == Band(k, w) + Low(x, k)
  {
    if w > 0 {
      hide *;
      var j := if k == 0 then 0 else k - 1;
      Pow2Head(w);
      OrBand(x / 2, j, w - 1);
      BandHead(k, w);
      Halved(Band(k, w), Band(j, w - 1));
      OrHead(x, Band(k, w));
      LowNone(x);
      if k > 0 {
        LowHead(x, k);
      }
    }
  }

  lemma LowNone(x: nat)
    ensures Low(x, 0) == 0 && Low(x / 2, 0) == 0 && High(x, 0) == x
  {
  }

  /** `x | ~mask` sets every bit above the mask. */
  lemma OrHighMask(x: nat, k: nat, w: nat)
    requires k <= w && x < Pow2(w)
    ensures Pow2(k) <= Pow2(w) && Or(x, Pow2(w) - Pow2(k)) == Pow2(w) - Pow2(k) + Low(x, k)
  {
    BandIs(k, w);
    OrBand(x, k, w);
  }

  lemma {:induction false} OrMask(x: nat, k: nat)
    ensures Or(x, Pow2(k) - 1) == x - Low(x, k) + Pow2(k) - 1
  {
    if k == 0 {
      OrZero(x);
    } else {
      OrMask(x / 2, k - 1);
    }
  }

  lemma {:induction false} OrZero(x: nat)
    ensures Or(x, 0) == x && Or(0, x) == x
  {
    if x != 0 {
      OrZero(x / 2);
    }
  }

  /** `|` of words that share no bits is `+`. */
  lemma {:induction false} OrDisjoint(a: nat, k: nat, b: nat)
    requires b < Pow2(k)
    ensures Or(Up(a, k), b) == Up(a, k) + b
  {
    if k == 0 {
      OrZero(a);
    } else {
      OrDisjoint(a, k - 1, b / 2);
    }
  }

  // ----------------------------------------------------- bit reversal

  /** The w low bits of x in the opposite order. */
  function RevN(w: nat, x: nat): (r: nat)
    ensures r < Pow2(w)
  {
    if w == 0 then 0
    else (if x % 2 == 1 then Pow2(w - 1) else 0) + RevN(w - 1, x / 2)
  }

  /** Reversal acts on the low and the high part of a word separately. */
  lemma {:induction false} RevSplit(a: nat, b: nat, x: nat)
    ensures RevN(a + b, x) == Up(RevN(a, Low(x, a)), b) + RevN(b, High(x, a))
  {
    hide *;
    if a != 0 {
      RevSplit(a - 1, b, x / 2);
      RevHead(a + b, x);
      LowHead(x, a);
      HighHead(x, a);
      var l := Low(x / 2, a - 1);
      Halved(Low(x, a), l);
      RevHead(a, Low(x, a));
      UpPow2(a - 1, b);
      UpAdd(Pow2(a - 1), RevN(a - 1, l), b);
    } else {
      LowNone(x);
      RevZero(0);
      UpZero(b);
    }
  }

  lemma RevHead(w: nat, x: nat)
    requires w > 0
    ensures RevN(w, x) == (if x % 2 == 1 then Pow2(w - 1) else 0) + RevN(w - 1, x / 2)
  {
  }

  lemma {:induction false} UpZero(k: nat)
    ensures Up(0, k) == 0
  {
    if k != 0 {
      UpZero(k - 1);
    }
  }

  /** Reversing twice gives the word back. */
  lemma {:induction false} RevInvolution(w: nat, x: nat)
    requires x < Pow2(w)
    ensures RevN(w, RevN(w, x)) == x
  {
    if w != 0 {
      RevLastBit(w, x);
      RevOne(x % 2);
      hide *;
      Pow2Head(w);
      RevInvolution(w - 1, x / 2);
      RevSplit(w - 1, 1, RevN(w, x));
      UpOne(RevN(w - 1, RevN(w - 1, x / 2)));
    }
  }

  /** The last bit of x comes first in its reversal. */
  lemma RevLastBit(w: nat, x: nat)
    requires w > 0
    ensures Low(RevN(w, x), w - 1) == RevN(w - 1, x / 2) && High(RevN(w, x), w - 1) == x % 2
  {
    hide *;
    RevHead(w, x);
    Pow2Zero();
    UpPow2(0, w - 1);
    UpZero(w - 1);
    LowHighUnique(RevN(w, x), w - 1, x % 2, RevN(w - 1, x / 2));
  }

  lemma RevOne(b: nat)
    requires b < 2
    ensures RevN(1, b) == b
  {
    assert RevN(0, b / 2) == 0;
  }

  lemma UpOne(x: nat)
    ensures Up(x, 1) == 2 * x
  {
  }

  lemma RevInjective(w: nat, x: nat, y: nat)
    requires x < Pow2(w) && y < Pow2(w)
    requires RevN(w, x) == RevN(w, y)
    ensures x == y
  {
    RevInvolution(w, x);
    RevInvolution(w, y);
  }

  /** t low ones in w bits reverse to t high ones. */
  lemma {:induction false} RevLowOnes(w: nat, t: nat)
    requires t <= w
    ensures Pow2(t) - 1 < Pow2(w) && Pow2(w - t) <= Pow2(w)
    ensures RevN(w, Pow2(t) - 1) == Pow2(w) - Pow2(w - t)
  {
    hide *;
    Pow2Zero();
    Pow2Mono(t, w);
    Pow2Mono(w - t, w);
    if t == 0 {
      RevZero(w);
    } else {
      Pow2Head(w);
      Pow2Head(t);
      RevLowOnes(w - 1, t - 1);
      assert w - 1 - (t - 1) == w - t;
      Halved(Pow2(t) - 1, Pow2(t - 1) - 1);
      RevHead(w, Pow2(t) - 1);
    }
  }

  lemma {:induction false} RevZero(w: nat)
    ensures RevN(w, 0) == 0
  {
    if w != 0 {
      RevZero(w - 1);
    }
  }
}
