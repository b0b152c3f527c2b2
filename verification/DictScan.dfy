/**
 dictScan: the reverse-binary cursor. A cursor stands for a position on the line
 of bit-reversed hashes; a table of size 2^k cuts that line into 2^k intervals,
 one a bucket, and one call moves over one interval of the smaller table.
 */
module DictScan {
  import opened Words
  import opened DictSpec

  /** The number k with n == 2^k. */
  function Log2(n: nat): (k: nat) {
    if n <= 1 then 0 else 1 + Log2(n / 2)
  }

  lemma {:induction false} Log2OfPow2(k: nat)
    ensures Log2(Pow2(k)) == k
  {
    if k != 0 {
      Log2OfPow2(k - 1);
    }
  }

  // -------------------------------------------------------- the line of hashes

  /** The place of a 64-bit word on the line. */
  function Pos(v: nat): nat { RevN(WORD, v) }

  /** The bucket interval, counted from 0, that holds place p in a table of size 2^k. */
  function Interval(p: nat, k: nat): nat
    requires k <= WORD
  {
    High(p, WORD - k)
  }

  /** Where the interval after the one that holds p begins. */
  function NextPos(p: nat, k: nat): nat
    requires k <= WORD
  {
    Up(Interval(p, k) + 1, WORD - k)
  }

  /** The cursor that a call returns when the smaller table has size 2^k. */
  function NextCursor(v: nat, k: nat): nat
    requires k <= WORD
  {
    if NextPos(Pos(v), k) >= Pow2(WORD) then 0 else RevN(WORD, NextPos(Pos(v), k))
  }

  /** `rev`, `++`, `rev` on `v | ~m0` in the terms of the C code. */
  function IncrementReversed(v: nat, m0: nat): nat
    requires v < Pow2(WORD) && m0 < Pow2(WORD)
  {
    RevN(WORD, Increment(RevN(WORD, Or(v, Not(m0)))))
  }

  lemma IntervalOf(v: nat, k: nat)
    requires k <= WORD
    ensures Interval(Pos(v), k) == RevN(k, Low(v, k))
    ensures Low(Pos(v), WORD - k) == RevN(WORD - k, High(v, k))
  {
    RevSplit(k, WORD - k, v);
    LowHighUnique(Pos(v), WORD - k, RevN(k, Low(v, k)), RevN(WORD - k, High(v, k)));
  }

  /** Two words lie in one interval exactly when they share the bucket. */
  lemma SameInterval(v: nat, h: nat, k: nat)
    requires k <= WORD
    ensures Interval(Pos(v), k) == Interval(Pos(h), k) <==> Low(v, k) == Low(h, k)
  {
    IntervalOf(v, k);
    IntervalOf(h, k);
    if Interval(Pos(v), k) == Interval(Pos(h), k) {
      RevInjective(k, Low(v, k), Low(h, k));
    }
  }

  /** The cursor arithmetic of the code moves to the start of the next interval. */
  lemma CursorStep(v: nat, k: nat)
    requires k <= WORD && v < Pow2(WORD)
    ensures Pow2(k) <= Pow2(WORD) && Or(v, Not(Pow2(k) - 1)) < Pow2(WORD)
    ensures IncrementReversed(v, Pow2(k) - 1) == NextCursor(v, k)
  {
    hide Up, RevN, Low, High, Pow2, Or;
    Pow2Mono(k, WORD);
    OrHighMask(v, k, WORD);
    SetHighBits(v, k);
    var c := WORD - k;
    UpPow2(k, c);
    UpMono(RevN(k, Low(v, k)) + 1, Pow2(k), c);
    IntervalOf(v, k);
    RevZero(WORD);
  }

  /** Reversing `v | ~m0` fills the interval of v up to its last place. */
  lemma SetHighBits(v: nat, k: nat)
    requires k <= WORD && v < Pow2(WORD) && Pow2(k) <= Pow2(WORD)
    ensures RevN(WORD, Or(v, Not(Pow2(k) - 1))) + 1 == Up(RevN(k, Low(v, k)) + 1, WORD - k)
  {
    hide Up, RevN, Low, High, Pow2, Or;
    var c := WORD - k;
    var u := Or(v, Not(Pow2(k) - 1));
    OrHighMask(v, k, WORD);
    Pow2Zero();
    UpPow2(c, k);
    UpPow2(0, k);
    UpAdd(Pow2(c) - 1, 1, k);
    LowHighUnique(u, k, Pow2(c) - 1, Low(v, k));
    RevSplit(k, c, u);
    RevLowOnes(c, c);
    UpPow2(0, c);
    UpAdd(RevN(k, Low(v, k)), 1, c);
  }

  /** The next cursor depends on the masked bits only. */
  lemma NextCursorLow(v: nat, w: nat, k: nat)
    requires k <= WORD && Low(v, k) == Low(w, k)
    ensures NextCursor(v, k) == NextCursor(w, k)
  {
    hide RevN, Up, High, Low, Pow2;
    IntervalOf(v, k);
    IntervalOf(w, k);
  }

  /** A call never moves the cursor back: it wraps to 0 or advances on the line. */
  lemma CursorAdvances(v: nat, k: nat)
    requires k <= WORD && v < Pow2(WORD)
    ensures NextCursor(v, k) < Pow2(WORD)
    ensures Pos(v) < NextPos(Pos(v), k) <= Pow2(WORD)
    ensures NextCursor(v, k) == 0 <==> NextPos(Pos(v), k) == Pow2(WORD)
    ensures NextCursor(v, k) != 0 ==> Pos(NextCursor(v, k)) == NextPos(Pos(v), k)
  {
    hide Up, RevN, Low, High, Pow2;
    var p, c := Pos(v), WORD - k;
    LowHigh(p, c);
    UpMono(Interval(p, k), Interval(p, k) + 1, c);
    IntervalOf(v, k);
    UpMono(Interval(p, k) + 1, Pow2(k), c);
    UpPow2(k, c);
    if NextPos(p, k) < Pow2(WORD) {
      RevInvolution(WORD, NextPos(p, k));
      RevZero(WORD);
    }
  }

  /** A returned cursor has no bits above the mask of the smaller table. */
  lemma CursorMasked(v: nat, k: nat)
    requires k <= WORD && v < Pow2(WORD)
    ensures NextCursor(v, k) < Pow2(k)
  {
    CursorAdvances(v, k);
    var q := NextPos(Pos(v), k);
    if q < Pow2(WORD) {
      var c := WORD - k;
      UpZero(c);
      LowHighUnique(q, c, Interval(Pos(v), k) + 1, 0);
      RevSplit(c, k, q);
      RevZero(c);
      UpZero(k);
    }
  }

  /** Everything from the cursor up to the next one shares the cursor's bucket. */
  lemma InStep(v: nat, h: nat, k: nat)
    requires k <= WORD && Pos(v) <= Pos(h) < NextPos(Pos(v), k)
    ensures Low(h, k) == Low(v, k)
  {
    hide Up, RevN, Low, High, Pow2;
    var c := WORD - k;
    LowHigh(Pos(v), c);
    LowHigh(Pos(h), c);
    var i, j := Interval(Pos(v), k), Interval(Pos(h), k);
    if i < j { UpMono(i + 1, j, c); }
    if j < i { UpMono(j, i, c); }
    SameInterval(v, h, k);
  }

  // ------------------------------------------------ two tables during a rehash

  /** The bits of a word between the masks of size 2^k0 and 2^(k0+d). */
  function Expansion(v: nat, k0: nat, d: nat): nat { Low(High(v, k0), d) }

  /** Ones in the low bits and nothing above: `e & (e + 1) == 0`. */
  predicate LowOnes(e: nat) {
    e == 0 || (e % 2 == 1 && LowOnes(e / 2))
  }

  lemma BucketOfExpansion(v: nat, k0: nat, d: nat)
    requires k0 + d <= WORD
    ensures RevN(k0 + d, Low(v, k0 + d)) == Up(RevN(k0, Low(v, k0)), d) + RevN(d, Expansion(v, k0, d))
  {
    LowSplit(v, k0, d);
    LowHighUnique(Low(v, k0 + d), k0, Expansion(v, k0, d), Low(v, k0));
    RevSplit(k0, d, Low(v, k0 + d));
  }

  /** In one bucket of the smaller table, the line is ordered by reversed expansions. */
  lemma ExpansionOrder(v: nat, h: nat, k0: nat, d: nat)
    requires k0 + d <= WORD && Low(v, k0) == Low(h, k0)
    ensures Pos(v) <= Pos(h) ==> RevN(d, Expansion(v, k0, d)) <= RevN(d, Expansion(h, k0, d))
    ensures RevN(d, Expansion(v, k0, d)) < RevN(d, Expansion(h, k0, d)) ==> Pos(v) < Pos(h)
  {
    hide Up, RevN, Low, High, Pow2;
    var k1 := k0 + d;
    BucketOfExpansion(v, k0, d);
    BucketOfExpansion(h, k0, d);
    IntervalOf(v, k1);
    IntervalOf(h, k1);
    LowHigh(Pos(v), WORD - k1);
    LowHigh(Pos(h), WORD - k1);
    var i, j := Interval(Pos(v), k1), Interval(Pos(h), k1);
    if i < j { UpMono(i, j, WORD - k1); }
    if j < i { UpMono(j, i, WORD - k1); }
  }

  /** From low ones upwards, plain order and reversed order skip the same expansions. */
  lemma {:induction false} LowOnesOrder(d: nat, e0: nat, e: nat)
    requires LowOnes(e0) && RevN(d, e0) <= RevN(d, e) && e0 < Pow2(d)
    ensures e0 <= e
  {
    LowOnesHead(e0);
    hide RevN, Pow2, LowOnes;
    if e0 != 0 {
      Pow2Zero();
      Pow2Head(d);
      RevHead(d, e0);
      RevHead(d, e);
      LowOnesOrder(d - 1, e0 / 2, e / 2);
    }
  }

  lemma LowOnesHead(e: nat)
    ensures LowOnes(e) <==> e == 0 || (e % 2 == 1 && LowOnes(e / 2))
  {
  }

  /** Otherwise some expansion is earlier in plain order and later in reversed order. */
  lemma {:induction false} LowOnesNeeded(d: nat, e0: nat) returns (e: nat)
    requires !LowOnes(e0) && e0 < Pow2(d)
    ensures e < e0 && RevN(d, e0) < RevN(d, e)
  {
    LowOnesHead(e0);
    hide RevN, Pow2, LowOnes;
    Pow2Zero();
    Pow2Head(d);
    RevHead(d, e0);
    if e0 % 2 == 0 {
      e := 1;
      RevZero(d - 1);
    } else {
      var f := LowOnesNeeded(d - 1, e0 / 2);
      e := 2 * f + 1;
      Halved(e, f);
    }
    RevHead(d, e);
  }

  /** The expansions that the inner loop visits from cursor v: those not before v's own in plain order. */
  predicate Visits(v: nat, h: nat, k0: nat, d: nat) {
    Low(h, k0) == Low(v, k0) && Expansion(h, k0, d) >= Expansion(v, k0, d)
  }

  /**
   Exactly when a call during a rehash misses nothing: for tables of sizes 2^k0
   and 2^(k0+d), every 32-bit hash between the cursor and the next one is in a
   visited bucket of the larger table if and only if the cursor's expansion bits
   are low ones.
   */
  lemma CallCompleteIff(v: nat, k0: nat, d: nat)
    requires k0 + d <= MAX_LOG_SIZE
    ensures LowOnes(Expansion(v, k0, d)) <==>
            forall h: nat :: h < Pow2(32) && Pos(v) <= Pos(h) < NextPos(Pos(v), k0) ==> Visits(v, h, k0, d)
  {
    var e0 := Expansion(v, k0, d);
    if LowOnes(e0) {
      forall h: nat | h < Pow2(32) && Pos(v) <= Pos(h) < NextPos(Pos(v), k0) ensures Visits(v, h, k0, d) {
        StepVisits(v, h, k0, d);
      }
    } else {
      var h := Missed(v, k0, d);
    }
  }

  lemma StepVisits(v: nat, h: nat, k0: nat, d: nat)
    requires k0 + d <= WORD && LowOnes(Expansion(v, k0, d))
    requires Pos(v) <= Pos(h) < NextPos(Pos(v), k0)
    ensures Visits(v, h, k0, d)
  {
    InStep(v, h, k0);
    ExpansionOrder(v, h, k0, d);
    LowOnesOrder(d, Expansion(v, k0, d), Expansion(h, k0, d));
  }

  /** A hash that a call passes over without visiting it. */
  lemma Missed(v: nat, k0: nat, d: nat) returns (h: nat)
    requires k0 + d <= MAX_LOG_SIZE && !LowOnes(Expansion(v, k0, d))
    ensures h < Pow2(32) && Pos(v) <= Pos(h) < NextPos(Pos(v), k0) && !Visits(v, h, k0, d)
  {
    hide Up, RevN, Low, High, Pow2, LowOnes;
    var e := LowOnesNeeded(d, Expansion(v, k0, d));
    h := Up(e, k0) + Low(v, k0);
    LowHighUnique(h, k0, e, Low(v, k0));
    LowHigh(e, d);
    ExpansionOrder(v, h, k0, d);
    SameInterval(v, h, k0);
    LowHigh(Pos(h), WORD - k0);
    UpMono(Interval(Pos(h), k0), Interval(Pos(h), k0) + 1, WORD - k0);
    UpMono(e, Pow2(d) - 1, k0);
    UpMono(Pow2(d) - 1, Pow2(d), k0);
    UpPow2(d, k0);
    Pow2Mono(k0 + d, 32);
  }

  // ------------------------------------------------- the loop over expansions

  lemma {:induction false} LowIncrement(h: nat, d: nat)
    ensures Low(h + 1, d) == if Low(h, d) + 1 == Pow2(d) then 0 else Low(h, d) + 1
  {
    hide Low, Pow2;
    if d == 0 {
      Pow2Zero();
    } else {
      LowHead(h, d);
      LowHead(h + 1, d);
      Pow2Head(d);
      if h % 2 == 1 {
        LowIncrement(h / 2, d - 1);
      }
    }
  }

  lemma {:induction false} LowOfPow2(c: nat, d: nat)
    requires d <= c
    ensures Low(Pow2(c), d) == 0
  {
    if d > 0 {
      LowOfPow2(c - 1, d - 1);
    }
  }

  /** The statement that increments the bits above the smaller mask. */
  function NextExpansion(v: nat, m0: nat): nat
    requires m0 < Pow2(WORD)
  {
    Or(And(Increment(Or(v, m0)), Not(m0)), And(v, m0))
  }

  /** The expansion after v's, or 0 when the word wraps. */
  function NextHigh(v: nat, k0: nat): nat {
    if Up(High(v, k0) + 1, k0) == Pow2(WORD) then 0 else High(v, k0) + 1
  }

  lemma IncrementedHigh(v: nat, k0: nat)
    requires v < Pow2(WORD) && k0 <= WORD
    ensures Increment(Or(v, Pow2(k0) - 1)) == Up(NextHigh(v, k0), k0)
    ensures Up(NextHigh(v, k0), k0) + Pow2(k0) <= Pow2(WORD)
  {
    hide Up, Low, High, Pow2, Or;
    var h0, c := High(v, k0), WORD - k0;
    LowHigh(v, k0);
    OrMask(v, k0);
    Pow2Zero();
    UpPow2(0, k0);
    UpAdd(h0, 1, k0);
    UpPow2(c, k0);
    UpZero(k0);
    if h0 + 1 > Pow2(c) {
      UpMono(Pow2(c), h0, k0);
    }
    UpMono(h0 + 1, Pow2(c), k0);
    var h := NextHigh(v, k0);
    UpMono(h, h + 1, k0);
    if h + 1 <= Pow2(c) {
      UpMono(h + 1, Pow2(c), k0);
    }
  }

  lemma NextExpansionIs(v: nat, k0: nat)
    requires v < Pow2(WORD) && k0 <= WORD
    ensures Pow2(k0) <= Pow2(WORD)
    ensures var h, v' := NextHigh(v, k0), NextExpansion(v, Pow2(k0) - 1);
            v' == Up(h, k0) + Low(v, k0) < Pow2(WORD) && High(v', k0) == h && Low(v', k0) == Low(v, k0)
  {
    hide Up, Low, High, Pow2, Or, And, Increment, NextHigh;
    Pow2Mono(k0, WORD);
    IncrementedHigh(v, k0);
    var h := NextHigh(v, k0);
    LowHigh(v, k0);
    LowHighUnique(Up(h, k0), k0, h, 0);
    AndHighMask(Up(h, k0), k0, WORD);
    AndMask(v, k0);
    OrDisjoint(h, k0, Low(v, k0));
    LowHighUnique(Up(h, k0) + Low(v, k0), k0, h, Low(v, k0));
  }

  /** One turn of the loop: the bucket it emits, the next expansion, and the test. */
  lemma ExpansionStep(v: nat, k0: nat, d: nat)
    requires v < Pow2(WORD) && k0 + d < WORD
    ensures Pow2(k0) <= Pow2(WORD)
    ensures And(v, Pow2(k0 + d) - 1) == Up(Expansion(v, k0, d), k0) + Low(v, k0) < Pow2(k0 + d)
    ensures var v', e := NextExpansion(v, Pow2(k0) - 1), Expansion(v, k0, d);
            && v' < Pow2(WORD) && Low(v', k0) == Low(v, k0)
            && Expansion(v', k0, d) == (if e + 1 == Pow2(d) then 0 else e + 1)
            && (And(v', Xor(Pow2(k0) - 1, Pow2(k0 + d) - 1)) == 0 <==> e + 1 == Pow2(d))
  {
    hide Up, Low, High, Pow2, Or, And, Xor, NextExpansion;
    AndMask(v, k0 + d);
    LowSplit(v, k0, d);
    NextExpansionIs(v, k0);
    var v' := NextExpansion(v, Pow2(k0) - 1);
    LowIncrement(High(v, k0), d);
    UpPow2(WORD - k0, k0);
    if Up(High(v, k0) + 1, k0) == Pow2(WORD) {
      UpInjective(High(v, k0) + 1, Pow2(WORD - k0), k0);
      LowOfPow2(WORD - k0, d);
      LowZero(d);
    }
    LowSplit(v', k0, d);
    AndBetween(v', k0, k0 + d);
    UpMono(0, Expansion(v', k0, d), k0);
    UpZero(k0);
    Pow2Pos(k0);
  }

  lemma Pow2Pos(k: nat)
    ensures Pow2(k) > 0
  {
  }

  lemma {:induction false} LowZero(d: nat)
    ensures Low(0, d) == 0
  {
    if d != 0 {
      LowZero(d - 1);
    }
  }
}
