/**
 sha1.c in place: the circular 16-word schedule, the registers that change names
 from round to round, and the streaming context, proved against FIPS 180-4.
 */
module Sha1 {
  import opened Sha1Spec
  import Words

  // ------------------------------------------------------------- sha1Transform

  /** A word as a little-endian machine loads it from four bytes. */
  function LoadWord(b0: byte, b1: byte, b2: byte, b3: byte): word {
    (b0 as word) | ((b1 as word) << 8) | ((b2 as word) << 16) | ((b3 as word) << 24)
  }

  function Rol24(x: word): word { (x << 24) | (x >> 8) }
  function Rol8(x: word): word { (x << 8) | (x >> 24) }

  /** The expression of blk0: the bytes of a loaded word in the opposite order. */
  function SwapBytes(l: word): word {
    (Rol24(l) & 0xFF00FF00) | (Rol8(l) & 0x00FF00FF)
  }

  lemma ByteSwap(b0: byte, b1: byte, b2: byte, b3: byte)
    ensures SwapBytes(LoadWord(b0, b1, b2, b3)) == BigEndian(b0, b1, b2, b3)
  {
  }

  /** The new value of z in the macros R0 to R4, where s is the word that blk0 or blk gives. */
  function MacroValue(v: word, w: word, x: word, y: word, z: word, i: nat, s: word): word {
    if i < 20 then Accumulate(z, ChForm(w, x, y), s, 0x5A827999, Rotl5(v))
    else if i < 40 then Accumulate(z, Parity(w, x, y), s, 0x6ED9EBA1, Rotl5(v))
    else if i < 60 then Accumulate(z, MajForm(w, x, y), s, 0x8F1BBCDC, Rotl5(v))
    else Accumulate(z, Parity(w, x, y), s, 0xCA62C1D6, Rotl5(v))
  }

  /** The `z += f + s + k + r` of the macros. */
  function Accumulate(z: word, f: word, s: word, k: word, r: word): word {
    z + (f + s + k + r)
  }

  function ChForm(w: word, x: word, y: word): word { (w & (x ^ y)) ^ y }
  function MajForm(w: word, x: word, y: word): word { ((w | x) & y) | (w & x) }

  lemma ChForms(w: word, x: word, y: word)
    ensures ChForm(w, x, y) == Ch(w, x, y)
  {
    assert (w & (x ^ y)) ^ y == (w & x) ^ (!w & y);
  }

  lemma MajForms(w: word, x: word, y: word)
    ensures MajForm(w, x, y) == Maj(w, x, y)
  {
    assert ((w | x) & y) | (w & x) == (w & x) ^ (w & y) ^ (x & y);
  }

  lemma SumOrder(z: word, f: word, s: word, k: word, r: word)
    ensures Accumulate(z, f, s, k, r) == Sum5(r, f, z, k, s)
  {
  }

  /** The macros, with their own forms of Ch and Maj, compute the step of section 6.1.2. */
  lemma MacroIsStep(v: word, w: word, x: word, y: word, z: word, i: nat, s: word)
    ensures MacroValue(v, w, x, y, z, i, s) == Step(Regs(v, w, x, y, z), i, s).a
  {
    hide Ch, Maj, Parity, ChForm, MajForm, Rotl5, Rotl30, Accumulate, Sum5;
    ChForms(w, x, y);
    MajForms(w, x, y);
    SumOrder(z, F(i, w, x, y), s, K(i), Rotl5(v));
  }

  /**
   The block array before round i, which is section 6.1.3's circular queue: the
   last 16 words of the schedule, and in the first 16 rounds the words not yet
   put in byte order.
   */
  ghost predicate Schedule(l: seq<word>, block: seq<byte>, i: nat)
    requires |block| == 64
  {
    && |l| == 16
    && (forall t: nat :: t < i && i <= t + 16 ==> l[t % 16] == W(BlockWords(block), t))
    && (forall t: nat :: i <= t < 16 ==>
          l[t] == LoadWord(block[4 * t], block[4 * t + 1], block[4 * t + 2], block[4 * t + 3]))
  }

  /** Storing the word of round i in its place. */
  lemma ScheduleNext(l: seq<word>, block: seq<byte>, i: nat)
    requires |block| == 64 && Schedule(l, block, i)
    ensures Schedule(l[i % 16 := W(BlockWords(block), i)], block, i + 1)
  {
    hide W, LoadWord, BlockWords;
    var m := l[i % 16 := W(BlockWords(block), i)];
    forall t: nat | t < i + 1 && i + 1 <= t + 16
      ensures m[t % 16] == W(BlockWords(block), t)
    {
      QueuePlace(t, i);
    }
    forall t: nat | i + 1 <= t < 16
      ensures m[t] == LoadWord(block[4 * t], block[4 * t + 1], block[4 * t + 2], block[4 * t + 3])
    {
    }
  }

  /** Fewer than 16 apart, two words have different places in the queue. */
  lemma QueuePlace(t: nat, i: nat)
    requires t <= i < t + 16
    ensures t % 16 == i % 16 <==> t == i
  {
    if t < i {
      var q, r := t / 16, t % 16;
      assert i == 16 * q + (r + i - t);
    }
  }

  /** blk0: the word of one of the first 16 rounds, stored back in byte order. */
  method Blk0(l: array<word>, ghost block: seq<byte>, i: nat) returns (w: word)
    requires l.Length == 16 && |block| == 64 && i < 16 && Schedule(l[..], block, i)
    modifies l
    ensures w == W(BlockWords(block), i) && Schedule(l[..], block, i + 1)
  {
    hide W, SwapBytes, LoadWord, BigEndian;
    WordOfSchedule(BlockWords(block), i);
    ByteSwap(block[4 * i], block[4 * i + 1], block[4 * i + 2], block[4 * i + 3]);
    ScheduleNext(l[..], block, i);
    w := SwapBytes(l[i]);
    l[i] := w;
  }

  /** The four places of the circular queue that hold the words of section 6.1.2's recurrence. */
  lemma QueuePlaces(l: seq<word>, block: seq<byte>, i: nat)
    requires |block| == 64 && i >= 16 && Schedule(l, block, i)
    ensures l[(i + 13) % 16] == W(BlockWords(block), i - 3) && l[(i + 8) % 16] == W(BlockWords(block), i - 8)
    ensures l[(i + 2) % 16] == W(BlockWords(block), i - 14) && l[i % 16] == W(BlockWords(block), i - 16)
  {
    hide W, LoadWord, BlockWords;
    assert (i - 3) % 16 == (i + 13) % 16 && (i - 8) % 16 == (i + 8) % 16;
    assert (i - 14) % 16 == (i + 2) % 16 && (i - 16) % 16 == i % 16;
  }

  /** blk: the word of a later round, computed in the circular queue. */
  method Blk(l: array<word>, ghost block: seq<byte>, i: nat) returns (w: word)
    requires l.Length == 16 && |block| == 64 && i >= 16 && Schedule(l[..], block, i)
    modifies l
    ensures w == W(BlockWords(block), i) && Schedule(l[..], block, i + 1)
  {
    hide W, Schedule, Mixed, BlockWords;
    WordOfSchedule(BlockWords(block), i);
    QueuePlaces(l[..], block, i);
    ScheduleNext(l[..], block, i);
    var p, q, r, s := (i + 13) % 16, (i + 8) % 16, (i + 2) % 16, i % 16;
    assert l[p] == l[..][p] && l[q] == l[..][q] && l[r] == l[..][r] && l[s] == l[..][s];
    w := Mixed(l[p], l[q], l[r], l[s]);
    l[s] := w;
    assert l[..] == old(l[..])[i % 16 := w];
  }

  lemma WordOfSchedule(m: seq<word>, i: nat)
    requires |m| == 16
    ensures i < 16 ==> W(m, i) == m[i]
    ensures i >= 16 ==> W(m, i) == Mixed(W(m, i - 3), W(m, i - 8), W(m, i - 14), W(m, i - 16))
  {
  }

  /** The macros R0 to R4: one round with the register names as given; w and z change. */
  method Round(l: array<word>, ghost block: seq<byte>, v: word, w: word, x: word, y: word, z: word, i: nat)
    returns (w': word, z': word)
    requires l.Length == 16 && |block| == 64 && i < 80 && Schedule(l[..], block, i)
    modifies l
    ensures Schedule(l[..], block, i + 1)
    ensures Step(Regs(v, w, x, y, z), i, W(BlockWords(block), i)) == Regs(z', v, w', x, y)
  {
    hide Schedule, W, BlockWords, MacroValue, F, K, Rotl5, Rotl30;
    var s;
    if i < 16 {
      s := Blk0(l, block, i);
    } else {
      s := Blk(l, block, i);
    }
    MacroIsStep(v, w, x, y, z, i, s);
    z' := MacroValue(v, w, x, y, z, i, s);
    w' := Rotl30(w);
  }

  lemma RoundsNext(r: Regs, m: seq<word>, t: nat)
    requires |m| == 16
    ensures Rounds(r, m, t + 1) == Step(Rounds(r, m, t), t, W(m, t))
  {
  }

  ghost function RegsOf(s: seq<word>): Regs
    requires |s| == 5
  {
    Regs(s[0], s[1], s[2], s[3], s[4])
  }

  /** Five rounds, after which the register names are back in place. */
  method FiveRounds(l: array<word>, ghost block: seq<byte>, ghost h: Regs, r: Regs, i: nat) returns (r': Regs)
    requires l.Length == 16 && |block| == 64 && i + 5 <= 80 && Schedule(l[..], block, i)
    requires r == Rounds(h, BlockWords(block), i)
    modifies l
    ensures Schedule(l[..], block, i + 5)
    ensures r' == Rounds(h, BlockWords(block), i + 5)
  {
    hide Schedule, Step, Rounds, BlockWords, W;
    ghost var m := BlockWords(block);
    var a, b, c, d, e := r.a, r.b, r.c, r.d, r.e;
    RoundsNext(h, m, i);
    b, e := Round(l, block, a, b, c, d, e, i);
    RoundsNext(h, m, i + 1);
    a, d := Round(l, block, e, a, b, c, d, i + 1);
    RoundsNext(h, m, i + 2);
    e, c := Round(l, block, d, e, a, b, c, i + 2);
    RoundsNext(h, m, i + 3);
    d, b := Round(l, block, c, d, e, a, b, i + 3);
    RoundsNext(h, m, i + 4);
    c, a := Round(l, block, b, c, d, e, a, i + 4);
    r' := Regs(a, b, c, d, e);
  }

  /** sha1Transform: the 80 unrolled rounds, folded into 16 turns of five. */
  method Transform(state: array<word>, block: seq<byte>)
    requires state.Length == 5 && |block| == 64
    modifies state
    ensures RegsOf(state[..]) == Compress(RegsOf(old(state[..])), BlockWords(block))
  {
    ghost var h, m := RegsOf(state[..]), BlockWords(block);
    hide Schedule, Rounds, BlockWords, Plus;
    var l := LoadBlock(block);
    var r := Regs(state[0], state[1], state[2], state[3], state[4]);
    RoundsZero(h, m);
    for n := 0 to 16
      invariant Schedule(l[..], block, 5 * n)
      invariant r == Rounds(h, m, 5 * n)
      invariant state[..] == old(state[..])
    {
      r := FiveRounds(l, block, h, r, 5 * n);
    }
    AddInto(state, r.a, r.b, r.c, r.d, r.e);
  }

  /** Add the working variables back into the state. */
  method AddInto(state: array<word>, a: word, b: word, c: word, d: word, e: word)
    requires state.Length == 5
    modifies state
    ensures RegsOf(state[..]) == Plus(RegsOf(old(state[..])), Regs(a, b, c, d, e))
  {
    hide Sum;
    state[0] := Sum(state[0], a);
    state[1] := Sum(state[1], b);
    state[2] := Sum(state[2], c);
    state[3] := Sum(state[3], d);
    state[4] := Sum(state[4], e);
  }

  lemma RoundsZero(r: Regs, m: seq<word>)
    requires |m| == 16
    ensures Rounds(r, m, 0) == r
  {
  }

  /** The copy of the block into 16 machine words. */
  method LoadBlock(block: seq<byte>) returns (l: array<word>)
    requires |block| == 64
    ensures fresh(l) && l.Length == 16 && Schedule(l[..], block, 0)
  {
    l := new word[16](i requires 0 <= i < 16 =>
      LoadWord(block[4 * i], block[4 * i + 1], block[4 * i + 2], block[4 * i + 3]));
  }

  // ---------------------------------------------------------------- streaming

  const W32: nat := 0x1_0000_0000

  lemma ChainNext(m: seq<byte>, n: nat)
    requires 64 * (n + 1) <= |m|
    ensures Chain(m, n + 1) == Compress(Chain(m, n), BlockWords(m[64 * n..64 * n + 64]))
  {
  }

  /** The blocks of a message do not depend on what follows them. */
  lemma {:induction false} ChainPrefix(m: seq<byte>, x: seq<byte>, n: nat)
    requires 64 * n <= |m|
    ensures Chain(m + x, n) == Chain(m, n)
  {
    if n > 0 {
      ChainPrefix(m, x, n - 1);
      assert (m + x)[64 * (n - 1)..64 * n] == m[64 * (n - 1)..64 * n];
    }
  }

  const W64: nat := 0x1_0000_0000_0000_0000

  /** The two halves of the 64-bit count of bits. */
  ghost predicate Counts(count0: nat, count1: nat, length: nat) {
    count0 < W32 && count1 < W32 && exists h: nat :: CountIs(count0, count1, h, length)
  }

  ghost predicate CountIs(count0: nat, count1: nat, h: nat, length: nat) {
    8 * length == h * W64 + count1 * W32 + count0
  }

  /** `a + b`, `len << 3` and `len >> 29` on 32-bit words. */
  function Add32(a: nat, b: nat): nat {
    (a + b) % W32
  }

  function Bits32(len: nat): nat {
    8 * len % W32
  }

  function Top3(len: nat): nat {
    len / 0x2000_0000
  }

  /** The update of the counters, with its carry, adds 8 * len to the 64-bit count. */
  lemma CountAdd(count0: nat, count1: nat, length: nat, len: nat)
    requires Counts(count0, count1, length) && len < W32
    ensures var low := Add32(count0, Bits32(len));
            var c := if low < Bits32(len) then Add32(count1, 1) else count1;
            Counts(low, Add32(c, Top3(len)), length + len)
  {
    var h: nat :| CountIs(count0, count1, h, length);
    BitsSplit(len);
    hide Add32, Bits32, Top3;
    var bits, up := Bits32(len), Top3(len);
    AddCarry(count0, bits);
    var low := Add32(count0, bits);
    var c := if low < bits then Add32(count1, 1) else count1;
    AddCarry(count1, 1);
    AddCarry(c, up);
    var high := Add32(c, up);
    var w := (if low < bits && c < 1 then 1 else 0) + if high < up then 1 else 0;
    assert CountIs(low, high, h + w, length + len);
  }

  lemma BitsSplit(len: nat)
    requires len < W32
    ensures Bits32(len) < W32 && Top3(len) < W32 && 8 * len == Bits32(len) + W32 * Top3(len)
  {
  }

  /** A sum on 32-bit words wrapped exactly when it is below an operand. */
  lemma AddCarry(a: nat, b: nat)
    requires a < W32 && b < W32
    ensures Add32(a, b) < W32 && a + b == Add32(a, b) + if Add32(a, b) < b then W32 else 0
  {
    assert a + b >= W32 ==> (a + b) % W32 == a + b - W32;
  }

  /** The number of bytes waiting in the buffer, read off the counter. */
  lemma CountPlace(count0: nat, count1: nat, length: nat)
    requires Counts(count0, count1, length)
    ensures count0 / 8 % 64 == length % 64
    ensures Words.And(count0, 504) == 8 * (length % 64)
  {
    var h: nat :| CountIs(count0, count1, h, length);
    var k := h * 0x80_0000_0000_0000 + count1 * 0x80_0000;
    assert count0 == 8 * (length - 64 * k);
    ModShift(length, k, count0 / 8);
    And504(count0);
  }

  lemma ModShift(x: nat, k: nat, y: nat)
    requires x == y + 64 * k
    ensures x % 64 == y % 64
  {
    assert y == 64 * (y / 64) + y % 64;
    assert x == 64 * (k + y / 64) + y % 64;
  }

  lemma PlaceInBlock(length: nat, blocks: nat)
    requires 64 * blocks <= length < 64 * blocks + 64
    ensures length % 64 == length - 64 * blocks
  {
  }

  /** 504 is the mask of the six bits from the fourth on. */
  lemma And504(x: nat)
    ensures Words.And(x, 504) == 8 * (x / 8 % 64)
  {
    var y := x / 8;
    Masks();
    ThreeBits(x);
    LowSix(y);
    hide *;
    Words.BandIs(3, 9);
    Words.AndBand(x, 3, 9);
    Words.LowSplit(x, 3, 6);
  }

  lemma Masks()
    ensures Words.Pow2(3) == 8 && Words.Pow2(9) == 512
  {
  }

  lemma ThreeBits(x: nat)
    ensures Words.High(x, 3) == x / 8
    ensures forall y: nat :: Words.Up(y, 3) == 8 * y
  {
    assert Words.High(x / 2, 2) == Words.High(x / 4, 1) == x / 8;
    forall y: nat ensures Words.Up(y, 3) == 8 * y {
      assert Words.Up(y, 1) == 2 * y;
    }
  }

  lemma LowSix(x: nat)
    ensures Words.Low(x, 6) == x % 64
  {
    Words.LowHigh(x, 6);
    assert Words.Pow2(6) == 64;
    var h := Words.High(x, 6);
    Words.Up6(h);
    ModShift(x, h, Words.Low(x, 6));
  }

  /** memcpy into a buffer. */
  method CopyInto(buffer: array<byte>, at: nat, data: seq<byte>)
    requires at + |data| <= buffer.Length
    modifies buffer
    ensures buffer[..] == old(buffer[..at]) + data + old(buffer[at + |data|..])
  {
    forall k | 0 <= k < |data| {
      buffer[at + k] := data[k];
    }
  }

  /** A slice that begins in m and ends in what follows it. */
  lemma SliceAcross(m: seq<byte>, data: seq<byte>, at: nat, i: nat)
    requires at <= |m| && i <= |data|
    ensures (m + data)[at..|m| + i] == m[at..] + data[..i]
  {
  }

  lemma SliceWithin(m: seq<byte>, data: seq<byte>, i: nat, k: nat)
    requires i <= k <= |data|
    ensures (m + data)[|m| + i..|m| + k] == data[i..k]
  {
  }

  /**
   A SHA_CTX. `msg` is what has been run through it, and `blocks` how many whole
   blocks of that have been chained.
   */
  class Context {
    const state: array<word>
    var count0: nat
    var count1: nat
    const buffer: array<byte>
    ghost var msg: seq<byte>
    ghost var blocks: nat

    /** The context has taken in exactly `msg`: whole blocks chained, the rest in the buffer. */
    ghost predicate Absorbed()
      reads this, state, buffer
    {
      && state.Length == 5 && buffer.Length == 64
      && Counts(count0, count1, |msg|)
      && 64 * blocks <= |msg| < 64 * blocks + 64
      && RegsOf(state[..]) == Chain(msg, blocks)
      && buffer[..|msg| - 64 * blocks] == msg[64 * blocks..]
    }

    /** sha1Init */
    constructor ()
      ensures Absorbed() && msg == [] && fresh(state) && fresh(buffer)
    {
      state := new word[5];
      buffer := new byte[64];
      count0, count1 := 0, 0;
      msg, blocks := [], 0;
      new;
      state[0], state[1], state[2], state[3], state[4] := H0.a, H0.b, H0.c, H0.d, H0.e;
      assert CountIs(0, 0, 0, 0);
    }

    /** The blocks of sha1Update: the filled buffer, then whole blocks of the data. */
    method AbsorbBlocks(data: seq<byte>, j: nat) returns (i: nat, ghost n: nat)
      requires state.Length == 5 && buffer.Length == 64
      requires 64 * blocks <= |msg| < 64 * blocks + 64 && j == |msg| - 64 * blocks && j + |data| > 63
      requires RegsOf(state[..]) == Chain(msg, blocks) && buffer[..j] == msg[64 * blocks..]
      modifies state, buffer
      ensures i <= |data| && |msg| + i == 64 * n && |data| - i < 64
      ensures RegsOf(state[..]) == Chain(msg + data, n)
    {
      hide Chain, Compress, BlockWords, Counts, RegsOf;
      ghost var whole := msg + data;
      i := 64 - j;
      n := blocks;
      CopyInto(buffer, j, data[..i]);
      SliceAcross(msg, data, 64 * n, i);
      assert buffer[..] == whole[64 * n..64 * n + 64];
      ChainPrefix(msg, data, n);
      ChainNext(whole, n);
      Transform(state, buffer[..]);
      n := n + 1;
      while i + 63 < |data|
        invariant i <= |data| && |msg| + i == 64 * n
        invariant RegsOf(state[..]) == Chain(whole, n)
      {
        SliceWithin(msg, data, i, i + 64);
        ChainNext(whole, n);
        Transform(state, data[i..i + 64]);
        i, n := i + 64, n + 1;
      }
    }

    /** sha1Update, while `j + len` does not wrap. */
    method Update(data: seq<byte>)
      requires Absorbed() && |msg| % 64 + |data| < W32
      modifies this, state, buffer
      ensures Absorbed() && msg == old(msg) + data
    {
      hide Chain, Counts, RegsOf;
      var j := Waiting();
      AddToCount(|data|);
      AbsorbData(data, j);
    }

    /** How many bytes wait in the buffer: `(count[0] >> 3) & 63`. */
    method Waiting() returns (j: nat)
      requires Counts(count0, count1, |msg|) && 64 * blocks <= |msg| < 64 * blocks + 64
      ensures j == |msg| - 64 * blocks
    {
      hide Counts;
      CountPlace(count0, count1, |msg|);
      j := count0 / 8 % 64;
      PlaceInBlock(|msg|, blocks);
    }

    /** The counters of sha1Update: the low half, its carry, and the high half. */
    method AddToCount(len: nat)
      requires Counts(count0, count1, |msg|) && len < W32
      modifies this`count0, this`count1
      ensures Counts(count0, count1, |msg| + len)
    {
      hide Counts, Add32, Bits32, Top3;
      CountAdd(count0, count1, |msg|, len);
      count0 := Add32(count0, Bits32(len));
      if count0 < Bits32(len) {
        count1 := Add32(count1, 1);
      }
      count1 := Add32(count1, Top3(len));
    }

    /** The last memcpy of sha1Update. */
    method KeepRest(at: nat, part: seq<byte>)
      requires at + |part| <= buffer.Length
      modifies buffer
      ensures buffer[..at + |part|] == old(buffer[..at]) + part
    {
      CopyInto(buffer, at, part);
    }

    /** The part of sha1Update after the counters. */
    method AbsorbData(data: seq<byte>, j: nat)
      requires state.Length == 5 && buffer.Length == 64
      requires Counts(count0, count1, |msg| + |data|)
      requires 64 * blocks <= |msg| < 64 * blocks + 64 && j == |msg| - 64 * blocks
      requires RegsOf(state[..]) == Chain(msg, blocks) && buffer[..j] == msg[64 * blocks..]
      modifies this`msg, this`blocks, state, buffer
      ensures Absorbed() && msg == old(msg) + data
    {
      hide Chain, Counts, RegsOf;
      ghost var whole := msg + data;
      if j + |data| > 63 {
        ghost var n;
        var i;
        i, n := AbsorbBlocks(data, j);
        SliceWithin(msg, data, i, |data|);
        blocks := n;
        KeepRest(0, data[i..]);
        assert buffer[..|data| - i] == whole[64 * n..];
      } else {
        ChainPrefix(msg, data, blocks);
        SliceAcross(msg, data, 64 * blocks, |data|);
        KeepRest(j, data);
        assert buffer[..j + |data|] == whole[64 * blocks..];
      }
      msg := whole;
    }

    /** The eight bytes of `finalcount`: the high half of the count, then the low half. */
    method FinalCount() returns (finalcount: seq<byte>)
      requires Counts(count0, count1, |msg|) && |msg| < 0x2000_0000_0000_0000
      ensures finalcount == LengthBytes(8 * |msg|)
    {
      finalcount := [];
      for i := 0 to 8
        invariant finalcount == LengthBytes(8 * |msg|)[..i]
      {
        hide Counts, ByteOf;
        var c := if i >= 4 then count0 else count1;
        CountByte(count0, count1, |msg|, i);
        finalcount := finalcount + [ByteOf(c, 3 - i % 4)];
      }
    }

    /** The padding of sha1Final, one byte an update. */
    method PadMessage()
      requires Absorbed()
      modifies this, state, buffer
      ensures Absorbed() && msg == old(msg) + [0x80] + Zeros(ZeroCount(|old(msg)|))
    {
      ghost var m, n := msg, 0;
      hide Absorbed, Counts, Zeros, ZeroCount, Words.And;
      Update([0x80]);
      PadStart(m);
      PadTurn(m, n);
      while Words.And(count0, 504) != 448
        invariant Absorbed() && n <= ZeroCount(|m|) && msg == m + [0x80] + Zeros(n)
        invariant Words.And(count0, 504) == 448 <==> n == ZeroCount(|m|)
        decreases ZeroCount(|m|) - n
      {
        PadPlace(m, n);
        Update([0]);
        n := n + 1;
        PadTurn(m, n);
      }
    }

    /** What the test of the padding loop says. */
    lemma PadTurn(m: seq<byte>, n: nat)
      requires Absorbed() && n <= ZeroCount(|m|) && msg == m + [0x80] + Zeros(n)
      ensures Words.And(count0, 504) == 448 <==> n == ZeroCount(|m|)
    {
      hide Counts, Chain, RegsOf, Zeros, ZeroCount, Words.And;
      PadPlace(m, n);
      CountPlace(count0, count1, |msg|);
    }

    /** sha1Final: padding, the length, the digest, and the wipe. */
    method Final() returns (digest: seq<byte>)
      requires Absorbed() && |msg| < 0x2000_0000_0000_0000
      modifies this, state, buffer
      ensures digest == Sha1Of(old(msg))
      ensures forall i :: 0 <= i < 64 ==> buffer[i] == 0
      ensures forall i :: 0 <= i < 5 ==> state[i] == 0
      ensures count0 == 0 && count1 == 0
    {
      hide Chain, Counts, RegsOf, Zeros, ZeroCount, Pad, Sha1Of, LengthBytes, DigestBytes;
      ghost var m := msg;
      var finalcount := FinalCount();
      PadMessage();
      Update(finalcount);
      PaddedDigest(m, msg, blocks);
      digest := OutputDigest();
      Wipe();
    }

    /** The digest loop: the state in big-endian bytes. */
    method OutputDigest() returns (digest: seq<byte>)
      requires state.Length == 5
      ensures digest == DigestBytes(RegsOf(state[..]))
    {
      hide DigestBytes, StateByte;
      digest := [];
      DigestByte(RegsOf(state[..]), 0);
      for i := 0 to 20
        invariant digest == DigestBytes(RegsOf(state[..]))[..i]
      {
        DigestByte(RegsOf(state[..]), i);
        digest := digest + [StateByte(state[i / 4], 3 - i % 4)];
      }
    }

    /** The memsets that wipe the context. */
    method Wipe()
      requires state.Length == 5 && buffer.Length == 64
      modifies this`count0, this`count1, state, buffer
      ensures forall i :: 0 <= i < 64 ==> buffer[i] == 0
      ensures forall i :: 0 <= i < 5 ==> state[i] == 0
      ensures count0 == 0 && count1 == 0
    {
      forall i | 0 <= i < 64 { buffer[i] := 0; }
      forall i | 0 <= i < 5 { state[i] := 0; }
      count0, count1 := 0, 0;
    }
  }

  /** `(w >> 8 * k) & 255` */
  function StateByte(w: word, k: nat): byte
    requires k < 4
  {
    if k == 3 then (w >> 24) as byte
    else if k == 2 then ((w >> 16) & 0xFF) as byte
    else if k == 1 then ((w >> 8) & 0xFF) as byte
    else (w & 0xFF) as byte
  }

  lemma WordByte(w: word, k: nat)
    requires k < 4
    ensures |WordBytes(w)| == 4 && WordBytes(w)[k] == StateByte(w, 3 - k)
  {
  }

  lemma DigestByte(r: Regs, i: nat)
    requires i < 20
    ensures |DigestBytes(r)| == 20
    ensures DigestBytes(r)[i] ==
            var w := if i < 4 then r.a else if i < 8 then r.b else if i < 12 then r.c else if i < 16 then r.d else r.e;
            StateByte(w, 3 - i % 4)
  {
    hide WordBytes, StateByte;
    WordByte(r.a, i % 4);
    WordByte(r.b, i % 4);
    WordByte(r.c, i % 4);
    WordByte(r.d, i % 4);
    WordByte(r.e, i % 4);
  }

  /** A byte of the count is a byte of one of its halves. */
  lemma CountByte(count0: nat, count1: nat, length: nat, i: nat)
    requires Counts(count0, count1, length) && length < 0x2000_0000_0000_0000 && i < 8
    ensures ByteOf(if i >= 4 then count0 else count1, 3 - i % 4) == ByteOf(8 * length, 7 - i)
  {
    hide ByteOf;
    var h: nat :| CountIs(count0, count1, h, length);
    assert h == 0;
    ByteOfHalves(count1, count0, 7 - i);
    assert i % 4 == if i >= 4 then i - 4 else i;
  }

  /** h shifted up by j bytes. */
  function UpBytes(h: nat, j: nat): nat {
    if j == 0 then h else 256 * UpBytes(h, j - 1)
  }

  lemma {:induction false} ByteOfSum(h: nat, low: nat, j: nat, k: nat)
    requires low < UpBytes(1, j)
    ensures ByteOf(UpBytes(h, j) + low, k) == if k < j then ByteOf(low, k) else ByteOf(h, k - j)
  {
    if j > 0 && k > 0 {
      assert (UpBytes(h, j) + low) / 256 == UpBytes(h, j - 1) + low / 256;
      ByteOfSum(h, low / 256, j - 1, k - 1);
    }
  }

  lemma ByteOfHalves(high: nat, low: nat, k: nat)
    requires low < W32
    ensures ByteOf(high * W32 + low, k) == if k < 4 then ByteOf(low, k) else ByteOf(high, k - 4)
  {
    UpFour(high);
    UpFour(1);
    ByteOfSum(high, low, 4, k);
  }

  lemma UpFour(h: nat)
    ensures UpBytes(h, 4) == h * W32
  {
    assert UpBytes(h, 2) == 0x1_0000 * h by { assert UpBytes(h, 1) == 256 * h; }
    assert UpBytes(h, 3) == 0x100_0000 * h;
  }

  /** When the padding loop stops: after exactly the zero bytes that section 5.1.1 asks for. */
  lemma PadPlace(m: seq<byte>, n: nat)
    requires n <= ZeroCount(|m|)
    ensures |m + [0x80] + Zeros(n)| == |m| + 1 + n
    ensures (|m| + 1 + n) % 64 == 56 <==> n == ZeroCount(|m|)
    ensures m + [0x80] + Zeros(n) + [0] == m + [0x80] + Zeros(n + 1)
  {
    PadStop(|m|, n, ZeroCount(|m|));
    ZerosMore(n);
    hide *;
    assert m + [0x80] + Zeros(n) + [0] == m + [0x80] + (Zeros(n) + [0]);
  }

  lemma PadStart(m: seq<byte>)
    ensures m + [0x80] + Zeros(0) == m + [0x80]
  {
  }

  lemma PadStop(length: nat, n: nat, z: nat)
    requires n <= z < 64 && (length + 1 + z) % 64 == 56
    ensures (length + 1 + n) % 64 == 56 <==> n == z
  {
  }

  lemma ZerosMore(n: nat)
    ensures Zeros(n) + [0] == Zeros(n + 1)
  {
  }

  /** When the padded message has been run through, every block of it has been chained. */
  lemma PaddedDigest(m: seq<byte>, p: seq<byte>, blocks: nat)
    requires |m| < 0x2000_0000_0000_0000
    requires p == m + [0x80] + Zeros(ZeroCount(|m|)) + LengthBytes(8 * |m|)
    requires 64 * blocks <= |p| < 64 * blocks + 64
    ensures DigestBytes(Chain(p, blocks)) == Sha1Of(m)
  {
    hide Chain, DigestBytes, LengthBytes, Zeros, ZeroCount;
    assert p == Pad(m);
    assert |p| / 64 == blocks;
  }

  /** sha1: one message in one update; its length is cut to 32 bits. */
  method Sha1Message(msg: seq<byte>) returns (result: seq<byte>)
    ensures result == Sha1Of(msg[..|msg| % W32])
  {
    var ctx := new Context();
    var size := |msg| % W32;
    assert size < W32;
    ctx.Update(msg[..size]);
    assert ctx.msg == msg[..|msg| % W32];
    result := ctx.Final();
  }

  function Concat(chunks: seq<seq<byte>>): seq<byte> {
    if chunks == [] then [] else chunks[0] + Concat(chunks[1..])
  }

  /** No piece wraps the 32-bit sum with what waits of the n bytes before it. */
  predicate NoWrap(n: nat, chunks: seq<seq<byte>>)
    decreases |chunks|
  {
    chunks == [] || (n % 64 + |chunks[0]| < W32 && NoWrap(n + |chunks[0]|, chunks[1..]))
  }

  lemma NextChunk(m: seq<byte>, chunks: seq<seq<byte>>, i: nat)
    requires i < |chunks| && NoWrap(|m|, chunks[i..])
    ensures |m| % 64 + |chunks[i]| < W32 && NoWrap(|m + chunks[i]|, chunks[i + 1..])
    ensures m + Concat(chunks[i..]) == m + chunks[i] + Concat(chunks[i + 1..])
  {
    assert chunks[i..][1..] == chunks[i + 1..];
    var rest := Concat(chunks[i + 1..]);
    assert m + (chunks[i] + rest) == m + chunks[i] + rest;
  }

  lemma LastChunk(m: seq<byte>)
    ensures m + Concat([]) == m
  {
  }

  /** However a message is cut into updates, the digest is that of the whole. */
  method Sha1Chunks(chunks: seq<seq<byte>>) returns (result: seq<byte>)
    requires NoWrap(0, chunks)
    requires |Concat(chunks)| < 0x2000_0000_0000_0000
    ensures result == Sha1Of(Concat(chunks))
  {
    hide Context.Absorbed, Concat, NoWrap, Sha1Of;
    var ctx := new Context();
    var i := 0;
    assert chunks[0..] == chunks && [] + Concat(chunks) == Concat(chunks);
    while i < |chunks|
      invariant 0 <= i <= |chunks| && ctx.Absorbed() && fresh(ctx) && fresh(ctx.state) && fresh(ctx.buffer)
      invariant ctx.msg + Concat(chunks[i..]) == Concat(chunks) && NoWrap(|ctx.msg|, chunks[i..])
    {
      NextChunk(ctx.msg, chunks, i);
      ctx.Update(chunks[i]);
      i := i + 1;
    }
    LastChunk(ctx.msg);
    assert chunks[i..] == [];
    result := ctx.Final();
  }
}
