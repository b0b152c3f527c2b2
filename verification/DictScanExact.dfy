/**
 Two exact accounts of dictScan: its cursors over a table that does not change,
 and a finished scan of a shrinking dict that misses a key.
 */
module DictScanExact {
  import opened Words
  import opened DictSpec
  import opened DictInvariant
  import opened DictScan
  import opened DictScanRun

  /** The cursor in the k bits that matter: count the reversed bucket number up by one. */
  lemma CursorCounts(v: nat, k: nat)
    requires k <= WORD && v < Pow2(WORD)
    ensures NextCursor(v, k) ==
            if RevN(k, Low(v, k)) + 1 == Pow2(k) then 0 else RevN(k, RevN(k, Low(v, k)) + 1)
  {
    hide Up, RevN, Low, High, Pow2;
    var c, j := WORD - k, RevN(k, Low(v, k)) + 1;
    IntervalOf(v, k);
    UpPow2(k, c);
    if j < Pow2(k) {
      UpMono(j, Pow2(k), c);
      UpZero(k);
      Pow2Positive(c);
      LowHighUnique(Up(j, c), c, j, 0);
      RevSplit(c, k, Up(j, c));
      RevZero(c);
    }
  }

  lemma Pow2Positive(k: nat)
    ensures 0 < Pow2(k)
  {
  }

  // ------------------------------------------------- a table that stays as it is

  /** The cursor before call i of a scan of a table of size 2^k. */
  function CursorAt(k: nat, i: nat): nat
    requires k <= WORD
  {
    if i == 0 then 0 else NextCursor(CursorAt(k, i - 1), k)
  }

  lemma {:induction false} CursorAtIs(k: nat, i: nat)
    requires k <= WORD && i < Pow2(k)
    ensures CursorAt(k, i) == RevN(k, i) < Pow2(WORD)
  {
    hide *;
    Pow2Mono(k, WORD);
    CursorAtHead(k, i);
    if i == 0 {
      RevZero(k);
    } else {
      CursorAtIs(k, i - 1);
      CursorCounts(RevN(k, i - 1), k);
      LowHigh(RevN(k, i - 1), k);
      RevInvolution(k, i - 1);
    }
  }

  lemma CursorAtHead(k: nat, i: nat)
    requires k <= WORD
    ensures CursorAt(k, i) == if i == 0 then 0 else NextCursor(CursorAt(k, i - 1), k)
  {
  }

  /**
   A scan of a table of size 2^k that does not change takes exactly 2^k calls:
   cursor 0 returns then and not before.
   */
  lemma FixedTableCalls(k: nat, i: nat)
    requires k <= WORD && 0 < i <= Pow2(k)
    ensures CursorAt(k, i) == 0 <==> i == Pow2(k)
  {
    CursorAtIs(k, i - 1);
    CursorCounts(RevN(k, i - 1), k);
    LowHigh(RevN(k, i - 1), k);
    RevInvolution(k, i - 1);
    if i < Pow2(k) {
      CursorAtIs(k, i);
      RevZero(k);
      if RevN(k, i) == RevN(k, 0) {
        RevInjective(k, i, 0);
      }
    }
  }

  /** Each bucket b is visited by one call and by no other. */
  lemma FixedTableBuckets(k: nat, b: nat, i: nat)
    requires k <= WORD && b < Pow2(k) && i < Pow2(k)
    ensures Low(CursorAt(k, i), k) == b <==> i == RevN(k, b)
  {
    CursorAtIs(k, i);
    LowHigh(RevN(k, i), k);
    RevInvolution(k, i);
    RevInvolution(k, b);
  }

  // ---------------------------------------------- a key that a scan never sees

  function IntType(): DictType<uint32> {
    DictType(k => k, (a, b) => a == b)
  }

  /** Sixteen buckets, one entry: key 4, whose hash is 4. */
  function Sixteen(): State<uint32, int> {
    var t := EmptyTable<uint32, int>(16);
    State(Table(t.buckets[4 := [Entry(4, 0)]], 1), EmptyTable(0), -1, 0)
  }

  /** The same dict after dictResize has started the move to four buckets. */
  function Shrinking(): State<uint32, int> {
    Expand(Sixteen(), 4).0
  }

  lemma ShrinkingIs()
    ensures Resize(Sixteen(), true) == (Shrinking(), true)
    ensures Shrinking() == State(Sixteen().ht0, EmptyTable(4), 0, 0)
  {
  }

  lemma SixteenTableOk()
    ensures TableOk(IntType(), Sixteen().ht0)
    ensures Elems(Sixteen().ht0.buckets) == multiset{Entry(4, 0)}
  {
    hide Slot, SizeOk, TableOk, Elems, Push;
    SlotFour();
    var e: Entry<uint32, int> := Entry(4, 0);
    assert IntType().hash(e.key) == 4;
    OnePush<uint32, int>(IntType(), 16, 4, e);
    SixteenIs();
  }

  lemma OnePush<K, V>(ty: DictType<K>, n: nat, i: nat, e: Entry<K, V>)
    requires SizeOk(n) && i == Slot(ty.hash(e.key), n)
    ensures var t := Push(EmptyTable(n), i, e); TableOk(ty, t) && Elems(t.buckets) == multiset{e}
  {
    hide Slot, SizeOk, TableOk, Elems, Push;
    NewTableOk<K, V>(ty, n);
    PushOk(ty, EmptyTable<K, V>(n), e);
    assert multiset{} + multiset{e} == multiset{e};
  }

  lemma SixteenIs()
    ensures Sixteen().ht0 == Push<uint32, int>(EmptyTable<uint32, int>(16), 4, Entry(4, 0))
  {
    assert [Entry(4, 0)] + [] == [Entry(4, 0)];
  }

  lemma SlotFour()
    ensures Slot(4, 16) == 4 && SizeOk(16)
  {
    SmallPowers();
    SlotIsLow(4, 4);
    LowHigh(4, 4);
    hide Slot, Low, Pow2;
  }

  lemma SmallPowers()
    ensures Pow2(2) == 4 && Pow2(4) == 16
  {
  }

  lemma OneEntryValid<K, V>(ty: DictType<K>, s: State<K, V>, e: Entry<K, V>)
    requires TableOk(ty, s.ht0) && Elems(s.ht0.buckets) == multiset{e}
    requires s.ht1 == EmptyTable(0) && s.rehashidx == -1
    ensures Valid(ty, s) && All(s) == multiset{e}
  {
    assert All(s) == multiset{e};
  }

  lemma IntTypeLawful()
    ensures Lawful(IntType()) && IntType().eq(4, 4)
  {
  }

  lemma SixteenShape()
    ensures Sixteen().ht1 == EmptyTable(0) && Sixteen().rehashidx == -1
  {
  }

  lemma StatesValid()
    ensures Lawful(IntType()) && Valid(IntType(), Sixteen()) && Valid(IntType(), Shrinking())
    ensures All(Sixteen()) == All(Shrinking()) == multiset{Entry(4, 0)}
  {
    IntTypeLawful();
    SixteenTableOk();
    SixteenShape();
    hide IntType, Lawful, TableOk, Elems, All, Valid, Sixteen, Expand, Pow2;
    MaxSizeFits();
    var n: nat := 4;
    OneEntryValid(IntType(), Sixteen(), Entry(4, 0));
    ExpandOk(IntType(), Sixteen(), n);
  }

  lemma SmallReversals()
    ensures RevN(4, 0) == 0 && RevN(4, 1) == 8
    ensures RevN(2, 0) == 0 && RevN(2, 1) == 2 && RevN(2, 2) == 1 && RevN(2, 3) == 3
    ensures Pow2(4) == 16 && Pow2(2) == 4 && 8 < Pow2(WORD)
    ensures Low(0, 4) == 0 && Low(8, 2) == 0 && Low(2, 2) == 2 && Low(1, 2) == 1 && Low(3, 2) == 3
    ensures Log2(16) == 4 && Log2(4) == 2
  {
    Pow2Mono(4, WORD);
  }

  /** The cursors of the scan: one call on the sixteen buckets, the rest while they shrink to four. */
  lemma MissCursors()
    ensures NextCursor(0, 4) == 8
    ensures NextCursor(8, 2) == 2 && NextCursor(2, 2) == 1 && NextCursor(1, 2) == 3 && NextCursor(3, 2) == 0
  {
    SmallReversals();
    hide RevN, Low, Pow2;
    CursorCounts(0, 4);
    CursorCounts(8, 2);
    CursorCounts(2, 2);
    CursorCounts(1, 2);
    CursorCounts(3, 2);
  }

  lemma {:induction false} EmitNothing<K, V>(t: Table<K, V>, low: nat, k0: nat, d: nat, e: nat)
    requires forall f: nat :: e <= f < Pow2(d) ==> Bucket(t, Up(f, k0) + low) == []
    ensures EmitFrom(t, low, k0, d, e) == []
    decreases Pow2(d) - e
  {
    if e < Pow2(d) {
      EmitNothing(t, low, k0, d, e + 1);
    }
  }

  /** A call during the move that does not reach bucket 4 of the old table emits nothing. */
  lemma ShrinkingCall(v: nat)
    requires v == 8 || v == 2 || v == 1 || v == 3
    ensures Scan(Shrinking(), v) == (NextCursor(v, 2), [])
    ensures CompleteCall(Shrinking(), v) <==> v != 8
  {
    hide Shrinking, Scan, Low, Bucket, EmitFrom, Pow2, LowOnes, NextCursor, Expansion, ScanLog, ExtraBits, CompleteCall;
    var s := Shrinking();
    ShrinkingSizes(Low(v, 2));
    ShrinkingBuckets(v);
    SmallLowOnes();
    EmitNothing(LargeTable(s), Low(v, 2), 2, 2, Expansion(v, 2, 2));
    QuietCall(s, v, 2, 2);
  }

  lemma QuietCall<K, V>(s: State<K, V>, v: nat, k0: nat, d: nat)
    requires s.Rehashing() && s.Size() != 0 && ScanLog(s) == k0 <= WORD && ExtraBits(s) == d
    requires Bucket(SmallTable(s), Low(v, k0)) == []
    requires EmitFrom(LargeTable(s), Low(v, k0), k0, d, Expansion(v, k0, d)) == []
    ensures Scan(s, v) == (NextCursor(v, k0), [])
    ensures CompleteCall(s, v) <==> LowOnes(Expansion(v, k0, d))
  {
    hide Pow2, Low, Bucket, LowOnes, EmitFrom, NextCursor, ScanLog, ExtraBits, Expansion;
    var low := Low(v, k0);
    assert Bucket(SmallTable(s), low) + EmitFrom(LargeTable(s), low, k0, d, Expansion(v, k0, d)) == [];
  }

  /** Two bits of the cursor choose a bucket of the new table, two more one of the old. */
  lemma ShrinkingSizes(i: nat)
    ensures var s := Shrinking();
            && ScanLog(s) == 2 && ExtraBits(s) == 2 && LargeTable(s) == Sixteen().ht0
            && s.Rehashing() && s.Size() != 0
            && Bucket(SmallTable(s), i) == []
  {
    ShrinkingIs();
    hide Expand;
    SmallPowers();
    Log2OfPow2(2);
    Log2OfPow2(4);
    hide Log2, Pow2;
  }

  lemma SmallLowOnes()
    ensures LowOnes(0) && !LowOnes(2)
  {
  }

  lemma ShrinkingExpansion(v: nat)
    requires v == 8 || v == 2 || v == 1 || v == 3
    ensures Low(v, 2) == v % 4 && Expansion(v, 2, 2) == if v == 8 then 2 else 0
  {
    TwoBits(v);
    TwoBits(High(v, 2));
    hide Low, High;
  }

  lemma TwoBits(v: nat)
    ensures Low(v, 2) == v % 4 && High(v, 2) == v / 4
  {
    hide *;
    LowHead(v, 2);
    LowHead(v / 2, 1);
    LowNone(v / 2 / 2);
    HighHead(v, 2);
    HighHead(v / 2, 1);
  }

  lemma ShrinkingBuckets(v: nat)
    requires v == 8 || v == 2 || v == 1 || v == 3
    ensures Expansion(v, 2, 2) == if v == 8 then 2 else 0
    ensures forall f: nat :: Expansion(v, 2, 2) <= f < Pow2(2) ==>
              Bucket(Sixteen().ht0, Up(f, 2) + Low(v, 2)) == []
  {
    hide Sixteen, Bucket, Pow2, Up, Low, Expansion;
    ShrinkingExpansion(v);
    forall f: nat | Expansion(v, 2, 2) <= f < Pow2(2)
      ensures Bucket(Sixteen().ht0, Up(f, 2) + Low(v, 2)) == []
    {
      FourTimes(f);
      SixteenBucket(4 * f + Low(v, 2));
    }
  }

  lemma FourTimes(f: nat)
    ensures Up(f, 2) == 4 * f
  {
    assert Up(f, 1) == 2 * f;
  }

  lemma SixteenBucket(i: nat)
    requires i != 4
    ensures Bucket(Sixteen().ht0, i) == []
  {
  }

  /**
   The promise of the comment above dictScan, that a full scan returns every
   element present throughout, fails when the dict shrinks by more than half: a
   scan that starts on sixteen buckets, with dictResize called after its first
   call, ends without returning key 4. Its second call is the incomplete one.
   */
  lemma ShrinkingScanMisses()
    ensures Lawful(IntType()) && Valid(IntType(), Sixteen()) && Valid(IntType(), Shrinking())
    ensures Shrinking() == Resize(Sixteen(), true).0
    ensures var states := [Sixteen(), Shrinking(), Shrinking(), Shrinking(), Shrinking()];
            var cursors := [0, 8, 2, 1, 3, 0];
            && FinishedScan(states, cursors)
            && HasThroughout(IntType(), states, 4)
            && !Emitted(IntType(), states, cursors, 4)
    ensures CompleteCall(Sixteen(), 0) && !CompleteCall(Shrinking(), 8) && CompleteCall(Shrinking(), 2)
            && CompleteCall(Shrinking(), 1) && CompleteCall(Shrinking(), 3)
  {
    hide *;
    StatesValid();
    IntTypeLawful();
    MissCursors();
    ShrinkingCall(8);
    ShrinkingCall(2);
    ShrinkingCall(1);
    ShrinkingCall(3);
    SixteenCall();
    ShrinkingIs();
    MissRun(IntType(), Sixteen(), Shrinking(), 4, Entry(4, 0));
  }

  lemma MissRun<K, V>(ty: DictType<K>, s: State<K, V>, s': State<K, V>, k: K, e: Entry<K, V>)
    requires e in All(s) && e in All(s') && ty.eq(k, e.key)
    requires Scan(s, 0) == (8, []) && Scan(s', 8) == (2, []) && Scan(s', 2) == (1, [])
    requires Scan(s', 1) == (3, []) && Scan(s', 3) == (0, [])
    ensures var states, cursors := [s, s', s', s', s'], [0, 8, 2, 1, 3, 0];
            && FinishedScan(states, cursors)
            && HasThroughout(ty, states, k)
            && !Emitted(ty, states, cursors, k)
  {
    hide Scan, All;
    var states, cursors := [s, s', s', s', s'], [0, 8, 2, 1, 3, 0];
    forall i | 0 <= i < 5 ensures Scan(states[i], cursors[i]) == (cursors[i + 1], []) {
      if i == 0 {
      } else if i == 1 {
      } else if i == 2 {
      } else if i == 3 {
      }
    }
    forall i | 0 <= i < 5 ensures HasKey(ty, All(states[i]), k) {
    }
  }

  lemma SixteenCall()
    ensures Scan(Sixteen(), 0) == (NextCursor(0, 4), []) && CompleteCall(Sixteen(), 0)
  {
    SmallReversals();
  }
}
