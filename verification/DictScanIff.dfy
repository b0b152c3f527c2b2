/**
 When the promise of dictScan holds of a whole scan: told from the table sizes
 its calls meet, for every content of the tables.
 */
module DictScanIff {
  import opened Words
  import opened DictSpec
  import opened DictInvariant
  import opened DictScan
  import opened DictScanRun
  import opened DictScanExact

  // ------------------------------------------------------ what one call emits

  lemma {:induction false} EmitFromOnly<K, V>(t: Table<K, V>, low: nat, k0: nat, d: nat, e: nat, x: Entry<K, V>)
    returns (f: nat)
    requires x in EmitFrom(t, low, k0, d, e)
    ensures e <= f < Pow2(d) && x in Bucket(t, Up(f, k0) + low)
    decreases Pow2(d) - e
  {
    hide Pow2, Up;
    EmitHead(t, low, k0, d, e);
    if x in Bucket(t, Up(e, k0) + low) {
      f := e;
    } else {
      f := EmitFromOnly(t, low, k0, d, e + 1, x);
    }
  }

  lemma PlacedLow<K, V>(ty: DictType<K>, t: Table<K, V>, k: nat, i: int, x: Entry<K, V>)
    requires TableOk(ty, t) && |t.buckets| == Pow2(k) && x in Bucket(t, i)
    ensures i == Low(ty.hash(x.key), k)
  {
    hide Pow2, Low, Slot;
    SlotIsLow(ty.hash(x.key), k);
  }

  /**
   An emitted entry is in a bucket that the call visits: one of the larger
   table, or the cursor's bucket of the smaller table.
   */
  lemma EmittedVisited<K, V>(ty: DictType<K>, s: State<K, V>, v: nat, x: Entry<K, V>)
    requires Valid(ty, s) && x in Scan(s, v).1
    ensures var h, k0 := ty.hash(x.key), ScanLog(s);
            && Low(h, k0) == Low(v, k0)
            && (s.Rehashing() ==> Visits(v, h, k0, ExtraBits(s)) || x in Bucket(SmallTable(s), Low(v, k0)))
  {
    hide Valid, TableOk, Pow2, Low, EmitFrom, ScanLog, ExtraBits, Visits, Bucket, Expansion, NextCursor;
    TablesOk(ty, s);
    assert s.Size() != 0;
    VisitedIn(ty, s, v, x);
  }

  lemma VisitedIn<K, V>(ty: DictType<K>, s: State<K, V>, v: nat, x: Entry<K, V>)
    requires TableOk(ty, s.ht0) && TableOk(ty, s.ht1) && x in Scan(s, v).1
    requires |(if s.Rehashing() then SmallTable(s) else s.ht0).buckets| == Pow2(ScanLog(s))
    requires s.Rehashing() ==> |LargeTable(s).buckets| == Pow2(ScanLog(s) + ExtraBits(s))
    ensures var h, k0 := ty.hash(x.key), ScanLog(s);
            && Low(h, k0) == Low(v, k0)
            && (s.Rehashing() ==> Visits(v, h, k0, ExtraBits(s)) || x in Bucket(SmallTable(s), Low(v, k0)))
  {
    hide Pow2, Up, Low, TableOk, ScanLog, ExtraBits, Bucket, EmitFrom, Visits, Expansion;
    var k0, d := ScanLog(s), ExtraBits(s);
    if !s.Rehashing() {
      PlacedLow(ty, s.ht0, k0, Low(v, k0), x);
    } else if x in Bucket(SmallTable(s), Low(v, k0)) {
      PlacedLow(ty, SmallTable(s), k0, Low(v, k0), x);
    } else {
      var f := EmitFromOnly(LargeTable(s), Low(v, k0), k0, d, Expansion(v, k0, d), x);
      PlacedLow(ty, LargeTable(s), k0 + d, Up(f, k0) + Low(v, k0), x);
      ExpansionVisited(v, ty.hash(x.key), k0, d, f);
    }
  }

  lemma ExpansionVisited(v: nat, h: nat, k0: nat, d: nat, f: nat)
    requires Low(h, k0 + d) == Up(f, k0) + Low(v, k0) && f >= Expansion(v, k0, d)
    ensures Low(h, k0) == Low(v, k0) && Visits(v, h, k0, d)
  {
    hide Pow2, Up, Low, High;
    LowSplit(h, k0, d);
    LowHigh(v, k0);
    LowHigh(h, k0);
    LowHighUnique(Up(f, k0) + Low(v, k0), k0, f, Low(v, k0));
    LowHighUnique(Up(Expansion(h, k0, d), k0) + Low(h, k0), k0, Expansion(h, k0, d), Low(h, k0));
  }

  lemma TablesOk<K, V>(ty: DictType<K>, s: State<K, V>)
    requires Valid(ty, s)
    ensures TableOk(ty, s.ht0) && TableOk(ty, s.ht1)
    ensures s.Size() != 0 ==>
              && |(if s.Rehashing() then SmallTable(s) else s.ht0).buckets| == Pow2(ScanLog(s))
              && (s.Rehashing() ==> |LargeTable(s).buckets| == Pow2(ScanLog(s) + ExtraBits(s)))
  {
    hide Pow2, Log2, Placed, KeysUnique, SizeOk, ScanLog, ExtraBits, Count;
    if s.Size() != 0 {
      HasTable(ty, s);
      SizesAreLogs(ty, s);
    }
  }

  /** A dict with entries has a table. */
  lemma HasTable<K, V>(ty: DictType<K>, s: State<K, V>)
    requires Valid(ty, s) && s.Size() != 0
    ensures |s.ht0.buckets| > 0
  {
    hide KeysUnique, Placed, SizeOk;
    if |s.ht0.buckets| == 0 {
      CountZero(s.ht0.buckets);
      CountZero(s.ht1.buckets);
    }
  }

  /** Only what is in the dict is emitted. */
  lemma EmittedIsStored<K, V>(s: State<K, V>, v: nat, x: Entry<K, V>)
    requires x in Scan(s, v).1
    ensures x in All(s)
  {
    hide Pow2, Up, Low, Elems, ScanLog, ExtraBits, EmitFrom, Expansion, NextCursor, Bucket;
    var k0, d := ScanLog(s), ExtraBits(s);
    if !s.Rehashing() {
      StoredIn(s.ht0, Low(v, k0), x);
    } else if x in Bucket(SmallTable(s), Low(v, k0)) {
      StoredIn(SmallTable(s), Low(v, k0), x);
    } else {
      var f := EmitFromOnly(LargeTable(s), Low(v, k0), k0, d, Expansion(v, k0, d), x);
      StoredIn(LargeTable(s), Up(f, k0) + Low(v, k0), x);
    }
  }

  lemma StoredIn<K, V>(t: Table<K, V>, i: int, x: Entry<K, V>)
    requires x in Bucket(t, i)
    ensures x in Elems(t.buckets)
  {
    hide Elems;
    ElemsContain(t.buckets, i, x);
  }

  // --------------------------------------------------------- shapes of a scan

  /** What a call can tell of the tables: the smaller one has 2^k0 buckets, the larger one 2^(k0+d). */
  datatype Shape = Shape(k0: nat, d: nat, rehashing: bool, shrinking: bool)

  predicate ShapeOk(p: Shape) {
    && 2 <= p.k0 && p.k0 + p.d <= MAX_LOG_SIZE
    && (!p.rehashing ==> p.d == 0) && (p.shrinking ==> p.rehashing && p.d > 0)
  }

  function ShapeOf<K, V>(s: State<K, V>): Shape {
    Shape(ScanLog(s), if s.Rehashing() then ExtraBits(s) else 0, s.Rehashing(),
          s.Rehashing() && |s.ht0.buckets| > |s.ht1.buckets|)
  }

  predicate Complete(p: Shape, v: nat) {
    p.rehashing ==> LowOnes(Expansion(v, p.k0, p.d))
  }

  /** The cursors of a finished scan over tables of these shapes. */
  predicate ShapeScan(shapes: seq<Shape>, cursors: seq<nat>) {
    && |shapes| > 0 && |cursors| == |shapes| + 1
    && cursors[0] == 0 && cursors[|shapes|] == 0
    && (forall i :: 0 <= i < |shapes| ==> ShapeOk(shapes[i]) && (i > 0 ==> cursors[i] != 0))
    && (forall i :: 0 <= i < |shapes| ==> cursors[i + 1] == NextCursor(cursors[i], shapes[i].k0))
  }

  /** After a call that is not complete the smaller table is never smaller than it was then. */
  predicate NoLaterShrink(shapes: seq<Shape>, cursors: seq<nat>)
    requires |cursors| == |shapes| + 1
  {
    forall i, j :: 0 <= j < i < |shapes| && !Complete(shapes[j], cursors[j]) ==> shapes[i].k0 >= shapes[j].k0
  }

  lemma ShapeStep(shapes: seq<Shape>, cursors: seq<nat>, i: nat)
    requires ShapeScan(shapes, cursors) && i < |shapes|
    ensures ShapeOk(shapes[i]) && shapes[i].k0 <= WORD
    ensures cursors[i + 1] == NextCursor(cursors[i], shapes[i].k0)
    ensures i + 1 < |shapes| ==> cursors[i + 1] != 0
  {
  }

  lemma {:induction false} CursorsSmall(shapes: seq<Shape>, cursors: seq<nat>, i: nat)
    requires ShapeScan(shapes, cursors) && i <= |shapes|
    ensures cursors[i] < Pow2(WORD)
  {
    hide Pow2, NextCursor, ShapeOk;
    if i > 0 {
      CursorsSmall(shapes, cursors, i - 1);
      ShapeStep(shapes, cursors, i - 1);
      CursorAdvances(cursors[i - 1], shapes[i - 1].k0);
    } else {
      Pow2Pos(WORD);
    }
  }

  /** A later call's cursor is not before the end of an earlier call's step. */
  lemma {:induction false} CursorPast(shapes: seq<Shape>, cursors: seq<nat>, j: nat, i: nat)
    requires ShapeScan(shapes, cursors) && j < i < |shapes|
    ensures NextPos(Pos(cursors[j]), shapes[j].k0) <= Pos(cursors[i])
  {
    hide Pow2, NextCursor, ShapeOk, NextPos, Pos;
    CursorsSmall(shapes, cursors, i - 1);
    ShapeStep(shapes, cursors, i - 1);
    CursorAdvances(cursors[i - 1], shapes[i - 1].k0);
    if j < i - 1 {
      CursorPast(shapes, cursors, j, i - 1);
    }
  }

  /** Words that share a bucket of a table share one of any smaller table. */
  lemma LowerLow(a: nat, b: nat, k: nat, m: nat)
    requires k <= m && Low(a, m) == Low(b, m)
    ensures Low(a, k) == Low(b, k)
  {
    hide Low, High, Up, Pow2;
    LowSplit(a, k, m - k);
    LowSplit(b, k, m - k);
    LowHigh(a, k);
    LowHigh(b, k);
    LowHighUnique(Low(a, m), k, Expansion(a, k, m - k), Low(a, k));
    LowHighUnique(Low(b, m), k, Expansion(b, k, m - k), Low(b, k));
  }

  /** Two places in one interval are less than an interval apart. */
  lemma BeyondInterval(v: nat, h: nat, k: nat)
    requires k <= WORD && NextPos(Pos(v), k) <= Pos(h)
    ensures Low(v, k) != Low(h, k)
  {
    hide Up, RevN, Low, High, Pow2;
    var c := WORD - k;
    LowHigh(Pos(h), c);
    LowBound(Pos(h), c);
    UpAdd(Interval(Pos(h), k), 1, c);
    UpPow2(0, c);
    Pow2Zero();
    SameInterval(v, h, k);
  }

  lemma LowBound(x: nat, k: nat)
    ensures Low(x, k) < Pow2(k)
  {
  }

  /** A hash that no call of the scan visits. */
  lemma MissedThroughout(shapes: seq<Shape>, cursors: seq<nat>, j: nat) returns (h: nat)
    requires ShapeScan(shapes, cursors) && NoLaterShrink(shapes, cursors)
    requires j < |shapes| && !Complete(shapes[j], cursors[j])
    ensures h < Pow2(32)
    ensures forall i :: 0 <= i < |shapes| ==> !Visits(cursors[i], h, shapes[i].k0, shapes[i].d)
  {
    hide Pow2, Pos, NextPos, NextCursor, Low, LowOnes, Expansion;
    var k := shapes[j].k0;
    assert ShapeOk(shapes[j]);
    h := Missed(cursors[j], k, shapes[j].d);
    InStep(cursors[j], h, k);
    forall i | 0 <= i < |shapes|
      ensures !Visits(cursors[i], h, shapes[i].k0, shapes[i].d)
    {
      if i > j {
        CursorPast(shapes, cursors, j, i);
        BeyondInterval(cursors[j], cursors[i], k);
        if Low(h, shapes[i].k0) == Low(cursors[i], shapes[i].k0) {
          LowerLow(h, cursors[i], k, shapes[i].k0);
        }
      } else if i < j {
        CursorPast(shapes, cursors, i, j);
        BeyondInterval(cursors[i], h, shapes[i].k0);
      }
    }
  }

  // ------------------------------------------------- a dict with the missed key

  /** A table of 2^k buckets with one entry of hash h. */
  function OneTable(k: nat, h: uint32): Table<uint32, int> {
    Table(EmptyTable<uint32, int>(Pow2(k)).buckets[Low(h, k) := [Entry(h, 0)]], 1)
  }

  /** A dict of this shape with one key, of hash h, in its larger table. */
  function Lone(p: Shape, h: uint32): State<uint32, int>
    requires ShapeOk(p)
  {
    if !p.rehashing then State(OneTable(p.k0, h), EmptyTable(0), -1, 0)
    else if p.shrinking then State(OneTable(p.k0 + p.d, h), EmptyTable(Pow2(p.k0)), 0, 0)
    else State(EmptyTable(Pow2(p.k0)), OneTable(p.k0 + p.d, h), 0, 0)
  }

  lemma OneTableOk(k: nat, h: uint32)
    requires 2 <= k <= MAX_LOG_SIZE
    ensures TableOk(IntType(), OneTable(k, h)) && |OneTable(k, h).buckets| == Pow2(k)
    ensures Elems(OneTable(k, h).buckets) == multiset{Entry(h, 0)}
    ensures Entry(h, 0) in Bucket(OneTable(k, h), Low(h, k))
  {
    hide Pow2, Low, Slot;
    var e: Entry<uint32, int> := Entry(h, 0);
    var t := EmptyTable<uint32, int>(Pow2(k));
    CountZero(t.buckets);
    LowBound(h, k);
    SlotIsLow(h, k);
    assert SizeOk(Pow2(k));
    hide SizeOk, Elems, Count, Placed;
    EmptyOk(k);
    SetBucketOk(IntType(), t, Low(h, k), [e]);
    var none: seq<Entry<uint32, int>> := [];
    assert t.buckets[Low(h, k)] == none && multiset(none) == multiset{} && multiset([e]) == multiset{e};
    assert SetBucket(t, Low(h, k), [e], 1) == OneTable(k, h);
    var m := Elems(OneTable(k, h).buckets);
    assert m + multiset(none) == Elems(t.buckets) + multiset([e]);
    assert m + multiset{} == m && multiset{} + multiset{e} == multiset{e};
  }

  lemma EmptyOk(k: nat)
    requires 2 <= k <= MAX_LOG_SIZE
    ensures TableOk(IntType(), EmptyTable<uint32, int>(Pow2(k)))
    ensures Elems(EmptyTable<uint32, int>(Pow2(k)).buckets) == multiset{}
  {
    hide Pow2;
    assert SizeOk(Pow2(k));
    CountZero(EmptyTable<uint32, int>(Pow2(k)).buckets);
  }

  lemma LoneOk(p: Shape, h: uint32)
    requires ShapeOk(p)
    ensures Valid(IntType(), Lone(p, h)) && All(Lone(p, h)) == multiset{Entry(h, 0)}
    ensures ShapeOf(Lone(p, h)) == p && Lone(p, h).Size() == 1
  {
    hide Pow2, Low, Log2, OneTable, TableOk, Elems;
    var s := Lone(p, h);
    OneTableOk(p.k0, h);
    OneTableOk(p.k0 + p.d, h);
    EmptyOk(p.k0);
    NoTableOk();
    Log2OfPow2(p.k0);
    Log2OfPow2(p.k0 + p.d);
    PowGrows(p.k0, p.d);
    OneUnique(h);
    OneUsed(p.k0, h);
    OneUsed(p.k0 + p.d, h);
    assert All(s) == multiset{Entry(h, 0)};
  }

  lemma OneUsed(k: nat, h: uint32)
    ensures OneTable(k, h).used == 1
  {
  }

  lemma OneUnique(h: uint32)
    ensures KeysUnique(IntType(), multiset{Entry<uint32, int>.Entry(h, 0)})
  {
  }

  lemma NoTableOk()
    ensures TableOk(IntType(), EmptyTable<uint32, int>(0)) && Elems(EmptyTable<uint32, int>(0).buckets) == multiset{}
  {
  }

  lemma PowGrows(k: nat, d: nat)
    ensures Pow2(k) > 0 && Pow2(k) <= Pow2(k + d) && (d > 0 ==> Pow2(k) < Pow2(k + d))
  {
    Pow2Mono(k, k + d);
  }

  /** The key of a lone dict is emitted only where its hash is visited. */
  lemma LoneEmits(p: Shape, h: uint32, v: nat, x: Entry<uint32, int>)
    requires ShapeOk(p) && x in Scan(Lone(p, h), v).1
    ensures Visits(v, h, p.k0, p.d)
  {
    hide Pow2, Low, High, Log2, OneTable, Valid, Scan;
    var s := Lone(p, h);
    LoneOk(p, h);
    EmittedVisited(IntType(), s, v, x);
    EmittedIsStored(s, v, x);
    assert x == Entry(h, 0);
    if p.rehashing {
      SmallEmpty(p, h, Low(v, p.k0));
    } else {
      LowBound(High(h, p.k0), 0);
      LowBound(High(v, p.k0), 0);
      Pow2Zero();
    }
  }

  lemma SmallEmpty(p: Shape, h: uint32, i: int)
    requires ShapeOk(p) && p.rehashing
    ensures Bucket(SmallTable(Lone(p, h)), i) == []
  {
    hide Pow2, Low;
    PowGrows(p.k0, p.d);
  }

  // ------------------------------------------------------------- the promise

  /** States that calls over these shapes may meet, with key k in the dict throughout. */
  ghost predicate Meets(states: seq<State<uint32, int>>, shapes: seq<Shape>, k: uint32) {
    && |states| == |shapes|
    && (forall i :: 0 <= i < |states| ==> Valid(IntType(), states[i]) && ShapeOf(states[i]) == shapes[i])
    && HasThroughout(IntType(), states, k)
  }

  lemma MeetsScan(states: seq<State<uint32, int>>, shapes: seq<Shape>, cursors: seq<nat>, k: uint32)
    requires ShapeScan(shapes, cursors) && Meets(states, shapes, k)
    ensures FinishedScan(states, cursors)
  {
    hide Valid, NextCursor, Log2, IntType, HasKey, All;
    forall i | 0 <= i < |states|
      ensures cursors[i + 1] == Scan(states[i], cursors[i]).0
    {
      NonEmpty(IntType(), states[i], k);
      ShapeStep(shapes, cursors, i);
    }
  }

  /** Every 32-bit hash is visited by some call. */
  ghost predicate Covers(shapes: seq<Shape>, cursors: seq<nat>)
    requires |cursors| == |shapes| + 1
  {
    forall h: nat :: h < Pow2(32) ==> Covered(shapes, cursors, h)
  }

  ghost predicate Covered(shapes: seq<Shape>, cursors: seq<nat>, h: nat)
    requires |cursors| == |shapes| + 1
  {
    exists i :: 0 <= i < |shapes| && Visits(cursors[i], h, shapes[i].k0, shapes[i].d)
  }

  lemma CoveredEmitted(states: seq<State<uint32, int>>, shapes: seq<Shape>, cursors: seq<nat>, k: uint32)
    requires ShapeScan(shapes, cursors) && Meets(states, shapes, k) && Covered(shapes, cursors, k)
    ensures |cursors| == |states| + 1 && Emitted(IntType(), states, cursors, k)
  {
    hide Valid, NextCursor, All, Visits, Scan;
    var i :| 0 <= i < |shapes| && Visits(cursors[i], k, shapes[i].k0, shapes[i].d);
    var s := states[i];
    assert Valid(IntType(), s) && ShapeOf(s) == shapes[i] && HasKey(IntType(), All(s), k);
    var x := EntryOf(IntType(), All(s), k);
    NonEmpty(IntType(), s, k);
    VisitedEmitted(IntType(), s, cursors[i], x);
    assert x in Scan(states[i], cursors[i]).1;
  }

  /** A dict whose one key no call visits, although each of them finds it there. */
  lemma UncoveredScan(shapes: seq<Shape>, cursors: seq<nat>, h: nat)
    returns (states: seq<State<uint32, int>>, k: uint32)
    requires ShapeScan(shapes, cursors) && h < Pow2(32) && !Covered(shapes, cursors, h)
    ensures Meets(states, shapes, k) && |cursors| == |states| + 1 && !Emitted(IntType(), states, cursors, k)
  {
    hide Pow2, Valid, All, Scan, Lone, Visits, ShapeOf, ShapeOk, NextCursor;
    assert Pow2(32) == 0x1_0000_0000 by { Pow32(); }
    k := h;
    states := seq(|shapes|, i requires 0 <= i < |shapes| => (ShapeStep(shapes, cursors, i); Lone(shapes[i], h)));
    forall i | 0 <= i < |shapes|
      ensures Valid(IntType(), states[i]) && ShapeOf(states[i]) == shapes[i] && HasKey(IntType(), All(states[i]), k)
      ensures Scan(states[i], cursors[i]).1 == []
    {
      ShapeStep(shapes, cursors, i);
      LoneOk(shapes[i], h);
      assert Entry(h, 0) in All(states[i]);
      if Scan(states[i], cursors[i]).1 != [] {
        LoneEmits(shapes[i], h, cursors[i], Scan(states[i], cursors[i]).1[0]);
      }
    }
  }

  /**
   The promise of dictScan for any whole scan: every key that each call finds in
   the dict is emitted, whatever the tables hold, if and only if the cursors and
   table sizes of the calls leave no hash unvisited.
   */
  lemma ScanCoversIff(shapes: seq<Shape>, cursors: seq<nat>)
    requires ShapeScan(shapes, cursors)
    ensures Covers(shapes, cursors) <==>
            forall states, k :: Meets(states, shapes, k) ==> Emitted(IntType(), states, cursors, k)
  {
    assert |cursors| == |shapes| + 1;
    hide ShapeScan, HasThroughout, Valid, ShapeOf, Emitted, Covered;
    assert Pow2(32) == 0x1_0000_0000 by { Pow32(); }
    hide Pow2;
    if Covers(shapes, cursors) {
      forall states, k | Meets(states, shapes, k)
        ensures Emitted(IntType(), states, cursors, k)
      {
        CoveredEmitted(states, shapes, cursors, k);
      }
    } else {
      var h: nat :| h < Pow2(32) && !Covered(shapes, cursors, h);
      var states, k := UncoveredScan(shapes, cursors, h);
    }
  }

  lemma CompleteScan(states: seq<State<uint32, int>>, shapes: seq<Shape>, cursors: seq<nat>, k: uint32)
    requires ShapeScan(shapes, cursors) && Meets(states, shapes, k)
    requires forall i :: 0 <= i < |shapes| ==> Complete(shapes[i], cursors[i])
    ensures Emitted(IntType(), states, cursors, k)
  {
    hide Valid, Lawful, NextCursor, FinishedScan, Emitted, HasThroughout, LowOnes, Expansion, ScanLog, ExtraBits;
    MeetsScan(states, shapes, cursors, k);
    LawfulIntType();
    ScanComplete(IntType(), states, cursors, k);
  }

  lemma LawfulIntType()
    ensures Lawful(IntType())
  {
  }

  lemma Pow32()
    ensures Pow2(32) == 0x1_0000_0000
  {
    MaxSizeFits();
    assert Pow2(32) == 2 * Pow2(31);
  }

  /**
   The promise of dictScan for a whole scan, among those in which the smaller
   table does not shrink after a call that is not complete: every key that each
   call finds in the dict is emitted, whatever the tables hold, if and only if
   each call made during a rehash is complete.
   */
  lemma ScanPromiseIff(shapes: seq<Shape>, cursors: seq<nat>)
    requires ShapeScan(shapes, cursors) && NoLaterShrink(shapes, cursors)
    ensures (forall i :: 0 <= i < |shapes| ==> Complete(shapes[i], cursors[i])) <==>
            forall states, k :: Meets(states, shapes, k) ==> Emitted(IntType(), states, cursors, k)
  {
    assert |cursors| == |shapes| + 1;
    hide ShapeScan, NoLaterShrink, Complete, HasThroughout, Valid, ShapeOf, Emitted;
    if forall i :: 0 <= i < |shapes| ==> Complete(shapes[i], cursors[i]) {
      forall states, k | Meets(states, shapes, k)
        ensures Emitted(IntType(), states, cursors, k)
      {
        CompleteScan(states, shapes, cursors, k);
      }
    } else {
      var j :| 0 <= j < |shapes| && !Complete(shapes[j], cursors[j]);
      var h := MissedThroughout(shapes, cursors, j);
      var states, k := UncoveredScan(shapes, cursors, h);
    }
  }
}
