/**
 Scans between whose calls the dict is changed by nothing but runs of its own
 operations, from dictCreate on, while no call is made during a growing rehash.
 */
module DictScanLinked {
  import opened Words
  import opened DictSpec
  import opened DictInvariant
  import opened DictScan
  import opened DictScanRun
  import opened DictScanExact
  import opened DictScanIff
  import opened DictRuns

  type Run = seq<(bool, Op<uint32, int>)>

  /** No call is made while the entries move to a larger table. */
  predicate NeverWhileGrowing(shapes: seq<Shape>) {
    forall i :: 0 <= i < |shapes| && shapes[i].rehashing ==> shapes[i].shrinking
  }

  /** The states of the calls, as runs of operations make them from an empty dict. */
  ghost predicate History(first: Run, states: seq<State<uint32, int>>, between: seq<Run>) {
    && |states| > 0 && FitsAll(IntType(), Create(), first) && states[0] == ApplyAll(IntType(), Create(), first)
    && Interleaved(IntType(), states, between)
  }

  /** Nothing but resizing and rehash steps. */
  predicate OnlyMoves(run: Run) {
    forall op :: op in run ==> op.1.RehashOp? || op.1.ExpandOp?
  }

  // ------------------------------------------------------------ runs of runs

  lemma {:induction false} ApplyAppend<K, V>(
      ty: DictType<K>, s: State<K, V>, a: seq<(bool, Op<K, V>)>, b: seq<(bool, Op<K, V>)>)
    requires FitsAll(ty, s, a) && FitsAll(ty, ApplyAll(ty, s, a), b)
    ensures FitsAll(ty, s, a + b) && ApplyAll(ty, s, a + b) == ApplyAll(ty, ApplyAll(ty, s, a), b)
    decreases |a|
  {
    hide Fits, Apply;
    if a == [] {
      assert a + b == b;
    } else {
      assert (a + b)[1..] == a[1..] + b;
      ApplyAppend(ty, Apply(ty, s, a[0].0, a[0].1), a[1..], b);
    }
  }

  lemma ApplyOne<K, V>(ty: DictType<K>, s: State<K, V>, canResize: bool, op: Op<K, V>)
    requires Fits(ty, s, canResize, op)
    ensures FitsAll(ty, s, [(canResize, op)]) && ApplyAll(ty, s, [(canResize, op)]) == Apply(ty, s, canResize, op)
  {
    hide Fits, Apply;
  }

  // --------------------------------------------------- from shape to shape

  /** One entry, in the larger table. */
  ghost predicate Alone(s: State<uint32, int>, e: Entry<uint32, int>) {
    && Valid(IntType(), s) && s.iterators == 0 && All(s) == multiset{e} && |s.ht0.buckets| > 0
    && (s.Rehashing() ==> forall i: int :: Bucket(SmallTable(s), i) == [])
  }

  /** Rehash steps until the rehash is over. */
  lemma {:induction false} Settle(s: State<uint32, int>) returns (run: Run)
    requires Valid(IntType(), s)
    ensures FitsAll(IntType(), s, run) && OnlyMoves(run)
    ensures var t := ApplyAll(IntType(), s, run);
            && Valid(IntType(), t) && !t.Rehashing() && All(t) == All(s) && t.iterators == s.iterators
            && |t.ht0.buckets| == if s.Rehashing() then |s.ht1.buckets| else |s.ht0.buckets|
    decreases if s.Rehashing() then |s.ht0.buckets| - s.rehashidx + 1 else 0
  {
    hide Valid, All, Rehash, IntType;
    if s.Rehashing() {
      var t := Rehash(IntType(), s, 1).0;
      RehashOk(IntType(), s, 1);
      IndexBound(IntType(), s);
      IndexBound(IntType(), t);
      var more := Settle(t);
      ApplyOne<uint32, int>(IntType(), s, true, RehashOp(1));
      run := [(true, RehashOp(1))] + more;
      ApplyAppend(IntType(), s, [(true, RehashOp(1))], more);
    } else {
      run := [];
    }
  }

  lemma IndexBound<K, V>(ty: DictType<K>, s: State<K, V>)
    requires Valid(ty, s)
    ensures s.Rehashing() ==> s.rehashidx < |s.ht0.buckets|
  {
  }

  lemma NextPowerSame(k: nat)
    requires 2 <= k <= MAX_LOG_SIZE
    ensures SizeOk(Pow2(k)) && NextPower(Pow2(k)) == Pow2(k)
  {
    hide NextPower, Pow2;
    Pow2Mono(k, MAX_LOG_SIZE);
    Pow2Mono(2, k);
    SmallPowers();
    NextPowerOk(Pow2(k));
    var m: nat :| 2 <= m <= MAX_LOG_SIZE && NextPower(Pow2(k)) == Pow2(m);
    if m > k {
      Pow2Mono(k, m);
    } else if m < k {
      Pow2Mono(m, k);
    }
  }

  /** dictExpand starts a move to a table of another size. */
  lemma StartMove(s: State<uint32, int>, e: Entry<uint32, int>, k: nat)
    requires Alone(s, e) && !s.Rehashing() && 2 <= k <= MAX_LOG_SIZE && |s.ht0.buckets| != Pow2(k)
    ensures Fits(IntType(), s, true, ExpandOp(Pow2(k)))
    ensures var t := Apply(IntType(), s, true, ExpandOp(Pow2(k)));
            && t == s.(ht1 := EmptyTable(Pow2(k)), rehashidx := 0)
            && Valid(IntType(), t) && All(t) == multiset{e}
  {
    hide Valid, All, Pow2, IntType, NextPower;
    Pow2Mono(k, MAX_LOG_SIZE);
    NextPowerSame(k);
    SizeIsCard(s, IntType());
    OneUsedAll(s, e);
    ExpandOk(IntType(), s, Pow2(k));
  }

  lemma OneUsedAll(s: State<uint32, int>, e: Entry<uint32, int>)
    requires s.Size() == |All(s)| && All(s) == multiset{e} && Valid(IntType(), s)
    ensures s.ht0.used <= 1
  {
    hide KeysUnique, Placed, SizeOk;
  }

  lemma ToSize(s: State<uint32, int>, e: Entry<uint32, int>, k: nat) returns (run: Run)
    requires Alone(s, e) && !s.Rehashing() && 2 <= k <= MAX_LOG_SIZE
    ensures FitsAll(IntType(), s, run) && OnlyMoves(run)
    ensures var t := ApplyAll(IntType(), s, run); Alone(t, e) && !t.Rehashing() && |t.ht0.buckets| == Pow2(k)
  {
    hide Valid, All, Pow2, IntType, Apply, Fits;
    if |s.ht0.buckets| == Pow2(k) {
      run := [];
    } else {
      StartMove(s, e, k);
      var op := (true, ExpandOp(Pow2(k)));
      ApplyOne<uint32, int>(IntType(), s, op.0, op.1);
      var t := Apply(IntType(), s, op.0, op.1);
      var more := Settle(t);
      ApplyAppend(IntType(), s, [op], more);
      run := [op] + more;
      PowPositive(k);
    }
  }

  lemma PowPositive(k: nat)
    ensures Pow2(k) > 0
  {
  }

  /** From any dict with the one entry to one of the shape. */
  lemma Reshape(s: State<uint32, int>, e: Entry<uint32, int>, p: Shape) returns (run: Run)
    requires Valid(IntType(), s) && s.iterators == 0 && All(s) == multiset{e} && |s.ht0.buckets| > 0
    requires ShapeOk(p) && (p.rehashing ==> p.shrinking)
    ensures FitsAll(IntType(), s, run) && OnlyMoves(run)
    ensures var t := ApplyAll(IntType(), s, run); Alone(t, e) && ShapeOf(t) == p
  {
    hide Valid, All, Pow2, IntType, Apply, Fits, ShapeOf;
    SecondTable(IntType(), s);
    var a := Settle(s);
    var t := ApplyAll(IntType(), s, a);
    var b := ToSize(t, e, p.k0 + p.d);
    ApplyAppend(IntType(), s, a, b);
    run := a + b;
    var u := ApplyAll(IntType(), s, run);
    if p.rehashing {
      PowGrows(p.k0, p.d);
      StartMove(u, e, p.k0);
      var op := (true, ExpandOp(Pow2(p.k0)));
      ApplyOne<uint32, int>(IntType(), u, op.0, op.1);
      ApplyAppend(IntType(), s, run, [op]);
      run := run + [op];
      MovingShape(u, p);
    } else {
      SettledShape(u, p);
    }
  }

  lemma SecondTable<K, V>(ty: DictType<K>, s: State<K, V>)
    requires Valid(ty, s)
    ensures s.Rehashing() ==> |s.ht1.buckets| > 0
  {
  }

  lemma SettledShape(s: State<uint32, int>, p: Shape)
    requires !s.Rehashing() && |s.ht0.buckets| == Pow2(p.k0) && ShapeOk(p) && !p.rehashing
    ensures ShapeOf(s) == p
  {
    hide Pow2, Log2;
    Log2OfPow2(p.k0);
  }

  lemma MovingShape(s: State<uint32, int>, p: Shape)
    requires |s.ht0.buckets| == Pow2(p.k0 + p.d) && ShapeOk(p) && p.shrinking
    ensures var t := s.(ht1 := EmptyTable(Pow2(p.k0)), rehashidx := 0);
            ShapeOf(t) == p && forall i: int :: Bucket(SmallTable(t), i) == []
  {
    hide Pow2, Log2;
    Log2OfPow2(p.k0);
    Log2OfPow2(p.k0 + p.d);
    PowGrows(p.k0, p.d);
  }

  // ---------------------------------------------------------------- histories

  lemma Begin(e: Entry<uint32, int>, p: Shape) returns (run: Run)
    requires ShapeOk(p) && (p.rehashing ==> p.shrinking)
    ensures FitsAll(IntType(), Create(), run)
    ensures var t := ApplyAll(IntType(), Create(), run); Alone(t, e) && ShapeOf(t) == p
  {
    hide Valid, All, Pow2, IntType, Apply, Fits, ShapeOf;
    var s := Create<uint32, int>();
    CreateValid<uint32, int>(IntType());
    LawfulIntType();
    var op := (true, AddOp(e.key, e.val));
    FirstAdd(e);
    ApplyOne<uint32, int>(IntType(), s, op.0, op.1);
    var t := ApplyAll(IntType(), s, [op]);
    var more := Reshape(t, e, p);
    ApplyAppend(IntType(), s, [op], more);
    run := [op] + more;
  }

  lemma FirstAdd(e: Entry<uint32, int>)
    ensures Fits(IntType(), Create(), true, AddOp(e.key, e.val))
    ensures var t := Apply(IntType(), Create(), true, AddOp(e.key, e.val));
            Valid(IntType(), t) && All(t) == multiset{e} && t.iterators == 0 && |t.ht0.buckets| > 0
  {
    hide Valid, All, IntType, Add;
    CreateValid<uint32, int>(IntType());
    LawfulIntType();
    AddOk(IntType(), Create(), true, e.key, e.val);
    var none: multiset<Entry<uint32, int>> := multiset{};
    assert !HasKey(IntType(), none, e.key);
    assert none + multiset{e} == multiset{e};
  }

  /** A history whose states have the shapes and hold one entry throughout. */
  lemma {:induction false} Make(e: Entry<uint32, int>, shapes: seq<Shape>)
    returns (first: Run, states: seq<State<uint32, int>>, between: seq<Run>)
    requires |shapes| > 0 && NeverWhileGrowing(shapes) && forall i :: 0 <= i < |shapes| ==> ShapeOk(shapes[i])
    ensures History(first, states, between) && |states| == |shapes|
    ensures forall run :: run in between ==> OnlyMoves(run)
    ensures forall i :: 0 <= i < |shapes| ==> Alone(states[i], e) && ShapeOf(states[i]) == shapes[i]
    decreases |shapes|
  {
    hide Alone, ShapeOk, ShapeOf, FitsAll, ApplyAll, IntType, OnlyMoves;
    var n := |shapes| - 1;
    if n == 0 {
      first := Begin(e, shapes[0]);
      states, between := [ApplyAll(IntType(), Create(), first)], [];
    } else {
      var ss, bs;
      first, ss, bs := Make(e, shapes[..n]);
      assert Alone(ss[n - 1], e);
      AloneIs(ss[n - 1], e);
      var run := Reshape(ss[n - 1], e, shapes[n]);
      var last := ApplyAll(IntType(), ss[n - 1], run);
      states, between := ss + [last], bs + [run];
      InterleavedMore(IntType(), ss, bs, run);
    }
  }

  lemma AloneIs(s: State<uint32, int>, e: Entry<uint32, int>)
    requires Alone(s, e)
    ensures Valid(IntType(), s) && s.iterators == 0 && All(s) == multiset{e} && |s.ht0.buckets| > 0
  {
    hide Valid, All;
  }

  lemma InterleavedMore<K, V>(
      ty: DictType<K>, states: seq<State<K, V>>, between: seq<seq<(bool, Op<K, V>)>>, run: seq<(bool, Op<K, V>)>)
    requires |states| > 0 && Interleaved(ty, states, between) && FitsAll(ty, states[|states| - 1], run)
    ensures Interleaved(ty, states + [ApplyAll(ty, states[|states| - 1], run)], between + [run])
  {
    hide FitsAll, ApplyAll;
    var ss, bs := states + [ApplyAll(ty, states[|states| - 1], run)], between + [run];
    forall i | 0 <= i < |bs|
      ensures FitsAll(ty, ss[i], bs[i]) && ss[i + 1] == ApplyAll(ty, ss[i], bs[i])
    {
      assert ss[i] == states[i];
      assert i < |between| ==> bs[i] == between[i] && ss[i + 1] == states[i + 1];
    }
  }

  /** The one entry is emitted only where its hash is visited. */
  lemma AloneEmits(s: State<uint32, int>, e: Entry<uint32, int>, v: nat, x: Entry<uint32, int>)
    requires Alone(s, e) && x in Scan(s, v).1
    ensures var p := ShapeOf(s); Visits(v, e.key, p.k0, p.d)
  {
    hide Valid, All, Low, Scan, ScanLog, ExtraBits, Visits, Bucket;
    EmittedVisited(IntType(), s, v, x);
    EmittedIsStored(s, v, x);
    assert x == e;
    BucketVisited(v, e.key, ScanLog(s));
  }

  /** A key that is never touched after the first run and that no call emits. */
  lemma UncoveredHistory(shapes: seq<Shape>, cursors: seq<nat>, h: nat)
    returns (first: Run, states: seq<State<uint32, int>>, between: seq<Run>, k: uint32)
    requires ShapeScan(shapes, cursors) && NeverWhileGrowing(shapes)
    requires h < Pow2(32) && !Covered(shapes, cursors, h)
    ensures History(first, states, between) && Meets(states, shapes, k)
    ensures forall run :: run in between ==> OnlyMoves(run)
    ensures |cursors| == |states| + 1 && !Emitted(IntType(), states, cursors, k)
  {
    assert Pow2(32) == 0x1_0000_0000 by { Pow32(); }
    hide Pow2, History, OnlyMoves, ShapeOk, ShapeOf, Scan, Visits, NextCursor, Alone, Meets, Emitted;
    k := h;
    var e := Entry(k, 0);
    first, states, between := Make(e, shapes);
    forall i | 0 <= i < |shapes|
      ensures !Visits(cursors[i], h, ShapeOf(states[i]).k0, ShapeOf(states[i]).d)
    {
      assert ShapeOf(states[i]) == shapes[i];
    }
    Unnoticed(states, shapes, cursors, e);
  }

  lemma Unnoticed(states: seq<State<uint32, int>>, shapes: seq<Shape>, cursors: seq<nat>, e: Entry<uint32, int>)
    requires |states| == |shapes| && |cursors| == |states| + 1
    requires forall i :: 0 <= i < |states| ==> Alone(states[i], e) && ShapeOf(states[i]) == shapes[i]
    requires forall i :: 0 <= i < |states| ==>
               !Visits(cursors[i], e.key, ShapeOf(states[i]).k0, ShapeOf(states[i]).d)
    ensures Meets(states, shapes, e.key) && !Emitted(IntType(), states, cursors, e.key)
  {
    hide ShapeOf, Scan, Visits, Alone, Valid, HasKey, All, IntType;
    forall i | 0 <= i < |states|
      ensures Valid(IntType(), states[i]) && HasKey(IntType(), All(states[i]), e.key)
      ensures Scan(states[i], cursors[i]).1 == []
    {
      Unvisited(states[i], e, cursors[i]);
    }
  }

  lemma Unvisited(s: State<uint32, int>, e: Entry<uint32, int>, v: nat)
    requires Alone(s, e) && !Visits(v, e.key, ShapeOf(s).k0, ShapeOf(s).d)
    ensures Valid(IntType(), s) && HasKey(IntType(), All(s), e.key) && Scan(s, v).1 == []
  {
    hide Alone, ShapeOf, Scan, Visits, Valid, All;
    AloneIs(s, e);
    assert e in All(s);
    if Scan(s, v).1 != [] {
      AloneEmits(s, e, v, Scan(s, v).1[0]);
    }
  }

  /**
   The promise of dictScan over whole histories of a dict, from dictCreate and
   with runs of operations between the calls of the scan: every key that each
   call finds is emitted if and only if the cursors and table sizes of the calls
   leave no hash unvisited, for scans none of whose calls is made while the
   entries move to a larger table.
   */
  lemma HistoryPromiseIff(shapes: seq<Shape>, cursors: seq<nat>)
    requires ShapeScan(shapes, cursors) && NeverWhileGrowing(shapes)
    ensures Covers(shapes, cursors) <==>
            forall first, states, between, k :: History(first, states, between) && Meets(states, shapes, k) ==>
              Emitted(IntType(), states, cursors, k)
  {
    assert |cursors| == |shapes| + 1;
    hide ShapeScan, HasThroughout, Valid, ShapeOf, Emitted, Covered, History;
    assert Pow2(32) == 0x1_0000_0000 by { Pow32(); }
    hide Pow2;
    if Covers(shapes, cursors) {
      forall first, states, between, k | History(first, states, between) && Meets(states, shapes, k)
        ensures Emitted(IntType(), states, cursors, k)
      {
        CoveredEmitted(states, shapes, cursors, k);
      }
    } else {
      var h: nat :| h < Pow2(32) && !Covered(shapes, cursors, h);
      var first, states, between, k := UncoveredHistory(shapes, cursors, h);
    }
  }
}
