/**
 Runs of dict operations: the map they keep, the tables that only grow, and the
 bound on the load.
 */
module DictRuns {
  import opened Words
  import opened DictSpec
  import opened DictInvariant
  import opened DictScan
  import opened DictScanRun

  datatype Op<K, V> =
    | AddOp(k: K, v: V)
    | ReplaceOp(k: K, v: V)
    | DeleteOp(k: K)
    | FindOp(k: K)
    | RehashOp(n: nat)
    | ExpandOp(size: nat)
    | ResizeOp

  /** One operation while dict_can_resize has the given value. */
  function Apply<K, V>(ty: DictType<K>, s: State<K, V>, canResize: bool, op: Op<K, V>): State<K, V> {
    match op
    case AddOp(k, v) => Add(ty, s, canResize, k, v).0
    case ReplaceOp(k, v) => Replace(ty, s, canResize, k, v).0
    case DeleteOp(k) => Delete(ty, s, k).0
    case FindOp(k) => Find(ty, s, k).0
    case RehashOp(n) => Rehash(ty, s, n).0
    case ExpandOp(size) => Expand(s, size).0
    case ResizeOp => Resize(s, canResize).0
  }

  /** The same operation on the map that the dict stands for. */
  ghost function MapApply<K, V>(ty: DictType<K>, m: multiset<Entry<K, V>>, op: Op<K, V>): multiset<Entry<K, V>> {
    match op
    case AddOp(k, v) => MapAdd(ty, m, k, v)
    case ReplaceOp(k, v) => MapReplace(ty, m, k, v)
    case DeleteOp(k) => MapDelete(ty, m, k)
    case _ => m
  }

  /** No table beyond the range of a bucket index is asked for. */
  predicate Fits<K, V>(ty: DictType<K>, s: State<K, V>, canResize: bool, op: Op<K, V>) {
    match op
    case AddOp(_, _) => GrowthFits(Step(ty, s), canResize)
    case ReplaceOp(_, _) => GrowthFits(Step(ty, s), canResize)
    case ExpandOp(size) => size <= Pow2(MAX_LOG_SIZE)
    case ResizeOp => ResizeFits(s, canResize)
    case _ => true
  }

  /** dictResize holds the number of entries in an int. */
  predicate ResizeFits<K, V>(s: State<K, V>, canResize: bool) {
    canResize && !s.Rehashing() ==> s.ht0.used < Pow2(MAX_LOG_SIZE)
  }

  lemma ApplyOk<K(!new), V>(ty: DictType<K>, s: State<K, V>, canResize: bool, op: Op<K, V>)
    requires Lawful(ty) && Valid(ty, s) && Fits(ty, s, canResize, op)
    ensures var s' := Apply(ty, s, canResize, op);
            Valid(ty, s') && s'.iterators == s.iterators && All(s') == MapApply(ty, All(s), op)
  {
    hide Valid, All, MapAdd, MapReplace, MapDelete, Add, Replace, Delete, Find, Rehash, Expand, Lawful, Pow2;
    match op
    case AddOp(k, v) => AddOk(ty, s, canResize, k, v);
    case ReplaceOp(k, v) => ReplaceOk(ty, s, canResize, k, v);
    case DeleteOp(k) => DeleteOk(ty, s, k);
    case FindOp(k) => FindOk(ty, s, k);
    case RehashOp(n) => RehashKeeps(ty, s, n);
    case ExpandOp(size) => ExpandOk(ty, s, size);
    case ResizeOp => ResizeOk(ty, s, canResize);
  }

  lemma RehashKeeps<K, V>(ty: DictType<K>, s: State<K, V>, n: nat)
    requires Valid(ty, s)
    ensures var s' := Rehash(ty, s, n).0;
            Valid(ty, s') && s'.iterators == s.iterators && All(s') == All(s)
  {
    RehashOk(ty, s, n);
  }

  lemma ResizeOk<K, V>(ty: DictType<K>, s: State<K, V>, canResize: bool)
    requires Valid(ty, s) && ResizeFits(s, canResize)
    ensures var s' := Resize(s, canResize).0;
            Valid(ty, s') && s'.iterators == s.iterators && All(s') == All(s)
  {
    MaxSizeFits();
    ExpandOk(ty, s, INITIAL_SIZE);
    if canResize && !s.Rehashing() {
      ExpandOk(ty, s, s.ht0.used);
    }
  }

  // ------------------------------------------------------- the map over a run

  function ApplyAll<K, V>(ty: DictType<K>, s: State<K, V>, ops: seq<(bool, Op<K, V>)>): State<K, V>
    decreases |ops|
  {
    if ops == [] then s else ApplyAll(ty, Apply(ty, s, ops[0].0, ops[0].1), ops[1..])
  }

  ghost function MapApplyAll<K, V>(ty: DictType<K>, m: multiset<Entry<K, V>>, ops: seq<(bool, Op<K, V>)>)
    : multiset<Entry<K, V>>
    decreases |ops|
  {
    if ops == [] then m else MapApplyAll(ty, MapApply(ty, m, ops[0].1), ops[1..])
  }

  ghost predicate FitsAll<K, V>(ty: DictType<K>, s: State<K, V>, ops: seq<(bool, Op<K, V>)>)
    decreases |ops|
  {
    ops == [] || (Fits(ty, s, ops[0].0, ops[0].1) && FitsAll(ty, Apply(ty, s, ops[0].0, ops[0].1), ops[1..]))
  }

  /** Over any run the two tables behave as one map and the invariant holds. */
  lemma {:induction false} RunIsMap<K(!new), V>(ty: DictType<K>, s: State<K, V>, ops: seq<(bool, Op<K, V>)>)
    requires Lawful(ty) && Valid(ty, s) && FitsAll(ty, s, ops)
    ensures Valid(ty, ApplyAll(ty, s, ops))
    ensures All(ApplyAll(ty, s, ops)) == MapApplyAll(ty, All(s), ops)
    decreases |ops|
  {
    hide Valid, All, MapApply, Apply, Lawful, Fits;
    if ops != [] {
      ApplyOk(ty, s, ops[0].0, ops[0].1);
      RunIsMap(ty, Apply(ty, s, ops[0].0, ops[0].1), ops[1..]);
    }
  }

  // -------------------------------------------------------------- growth only

  /** Operations that never start a move to a smaller table. */
  predicate Grows<K, V>(s: State<K, V>, op: Op<K, V>) {
    !op.ResizeOp? && (op.ExpandOp? ==> op.size >= |s.ht0.buckets|)
  }

  /** The tables of s' are those of s or larger ones, and rehashing leads upwards. */
  ghost predicate GrewFrom<K, V>(s: State<K, V>, s': State<K, V>) {
    && Growing(s')
    && |s.ht0.buckets| <= |s'.ht0.buckets|
  }

  lemma StepGrew<K, V>(ty: DictType<K>, s: State<K, V>)
    requires Valid(ty, s) && Growing(s)
    ensures GrewFrom(s, Step(ty, s))
  {
    if s.Rehashing() && s.iterators == 0 {
      RehashLoopOk(ty, s, 1, 10);
    }
  }

  lemma ExpandGrew<K, V>(s: State<K, V>, size: nat)
    requires Growing(s) && size >= |s.ht0.buckets| && NextPower(size) >= size
    ensures GrewFrom(s, Expand(s, size).0)
  {
  }

  lemma AddGrew<K(!new), V>(ty: DictType<K>, s: State<K, V>, canResize: bool, k: K, v: V)
    requires Lawful(ty) && Valid(ty, s) && Growing(s) && GrowthFits(Step(ty, s), canResize)
    ensures GrewFrom(s, Add(ty, s, canResize, k, v).0)
  {
    hide Step, Locate, Valid, Lawful, ExpandIfNeeded, Insert, GrewFrom;
    StepGrew(ty, s);
    StepOk(ty, s);
    var s1 := Step(ty, s);
    GrewGrowing(s, s1);
    ExpandIfNeededGrew(ty, s1, canResize);
    var s2 := ExpandIfNeeded(s1, canResize).0;
    GrewTrans(s, s1, s2);
    InsertGrew(ty, s, s2, k, v);
  }

  lemma GrewGrowing<K, V>(s: State<K, V>, s': State<K, V>)
    requires GrewFrom(s, s')
    ensures Growing(s')
  {
  }

  lemma GrewTrans<K, V>(s: State<K, V>, s': State<K, V>, s'': State<K, V>)
    requires GrewFrom(s, s') && GrewFrom(s', s'')
    ensures GrewFrom(s, s'')
  {
  }

  lemma InsertGrew<K, V>(ty: DictType<K>, s: State<K, V>, s': State<K, V>, k: K, v: V)
    requires GrewFrom(s, s')
    ensures GrewFrom(s, Insert(ty, s', k, v))
  {
  }

  lemma ExpandIfNeededGrew<K, V>(ty: DictType<K>, s: State<K, V>, canResize: bool)
    requires Valid(ty, s) && Growing(s) && GrowthFits(s, canResize)
    ensures GrewFrom(s, ExpandIfNeeded(s, canResize).0)
  {
    if !s.Rehashing() && |s.ht0.buckets| == 0 {
      MaxSizeFits();
      NextPowerOk(INITIAL_SIZE);
    } else if Full(s, canResize) {
      NextPowerOk(s.ht0.used * 2);
      ExpandGrew(s, s.ht0.used * 2);
    }
  }

  lemma FindGrew<K, V>(ty: DictType<K>, s: State<K, V>, k: K)
    requires Valid(ty, s) && Growing(s)
    ensures GrewFrom(s, Find(ty, s, k).0)
    ensures GrewFrom(s, Delete(ty, s, k).0)
  {
    StepGrew(ty, s);
    hide Step, Locate, Valid;
  }

  lemma SetValueGrew<K, V>(s: State<K, V>, s': State<K, V>, l: Place, v: V)
    requires GrewFrom(s, s')
    ensures GrewFrom(s, SetValue(s', l, v))
  {
  }

  lemma ApplyGrew<K(!new), V>(ty: DictType<K>, s: State<K, V>, canResize: bool, op: Op<K, V>)
    requires Lawful(ty) && Valid(ty, s) && Growing(s) && Fits(ty, s, canResize, op) && Grows(s, op)
    ensures GrewFrom(s, Apply(ty, s, canResize, op))
  {
    hide Add, Delete, Find, Valid, Lawful, Pow2;
    match op
    case AddOp(k, v) => AddGrew(ty, s, canResize, k, v);
    case ReplaceOp(k, v) =>
      AddGrew(ty, s, canResize, k, v);
      AddOk(ty, s, canResize, k, v);
      var s1 := Add(ty, s, canResize, k, v).0;
      FindGrew(ty, s1, k);
      SetValueGrew(s1, Find(ty, s1, k).0, Find(ty, s1, k).1, v);
    case DeleteOp(k) => FindGrew(ty, s, k);
    case FindOp(k) => FindGrew(ty, s, k);
    case RehashOp(n) => RehashGrew(ty, s, n);
    case ExpandOp(size) =>
      NextPowerOk(size);
      ExpandGrew(s, size);
  }

  lemma RehashGrew<K, V>(ty: DictType<K>, s: State<K, V>, n: nat)
    requires Valid(ty, s) && Growing(s)
    ensures GrewFrom(s, Rehash(ty, s, n).0)
  {
    RehashOk(ty, s, n);
  }

  lemma {:induction false} Log2Mono(a: nat, b: nat)
    requires a <= b
    ensures Log2(a) <= Log2(b)
  {
    if a > 1 {
      Log2Mono(a / 2, b / 2);
    }
  }

  ghost predicate GrowsAll<K, V>(ty: DictType<K>, s: State<K, V>, ops: seq<(bool, Op<K, V>)>)
    decreases |ops|
  {
    ops == [] || (Grows(s, ops[0].1) && GrowsAll(ty, Apply(ty, s, ops[0].0, ops[0].1), ops[1..]))
  }

  lemma {:induction false} RunGrew<K(!new), V>(ty: DictType<K>, s: State<K, V>, ops: seq<(bool, Op<K, V>)>)
    requires Lawful(ty) && Valid(ty, s) && FitsAll(ty, s, ops) && Growing(s) && GrowsAll(ty, s, ops)
    ensures GrewFrom(s, ApplyAll(ty, s, ops))
    decreases |ops|
  {
    hide Valid, Apply, Lawful, Fits, Grows;
    if ops != [] {
      ApplyOk(ty, s, ops[0].0, ops[0].1);
      ApplyGrew(ty, s, ops[0].0, ops[0].1);
      RunGrew(ty, Apply(ty, s, ops[0].0, ops[0].1), ops[1..]);
    }
  }

  // ------------------------------------------ scans that interleave with runs

  /** The states of a scan's calls are linked by runs of operations. */
  ghost predicate Interleaved<K, V>(ty: DictType<K>, states: seq<State<K, V>>, between: seq<seq<(bool, Op<K, V>)>>) {
    && |states| == |between| + 1
    && forall i :: 0 <= i < |between| ==>
         FitsAll(ty, states[i], between[i]) && states[i + 1] == ApplyAll(ty, states[i], between[i])
  }

  lemma {:induction false} InterleavedValid<K(!new), V>(
      ty: DictType<K>, states: seq<State<K, V>>, between: seq<seq<(bool, Op<K, V>)>>, i: nat)
    requires Lawful(ty) && Interleaved(ty, states, between) && Valid(ty, states[0]) && i < |states|
    ensures Valid(ty, states[i])
  {
    hide Valid, Lawful, FitsAll, ApplyAll;
    if i > 0 {
      InterleavedValid(ty, states, between, i - 1);
      assert states[i - 1 + 1] == ApplyAll(ty, states[i - 1], between[i - 1]);
      RunIsMap(ty, states[i - 1], between[i - 1]);
    }
  }

  /**
   A scan during which any operations run between the calls returns every key
   that each call finds in the dict, provided each call made during a rehash
   is complete; see `CallCompleteIff` for what that takes.
   */
  lemma InterleavedScanComplete<K(!new), V>(
      ty: DictType<K>, states: seq<State<K, V>>, cursors: seq<nat>, between: seq<seq<(bool, Op<K, V>)>>, k: K)
    requires Lawful(ty) && FinishedScan(states, cursors)
    requires Interleaved(ty, states, between) && Valid(ty, states[0])
    requires forall i :: 0 <= i < |states| ==> CompleteCall(states[i], cursors[i])
    requires HasThroughout(ty, states, k)
    ensures Emitted(ty, states, cursors, k)
  {
    forall i | 0 <= i < |states| ensures Valid(ty, states[i]) {
      InterleavedValid(ty, states, between, i);
    }
    hide Valid, Lawful, CompleteCall, FinishedScan, HasThroughout, Emitted;
    ScanComplete(ty, states, cursors, k);
  }

  lemma {:induction false} InterleavedGrew<K(!new), V>(
      ty: DictType<K>, states: seq<State<K, V>>, between: seq<seq<(bool, Op<K, V>)>>, i: nat)
    requires Lawful(ty) && Interleaved(ty, states, between) && Valid(ty, states[0]) && i < |states|
    requires Growing(states[0])
    requires forall j :: 0 <= j < |between| ==> GrowsAll(ty, states[j], between[j])
    ensures Growing(states[i])
    ensures i > 0 ==> ScanLog(states[i - 1]) <= ScanLog(states[i])
  {
    hide Valid, Lawful, FitsAll, ApplyAll, GrowsAll;
    if i > 0 {
      InterleavedGrew(ty, states, between, i - 1);
      InterleavedValid(ty, states, between, i - 1);
      assert states[i - 1 + 1] == ApplyAll(ty, states[i - 1], between[i - 1]);
      RunGrew(ty, states[i - 1], between[i - 1]);
      Log2Mono(|states[i - 1].ht0.buckets|, |states[i].ht0.buckets|);
    }
  }

  /**
   With adds, replacements, deletes, finds, rehash steps and expansions between
   the calls, but nothing that shrinks a table, a scan returns every key that
   each of its calls finds in the dict.
   */
  lemma GrowingScanComplete<K(!new), V>(
      ty: DictType<K>, states: seq<State<K, V>>, cursors: seq<nat>, between: seq<seq<(bool, Op<K, V>)>>, k: K)
    requires Lawful(ty) && FinishedScan(states, cursors)
    requires Interleaved(ty, states, between) && Valid(ty, states[0]) && Growing(states[0])
    requires forall j :: 0 <= j < |between| ==> GrowsAll(ty, states[j], between[j])
    requires HasThroughout(ty, states, k)
    ensures Emitted(ty, states, cursors, k)
  {
    hide Valid, Lawful, FinishedScan, HasThroughout, Emitted;
    forall i | 0 <= i < |states| ensures Valid(ty, states[i]) {
      InterleavedValid(ty, states, between, i);
    }
    forall i | 0 < i < |states| ensures ScanLog(states[i - 1]) <= ScanLog(states[i]) {
      InterleavedGrew(ty, states, between, i);
    }
    ScanCompleteUnderGrowth(ty, states, cursors, k);
  }

  // ------------------------------------------------------------ the load bound

  /**
   Loads that automatic resizing leads to: at most one entry a bucket, and
   while growing from n at most n + 1 + rehashidx entries in all.
   */
  ghost predicate LoadOk<K, V>(s: State<K, V>) {
    var n := |s.ht0.buckets|;
    && s.iterators == 0
    && (!s.Rehashing() ==> s.Size() <= n)
    && (s.Rehashing() ==> |s.ht1.buckets| == 2 * n && s.Size() <= n + 1 + s.rehashidx)
  }

  /** What a rehash step leaves: room for one more entry. */
  ghost predicate Slack<K, V>(s: State<K, V>) {
    LoadOk(s) && (s.Rehashing() ==> s.Size() <= |s.ht0.buckets| + s.rehashidx)
  }

  /** No more entries than the newest table has buckets. */
  lemma LoadBound<K, V>(ty: DictType<K>, s: State<K, V>)
    requires Valid(ty, s) && LoadOk(s)
    ensures s.Size() <= |(if s.Rehashing() then s.ht1 else s.ht0).buckets|
  {
  }

  lemma RehashLoad<K, V>(ty: DictType<K>, s: State<K, V>, n: nat)
    requires Valid(ty, s) && LoadOk(s)
    ensures LoadOk(Rehash(ty, s, n).0)
    ensures n > 0 ==> Slack(Rehash(ty, s, n).0)
    ensures Rehash(ty, s, n).0.Size() == s.Size()
  {
    RehashOk(ty, s, n);
    SizeIsCard(s, ty);
    SizeIsCard(Rehash(ty, s, n).0, ty);
  }

  lemma StepLoad<K, V>(ty: DictType<K>, s: State<K, V>)
    requires Valid(ty, s) && LoadOk(s)
    ensures Slack(Step(ty, s)) && Step(ty, s).Size() == s.Size()
  {
    if s.Rehashing() {
      RehashLoad(ty, s, 1);
    }
  }

  /** Expanding a full table of 2^k buckets doubles it. */
  lemma {:induction false} DoubleOf(j: nat, k: nat)
    requires 2 <= j <= k + 1
    ensures NextPowerFrom(Pow2(j), 2 * Pow2(k)) == 2 * Pow2(k)
    decreases k + 1 - j
  {
    if j <= k {
      Pow2Mono(j, k);
      assert Pow2(j) * 2 == Pow2(j + 1);
      DoubleOf(j + 1, k);
    }
  }

  lemma ExpandIfNeededLoad<K, V>(ty: DictType<K>, s: State<K, V>)
    requires Valid(ty, s) && Slack(s) && GrowthFits(s, true)
    ensures var s' := ExpandIfNeeded(s, true).0;
            && LoadOk(s') && s'.Size() == s.Size()
            && (!s'.Rehashing() ==> s'.Size() < |s'.ht0.buckets|)
            && (s'.Rehashing() ==> s'.Size() <= |s'.ht0.buckets| + s'.rehashidx)
  {
    MaxSizeFits();
    NoSecondTable(ty, s);
    FullIs(s);
    hide Valid, SizeOk, NextPower, Pow2, EmptyTable, Full, GrowthFits;
    if !s.Rehashing() && |s.ht0.buckets| == 0 {
      NextPowerOk(INITIAL_SIZE);
    } else if !s.Rehashing() && s.ht0.used >= |s.ht0.buckets| {
      NextPowerDoubles(|s.ht0.buckets|);
    }
  }

  lemma FullIs<K, V>(s: State<K, V>)
    ensures Full(s, true) <==> !s.Rehashing() && 0 < |s.ht0.buckets| <= s.ht0.used
  {
  }

  lemma NoSecondTable<K, V>(ty: DictType<K>, s: State<K, V>)
    requires Valid(ty, s)
    ensures !s.Rehashing() ==> s.ht1.used == 0
    ensures |s.ht0.buckets| == 0 || SizeOk(|s.ht0.buckets|)
  {
    hide SizeOk;
  }

  lemma NextPowerDoubles(n: nat)
    requires SizeOk(n)
    ensures NextPower(2 * n) == 2 * n
  {
    var k: nat :| 2 <= k <= MAX_LOG_SIZE && n == Pow2(k);
    DoubleOf(2, k);
    assert Pow2(2) == 4;
    MaxSizeFits();
    Pow2Mono(k, MAX_LOG_SIZE);
    hide Pow2;
  }

  lemma AddLoad<K(!new), V>(ty: DictType<K>, s: State<K, V>, k: K, v: V)
    requires Lawful(ty) && Valid(ty, s) && LoadOk(s) && GrowthFits(Step(ty, s), true)
    ensures LoadOk(Add(ty, s, true, k, v).0)
  {
    hide Step, ExpandIfNeeded, Locate, Valid, Lawful, All, Pow2, Slot;
    StepLoad(ty, s);
    StepOk(ty, s);
    ExpandIfNeededLoad(ty, Step(ty, s));
  }

  lemma FindLoad<K, V>(ty: DictType<K>, s: State<K, V>, k: K)
    requires Valid(ty, s) && LoadOk(s)
    ensures LoadOk(Find(ty, s, k).0)
    ensures LoadOk(Delete(ty, s, k).0)
  {
    StepLoad(ty, s);
    hide Step, Locate, Valid;
  }

  lemma SetValueLoad<K, V>(s: State<K, V>, l: Place, v: V)
    requires LoadOk(s)
    ensures LoadOk(SetValue(s, l, v))
  {
  }

  /** Operations other than explicit resizing, with dict_can_resize on, keep the load. */
  lemma ApplyLoad<K(!new), V>(ty: DictType<K>, s: State<K, V>, op: Op<K, V>)
    requires Lawful(ty) && Valid(ty, s) && LoadOk(s) && Fits(ty, s, true, op) && !op.ExpandOp? && !op.ResizeOp?
    ensures LoadOk(Apply(ty, s, true, op))
  {
    hide Add, Delete, Find, Valid, Lawful, Pow2, SetValue;
    match op
    case AddOp(k, v) => AddLoad(ty, s, k, v);
    case ReplaceOp(k, v) =>
      AddLoad(ty, s, k, v);
      AddOk(ty, s, true, k, v);
      var s1 := Add(ty, s, true, k, v).0;
      FindLoad(ty, s1, k);
      SetValueLoad(Find(ty, s1, k).0, Find(ty, s1, k).1, v);
    case DeleteOp(k) => FindLoad(ty, s, k);
    case FindOp(k) => FindLoad(ty, s, k);
    case RehashOp(n) => RehashLoad(ty, s, n);
  }

  /** From dictCreate on, any mix of such operations keeps at most one entry a bucket of the newest table. */
  lemma {:induction false} RunLoad<K(!new), V>(ty: DictType<K>, s: State<K, V>, ops: seq<(bool, Op<K, V>)>)
    requires Lawful(ty) && Valid(ty, s) && LoadOk(s) && FitsAll(ty, s, ops)
    requires forall o :: o in ops ==> o.0 && !o.1.ExpandOp? && !o.1.ResizeOp?
    ensures var s' := ApplyAll(ty, s, ops);
            LoadOk(s') && s'.Size() <= |(if s'.Rehashing() then s'.ht1 else s'.ht0).buckets|
    decreases |ops|
  {
    hide Valid, Lawful, Apply, Fits;
    if ops == [] {
      LoadBound(ty, s);
    } else {
      ApplyOk(ty, s, ops[0].0, ops[0].1);
      ApplyLoad(ty, s, ops[0].1);
      RunLoad(ty, Apply(ty, s, ops[0].0, ops[0].1), ops[1..]);
    }
  }

  lemma CreatedDictLoad<K(!new), V>(ty: DictType<K>, ops: seq<(bool, Op<K, V>)>)
    requires Lawful(ty) && FitsAll(ty, Create(), ops)
    requires forall o :: o in ops ==> o.0 && !o.1.ExpandOp? && !o.1.ResizeOp?
    ensures var s := ApplyAll(ty, Create(), ops);
            s.Size() <= |(if s.Rehashing() then s.ht1 else s.ht0).buckets|
  {
    CreateValid<K, V>(ty);
    RunLoad(ty, Create(), ops);
  }
}
