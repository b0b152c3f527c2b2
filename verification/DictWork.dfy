/**
 How much work a call does: what dictRehash moves, and which tables dictExpand
 and dictResize ask for.
 */
module DictWork {
  import opened Words
  import opened DictSpec
  import opened DictInvariant
  import opened DictRuns

  // ------------------------------------------------------------- dictRehash

  /** How many of the buckets from i up to j hold entries. */
  function Filled<E>(b: seq<seq<E>>, i: nat, j: nat): nat
    requires j <= |b|
    decreases j - i
  {
    if i >= j then 0 else (if b[i] == [] then 0 else 1) + Filled(b, i + 1, j)
  }

  /** And how many are empty. */
  function Vacant<E>(b: seq<seq<E>>, i: nat, j: nat): int
    requires i <= j <= |b|
  {
    j - i - Filled(b, i, j)
  }

  /** The last bucket with entries, -1 if there is none. */
  function Last<E>(b: seq<seq<E>>): (k: int)
    ensures -1 <= k < |b| && (k >= 0 ==> b[k] != []) && forall i :: k < i < |b| ==> b[i] == []
  {
    if b == [] then -1 else if b[|b| - 1] != [] then |b| - 1 else Last(b[..|b| - 1])
  }

  /** From i on at most n buckets hold entries, and fewer than v empty ones come before the last of them. */
  predicate Within<E>(b: seq<seq<E>>, i: nat, n: nat, v: int)
    requires i <= |b|
  {
    Filled(b, i, |b|) <= n && (Last(b) >= i ==> Vacant(b, i, Last(b)) < v)
  }

  /** From i up to j there are n buckets with entries or v empty ones, and up to no place before j. */
  predicate UsedUp<E>(b: seq<seq<E>>, i: nat, n: nat, v: int, j: nat)
    requires i <= j <= |b|
  {
    && (Filled(b, i, j) == n || Vacant(b, i, j) == v)
    && forall k :: i <= k < j ==> Filled(b, i, k) < n && Vacant(b, i, k) < v
  }

  lemma {:induction false} FilledSame<E>(b: seq<seq<E>>, c: seq<seq<E>>, i: nat, j: nat)
    requires j <= |b| == |c| && forall k :: i <= k < j ==> b[k] == c[k]
    ensures Filled(b, i, j) == Filled(c, i, j)
    decreases j - i
  {
    if i < j {
      FilledSame(b, c, i + 1, j);
    }
  }

  lemma {:induction false} FilledNone<E>(b: seq<seq<E>>, i: nat, j: nat)
    requires i <= j <= |b|
    ensures Filled(b, i, j) <= j - i
    ensures Filled(b, i, j) == 0 <==> forall k :: i <= k < j ==> b[k] == []
    decreases j - i
  {
    if i < j {
      FilledNone(b, i + 1, j);
    }
  }

  lemma FilledHead<E>(b: seq<seq<E>>, i: nat, j: nat)
    requires i < j <= |b|
    ensures Filled(b, i, j) == (if b[i] == [] then 0 else 1) + Filled(b, i + 1, j)
    ensures Filled(b, i, i) == 0
  {
  }

  /** The same with the bucket at i behind. */
  lemma WithinNext<E>(b: seq<seq<E>>, c: seq<seq<E>>, i: nat, n: nat, v: int)
    requires i < |b| == |c| && Filled(b, i, |b|) != 0 && n > 0 && v > 0
    requires forall k :: i < k < |b| ==> c[k] == b[k]
    requires forall k :: 0 <= k <= i ==> c[k] == []
    ensures Within(b, i, n, v) <==>
            if b[i] == [] then v > 1 && Within(c, i + 1, n, v - 1) else Within(c, i + 1, n - 1, v)
  {
    hide Filled;
    FilledHead(b, i, |b|);
    FilledSame(b, c, i + 1, |b|);
    FilledNone(b, i, |b|);
    FilledNone(b, i + 1, |b|);
    var l := Last(b);
    assert l >= i;
    if l > i {
      FilledHead(b, i, l);
      FilledSame(b, c, i + 1, l);
      FilledNone(c, i + 1, l);
      assert Last(c) == l;
    } else {
      assert Last(c) <= i;
      FilledHead(b, i, i + 1);
    }
  }

  lemma UsedUpNext<E>(b: seq<seq<E>>, c: seq<seq<E>>, i: nat, n: nat, v: int, j: nat)
    requires i < j <= |b| == |c| && n > 0 && v > 0
    requires forall k :: i < k < |b| ==> c[k] == b[k]
    requires if b[i] == [] then UsedUp(c, i + 1, n, v - 1, j) else UsedUp(c, i + 1, n - 1, v, j)
    ensures UsedUp(b, i, n, v, j)
  {
    hide Filled;
    FilledHead(b, i, j);
    FilledSame(b, c, i + 1, j);
    forall k | i <= k < j
      ensures Filled(b, i, k) < n && Vacant(b, i, k) < v
    {
      FilledHead(b, i, i + 1);
      if k > i {
        FilledHead(b, i, k);
        FilledSame(b, c, i + 1, k);
      }
    }
  }

  /** What a call with n buckets to move and v empty visits to spend leaves of s. */
  ghost predicate Worked<K, V>(s: State<K, V>, n: nat, v: int, r: (State<K, V>, bool))
    requires 0 <= s.rehashidx <= |s.ht0.buckets|
  {
    var b, j := s.ht0.buckets, r.0.rehashidx;
    && (!r.1 <==> Within(b, s.rehashidx, n, v))
    && (r.1 ==>
          && s.rehashidx <= j <= |b| == |r.0.ht0.buckets| && UsedUp(b, s.rehashidx, n, v, j)
          && forall i :: 0 <= i < |b| ==> r.0.ht0.buckets[i] == if i < j then [] else b[i])
  }

  lemma {:induction false} LoopWork<K, V>(ty: DictType<K>, s: State<K, V>, n: nat, v: int)
    requires Core(ty, s) && s.Rehashing() && v > 0
    ensures 0 <= s.rehashidx <= |s.ht0.buckets| && Worked(s, n, v, RehashLoop(ty, s, n, v))
    decreases n, |s.ht0.buckets| - s.rehashidx
  {
    hide Core, MoveBucket, Worked, Filled, All;
    CorePlace(ty, s);
    UsedCount(ty, s);
    var b, i := s.ht0.buckets, s.rehashidx;
    FilledNone(b, i, |b|);
    if n == 0 || s.ht0.used == 0 {
      WorkedEnd(s, n, v);
    } else if b[i] != [] {
      var s' := MoveBucket(ty, s);
      MoveBucketOk(ty, s);
      MoveBucketBuckets(ty, s);
      LoopWork(ty, s', n - 1, v);
      WorkedStep(s, s', n, v, RehashLoop(ty, s', n - 1, v));
    } else if v > 1 {
      var s' := s.(rehashidx := i + 1);
      SkipOk(ty, s, n);
      LoopWork(ty, s', n, v - 1);
      WorkedStep(s, s', n, v, RehashLoop(ty, s', n, v - 1));
    } else {
      WorkedSpent(s, n);
    }
  }

  lemma MoveBucketBuckets<K, V>(ty: DictType<K>, s: State<K, V>)
    requires 0 <= s.rehashidx < |s.ht0.buckets|
    ensures MoveBucket(ty, s).ht0.buckets == s.ht0.buckets[s.rehashidx := []]
  {
    hide MoveChain;
  }

  lemma WorkedEnd<K, V>(s: State<K, V>, n: nat, v: int)
    requires 0 <= s.rehashidx <= |s.ht0.buckets| && v > 0 && s.Rehashing()
    requires forall i :: 0 <= i < s.rehashidx ==> s.ht0.buckets[i] == []
    requires s.ht0.used == 0 <==> Filled(s.ht0.buckets, s.rehashidx, |s.ht0.buckets|) == 0
    requires n == 0 || s.ht0.used == 0
    ensures Worked(s, n, v, Finish(s))
  {
    hide Filled, Last;
    var b, i := s.ht0.buckets, s.rehashidx;
    FilledNone(b, i, |b|);
    FilledNone(b, i, i);
  }

  lemma WorkedSpent<K, V>(s: State<K, V>, n: nat)
    requires 0 <= s.rehashidx < |s.ht0.buckets| && s.ht0.buckets[s.rehashidx] == [] && n > 0
    requires forall i :: 0 <= i < s.rehashidx ==> s.ht0.buckets[i] == []
    requires Filled(s.ht0.buckets, s.rehashidx, |s.ht0.buckets|) != 0
    ensures Worked(s, n, 1, (s.(rehashidx := s.rehashidx + 1), true))
  {
    hide Filled, Last;
    var b, i := s.ht0.buckets, s.rehashidx;
    FilledNone(b, i, |b|);
    FilledNone(b, i + 1, i + 1);
    FilledHead(b, i, i + 1);
    if Last(b) > i {
      FilledHead(b, i, Last(b));
      FilledNone(b, i + 1, Last(b));
    }
  }

  lemma WorkedStep<K, V>(s: State<K, V>, s': State<K, V>, n: nat, v: int, r: (State<K, V>, bool))
    requires 0 <= s.rehashidx < |s.ht0.buckets| == |s'.ht0.buckets| && s'.rehashidx == s.rehashidx + 1
    requires s'.ht0.buckets == s.ht0.buckets[s.rehashidx := []]
    requires forall i :: 0 <= i < s.rehashidx ==> s.ht0.buckets[i] == []
    requires n > 0 && v > 0 && Filled(s.ht0.buckets, s.rehashidx, |s.ht0.buckets|) != 0
    requires if s.ht0.buckets[s.rehashidx] == [] then v > 1 && Worked(s', n, v - 1, r) else Worked(s', n - 1, v, r)
    ensures Worked(s, n, v, r)
  {
    hide Filled, Last, Within, UsedUp;
    var b, c, i := s.ht0.buckets, s'.ht0.buckets, s.rehashidx;
    WithinNext(b, c, i, n, v);
    if r.1 {
      UsedUpNext(b, c, i, n, v, r.0.rehashidx);
    }
  }

  lemma CorePlace<K, V>(ty: DictType<K>, s: State<K, V>)
    requires Core(ty, s) && s.Rehashing()
    ensures 0 <= s.rehashidx <= |s.ht0.buckets| && forall i :: 0 <= i < s.rehashidx ==> s.ht0.buckets[i] == []
  {
  }

  lemma UsedCount<K, V>(ty: DictType<K>, s: State<K, V>)
    requires Core(ty, s) && s.Rehashing()
    ensures s.ht0.used == 0 <==> forall i :: s.rehashidx <= i < |s.ht0.buckets| ==> s.ht0.buckets[i] == []
    ensures s.ht0.used != 0 ==> s.rehashidx < |s.ht0.buckets|
  {
    hide KeysUnique, Placed;
    CountZero(s.ht0.buckets);
  }

  /**
   dictRehash(d, n): it finishes exactly when at most n of the buckets that are
   left hold entries and fewer than 10 * n empty ones come before the last of
   them. Otherwise it has emptied the buckets up to the first place with n
   buckets that held entries, or 10 * n empty ones, behind it, and has touched
   none from there on.
   */
  lemma RehashWork<K, V>(ty: DictType<K>, s: State<K, V>, n: nat)
    requires Valid(ty, s) && s.Rehashing()
    ensures 0 <= s.rehashidx <= |s.ht0.buckets| && Worked(s, n, 10 * n, Rehash(ty, s, n))
  {
    hide Filled, Last, Core, KeysUnique;
    assert Core(ty, s);
    CorePlace(ty, s);
    if n > 0 {
      hide Worked, UsedUp, Within;
      LoopWork(ty, s, n, 10 * n);
    } else {
      UsedCount(ty, s);
      var b, i := s.ht0.buckets, s.rehashidx;
      FilledNone(b, i, |b|);
      FilledNone(b, i, i);
    }
  }

  /** One bucket of work: the step that comes with every operation on a key. */
  lemma StepWork<K, V>(ty: DictType<K>, s: State<K, V>)
    requires Valid(ty, s) && s.Rehashing() && s.iterators == 0
    ensures 0 <= s.rehashidx <= |s.ht0.buckets| && Worked(s, 1, 10, (Step(ty, s), Step(ty, s).Rehashing()))
    ensures Advanced(s, Step(ty, s))
  {
    hide Worked, Core, KeysUnique;
    RehashWork(ty, s, 1);
    RehashOk(ty, s, 1);
  }

  // ------------------------------------------ a rehash ends under operations

  /** The new table has taken over, or the rehash has gone on by a bucket at least. */
  predicate Advanced<K, V>(s: State<K, V>, s': State<K, V>) {
    || |s'.ht0.buckets| == |s.ht1.buckets|
    || (s'.Rehashing() && s'.rehashidx > s.rehashidx
        && |s'.ht0.buckets| == |s.ht0.buckets| && |s'.ht1.buckets| == |s.ht1.buckets|)
  }

  /** A replacement is an add with a find behind it. */
  predicate OnKey<K, V>(op: Op<K, V>) {
    op.AddOp? || op.DeleteOp? || op.FindOp?
  }

  lemma AddAdvances<K, V>(ty: DictType<K>, s: State<K, V>, canResize: bool, k: K, v: V)
    requires Advanced(s, Step(ty, s)) && |Step(ty, s).ht0.buckets| > 0
    ensures Advanced(s, Add(ty, s, canResize, k, v).0)
  {
    hide Step, Locate, Slot, NextPower, EmptyTable;
  }

  lemma DeleteAdvances<K, V>(ty: DictType<K>, s: State<K, V>, k: K)
    requires Advanced(s, Step(ty, s)) && |s.ht0.buckets| > 0
    ensures Advanced(s, Delete(ty, s, k).0)
  {
    hide Step, Locate;
  }

  /** Every operation on a key takes a rehash further while no iterator is live. */
  lemma OpAdvances<K(!new), V>(ty: DictType<K>, s: State<K, V>, canResize: bool, op: Op<K, V>)
    requires Valid(ty, s) && OnKey(op) && s.Rehashing() && s.iterators == 0
    ensures Advanced(s, Apply(ty, s, canResize, op))
  {
    hide Valid, Step, Locate, Add, Delete, Worked;
    StepWork(ty, s);
    StepOk(ty, s);
    RehashingTables(ty, s);
    match op {
      case AddOp(k, v) => AddAdvances(ty, s, canResize, k, v);
      case DeleteOp(k) => DeleteAdvances(ty, s, k);
      case FindOp(k) =>
    }
  }

  lemma RehashingTables<K, V>(ty: DictType<K>, s: State<K, V>)
    requires Valid(ty, s) && s.Rehashing()
    ensures |s.ht0.buckets| > 0 && 0 <= s.rehashidx < |s.ht0.buckets|
  {
  }

  /** So as many operations as the old table has buckets left are enough for the new one to take over. */
  lemma {:induction false} RunFinishes<K(!new), V>(ty: DictType<K>, s: State<K, V>, ops: seq<(bool, Op<K, V>)>)
    returns (i: nat)
    requires Lawful(ty) && Valid(ty, s) && FitsAll(ty, s, ops) && forall op :: op in ops ==> OnKey(op.1)
    requires s.Rehashing() && s.iterators == 0 && |ops| >= |s.ht0.buckets| - s.rehashidx
    ensures i <= |ops| && |ApplyAll(ty, s, ops[..i]).ht0.buckets| == |s.ht1.buckets|
    decreases |ops|
  {
    hide Valid, Lawful, Fits, Apply, OnKey;
    RehashingTables(ty, s);
    var op := ops[0];
    assert op in ops;
    OpAdvances(ty, s, op.0, op.1);
    ApplyOk(ty, s, op.0, op.1);
    var t := Apply(ty, s, op.0, op.1);
    if |t.ht0.buckets| == |s.ht1.buckets| {
      i := 1;
      assert ops[..1] == [op];
      assert ApplyAll(ty, s, [op]) == ApplyAll(ty, t, [op][1..]);
    } else {
      var j := RunFinishes(ty, t, ops[1..]);
      i := j + 1;
      assert ops[..i][1..] == ops[1..][..j];
    }
  }

  // --------------------------------------------------------- tables asked for

  /** The least size of a table that holds so many entries. */
  ghost predicate LeastSize(n: nat, size: nat) {
    SizeOk(n) && n >= size && forall m: nat :: SizeOk(m) && m >= size ==> m >= n
  }

  lemma NextPowerLeast(size: nat)
    requires size <= Pow2(MAX_LOG_SIZE)
    ensures LeastSize(NextPower(size), size)
  {
    hide Pow2, NextPower;
    NextPowerOk(size);
    SmallestSize();
    forall m: nat | SizeOk(m) && m >= size
      ensures m >= NextPower(size)
    {
      if m < NextPower(size) {
        SizesApart(m, NextPower(size));
        SmallestIs(m);
      }
    }
  }

  lemma SmallestSize()
    ensures Pow2(2) == INITIAL_SIZE
  {
  }

  lemma SmallestIs(m: nat)
    requires SizeOk(m)
    ensures m >= INITIAL_SIZE
  {
    hide Pow2;
    var k: nat :| 2 <= k <= MAX_LOG_SIZE && m == Pow2(k);
    Pow2Mono(2, k);
    SmallestSize();
  }

  lemma SizesApart(m: nat, n: nat)
    requires SizeOk(m) && SizeOk(n) && m < n
    ensures 2 * m <= n
  {
    hide Pow2;
    var a: nat :| 2 <= a <= MAX_LOG_SIZE && m == Pow2(a);
    var b: nat :| 2 <= b <= MAX_LOG_SIZE && n == Pow2(b);
    if a < b {
      Pow2Mono(a, b);
    } else {
      Pow2Mono(b, a);
    }
  }

  /** t is s with an empty table of n buckets: its first one, or one to move to. */
  ghost predicate Begun<K, V>(s: State<K, V>, t: State<K, V>, n: nat) {
    && t.iterators == s.iterators
    && if |s.ht0.buckets| == 0 then t.ht1 == s.ht1 && t.rehashidx == s.rehashidx && Fresh(t.ht0, n)
       else t.ht0 == s.ht0 && t.rehashidx == 0 && Fresh(t.ht1, n)
  }

  predicate Fresh<K, V>(t: Table<K, V>, n: nat) {
    |t.buckets| == n && t.used == 0 && forall i :: 0 <= i < n ==> t.buckets[i] == []
  }

  /** dictExpand: when it does anything, and what. */
  lemma ExpandExact<K, V>(ty: DictType<K>, s: State<K, V>, size: nat, n: nat)
    requires Valid(ty, s) && size <= Pow2(MAX_LOG_SIZE) && LeastSize(n, size)
    ensures var (t, ok) := Expand(s, size);
            && (ok <==> !s.Rehashing() && s.Size() <= size && n != |s.ht0.buckets|)
            && if ok then Begun(s, t, n) else t == s
  {
    NextPowerLeast(size);
    SmallestIs(n);
    IdleSize(ty, s);
    hide Valid, Pow2, NextPower, SizeOk;
  }

  lemma IdleSize<K, V>(ty: DictType<K>, s: State<K, V>)
    requires Valid(ty, s)
    ensures !s.Rehashing() ==> s.Size() == s.ht0.used && s.ht0.used >= 0
  {
    hide KeysUnique, Placed;
  }

  /** dictResize: to the least table for the entries there are, unless that is the size already. */
  lemma ResizeExact<K, V>(ty: DictType<K>, s: State<K, V>, canResize: bool, n: nat)
    requires Valid(ty, s) && ResizeFits(s, canResize) && s.Size() >= 0 && LeastSize(n, s.Size())
    ensures var (t, ok) := Resize(s, canResize);
            && (ok <==> canResize && !s.Rehashing() && n != |s.ht0.buckets|)
            && if ok then Begun(s, t, n) else t == s
  {
    MaxSizeFits();
    IdleSize(ty, s);
    hide Valid, Pow2, Expand, SizeOk;
    if canResize && !s.Rehashing() {
      if s.ht0.used < INITIAL_SIZE {
        SmallestLeast(n, s.ht0.used);
        ExpandExact(ty, s, INITIAL_SIZE, n);
      } else {
        ExpandExact(ty, s, s.ht0.used, n);
      }
    }
  }

  lemma SmallestLeast(n: nat, size: nat)
    requires LeastSize(n, size) && size < INITIAL_SIZE
    ensures n == INITIAL_SIZE && LeastSize(n, INITIAL_SIZE)
  {
    SmallestIs(n);
    SmallestSize();
    assert SizeOk(INITIAL_SIZE);
    forall m: nat | SizeOk(m)
      ensures m >= INITIAL_SIZE
    {
      SmallestIs(m);
    }
  }

  /**
   _dictExpandIfNeeded: a first table, or a move to one for twice the entries
   once there is an entry a bucket, or six while resizing is switched off.
   */
  lemma ExpandIfNeededExact<K, V>(ty: DictType<K>, s: State<K, V>, canResize: bool, n: nat)
    requires Valid(ty, s) && GrowthFits(s, canResize)
    requires s.Size() >= 0 && LeastSize(n, if |s.ht0.buckets| == 0 then 0 else 2 * s.Size())
    ensures var t, size := ExpandIfNeeded(s, canResize).0, |s.ht0.buckets|;
            if !s.Rehashing() && (size == 0 || s.Size() >= (if canResize then size else 6 * size)) then Begun(s, t, n)
            else t == s
  {
    MaxSizeFits();
    IdleSize(ty, s);
    NoTable(ty, s);
    FullIff(s, canResize);
    hide Valid, Pow2, Expand, SizeOk, Full, Begun, LeastSize;
    if !s.Rehashing() {
      if |s.ht0.buckets| == 0 {
        SmallestLeast(n, 0);
        ExpandExact(ty, s, INITIAL_SIZE, n);
        LeastAtLeast(n, INITIAL_SIZE);
      } else if Full(s, canResize) {
        ExpandExact(ty, s, s.ht0.used * 2, n);
        LeastAtLeast(n, s.ht0.used * 2);
      }
    }
  }

  lemma LeastAtLeast(n: nat, size: nat)
    requires LeastSize(n, size)
    ensures n >= size && n > 0
  {
    SmallestIs(n);
  }

  lemma FullIff<K, V>(s: State<K, V>, canResize: bool)
    requires s.ht0.used >= 0
    ensures Full(s, canResize) <==>
            !s.Rehashing() && |s.ht0.buckets| > 0
            && s.ht0.used >= if canResize then |s.ht0.buckets| else 6 * |s.ht0.buckets|
  {
    if |s.ht0.buckets| > 0 {
      Ratio(s.ht0.used, |s.ht0.buckets|);
    }
  }

  lemma Ratio(used: nat, size: nat)
    requires size > 0
    ensures used / size > 5 <==> used >= 6 * size
  {
    var q := used / size;
    assert used == q * size + used % size;
    if q >= 6 {
      assert q * size == 6 * size + (q - 6) * size;
    } else {
      assert 5 * size == q * size + (5 - q) * size;
    }
  }

  lemma NoTable<K, V>(ty: DictType<K>, s: State<K, V>)
    requires Valid(ty, s)
    ensures |s.ht0.buckets| == 0 ==> s.Size() == 0
  {
    hide KeysUnique, Placed, SizeOk;
  }
}
