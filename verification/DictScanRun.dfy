/**
 Whole runs of dictScan that interleave with other operations on the dict: when
 they return every key that was there throughout.
 */
module DictScanRun {
  import opened Words
  import opened DictSpec
  import opened DictInvariant
  import opened DictScan

  /** The table sizes, as exponents, that a call works with during a rehash: the smaller first. */
  function SmallTable<K, V>(s: State<K, V>): Table<K, V> {
    if |s.ht0.buckets| > |s.ht1.buckets| then s.ht1 else s.ht0
  }

  function LargeTable<K, V>(s: State<K, V>): Table<K, V> {
    if |s.ht0.buckets| > |s.ht1.buckets| then s.ht0 else s.ht1
  }

  /** The exponent of the table whose mask advances the cursor. */
  function ScanLog<K, V>(s: State<K, V>): nat {
    Log2(|(if s.Rehashing() then SmallTable(s) else s.ht0).buckets|)
  }

  /** How many bits the larger table's mask has more. */
  function ExtraBits<K, V>(s: State<K, V>): nat {
    var k0, k1 := Log2(|SmallTable(s).buckets|), Log2(|LargeTable(s).buckets|);
    if k1 >= k0 then k1 - k0 else 0
  }

  /** The entries of the expansions e, e + 1, ... of one small bucket. */
  function EmitFrom<K, V>(t: Table<K, V>, low: nat, k0: nat, d: nat, e: nat): seq<Entry<K, V>>
    decreases Pow2(d) - e
  {
    if e >= Pow2(d) then [] else Bucket(t, Up(e, k0) + low) + EmitFrom(t, low, k0, d, e + 1)
  }

  /** dictScan: the new cursor and the entries handed to the callback. */
  function Scan<K, V>(s: State<K, V>, v: nat): (nat, seq<Entry<K, V>>) {
    if s.Size() == 0 || ScanLog(s) > WORD then (0, [])
    else
      var k0 := ScanLog(s);
      (NextCursor(v, k0),
       if !s.Rehashing() then Bucket(s.ht0, Low(v, k0))
       else Bucket(SmallTable(s), Low(v, k0)) +
            EmitFrom(LargeTable(s), Low(v, k0), k0, ExtraBits(s), Expansion(v, k0, ExtraBits(s))))
  }

  /** What makes one call complete, told from the cursor and the two masks. */
  ghost predicate CompleteCall<K, V>(s: State<K, V>, v: nat) {
    s.Rehashing() ==> LowOnes(Expansion(v, ScanLog(s), ExtraBits(s)))
  }

  lemma SizesAreLogs<K, V>(ty: DictType<K>, s: State<K, V>)
    requires Valid(ty, s) && |s.ht0.buckets| > 0
    ensures var k0 := ScanLog(s);
            && 2 <= k0 <= MAX_LOG_SIZE
            && |(if s.Rehashing() then SmallTable(s) else s.ht0).buckets| == Pow2(k0)
            && (s.Rehashing() ==> k0 + ExtraBits(s) <= MAX_LOG_SIZE
                                  && |LargeTable(s).buckets| == Pow2(k0 + ExtraBits(s)))
  {
    TablesSized(ty, s);
    hide Valid, Pow2, Log2;
    var a := LogOf(|s.ht0.buckets|);
    if s.Rehashing() {
      var b := LogOf(|s.ht1.buckets|);
      if a < b { Pow2Mono(a, b); }
      if b < a { Pow2Mono(b, a); }
    }
  }

  lemma TablesSized<K, V>(ty: DictType<K>, s: State<K, V>)
    requires Valid(ty, s) && |s.ht0.buckets| > 0
    ensures SizeOk(|s.ht0.buckets|) && (s.Rehashing() ==> SizeOk(|s.ht1.buckets|))
  {
    hide SizeOk;
  }

  lemma LogOf(n: nat) returns (k: nat)
    requires SizeOk(n)
    ensures 2 <= k <= MAX_LOG_SIZE && n == Pow2(k) && Log2(n) == k
  {
    hide Pow2, Log2;
    k :| 2 <= k <= MAX_LOG_SIZE && n == Pow2(k);
    Log2OfPow2(k);
  }

  lemma SlotIsLow(h: nat, k: nat)
    ensures Slot(h, Pow2(k)) == Low(h, k)
  {
    AndMask(h, k);
  }

  lemma EmitHead<K, V>(t: Table<K, V>, low: nat, k0: nat, d: nat, e: nat)
    requires e < Pow2(d)
    ensures EmitFrom(t, low, k0, d, e) == Bucket(t, Up(e, k0) + low) + EmitFrom(t, low, k0, d, e + 1)
  {
  }

  lemma EmitEnd<K, V>(t: Table<K, V>, low: nat, k0: nat, d: nat)
    ensures EmitFrom(t, low, k0, d, Pow2(d)) == []
  {
  }

  lemma {:induction false} EmitFromContains<K, V>(
      t: Table<K, V>, low: nat, k0: nat, d: nat, e: nat, f: nat, x: Entry<K, V>)
    requires e <= f < Pow2(d) && x in Bucket(t, Up(f, k0) + low)
    ensures x in EmitFrom(t, low, k0, d, e)
    decreases f - e
  {
    hide Pow2, Up, Bucket, EmitFrom;
    EmitHead(t, low, k0, d, e);
    if e < f {
      EmitFromContains(t, low, k0, d, e + 1, f, x);
    }
  }

  /** An entry is in the bucket of its hash, in the one table or the other. */
  lemma WhereStored<K, V>(ty: DictType<K>, s: State<K, V>, x: Entry<K, V>)
    requires Valid(ty, s) && x in All(s)
    ensures |s.ht0.buckets| > 0
    ensures || x in Bucket(s.ht0, Slot(ty.hash(x.key), |s.ht0.buckets|))
            || (s.Rehashing() && x in Bucket(s.ht1, Slot(ty.hash(x.key), |s.ht1.buckets|)))
  {
    if x in Elems(s.ht0.buckets) {
      var i := ElemsWitness(s.ht0.buckets, x);
    } else {
      var j := ElemsWitness(s.ht1.buckets, x);
    }
  }

  lemma StoredDuringRehash<K, V>(ty: DictType<K>, s: State<K, V>, x: Entry<K, V>)
    requires Valid(ty, s) && x in All(s) && s.Rehashing()
    ensures var h, k0 := ty.hash(x.key), ScanLog(s);
            || x in Bucket(SmallTable(s), Low(h, k0))
            || x in Bucket(LargeTable(s), Low(h, k0 + ExtraBits(s)))
  {
    WhereStored(ty, s, x);
    SizesAreLogs(ty, s);
    SlotIsLow(ty.hash(x.key), ScanLog(s));
    SlotIsLow(ty.hash(x.key), ScanLog(s) + ExtraBits(s));
  }

  lemma NotEmpty<K, V>(ty: DictType<K>, s: State<K, V>, x: Entry<K, V>)
    requires Valid(ty, s) && x in All(s)
    ensures s.Size() > 0
  {
    SizeIsCard(s, ty);
    assert |All(s)| != 0;
  }

  /** A call emits every entry whose hash it visits. */
  lemma VisitedEmitted<K, V>(ty: DictType<K>, s: State<K, V>, v: nat, x: Entry<K, V>)
    requires Valid(ty, s) && x in All(s) && ScanLog(s) <= WORD
    requires Visits(v, ty.hash(x.key), ScanLog(s), if s.Rehashing() then ExtraBits(s) else 0)
    ensures x in Scan(s, v).1
  {
    hide Valid, All, Elems, Pow2, RevN, Up, Low, Log2, NextCursor;
    var h, k0 := ty.hash(x.key), ScanLog(s);
    NotEmpty(ty, s, x);
    WhereStored(ty, s, x);
    SizesAreLogs(ty, s);
    if s.Rehashing() {
      var d := ExtraBits(s);
      StoredDuringRehash(ty, s, x);
      LowSplit(h, k0, d);
      if x in Bucket(LargeTable(s), Low(h, k0 + d)) {
        EmitFromContains(LargeTable(s), Low(v, k0), k0, d, Expansion(v, k0, d), Expansion(h, k0, d), x);
      }
    } else {
      SlotIsLow(h, k0);
    }
  }

  /** One complete call emits every entry whose hash lies between the cursor and the next one. */
  lemma CallEmits<K, V>(ty: DictType<K>, s: State<K, V>, v: nat, x: Entry<K, V>)
    requires Valid(ty, s) && x in All(s) && CompleteCall(s, v)
    requires ScanLog(s) <= WORD && Pos(v) <= Pos(ty.hash(x.key)) < NextPos(Pos(v), ScanLog(s))
    ensures x in Scan(s, v).1
  {
    hide Valid, All, Scan, ScanLog, ExtraBits, Visits, Expansion, LowOnes, NextPos, Pos;
    var h, k0 := ty.hash(x.key), ScanLog(s);
    WhereStored(ty, s, x);
    SizesAreLogs(ty, s);
    InStep(v, h, k0);
    if s.Rehashing() {
      StepVisits(v, h, k0, ExtraBits(s));
    } else {
      BucketVisited(v, h, k0);
    }
    VisitedEmitted(ty, s, v, x);
  }

  lemma BucketVisited(v: nat, h: nat, k0: nat)
    ensures Visits(v, h, k0, 0) <==> Low(h, k0) == Low(v, k0)
  {
  }

  // ------------------------------------------------------------------ runs

  /** A finished scan: the states its calls met, from cursor 0 until 0 comes back. */
  ghost predicate FinishedScan<K, V>(states: seq<State<K, V>>, cursors: seq<nat>) {
    && |states| > 0 && |cursors| == |states| + 1
    && cursors[0] == 0 && cursors[|states|] == 0
    && (forall i :: 0 < i < |states| ==> cursors[i] != 0)
    && (forall i :: 0 <= i < |states| ==> cursors[i + 1] == Scan(states[i], cursors[i]).0)
  }

  ghost predicate HasThroughout<K, V>(ty: DictType<K>, states: seq<State<K, V>>, k: K) {
    forall i :: 0 <= i < |states| ==> HasKey(ty, All(states[i]), k)
  }

  /** Some call handed an entry with this key to the callback. */
  ghost predicate Emitted<K, V>(ty: DictType<K>, states: seq<State<K, V>>, cursors: seq<nat>, k: K)
    requires |cursors| == |states| + 1
  {
    exists i, x :: 0 <= i < |states| && x in Scan(states[i], cursors[i]).1 && ty.eq(k, x.key)
  }

  /** The call that passes a place on the line, looking from call i on. */
  lemma {:induction false} CallPassing<K, V>(
      ty: DictType<K>, states: seq<State<K, V>>, cursors: seq<nat>, i: nat, p: nat)
    returns (j: nat)
    requires FinishedScan(states, cursors) && i < |states| && Pos(cursors[i]) <= p < Pow2(WORD)
    requires forall n :: 0 <= n < |states| ==> cursors[n] < Pow2(WORD)
    requires forall n :: 0 <= n < |states| ==> states[n].Size() != 0 && ScanLog(states[n]) <= WORD
    ensures j < |states| && Pos(cursors[j]) <= p < NextPos(Pos(cursors[j]), ScanLog(states[j]))
    decreases |states| - i
  {
    CursorAdvances(cursors[i], ScanLog(states[i]));
    if p < NextPos(Pos(cursors[i]), ScanLog(states[i])) {
      j := i;
    } else {
      assert cursors[i + 1] != 0;
      j := CallPassing(ty, states, cursors, i + 1, p);
    }
  }

  lemma {:induction false} CursorsAreWords<K, V>(ty: DictType<K>, states: seq<State<K, V>>, cursors: seq<nat>, i: nat)
    requires FinishedScan(states, cursors) && i <= |states|
    ensures cursors[i] < Pow2(WORD)
  {
    if i > 0 {
      CursorsAreWords(ty, states, cursors, i - 1);
      if states[i - 1].Size() != 0 && ScanLog(states[i - 1]) <= WORD {
        CursorAdvances(cursors[i - 1], ScanLog(states[i - 1]));
      }
    }
  }

  lemma NonEmpty<K, V>(ty: DictType<K>, s: State<K, V>, k: K)
    requires Valid(ty, s) && HasKey(ty, All(s), k)
    ensures s.Size() != 0 && |s.ht0.buckets| > 0 && ScanLog(s) <= WORD
  {
    SizeIsCard(s, ty);
    assert EntryOf(ty, All(s), k) in All(s);
    if |s.ht0.buckets| == 0 {
      CountZero(s.ht0.buckets);
    }
    SizesAreLogs(ty, s);
  }

  /**
   The promise of dictScan. However the dict changes between the calls of a
   finished scan, a key that every call finds in the dict is emitted by one of
   them, if each call made during a rehash has low ones as its expansion bits.
   */
  lemma ScanComplete<K(!new), V>(ty: DictType<K>, states: seq<State<K, V>>, cursors: seq<nat>, k: K)
    requires Lawful(ty) && FinishedScan(states, cursors)
    requires forall i :: 0 <= i < |states| ==> Valid(ty, states[i]) && CompleteCall(states[i], cursors[i])
    requires HasThroughout(ty, states, k)
    ensures Emitted(ty, states, cursors, k)
  {
    forall n | 0 <= n < |states|
      ensures cursors[n] < Pow2(WORD) && states[n].Size() != 0 && ScanLog(states[n]) <= WORD
    {
      CursorsAreWords(ty, states, cursors, n);
      NonEmpty(ty, states[n], k);
    }
    RevZero(WORD);
    var j := CallPassing(ty, states, cursors, 0, Pos(ty.hash(k)));
    var x := EntryOf(ty, All(states[j]), k);
    CallEmits(ty, states[j], cursors[j], x);
  }

  // ---------------------------------------------------- tables that only grow

  /** A rehash under way leads to a larger table. */
  ghost predicate Growing<K, V>(s: State<K, V>) {
    s.Rehashing() ==> |s.ht0.buckets| < |s.ht1.buckets|
  }

  /** From one call to the next the smaller table has not shrunk. */
  ghost predicate NeverShrinks<K, V>(states: seq<State<K, V>>) {
    forall i :: 0 < i < |states| ==> ScanLog(states[i - 1]) <= ScanLog(states[i])
  }

  lemma SmallCursorComplete<K, V>(s: State<K, V>, v: nat)
    requires v < Pow2(ScanLog(s))
    ensures CompleteCall(s, v)
  {
    LowHigh(v, ScanLog(s));
    LowZero(ExtraBits(s));
  }

  /** While the tables only grow, every call is complete. */
  lemma GrowthComplete<K, V>(ty: DictType<K>, states: seq<State<K, V>>, cursors: seq<nat>, i: nat)
    requires FinishedScan(states, cursors) && NeverShrinks(states) && i < |states|
    ensures CompleteCall(states[i], cursors[i])
  {
    if i > 0 {
      var s := states[i - 1];
      CursorsAreWords(ty, states, cursors, i - 1);
      if s.Size() != 0 && ScanLog(s) <= WORD {
        CursorMasked(cursors[i - 1], ScanLog(s));
        Pow2Mono(ScanLog(s), ScanLog(states[i]));
      }
    }
    SmallCursorComplete(states[i], cursors[i]);
  }

  /** With tables that only grow the promise of dictScan holds without a condition on the cursors. */
  lemma ScanCompleteUnderGrowth<K(!new), V>(ty: DictType<K>, states: seq<State<K, V>>, cursors: seq<nat>, k: K)
    requires Lawful(ty) && FinishedScan(states, cursors) && NeverShrinks(states)
    requires forall i :: 0 <= i < |states| ==> Valid(ty, states[i])
    requires HasThroughout(ty, states, k)
    ensures Emitted(ty, states, cursors, k)
  {
    forall i | 0 <= i < |states| ensures CompleteCall(states[i], cursors[i]) {
      GrowthComplete(ty, states, cursors, i);
    }
    ScanComplete(ty, states, cursors, k);
  }
}
