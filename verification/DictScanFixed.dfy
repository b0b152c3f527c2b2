/**
 A scan of a dict that does not change and is not being rehashed.
 */
module DictScanFixed {
  import opened Words
  import opened DictSpec
  import opened DictInvariant
  import opened DictScan
  import opened DictScanRun
  import opened DictScanExact
  import opened DictScanIff

  /** What the first n calls of the scan emit. */
  function EmittedBy<K, V>(s: State<K, V>, n: nat): seq<Entry<K, V>>
    requires ScanLog(s) <= WORD
  {
    if n == 0 then [] else EmittedBy(s, n - 1) + Scan(s, CursorAt(ScanLog(s), n - 1)).1
  }

  /** An entry of bucket b is counted from the call on that visits b. */
  lemma {:induction false} CountedOnce<K, V>(ty: DictType<K>, s: State<K, V>, n: nat, e: Entry<K, V>)
    requires TableOk(ty, s.ht0) && !s.Rehashing() && s.Size() != 0
    requires ScanLog(s) <= WORD && |s.ht0.buckets| == Pow2(ScanLog(s)) && n <= Pow2(ScanLog(s))
    ensures var k := ScanLog(s);
            var b := Low(ty.hash(e.key), k);
            multiset(EmittedBy(s, n))[e] == if RevN(k, b) < n then multiset(Bucket(s.ht0, b))[e] else 0
  {
    hide TableOk, Pow2, Low, RevN, ScanLog, CursorAt, Bucket, Scan;
    var k := ScanLog(s);
    var b := Low(ty.hash(e.key), k);
    if n > 0 {
      CountedOnce(ty, s, n - 1, e);
      LowHigh(ty.hash(e.key), k);
      FixedTableBuckets(k, b, n - 1);
      var i := Low(CursorAt(k, n - 1), k);
      var now := Bucket(s.ht0, i);
      FixedCall(s, CursorAt(k, n - 1));
      assert multiset(EmittedBy(s, n)) == multiset(EmittedBy(s, n - 1)) + multiset(now);
      if i != b {
        OnlyInItsBucket(ty, s.ht0, k, i, e);
      }
    }
  }

  /** The call emits the bucket of its cursor. */
  lemma FixedCall<K, V>(s: State<K, V>, v: nat)
    requires !s.Rehashing() && s.Size() != 0 && ScanLog(s) <= WORD
    ensures Scan(s, v).1 == Bucket(s.ht0, Low(v, ScanLog(s)))
  {
    hide Low, ScanLog, Bucket, NextCursor;
  }

  lemma OnlyInItsBucket<K, V>(ty: DictType<K>, t: Table<K, V>, k: nat, i: nat, e: Entry<K, V>)
    requires TableOk(ty, t) && |t.buckets| == Pow2(k) && i != Low(ty.hash(e.key), k)
    ensures multiset(Bucket(t, i))[e] == 0
  {
    hide TableOk, Pow2, Low;
    if e in Bucket(t, i) {
      PlacedLow(ty, t, k, i, e);
    }
  }

  /** All copies of an entry that belongs to bucket b are there. */
  lemma {:induction false} ElemsOfBucket<E>(buckets: seq<seq<E>>, b: nat, e: E)
    requires forall i :: 0 <= i < |buckets| && e in buckets[i] ==> i == b
    ensures Elems(buckets)[e] == if b < |buckets| then multiset(buckets[b])[e] else 0
  {
    if buckets != [] {
      if b > 0 {
        ElemsOfBucket(buckets[1..], b - 1, e);
      } else {
        NotInElems(buckets[1..], e);
      }
    }
  }

  lemma {:induction false} NotInElems<E>(buckets: seq<seq<E>>, e: E)
    requires forall i :: 0 <= i < |buckets| ==> e !in buckets[i]
    ensures Elems(buckets)[e] == 0
  {
    if buckets != [] {
      NotInElems(buckets[1..], e);
    }
  }

  lemma InOneBucket<K, V>(ty: DictType<K>, t: Table<K, V>, k: nat, e: Entry<K, V>)
    requires TableOk(ty, t) && |t.buckets| == Pow2(k)
    ensures Elems(t.buckets)[e] == multiset(Bucket(t, Low(ty.hash(e.key), k)))[e]
  {
    hide Pow2, Low, Placed, SizeOk, Elems;
    var b := Low(ty.hash(e.key), k);
    LowHigh(ty.hash(e.key), k);
    forall i | 0 <= i < |t.buckets| && e in t.buckets[i]
      ensures i == b
    {
      PlacedLow(ty, t, k, i, e);
    }
    ElemsOfBucket(t.buckets, b, e);
  }

  /** The calls: 2^k of them, from cursor 0 to cursor 0. */
  lemma FixedScanFinishes<K, V>(s: State<K, V>)
    requires !s.Rehashing() && s.Size() != 0 && ScanLog(s) <= WORD
    ensures var n := Pow2(ScanLog(s));
            FinishedScan(seq(n, _ => s), seq(n + 1, i requires 0 <= i <= n => CursorAt(ScanLog(s), i)))
  {
    hide Pow2, Low, RevN, Log2, NextCursor, CursorAt;
    var k := ScanLog(s);
    var n := Pow2(k);
    CursorAtHead(k, 0);
    FixedTableCalls(k, n);
    forall i | 0 < i < n
      ensures CursorAt(k, i) != 0
    {
      FixedTableCalls(k, i);
    }
    forall i | 0 <= i < n
      ensures CursorAt(k, i + 1) == Scan(s, CursorAt(k, i)).0
    {
      CursorAtHead(k, i + 1);
    }
  }

  /**
   A scan of such a dict with entries ends after one call for each bucket and
   emits every entry exactly once.
   */
  lemma FixedScanExact<K(!new), V(!new)>(ty: DictType<K>, s: State<K, V>)
    requires Valid(ty, s) && !s.Rehashing() && s.Size() != 0
    ensures ScanLog(s) <= WORD && |s.ht0.buckets| == Pow2(ScanLog(s))
    ensures var n := |s.ht0.buckets|;
            && FinishedScan(seq(n, _ => s), seq(n + 1, i requires 0 <= i <= n => CursorAt(ScanLog(s), i)))
            && multiset(EmittedBy(s, n)) == All(s)
            && forall e :: e in All(s) ==> multiset(EmittedBy(s, n))[e] == 1
  {
    hide Pow2, Low, RevN, Log2, CursorAt, TableOk, EmittedBy, FinishedScan;
    HasTable(ty, s);
    SizesAreLogs(ty, s);
    TablesOk(ty, s);
    var k := ScanLog(s);
    var n := Pow2(k);
    FixedScanFinishes(s);
    var a, all := multiset(EmittedBy(s, n)), All(s);
    forall e: Entry<K, V>
      ensures a[e] == all[e]
    {
      CountedOnce(ty, s, n, e);
      InOneBucket(ty, s.ht0, k, e);
    }
    assert forall e: Entry<K, V> :: a[e] == all[e];
    SameCounts(a, all);
  }

  lemma SameCounts<E(!new)>(a: multiset<E>, b: multiset<E>)
    requires forall e: E :: a[e] == b[e]
    ensures a == b
  {
    forall e: E
      ensures a[e] == b[e]
    {
    }
  }

  /** A scan of an empty dict is one call that emits nothing. */
  lemma EmptyScan<K, V>(s: State<K, V>)
    requires s.Size() == 0
    ensures Scan(s, 0) == (0, []) && FinishedScan([s], [0, 0])
  {
  }
}
