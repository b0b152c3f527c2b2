/**
 What every operation of the hash table keeps, and what it does to the one
 collection of entries that the two tables hold together.
 */
module DictInvariant {
  import opened Common
  import opened Words
  import opened DictSpec

  // ---------------------------------------------------- contents of a table

  ghost function Elems<E>(b: seq<seq<E>>): multiset<E> {
    if b == [] then multiset{} else multiset(b[0]) + Elems(b[1..])
  }

  /** The number of entries: the meaning of `used`. */
  ghost function Count<E>(b: seq<seq<E>>): nat {
    if b == [] then 0 else |b[0]| + Count(b[1..])
  }

  lemma {:induction false} CountIsCard<E>(b: seq<seq<E>>)
    ensures Count(b) == |Elems(b)|
  {
    if b != [] {
      CountIsCard(b[1..]);
    }
  }

  lemma {:induction false} CountUpdate<E>(b: seq<seq<E>>, i: nat, c: seq<E>)
    requires i < |b|
    ensures Count(b[i := c]) == Count(b) - |b[i]| + |c|
  {
    var u := b[i := c];
    if i == 0 {
      assert u[1..] == b[1..];
    } else {
      assert u[0] == b[0] && u[1..] == b[1..][i - 1 := c] && b[1..][i - 1] == b[i];
      CountUpdate(b[1..], i - 1, c);
    }
  }

  /** A table without entries has only empty chains, and conversely. */
  lemma {:induction false} CountZero<E>(b: seq<seq<E>>)
    ensures Count(b) == 0 <==> forall i :: 0 <= i < |b| ==> b[i] == []
    ensures Count(b) == 0 ==> Elems(b) == multiset{}
  {
    if b != [] {
      CountZero(b[1..]);
      if Count(b) == 0 {
        assert b[0] == [];
        forall i | 0 <= i < |b| ensures b[i] == [] {
          if i > 0 { assert b[i] == b[1..][i - 1]; }
        }
      }
      if forall i :: 0 <= i < |b| ==> b[i] == [] {
        assert b[0] == [];
        forall i | 0 <= i < |b[1..]| ensures b[1..][i] == [] {
          assert b[1..][i] == b[i + 1];
        }
      }
    }
  }

  lemma {:induction false} ElemsUpdate<E>(b: seq<seq<E>>, i: nat, c: seq<E>)
    requires i < |b|
    ensures Elems(b[i := c]) + multiset(b[i]) == Elems(b) + multiset(c)
  {
    if i == 0 {
      assert b[0 := c][1..] == b[1..];
    } else {
      var u := b[i := c];
      assert u[0] == b[0] && u[1..] == b[1..][i - 1 := c] && b[1..][i - 1] == b[i];
      ElemsUpdate(b[1..], i - 1, c);
      var h, x, y := multiset(b[0]), Elems(u[1..]), Elems(b[1..]);
      assert x + multiset(b[i]) == y + multiset(c);
      assert (h + x) + multiset(b[i]) == h + (y + multiset(c));
    }
  }

  lemma MultisetCancel<E>(a: multiset<E>, b: multiset<E>, c: multiset<E>)
    requires a + c == b + c
    ensures a == b
  {
    forall x ensures a[x] == b[x] {
      assert (a + c)[x] == (b + c)[x];
    }
  }

  lemma {:induction false} ElemsContain<E>(b: seq<seq<E>>, i: nat, e: E)
    requires i < |b| && e in b[i]
    ensures e in Elems(b)
  {
    if i != 0 {
      ElemsContain(b[1..], i - 1, e);
    }
  }

  lemma {:induction false} ElemsWitness<E>(b: seq<seq<E>>, e: E) returns (i: nat)
    requires e in Elems(b)
    ensures i < |b| && e in b[i]
  {
    if e in b[0] {
      i := 0;
    } else {
      var j := ElemsWitness(b[1..], e);
      i := j + 1;
    }
  }

  // ---------------------------------------------------------- the invariant

  ghost predicate SizeOk(n: nat) {
    exists k: nat :: 2 <= k <= MAX_LOG_SIZE && n == Pow2(k)
  }

  /** Every entry sits in the bucket its masked hash names. */
  ghost predicate Placed<K, V>(ty: DictType<K>, t: Table<K, V>) {
    forall i, e :: 0 <= i < |t.buckets| && e in t.buckets[i] ==> Slot(ty.hash(e.key), |t.buckets|) == i
  }

  ghost predicate TableOk<K, V>(ty: DictType<K>, t: Table<K, V>) {
    && (|t.buckets| == 0 || SizeOk(|t.buckets|))
    && t.used == Count(t.buckets)
    && Placed(ty, t)
  }

  ghost predicate KeysUnique<K, V>(ty: DictType<K>, m: multiset<Entry<K, V>>) {
    && (forall e :: e in m ==> m[e] == 1)
    && (forall e, f :: e in m && f in m && ty.eq(e.key, f.key) ==> e == f)
  }

  /** The entries of both tables. */
  ghost function All<K, V>(s: State<K, V>): multiset<Entry<K, V>> {
    Elems(s.ht0.buckets) + Elems(s.ht1.buckets)
  }

  /** The invariant without the bound that keeps `rehashidx` inside the old table. */
  ghost predicate Core<K, V>(ty: DictType<K>, s: State<K, V>) {
    && TableOk(ty, s.ht0)
    && TableOk(ty, s.ht1)
    && KeysUnique(ty, All(s))
    && (!s.Rehashing() ==> |s.ht1.buckets| == 0)
    && (s.Rehashing() ==>
          && |s.ht0.buckets| > 0
          && |s.ht1.buckets| > 0
          && 0 <= s.rehashidx <= |s.ht0.buckets|
          && forall i :: 0 <= i < s.rehashidx ==> s.ht0.buckets[i] == [])
  }

  ghost predicate Valid<K, V>(ty: DictType<K>, s: State<K, V>) {
    Core(ty, s) && s.rehashidx < |s.ht0.buckets| + (if s.Rehashing() then 0 else 1)
  }

  lemma SizeIsCard<K, V>(s: State<K, V>, ty: DictType<K>)
    requires Valid(ty, s)
    ensures s.Size() == |All(s)|
  {
    CountIsCard(s.ht0.buckets);
    CountIsCard(s.ht1.buckets);
  }

  lemma CreateValid<K, V>(ty: DictType<K>)
    ensures Valid(ty, Create<K, V>()) && All(Create<K, V>()) == multiset{}
  {
  }

  // ------------------------------------------------------- table updates

  /** Replacing one chain keeps a table sound if the new chain belongs there and is counted. */
  lemma SetBucketOk<K, V>(ty: DictType<K>, t: Table<K, V>, i: nat, c: seq<Entry<K, V>>)
    requires TableOk(ty, t) && i < |t.buckets|
    requires forall e :: e in c ==> Slot(ty.hash(e.key), |t.buckets|) == i
    ensures var t' := SetBucket(t, i, c, t.used - |t.buckets[i]| + |c|);
            && TableOk(ty, t') && |t'.buckets| == |t.buckets|
            && Elems(t'.buckets) + multiset(t.buckets[i]) == Elems(t.buckets) + multiset(c)
  {
    ElemsUpdate(t.buckets, i, c);
    CountUpdate(t.buckets, i, c);
  }

  lemma PushOk<K, V>(ty: DictType<K>, t: Table<K, V>, e: Entry<K, V>)
    requires TableOk(ty, t) && |t.buckets| > 0
    ensures var t' := Push(t, Slot(ty.hash(e.key), |t.buckets|), e);
            && TableOk(ty, t') && |t'.buckets| == |t.buckets|
            && Elems(t'.buckets) == Elems(t.buckets) + multiset{e}
  {
    var i := Slot(ty.hash(e.key), |t.buckets|);
    var c, t' := t.buckets[i], Push(t, i, e);
    SetBucketOk(ty, t, i, [e] + c);
    assert multiset([e] + c) == multiset{e} + multiset(c);
    assert Elems(t'.buckets) + multiset(c) == (Elems(t.buckets) + multiset{e}) + multiset(c);
    MultisetCancel(Elems(t'.buckets), Elems(t.buckets) + multiset{e}, multiset(c));
  }

  lemma {:induction false} MoveChainOk<K, V>(ty: DictType<K>, chain: seq<Entry<K, V>>, t: Table<K, V>)
    requires TableOk(ty, t) && |t.buckets| > 0
    ensures var t' := MoveChain(ty, chain, t);
            && TableOk(ty, t') && |t'.buckets| == |t.buckets|
            && Elems(t'.buckets) == Elems(t.buckets) + multiset(chain)
    decreases |chain|
  {
    if chain != [] {
      PushOk(ty, t, chain[0]);
      MoveChainOk(ty, chain[1..], Push(t, Slot(ty.hash(chain[0].key), |t.buckets|), chain[0]));
      assert chain == [chain[0]] + chain[1..];
    }
  }

  // ------------------------------------------------------------- rehashing

  lemma MoveBucketOk<K, V>(ty: DictType<K>, s: State<K, V>)
    requires Core(ty, s) && s.Rehashing() && s.rehashidx < |s.ht0.buckets|
    ensures var s' := MoveBucket(ty, s);
            && Core(ty, s') && All(s') == All(s)
            && |s'.ht0.buckets| == |s.ht0.buckets| && |s'.ht1.buckets| == |s.ht1.buckets|
            && s'.rehashidx == s.rehashidx + 1 && s'.iterators == s.iterators
  {
    hide TableOk, KeysUnique, Elems, MoveChain;
    var chain := s.ht0.buckets[s.rehashidx];
    MoveChainOk(ty, chain, s.ht1);
    SetBucketOk(ty, s.ht0, s.rehashidx, []);
    assert Elems(SetBucket(s.ht0, s.rehashidx, [], s.ht0.used - |chain|).buckets) + multiset(chain)
        == Elems(s.ht0.buckets);
    assert All(MoveBucket(ty, s)) == All(s);
  }

  /** While entries are left to move, a bucket that holds some lies ahead: the assert at line 252. */
  lemma RehashIndexInside<K, V>(ty: DictType<K>, s: State<K, V>)
    requires Core(ty, s) && s.Rehashing() && s.ht0.used != 0
    ensures 0 <= s.rehashidx < |s.ht0.buckets|
    ensures exists i :: s.rehashidx <= i < |s.ht0.buckets| && s.ht0.buckets[i] != []
  {
    CountZero(s.ht0.buckets);
  }

  /** What the rehash loop, given n buckets to move, establishes from s. */
  ghost predicate Rehashed<K, V>(ty: DictType<K>, s: State<K, V>, r: (State<K, V>, bool), n: nat) {
    && Valid(ty, r.0) && All(r.0) == All(s) && r.0.iterators == s.iterators
    && r.1 == r.0.Rehashing()
    && (r.1 ==> && r.0.rehashidx >= s.rehashidx + (if n > 0 then 1 else 0)
                && |r.0.ht0.buckets| == |s.ht0.buckets| && |r.0.ht1.buckets| == |s.ht1.buckets|)
    && (!r.1 ==> |r.0.ht0.buckets| == |s.ht1.buckets|)
  }

  lemma FinishOk<K, V>(ty: DictType<K>, s: State<K, V>, n: nat)
    requires Core(ty, s) && s.Rehashing() && (n == 0 || s.ht0.used == 0)
    ensures Rehashed(ty, s, Finish(s), n)
  {
    if s.ht0.used == 0 {
      CountZero(s.ht0.buckets);
      assert All(Finish(s).0) == All(s);
    } else {
      RehashIndexInside(ty, s);
    }
  }

  lemma SkipOk<K, V>(ty: DictType<K>, s: State<K, V>, n: nat)
    requires Core(ty, s) && s.Rehashing() && s.ht0.used != 0
    requires Bucket(s.ht0, s.rehashidx) == []
    ensures var s' := s.(rehashidx := s.rehashidx + 1);
            Core(ty, s') && All(s') == All(s) && Rehashed(ty, s, (s', true), n)
  {
    var s' := s.(rehashidx := s.rehashidx + 1);
    RehashIndexInside(ty, s);
    assert Core(ty, s');
    RehashIndexInside(ty, s');
  }

  lemma {:induction false} RehashLoopOk<K, V>(ty: DictType<K>, s: State<K, V>, n: nat, visits: int)
    requires Core(ty, s) && s.Rehashing()
    ensures Rehashed(ty, s, RehashLoop(ty, s, n, visits), n)
    decreases n, |s.ht0.buckets| - s.rehashidx
  {
    hide Core, Valid, All, Rehashed, Finish, MoveBucket;
    if n == 0 || s.ht0.used == 0 {
      FinishOk(ty, s, n);
    } else {
      RehashIndexInside(ty, s);
      if Bucket(s.ht0, s.rehashidx) == [] {
        var s' := s.(rehashidx := s.rehashidx + 1);
        SkipOk(ty, s, n);
        if visits - 1 != 0 {
          RehashLoopOk(ty, s', n, visits - 1);
          RehashedTrans(ty, s, s', RehashLoop(ty, s', n, visits - 1), n, n);
        }
      } else {
        var s' := MoveBucket(ty, s);
        MoveBucketOk(ty, s);
        RehashLoopOk(ty, s', n - 1, visits);
        RehashedTrans(ty, s, s', RehashLoop(ty, s', n - 1, visits), n, n - 1);
      }
    }
  }

  lemma RehashedTrans<K, V>(ty: DictType<K>, s: State<K, V>, s': State<K, V>, r: (State<K, V>, bool), n: nat, n': nat)
    requires Rehashed(ty, s', r, n')
    requires All(s') == All(s) && s'.iterators == s.iterators && s'.rehashidx == s.rehashidx + 1
    requires |s'.ht0.buckets| == |s.ht0.buckets| && |s'.ht1.buckets| == |s.ht1.buckets|
    ensures Rehashed(ty, s, r, n)
  {
  }

  /**
   dictRehash conserves the entries and the invariant, reports exactly whether
   work is left, and with n >= 1 either finishes or advances.
   */
  lemma RehashOk<K, V>(ty: DictType<K>, s: State<K, V>, n: nat)
    requires Valid(ty, s)
    ensures s.Rehashing() ==> Rehashed(ty, s, Rehash(ty, s, n), n)
    ensures !s.Rehashing() ==> Rehash(ty, s, n) == (s, false)
  {
    if s.Rehashing() {
      RehashLoopOk(ty, s, n, n * 10);
    }
  }

  function RehashCalls<K, V>(ty: DictType<K>, s: State<K, V>, n: nat, calls: nat): State<K, V>
    decreases calls
  {
    if calls == 0 then s else RehashCalls(ty, Rehash(ty, s, n).0, n, calls - 1)
  }

  /** As many calls as the old table has buckets left complete the rehash. */
  lemma {:induction false} RehashCompletes<K, V>(ty: DictType<K>, s: State<K, V>, n: nat, calls: nat)
    requires Valid(ty, s) && n >= 1
    requires s.Rehashing() ==> calls >= |s.ht0.buckets| - s.rehashidx
    ensures !RehashCalls(ty, s, n, calls).Rehashing()
    ensures All(RehashCalls(ty, s, n, calls)) == All(s)
    decreases calls
  {
    if calls != 0 {
      RehashOk(ty, s, n);
      RehashCompletes(ty, Rehash(ty, s, n).0, n, calls - 1);
    }
  }

  lemma StepOk<K, V>(ty: DictType<K>, s: State<K, V>)
    requires Valid(ty, s)
    ensures Step(ty, s).Size() == s.Size()
    ensures Valid(ty, Step(ty, s)) && All(Step(ty, s)) == All(s) && Step(ty, s).iterators == s.iterators
    ensures |s.ht0.buckets| > 0 ==> |Step(ty, s).ht0.buckets| > 0
  {
    if s.Rehashing() && s.iterators == 0 {
      RehashLoopOk(ty, s, 1, 10);
    }
    SizeIsCard(s, ty);
    SizeIsCard(Step(ty, s), ty);
  }

  // -------------------------------------------------------------- resizing

  lemma {:induction false} NextPowerFromOk(k: nat, size: nat)
    requires 2 <= k <= MAX_LOG_SIZE && size <= Pow2(MAX_LOG_SIZE)
    ensures SizeOk(NextPowerFrom(Pow2(k), size))
    ensures NextPowerFrom(Pow2(k), size) == Pow2(k) || NextPowerFrom(Pow2(k), size) < 2 * size
    decreases MAX_LOG_SIZE - k
  {
    if Pow2(k) < size {
      if k == MAX_LOG_SIZE { assert false; }
      assert Pow2(k) * 2 == Pow2(k + 1);
      NextPowerFromOk(k + 1, size);
    }
  }

  /** _dictNextPower gives the least table size that holds `size` entries. */
  lemma NextPowerOk(size: nat)
    requires size <= Pow2(MAX_LOG_SIZE)
    ensures SizeOk(NextPower(size)) && NextPower(size) >= size
    ensures NextPower(size) == INITIAL_SIZE || NextPower(size) < 2 * size
  {
    assert Pow2(2) == 4;
    MaxSizeFits();
    NextPowerFromOk(2, size);
  }

  lemma MaxSizeFits()
    ensures Pow2(MAX_LOG_SIZE) == 0x8000_0000
  {
    UpPow2(8, 8);
    UpPow2(16, 8);
    UpPow2(24, 7);
    assert Pow2(8) == 256;
    assert Up(256, 8) == 65536;
    assert Up(65536, 8) == 0x100_0000;
    assert Up(0x100_0000, 7) == 0x8000_0000;
  }

  lemma ExpandOk<K, V>(ty: DictType<K>, s: State<K, V>, size: nat)
    requires Valid(ty, s) && size <= Pow2(MAX_LOG_SIZE)
    ensures var (s', ok) := Expand(s, size);
            && Valid(ty, s') && All(s') == All(s) && s'.iterators == s.iterators
            && (ok ==> |s'.ht0.buckets| > 0)
  {
    hide TableOk, KeysUnique, Elems, SizeOk, NextPower, EmptyTable, Pow2;
    NextPowerOk(size);
    NewTableOk<K, V>(ty, NextPower(size));
    NoElems(s.ht0.buckets);
    NoElems(s.ht1.buckets);
  }

  lemma NewTableOk<K, V>(ty: DictType<K>, n: nat)
    requires SizeOk(n)
    ensures var t := EmptyTable<K, V>(n);
            && TableOk(ty, t) && Elems(t.buckets) == multiset{} && |t.buckets| == n > 0
            && forall i :: 0 <= i < n ==> t.buckets[i] == []
  {
    CountZero(EmptyTable<K, V>(n).buckets);
  }

  lemma NoElems<E>(b: seq<seq<E>>)
    ensures |b| == 0 ==> Elems(b) == multiset{}
  {
  }

  /** _dictExpandIfNeeded never fails and leaves a table to insert into. */
  lemma ExpandIfNeededOk<K, V>(ty: DictType<K>, s: State<K, V>, canResize: bool)
    requires Valid(ty, s) && GrowthFits(s, canResize)
    ensures var (s', ok) := ExpandIfNeeded(s, canResize);
            ok && Valid(ty, s') && All(s') == All(s) && s'.iterators == s.iterators && |s'.ht0.buckets| > 0
  {
    if !s.Rehashing() {
      if |s.ht0.buckets| == 0 {
        MaxSizeFits();
        ExpandOk(ty, s, INITIAL_SIZE);
        NextPowerOk(INITIAL_SIZE);
      } else if Full(s, canResize) {
        ExpandOk(ty, s, s.ht0.used * 2);
        NextPowerOk(s.ht0.used * 2);
      }
    }
  }

  // -------------------------------------------------- the map that is kept

  ghost predicate HasKey<K, V>(ty: DictType<K>, m: multiset<Entry<K, V>>, k: K) {
    exists e :: e in m && ty.eq(k, e.key)
  }

  ghost function EntryOf<K, V>(ty: DictType<K>, m: multiset<Entry<K, V>>, k: K): (e: Entry<K, V>)
    requires HasKey(ty, m, k)
    ensures e in m && ty.eq(k, e.key)
  {
    var e :| e in m && ty.eq(k, e.key);
    e
  }

  /** The value a map of entries gives a key. */
  ghost function Get<K, V>(ty: DictType<K>, m: multiset<Entry<K, V>>, k: K): Option<V> {
    if HasKey(ty, m, k) then Some(EntryOf(ty, m, k).val) else None
  }

  /** Insertion that does nothing when the key is there. */
  ghost function MapAdd<K, V>(ty: DictType<K>, m: multiset<Entry<K, V>>, k: K, v: V): multiset<Entry<K, V>> {
    if HasKey(ty, m, k) then m else m + multiset{Entry(k, v)}
  }

  /** Insertion that overwrites the value, but not the key, that is there. */
  ghost function MapReplace<K, V>(ty: DictType<K>, m: multiset<Entry<K, V>>, k: K, v: V): multiset<Entry<K, V>> {
    if HasKey(ty, m, k) then
      var e := EntryOf(ty, m, k);
      m - multiset{e} + multiset{Entry(e.key, v)}
    else m + multiset{Entry(k, v)}
  }

  ghost function MapDelete<K, V>(ty: DictType<K>, m: multiset<Entry<K, V>>, k: K): multiset<Entry<K, V>> {
    if HasKey(ty, m, k) then m - multiset{EntryOf(ty, m, k)} else m
  }

  lemma EntryUnique<K(!new), V>(ty: DictType<K>, m: multiset<Entry<K, V>>, k: K, e: Entry<K, V>)
    requires Lawful(ty) && KeysUnique(ty, m) && e in m && ty.eq(k, e.key)
    ensures HasKey(ty, m, k) && EntryOf(ty, m, k) == e
  {
    var f := EntryOf(ty, m, k);
    assert ty.eq(e.key, k) && ty.eq(k, f.key);
  }

  // ------------------------------------------------------------- searching

  lemma LocateInOk<K(!new), V>(ty: DictType<K>, s: State<K, V>, table: nat, k: K)
    requires Lawful(ty) && TableOk(ty, TableOf(s, table)) && table <= 1
    ensures var l := LocateIn(ty, s, table, k);
            && (l.Missing? <==> !HasKey(ty, Elems(TableOf(s, table).buckets), k))
            && (l.At? ==> && l.table == table && l.idx == Slot(ty.hash(k), |TableOf(s, table).buckets|)
                          && EntryAt(s, l).Some? && ty.eq(k, EntryAt(s, l).value.key)
                          && EntryAt(s, l).value in Elems(TableOf(s, table).buckets))
  {
    var t := TableOf(s, table);
    var l := LocateIn(ty, s, table, k);
    if l.At? {
      ElemsContain(t.buckets, l.idx, t.buckets[l.idx][l.pos]);
    }
    if HasKey(ty, Elems(t.buckets), k) {
      var e := EntryOf(ty, Elems(t.buckets), k);
      var i := ElemsWitness(t.buckets, e);
      assert Slot(ty.hash(k), |t.buckets|) == i;
    }
  }

  /** The search finds an entry exactly when one with an equal key is in either table. */
  lemma LocateOk<K(!new), V>(ty: DictType<K>, s: State<K, V>, k: K)
    requires Lawful(ty) && Valid(ty, s)
    ensures var l := Locate(ty, s, k);
            && (l.At? <==> HasKey(ty, All(s), k))
            && (l.At? ==> l.table <= 1 && EntryAt(s, l) == Some(EntryOf(ty, All(s), k)))
  {
    var l := Locate(ty, s, k);
    LocateInOk(ty, s, 0, k);
    LocateInOk(ty, s, 1, k);
    if l.At? {
      EntryUnique(ty, All(s), k, EntryAt(s, l).value);
    }
    if HasKey(ty, All(s), k) {
      var e := EntryOf(ty, All(s), k);
      assert e in Elems(s.ht0.buckets) || e in Elems(s.ht1.buckets);
    }
  }

  // ------------------------------------------------------ key operations

  lemma SetHt0Ok<K, V>(ty: DictType<K>, s: State<K, V>, i: nat, c: seq<Entry<K, V>>, m: multiset<Entry<K, V>>)
    requires Valid(ty, s) && i < |s.ht0.buckets| && s.ht0.buckets[i] != []
    requires forall e :: e in c ==> Slot(ty.hash(e.key), |s.ht0.buckets|) == i
    requires KeysUnique(ty, m) && m + multiset(s.ht0.buckets[i]) == All(s) + multiset(c)
    ensures var s' := s.(ht0 := SetBucket(s.ht0, i, c, s.ht0.used - |s.ht0.buckets[i]| + |c|));
            Valid(ty, s') && All(s') == m
  {
    var b := s.ht0.buckets[i];
    var t' := SetBucket(s.ht0, i, c, s.ht0.used - |b| + |c|);
    SetBucketOk(ty, s.ht0, i, c);
    RegroupElems(Elems(t'.buckets), Elems(s.ht0.buckets), Elems(s.ht1.buckets), multiset(b), multiset(c), m);
    assert All(s.(ht0 := t')) == m;
  }

  lemma SetHt1Ok<K, V>(ty: DictType<K>, s: State<K, V>, i: nat, c: seq<Entry<K, V>>, m: multiset<Entry<K, V>>)
    requires Valid(ty, s) && i < |s.ht1.buckets|
    requires forall e :: e in c ==> Slot(ty.hash(e.key), |s.ht1.buckets|) == i
    requires KeysUnique(ty, m) && m + multiset(s.ht1.buckets[i]) == All(s) + multiset(c)
    ensures var s' := s.(ht1 := SetBucket(s.ht1, i, c, s.ht1.used - |s.ht1.buckets[i]| + |c|));
            Valid(ty, s') && All(s') == m
  {
    var b := s.ht1.buckets[i];
    var t' := SetBucket(s.ht1, i, c, s.ht1.used - |b| + |c|);
    SetBucketOk(ty, s.ht1, i, c);
    RegroupElems(Elems(t'.buckets), Elems(s.ht1.buckets), Elems(s.ht0.buckets), multiset(b), multiset(c), m);
    assert All(s.(ht1 := t')) == m;
  }

  /** A chain rewritten in place, in either table. */
  lemma SetTableOk<K, V>(ty: DictType<K>, s: State<K, V>, l: Place, c: seq<Entry<K, V>>, m: multiset<Entry<K, V>>)
    requires Valid(ty, s) && l.At? && l.table <= 1 && EntryAt(s, l).Some?
    requires forall e :: e in c ==> Slot(ty.hash(e.key), |TableOf(s, l.table).buckets|) == l.idx
    requires KeysUnique(ty, m)
    requires m + multiset(Bucket(TableOf(s, l.table), l.idx)) == All(s) + multiset(c)
    ensures var t := TableOf(s, l.table);
            var s' := SetTable(s, l.table, SetBucket(t, l.idx, c, t.used - |Bucket(t, l.idx)| + |c|));
            Valid(ty, s') && All(s') == m
  {
    hide Valid, All, KeysUnique;
    if l.table == 0 {
      SetHt0Ok(ty, s, l.idx, c, m);
    } else {
      SetHt1Ok(ty, s, l.idx, c, m);
    }
  }

  lemma RegroupElems<E>(t': multiset<E>, t: multiset<E>, other: multiset<E>,
                        b: multiset<E>, c: multiset<E>, m: multiset<E>)
    requires t' + b == t + c
    requires m + b == (t + other) + c
    ensures t' + other == m
  {
    assert (t' + other) + b == (t' + b) + other == (t + other) + c;
    MultisetCancel(t' + other, m, b);
  }

  lemma RemovePlaceOk<K, V>(ty: DictType<K>, s: State<K, V>, l: Place)
    requires Valid(ty, s) && l.At? && l.table <= 1 && EntryAt(s, l).Some?
    ensures Valid(ty, RemovePlace(s, l))
    ensures All(RemovePlace(s, l)) == All(s) - multiset{EntryAt(s, l).value}
    ensures RemovePlace(s, l).iterators == s.iterators
  {
    hide Valid, All, KeysUnique, Without;
    var t := TableOf(s, l.table);
    var b := t.buckets[l.idx];
    var e, c := b[l.pos], Without(b, l.pos);
    WithoutOk(b, l.pos);
    ChainOk(ty, s, l, e);
    RemoveUnique(ty, All(s), e);
    RemoveArith(All(s), e, multiset(b), multiset(c));
    SetTableOk(ty, s, l, c, All(s) - multiset{e});
  }

  /** Every entry of a chain is in the dict, hashes to that chain, and has its own key. */
  lemma ChainOk<K, V>(ty: DictType<K>, s: State<K, V>, l: Place, e: Entry<K, V>)
    requires Valid(ty, s) && l.At? && l.table <= 1 && EntryAt(s, l) == Some(e)
    ensures forall f :: f in Bucket(TableOf(s, l.table), l.idx) ==>
                          Slot(ty.hash(f.key), |TableOf(s, l.table).buckets|) == l.idx
    ensures e in All(s) && KeysUnique(ty, All(s))
  {
    ElemsContain(TableOf(s, l.table).buckets, l.idx, e);
  }

  lemma WithoutOk<E>(b: seq<E>, p: nat)
    requires p < |b|
    ensures |Without(b, p)| == |b| - 1
    ensures multiset(b) == multiset(Without(b, p)) + multiset{b[p]}
    ensures forall e :: e in Without(b, p) ==> e in b
  {
    assert b == b[..p] + [b[p]] + b[p + 1..];
  }

  lemma RemoveUnique<K, V>(ty: DictType<K>, m: multiset<Entry<K, V>>, e: Entry<K, V>)
    requires KeysUnique(ty, m)
    ensures KeysUnique(ty, m - multiset{e})
  {
  }

  lemma RemoveArith<E>(m: multiset<E>, e: E, b: multiset<E>, c: multiset<E>)
    requires e in m && b == c + multiset{e}
    ensures (m - multiset{e}) + b == m + c
  {
  }

  lemma ChainWith<E>(b: seq<E>, p: nat, e: E)
    requires p < |b|
    ensures multiset(b) + multiset{e} == multiset(b[p := e]) + multiset{b[p]}
  {
    WithoutOk(b, p);
    WithoutOk(b[p := e], p);
    assert Without(b[p := e], p) == Without(b, p);
  }

  lemma SetValueOk<K(!new), V>(ty: DictType<K>, s: State<K, V>, l: Place, v: V)
    requires Lawful(ty) && Valid(ty, s) && l.At? && l.table <= 1 && EntryAt(s, l).Some?
    ensures var e := EntryAt(s, l).value;
            && Valid(ty, SetValue(s, l, v))
            && All(SetValue(s, l, v)) == All(s) - multiset{e} + multiset{Entry(e.key, v)}
  {
    hide Valid, All, KeysUnique;
    var t := TableOf(s, l.table);
    var b := t.buckets[l.idx];
    var e, e' := b[l.pos], Entry(b[l.pos].key, v);
    ChainWith(b, l.pos, e');
    ChainOk(ty, s, l, e);
    SwapUnique(ty, All(s), e, v);
    SwapArith(All(s), e, e', multiset(b), multiset(b[l.pos := e']));
    SetTableOk(ty, s, l, b[l.pos := e'], All(s) - multiset{e} + multiset{e'});
  }

  lemma SwapArith<E>(m: multiset<E>, e: E, e': E, b: multiset<E>, c: multiset<E>)
    requires e in m && b + multiset{e'} == c + multiset{e}
    ensures (m - multiset{e} + multiset{e'}) + b == m + c
  {
    assert m == (m - multiset{e}) + multiset{e};
    assert (m - multiset{e} + multiset{e'}) + b == (m - multiset{e}) + (b + multiset{e'});
  }

  lemma SwapUnique<K(!new), V>(ty: DictType<K>, m: multiset<Entry<K, V>>, e: Entry<K, V>, v: V)
    requires Lawful(ty) && KeysUnique(ty, m) && e in m
    ensures KeysUnique(ty, m - multiset{e} + multiset{Entry(e.key, v)})
  {
    var e' := Entry(e.key, v);
    assert e !in m - multiset{e};
    assert ty.eq(e.key, e'.key);
  }

  /** dictAdd acts on the map, and reports whether it inserted. */
  lemma AddOk<K(!new), V>(ty: DictType<K>, s: State<K, V>, canResize: bool, k: K, v: V)
    requires Lawful(ty) && Valid(ty, s) && GrowthFits(Step(ty, s), canResize)
    ensures var (s', added) := Add(ty, s, canResize, k, v);
            && Valid(ty, s') && s'.iterators == s.iterators && |s'.ht0.buckets| > 0
            && All(s') == MapAdd(ty, All(s), k, v)
            && added == !HasKey(ty, All(s), k)
  {
    StepOk(ty, s);
    ExpandIfNeededOk(ty, Step(ty, s), canResize);
    var s1 := ExpandIfNeeded(Step(ty, s), canResize).0;
    LocateOk(ty, s1, k);
    if !HasKey(ty, All(s), k) {
      InsertOk(ty, s1, k, v);
    }
  }

  lemma InsertOk<K(!new), V>(ty: DictType<K>, s: State<K, V>, k: K, v: V)
    requires Lawful(ty) && Valid(ty, s) && |s.ht0.buckets| > 0 && !HasKey(ty, All(s), k)
    ensures Valid(ty, Insert(ty, s, k, v))
    ensures All(Insert(ty, s, k, v)) == All(s) + multiset{Entry(k, v)}
  {
    hide TableOk, KeysUnique, Elems, HasKey, Slot, Lawful;
    var e := Entry(k, v);
    PushOk(ty, if s.Rehashing() then s.ht1 else s.ht0, e);
    var s' := Insert(ty, s, k, v);
    assert All(s') == All(s) + multiset{e};
    InsertUnique(ty, All(s), e);
  }

  /** What has been added is the first entry of its chain, in the table that is being filled. */
  lemma AddedFirst<K(!new), V>(ty: DictType<K>, s: State<K, V>, canResize: bool, k: K, v: V)
    requires Lawful(ty) && Valid(ty, s) && GrowthFits(Step(ty, s), canResize)
    ensures var (s', added) := Add(ty, s, canResize, k, v);
            var t := if s'.Rehashing() then 1 else 0;
            var i := Slot(ty.hash(k), |TableOf(s', t).buckets|);
            added ==> Locate(ty, s', k) == At(t, i, 0) && Bucket(TableOf(s', t), i)[0] == Entry(k, v)
  {
    StepOk(ty, s);
    ExpandIfNeededOk(ty, Step(ty, s), canResize);
    var s1 := ExpandIfNeeded(Step(ty, s), canResize).0;
    hide Valid, Step, ExpandIfNeeded, Slot;
    if Locate(ty, s1, k).Missing? {
      InsertFirst(ty, s1, k, v);
    }
  }

  lemma InsertFirst<K(!new), V>(ty: DictType<K>, s: State<K, V>, k: K, v: V)
    requires Lawful(ty) && Valid(ty, s) && |s.ht0.buckets| > 0 && Locate(ty, s, k).Missing?
    ensures var s' := Insert(ty, s, k, v);
            var t := if s'.Rehashing() then 1 else 0;
            var i := Slot(ty.hash(k), |TableOf(s', t).buckets|);
            Locate(ty, s', k) == At(t, i, 0) && |Bucket(TableOf(s', t), i)| > 0
            && Bucket(TableOf(s', t), i)[0] == Entry(k, v)
  {
    hide Slot, Valid, Lawful, All;
    assert ty.eq(k, k) by { LawfulSame(ty, k); }
    FilledTable(ty, s);
  }

  lemma LawfulSame<K(!new)>(ty: DictType<K>, k: K)
    requires Lawful(ty)
    ensures ty.eq(k, k)
  {
  }

  lemma FilledTable<K, V>(ty: DictType<K>, s: State<K, V>)
    requires Valid(ty, s) && |s.ht0.buckets| > 0
    ensures |(if s.Rehashing() then s.ht1 else s.ht0).buckets| > 0
  {
  }

  lemma InsertUnique<K(!new), V>(ty: DictType<K>, m: multiset<Entry<K, V>>, e: Entry<K, V>)
    requires Lawful(ty) && KeysUnique(ty, m) && !HasKey(ty, m, e.key)
    ensures KeysUnique(ty, m + multiset{e})
  {
    assert e in m ==> ty.eq(e.key, e.key) && HasKey(ty, m, e.key);
  }

  /** dictFind returns the entry of the key if there is one, and leaves the map alone. */
  lemma FindOk<K(!new), V>(ty: DictType<K>, s: State<K, V>, k: K)
    requires Lawful(ty) && Valid(ty, s)
    ensures var (s', l) := Find(ty, s, k);
            && Valid(ty, s') && All(s') == All(s) && s'.iterators == s.iterators
            && (l.At? <==> HasKey(ty, All(s), k))
            && (l.At? ==> l.table <= 1 && EntryAt(s', l) == Some(EntryOf(ty, All(s), k)))
  {
    if |s.ht0.buckets| > 0 {
      StepOk(ty, s);
      LocateOk(ty, Step(ty, s), k);
    }
  }

  lemma ReplaceOk<K(!new), V>(ty: DictType<K>, s: State<K, V>, canResize: bool, k: K, v: V)
    requires Lawful(ty) && Valid(ty, s) && GrowthFits(Step(ty, s), canResize)
    ensures var (s', added) := Replace(ty, s, canResize, k, v);
            && Valid(ty, s') && s'.iterators == s.iterators
            && All(s') == MapReplace(ty, All(s), k, v)
            && added == !HasKey(ty, All(s), k)
  {
    hide Valid, All, HasKey, Add, Find, Lawful, EntryAt;
    AddOk(ty, s, canResize, k, v);
    var (s1, added) := Add(ty, s, canResize, k, v);
    if !added {
      FindOk(ty, s1, k);
      var (s2, l) := Find(ty, s1, k);
      SetValueOk(ty, s2, l, v);
    }
  }

  lemma DeleteOk<K(!new), V>(ty: DictType<K>, s: State<K, V>, k: K)
    requires Lawful(ty) && Valid(ty, s)
    ensures var (s', removed) := Delete(ty, s, k);
            && Valid(ty, s') && s'.iterators == s.iterators
            && All(s') == MapDelete(ty, All(s), k)
            && removed == HasKey(ty, All(s), k)
  {
    hide Valid, Lawful, Locate, Step, RemovePlace, All, HasKey, EntryAt;
    if |s.ht0.buckets| > 0 {
      StepOk(ty, s);
      var s1 := Step(ty, s);
      LocateOk(ty, s1, k);
      if Locate(ty, s1, k).At? {
        RemovePlaceOk(ty, s1, Locate(ty, s1, k));
      } else {
        RemoveMissing(s1);
      }
    } else {
      NoEntries(ty, s, k);
    }
  }

  lemma RemoveMissing<K, V>(s: State<K, V>)
    ensures RemovePlace(s, Missing) == s
  {
  }

  lemma NoEntries<K, V>(ty: DictType<K>, s: State<K, V>, k: K)
    requires Valid(ty, s) && |s.ht0.buckets| == 0
    ensures !HasKey(ty, All(s), k)
  {
  }

  // -------------------------------------------------------------- map laws

  /** What a key maps to afterwards, for the three operations that change the map. */
  lemma MapLaws<K(!new), V>(ty: DictType<K>, m: multiset<Entry<K, V>>, k: K, v: V, q: K)
    requires Lawful(ty) && KeysUnique(ty, m)
    ensures Get(ty, MapAdd(ty, m, k, v), q) ==
            if ty.eq(k, q) && !HasKey(ty, m, k) then Some(v) else Get(ty, m, q)
    ensures Get(ty, MapReplace(ty, m, k, v), q) == if ty.eq(k, q) then Some(v) else Get(ty, m, q)
    ensures Get(ty, MapDelete(ty, m, k), q) == if ty.eq(k, q) then None else Get(ty, m, q)
  {
    AddLaw(ty, m, k, v, q);
    DeleteLaw(ty, m, k, q);
    ReplaceLaw(ty, m, k, v, q);
  }

  lemma GetIs<K(!new), V>(ty: DictType<K>, m: multiset<Entry<K, V>>, q: K, e: Entry<K, V>)
    requires Lawful(ty) && KeysUnique(ty, m) && e in m && ty.eq(q, e.key)
    ensures Get(ty, m, q) == Some(e.val)
  {
    EntryUnique(ty, m, q, e);
  }

  lemma AddLaw<K(!new), V>(ty: DictType<K>, m: multiset<Entry<K, V>>, k: K, v: V, q: K)
    requires Lawful(ty) && KeysUnique(ty, m)
    ensures Get(ty, MapAdd(ty, m, k, v), q) ==
            if ty.eq(k, q) && !HasKey(ty, m, k) then Some(v) else Get(ty, m, q)
  {
    if !HasKey(ty, m, k) {
      var m' := MapAdd(ty, m, k, v);
      assert KeysUnique(ty, m');
      if ty.eq(k, q) {
        GetIs(ty, m', q, Entry(k, v));
      } else if HasKey(ty, m, q) {
        GetIs(ty, m', q, EntryOf(ty, m, q));
      }
    }
  }

  lemma DeleteLaw<K(!new), V>(ty: DictType<K>, m: multiset<Entry<K, V>>, k: K, q: K)
    requires Lawful(ty) && KeysUnique(ty, m)
    ensures Get(ty, MapDelete(ty, m, k), q) == if ty.eq(k, q) then None else Get(ty, m, q)
  {
    var m' := MapDelete(ty, m, k);
    if HasKey(ty, m', q) {
      GetIs(ty, m, q, EntryOf(ty, m', q));
    }
    if HasKey(ty, m, q) {
      var e := EntryOf(ty, m, q);
      if ty.eq(k, q) {
        EntryUnique(ty, m, k, e);
      } else {
        assert e in m';
        GetIs(ty, m', q, e);
      }
    }
  }

  lemma ReplaceLaw<K(!new), V>(ty: DictType<K>, m: multiset<Entry<K, V>>, k: K, v: V, q: K)
    requires Lawful(ty) && KeysUnique(ty, m)
    ensures Get(ty, MapReplace(ty, m, k, v), q) == if ty.eq(k, q) then Some(v) else Get(ty, m, q)
  {
    if !HasKey(ty, m, k) {
      AddLaw(ty, m, k, v, q);
    } else {
      var e, m' := EntryOf(ty, m, k), MapReplace(ty, m, k, v);
      SwapUnique(ty, m, e, v);
      if ty.eq(k, q) {
        GetIs(ty, m', q, Entry(e.key, v));
      } else if HasKey(ty, m, q) {
        GetIs(ty, m', q, EntryOf(ty, m, q));
      }
    }
  }
}
