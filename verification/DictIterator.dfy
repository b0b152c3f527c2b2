/**
 The safe iterator of dict.c, and why it returns every key that stays exactly once.
 */
module DictIterator {
  import opened Common
  import opened DictSpec
  import opened DictInvariant
  import opened DictRuns

  /**
   A dictIterator. Its two entry pointers are named by the keys they point to,
   which are unique in the dict.
   */
  datatype Iter<K> = Iter(table: nat, index: int, entry: Option<K>, nextEntry: Option<K>)

  /** dictGetSafeIterator */
  function Fresh<K>(): Iter<K> { Iter(0, -1, None, None) }

  function KeyAt<K, V>(chain: seq<Entry<K, V>>, p: nat): Option<K> {
    if p < |chain| then Some(chain[p].key) else None
  }

  /** The chain the iterator stands in. */
  function Here<K, V>(s: State<K, V>, it: Iter<K>): seq<Entry<K, V>> {
    Bucket(TableOf(s, it.table), it.index)
  }

  /** The loop of dictNext. */
  function NextFrom<K, V>(ty: DictType<K>, s: State<K, V>, it: Iter<K>): (Iter<K>, Option<Entry<K, V>>)
    decreases if it.table == 0 then 1 else 0, |TableOf(s, it.table).buckets| - it.index, if it.entry.Some? then 1 else 0
  {
    if it.entry.None? then
      var i := it.index + 1;
      if i >= |TableOf(s, it.table).buckets| then
        if s.Rehashing() && it.table == 0 then Enter(ty, s, it, Iter(1, 0, None, None))
        else (it.(index := i), None)
      else Enter(ty, s, it, Iter(it.table, i, None, None))
    else if it.nextEntry.None? then NextFrom(ty, s, it.(entry := None))
    else
      var p := FindIn(ty, Here(s, it), it.nextEntry.value);
      if p < |Here(s, it)|
      then (it.(entry := it.nextEntry, nextEntry := KeyAt(Here(s, it), p + 1)), Some(Here(s, it)[p]))
      else (it, None)
  }

  /** Go to the head of the chain at `to`; on to the next chain if it is empty. */
  function Enter<K, V>(ty: DictType<K>, s: State<K, V>, from: Iter<K>, to: Iter<K>): (Iter<K>, Option<Entry<K, V>>)
    requires to.entry.None?
    requires to.table == from.table || (from.table == 0 && to.table == 1)
    requires to.table == from.table ==> from.index < to.index <= |TableOf(s, to.table).buckets|
    requires from.entry.None?
    decreases if from.table == 0 then 1 else 0, |TableOf(s, from.table).buckets| - from.index, 0, 0
  {
    var chain := Here(s, to);
    if chain == [] then NextFrom(ty, s, to)
    else (to.(entry := KeyAt(chain, 0), nextEntry := KeyAt(chain, 1)), Some(chain[0]))
  }

  /** dictNext: the first call registers the iterator with the dict. */
  function Next<K, V>(ty: DictType<K>, s: State<K, V>, it: Iter<K>): (State<K, V>, Iter<K>, Option<Entry<K, V>>) {
    var s' := if it.index == -1 && it.table == 0 then s.(iterators := s.iterators + 1) else s;
    var (it', r) := NextFrom(ty, s', it);
    (s', it', r)
  }

  // ---------------------------------------------------- what is still to come

  /** The saved next entry is in the iterator's chain. */
  ghost predicate IterOk<K, V>(ty: DictType<K>, s: State<K, V>, it: Iter<K>) {
    && it.table <= 1 && it.index >= -1
    && (it.table == 1 ==> s.Rehashing() && it.index >= 0)
    && (it.entry.None? ==> it.nextEntry.None?)
    && (it.index == -1 ==> it.entry.None?)
    && (it.nextEntry.Some? ==> FindIn(ty, Here(s, it), it.nextEntry.value) < |Here(s, it)|)
  }

  /** The iterator has been started and is registered with the dict. */
  ghost predicate Live<K, V>(ty: DictType<K>, s: State<K, V>, it: Iter<K>) {
    IterOk(ty, s, it) && s.iterators > 0 && (it.index >= 0 || it.table == 1)
  }

  ghost predicate AheadOf<K, V>(ty: DictType<K>, s: State<K, V>, it: Iter<K>, l: Place) {
    && l.At?
    && (l.table > it.table
        || (l.table == it.table && l.idx > it.index)
        || (l.table == it.table && l.idx == it.index && it.nextEntry.Some?
            && l.pos >= FindIn(ty, Here(s, it), it.nextEntry.value)))
  }

  /** The key is in the dict and the iterator has still to come to it. */
  ghost predicate Pending<K, V>(ty: DictType<K>, s: State<K, V>, it: Iter<K>, q: K) {
    AheadOf(ty, s, it, Locate(ty, s, q))
  }

  /** In a chain no key occurs twice. */
  lemma ChainDistinct<K(!new), V>(ty: DictType<K>, s: State<K, V>, t: nat, i: nat, p: nat, r: nat)
    requires Lawful(ty) && Valid(ty, s) && t <= 1 && i < |TableOf(s, t).buckets|
    requires p < |TableOf(s, t).buckets[i]| && r < |TableOf(s, t).buckets[i]|
    requires ty.eq(TableOf(s, t).buckets[i][p].key, TableOf(s, t).buckets[i][r].key)
    ensures p == r
  {
    var b := TableOf(s, t).buckets;
    ElemsContain(b, i, b[i][p]);
    ElemsContain(b, i, b[i][r]);
    assert b[i][p] in All(s) && b[i][r] in All(s);
    ChainInElems(b, i);
    assert multiset(b[i]) <= All(s);
    if p != r {
      TwiceInSeq(b[i], p, r);
    }
  }

  lemma {:induction false} ChainInElems<E>(b: seq<seq<E>>, i: nat)
    requires i < |b|
    ensures multiset(b[i]) <= Elems(b)
  {
    if i > 0 {
      ChainInElems(b[1..], i - 1);
    }
  }

  lemma TwiceInSeq<E>(c: seq<E>, p: nat, r: nat)
    requires p < |c| && r < |c| && p != r && c[p] == c[r]
    ensures multiset(c)[c[p]] >= 2
  {
    var lo, hi := if p < r then p else r, if p < r then r else p;
    assert c == c[..lo] + [c[lo]] + c[lo + 1..hi] + [c[hi]] + c[hi + 1..];
  }

  /** The search for the key of the entry at a place ends at that place. */
  lemma LocateAt<K(!new), V>(ty: DictType<K>, s: State<K, V>, t: nat, i: nat, p: nat, q: K)
    requires Lawful(ty) && Valid(ty, s) && t <= 1 && i < |TableOf(s, t).buckets|
    requires p < |TableOf(s, t).buckets[i]| && ty.eq(q, TableOf(s, t).buckets[i][p].key)
    ensures Locate(ty, s, q) == At(t, i, p)
    ensures FindIn(ty, TableOf(s, t).buckets[i], q) == p
  {
    var e := TableOf(s, t).buckets[i][p];
    ElemsContain(TableOf(s, t).buckets, i, e);
    LocateOk(ty, s, q);
    EntryUnique(ty, All(s), q, e);
    assert Slot(ty.hash(q), |TableOf(s, t).buckets|) == i;
    var p' := FindIn(ty, TableOf(s, t).buckets[i], q);
    ChainDistinct(ty, s, t, i, p', p);
    if t == 1 {
      LocateInOk(ty, s, 0, q);
      forall f | f in Elems(s.ht0.buckets) ensures !ty.eq(q, f.key) {
        NotInBoth(ty, s, f, e);
      }
    }
  }

  lemma LocateSound<K, V>(ty: DictType<K>, s: State<K, V>, q: K)
    ensures var l := Locate(ty, s, q);
            l.At? ==> l.table <= 1 && l.pos < |Bucket(TableOf(s, l.table), l.idx)|
                      && ty.eq(q, Bucket(TableOf(s, l.table), l.idx)[l.pos].key)
  {
  }

  lemma NotInBoth<K(!new), V>(ty: DictType<K>, s: State<K, V>, e: Entry<K, V>, f: Entry<K, V>)
    requires Lawful(ty) && Valid(ty, s) && e in Elems(s.ht0.buckets) && f in Elems(s.ht1.buckets)
    ensures !ty.eq(e.key, f.key)
  {
    assert e in All(s) && f in All(s);
    assert e == f ==> All(s)[e] >= 2;
  }

  // ----------------------------------------------------------------- one call

  /** What dictNext does to what is still to come. */
  ghost predicate Stepped<K, V>(ty: DictType<K>, s: State<K, V>, it: Iter<K>, r: (Iter<K>, Option<Entry<K, V>>), q: K) {
    && IterOk(ty, s, r.0)
    && (r.1.None? ==> !Pending(ty, s, it, q))
    && (r.1.Some? ==>
          && r.0.entry.Some? && (r.0.index >= 0 || r.0.table == 1)
          && (ty.eq(q, r.1.value.key) ==> Pending(ty, s, it, q) && !Pending(ty, s, r.0, q))
          && (!ty.eq(q, r.1.value.key) ==> (Pending(ty, s, it, q) <==> Pending(ty, s, r.0, q))))
  }

  lemma {:induction false} NextFromOk<K(!new), V>(ty: DictType<K>, s: State<K, V>, it: Iter<K>, q: K)
    requires Lawful(ty) && Valid(ty, s) && IterOk(ty, s, it)
    ensures Stepped(ty, s, it, NextFrom(ty, s, it), q)
    decreases if it.table == 0 then 1 else 0, |TableOf(s, it.table).buckets| - it.index, if it.entry.Some? then 1 else 0
  {
    hide Valid, FindIn;
    if it.entry.None? {
      var i := it.index + 1;
      if i >= |TableOf(s, it.table).buckets| {
        if s.Rehashing() && it.table == 0 {
          EnterOk(ty, s, it, Iter(1, 0, None, None), q);
        } else {
          NothingLeft(ty, s, it, q);
        }
      } else {
        EnterOk(ty, s, it, Iter(it.table, i, None, None), q);
      }
    } else if it.nextEntry.None? {
      NextFromOk(ty, s, it.(entry := None), q);
    } else {
      FollowOk(ty, s, it, q);
    }
  }

  lemma NothingLeft<K(!new), V>(ty: DictType<K>, s: State<K, V>, it: Iter<K>, q: K)
    requires Valid(ty, s) && IterOk(ty, s, it) && it.entry.None?
    requires it.index + 1 >= |TableOf(s, it.table).buckets| && (!s.Rehashing() || it.table == 1)
    ensures !Pending(ty, s, it, q)
  {
  }

  /** Following the saved pointer inside a chain. */
  lemma FollowOk<K(!new), V>(ty: DictType<K>, s: State<K, V>, it: Iter<K>, q: K)
    requires Lawful(ty) && Valid(ty, s) && IterOk(ty, s, it) && it.entry.Some? && it.nextEntry.Some?
    ensures Stepped(ty, s, it, NextFrom(ty, s, it), q)
  {
    hide Valid, Locate, FindIn;
    var chain := Here(s, it);
    var p := FindIn(ty, chain, it.nextEntry.value);
    assert NextFrom(ty, s, it) ==
           (it.(entry := it.nextEntry, nextEntry := KeyAt(chain, p + 1)), Some(chain[p]));
    hide NextFrom;
    LocateSound(ty, s, q);
    LocateAt(ty, s, it.table, it.index, p, chain[p].key);
    if p + 1 < |chain| {
      LocateAt(ty, s, it.table, it.index, p + 1, chain[p + 1].key);
    }
    if ty.eq(q, chain[p].key) {
      LocateAt(ty, s, it.table, it.index, p, q);
    }
  }

  /** Going to the head of the next chain, or past it if it is empty. */
  lemma {:induction false} EnterOk<K(!new), V>(ty: DictType<K>, s: State<K, V>, it: Iter<K>, to: Iter<K>, q: K)
    requires Lawful(ty) && Valid(ty, s) && IterOk(ty, s, it) && it.entry.None?
    requires to.entry.None? && to.nextEntry.None? && to.table <= 1
    requires || (to.table == it.table && to.index == it.index + 1 && to.index < |TableOf(s, to.table).buckets|)
             || (it.table == 0 && to.table == 1 && to.index == 0 && s.Rehashing()
                 && it.index + 1 >= |TableOf(s, 0).buckets|)
    ensures Stepped(ty, s, it, Enter(ty, s, it, to), q)
    decreases if it.table == 0 then 1 else 0, |TableOf(s, it.table).buckets| - it.index, 0, 0
  {
    hide Valid, Locate, FindIn, NextFrom;
    var chain := Here(s, to);
    LocateSound(ty, s, q);
    if chain == [] {
      NextFromOk(ty, s, to, q);
    } else {
      LocateAt(ty, s, to.table, to.index, 0, chain[0].key);
      if |chain| > 1 {
        LocateAt(ty, s, to.table, to.index, 1, chain[1].key);
      }
      if ty.eq(q, chain[0].key) {
        LocateAt(ty, s, to.table, to.index, 0, q);
      }
    }
  }

  /** The count of iterators has no part in the invariant. */
  lemma RegisterOk<K, V>(ty: DictType<K>, s: State<K, V>)
    requires Valid(ty, s)
    ensures var s1 := s.(iterators := s.iterators + 1); Valid(ty, s1) && All(s1) == All(s)
  {
  }

  lemma FreshOk<K, V>(ty: DictType<K>, s: State<K, V>)
    ensures IterOk(ty, s, Fresh())
  {
  }

  /** The first call of a fresh iterator, and every later one. */
  lemma NextOk<K(!new), V>(ty: DictType<K>, s: State<K, V>, it: Iter<K>, q: K)
    requires Lawful(ty) && Valid(ty, s) && (it == Fresh() || Live(ty, s, it))
    ensures var (s', it', r) := Next(ty, s, it);
            && Valid(ty, s') && All(s') == All(s) && (r.Some? ==> Live(ty, s', it'))
            && Stepped(ty, s', it, (it', r), q)
  {
    hide Lawful, Valid, All, NextFrom, Here, TableOf, Pending, KeyAt, FindIn;
    var s1 := if it.index == -1 && it.table == 0 then s.(iterators := s.iterators + 1) else s;
    RegisterOk(ty, s);
    FreshOk(ty, s1);
    NextFromOk(ty, s1, it, q);
  }

  lemma FreshPending<K(!new), V>(ty: DictType<K>, s: State<K, V>, q: K)
    requires Lawful(ty) && Valid(ty, s) && HasKey(ty, All(s), q)
    ensures Pending(ty, s, Fresh(), q)
  {
    LocateOk(ty, s, q);
  }

  // ------------------------------------------------ operations between calls

  /** While a safe iterator is live no operation moves entries. */
  lemma NoStep<K, V>(ty: DictType<K>, s: State<K, V>)
    requires s.iterators > 0
    ensures Step(ty, s) == s
  {
  }

  /** So does dictExpand, to a larger table or to a smaller one. */
  lemma ExplicitExpandPending<K(!new), V>(ty: DictType<K>, s: State<K, V>, it: Iter<K>, size: nat, q: K)
    requires Lawful(ty) && Valid(ty, s) && Live(ty, s, it) && HasKey(ty, All(s), q)
    ensures var s' := Expand(s, size).0;
            Live(ty, s', it) && Locate(ty, s', q) == Locate(ty, s, q)
            && (Pending(ty, s', it, q) <==> Pending(ty, s, it, q))
  {
    SizeIsCard(s, ty);
    assert EntryOf(ty, All(s), q) in All(s);
    if |s.ht0.buckets| == 0 {
      CountZero(s.ht0.buckets);
    }
    var s' := Expand(s, size).0;
    assert s'.ht0 == s.ht0;
    LocateOk(ty, s, q);
  }

  lemma ResizePending<K(!new), V>(ty: DictType<K>, s: State<K, V>, it: Iter<K>, canResize: bool, q: K)
    requires Lawful(ty) && Valid(ty, s) && Live(ty, s, it) && HasKey(ty, All(s), q)
    ensures var s' := Resize(s, canResize).0;
            Live(ty, s', it) && (Pending(ty, s', it, q) <==> Pending(ty, s, it, q))
  {
    hide Valid, Live, Lawful, All, HasKey, Pending, Expand;
    ExplicitExpandPending(ty, s, it, INITIAL_SIZE, q);
    if s.ht0.used >= 0 {
      ExplicitExpandPending(ty, s, it, s.ht0.used, q);
    }
  }

  /** Starting to expand leaves every chain of the old table where it is. */
  lemma ExpandPending<K(!new), V>(ty: DictType<K>, s: State<K, V>, it: Iter<K>, canResize: bool, q: K)
    requires Lawful(ty) && Valid(ty, s) && Live(ty, s, it) && HasKey(ty, All(s), q)
    requires GrowthFits(s, canResize)
    ensures var s' := ExpandIfNeeded(s, canResize).0;
            Live(ty, s', it) && Locate(ty, s', q) == Locate(ty, s, q)
            && (Pending(ty, s', it, q) <==> Pending(ty, s, it, q))
  {
    SizeIsCard(s, ty);
    assert EntryOf(ty, All(s), q) in All(s);
    if |s.ht0.buckets| == 0 {
      CountZero(s.ht0.buckets);
    }
    var s' := ExpandIfNeeded(s, canResize).0;
    assert s'.ht0 == s.ht0;
    LocateOk(ty, s, q);
  }

  /** A new entry at the head of a chain hides nothing that is still to come. */
  lemma PushFind<K(!new), V>(ty: DictType<K>, chain: seq<Entry<K, V>>, e: Entry<K, V>, q: K)
    requires !ty.eq(q, e.key)
    ensures FindIn(ty, [e] + chain, q) == 1 + FindIn(ty, chain, q)
  {
    assert ([e] + chain)[1..] == chain;
  }

  lemma PushBucket<K(!new), V>(ty: DictType<K>, t: Table<K, V>, i: nat, e: Entry<K, V>, j: int, q: K)
    requires !ty.eq(q, e.key) && i < |t.buckets|
    ensures |Bucket(Push(t, i, e), j)| == |Bucket(t, j)| + (if i == j then 1 else 0)
    ensures FindIn(ty, Bucket(Push(t, i, e), j), q) == FindIn(ty, Bucket(t, j), q) + (if i == j then 1 else 0)
  {
    PushFind(ty, Bucket(t, i), e, q);
  }

  lemma InsertLocate<K(!new), V>(ty: DictType<K>, s: State<K, V>, k: K, v: V, q: K)
    requires Lawful(ty) && Valid(ty, s) && |s.ht0.buckets| > 0
    requires !HasKey(ty, All(s), k) && HasKey(ty, All(s), q)
    ensures !ty.eq(q, k)
    ensures var l, l' := Locate(ty, s, q), Locate(ty, Insert(ty, s, k, v), q);
            var t := if s.Rehashing() then 1 else 0;
            var i := Slot(ty.hash(k), |(if s.Rehashing() then s.ht1 else s.ht0).buckets|);
            && l.At?
            && l' == (if l.table == t && l.idx == i then At(t, i, l.pos + 1) else l)
  {
    hide Valid, Lawful, All, HasKey, FindIn, Push, Slot, Bucket;
    OtherKey(ty, All(s), k, q);
    LocateOk(ty, s, q);
    var t := if s.Rehashing() then s.ht1 else s.ht0;
    FilledTable(ty, s);
    PushBucket(ty, t, Slot(ty.hash(k), |t.buckets|), Entry(k, v), Slot(ty.hash(q), |t.buckets|), q);
    PushSize(t, Slot(ty.hash(k), |t.buckets|), Entry(k, v));
  }

  lemma OtherKey<K(!new), V>(ty: DictType<K>, m: multiset<Entry<K, V>>, k: K, q: K)
    requires Lawful(ty) && !HasKey(ty, m, k) && HasKey(ty, m, q)
    ensures !ty.eq(q, k)
  {
    var e := EntryOf(ty, m, q);
    assert ty.eq(q, k) ==> ty.eq(k, e.key);
  }

  lemma PushSize<K, V>(t: Table<K, V>, i: nat, e: Entry<K, V>)
    ensures |Push(t, i, e).buckets| == |t.buckets|
  {
  }

  lemma InsertPending<K(!new), V>(ty: DictType<K>, s: State<K, V>, it: Iter<K>, k: K, v: V, q: K)
    requires Lawful(ty) && Valid(ty, s) && Live(ty, s, it) && |s.ht0.buckets| > 0
    requires !HasKey(ty, All(s), k) && HasKey(ty, All(s), q)
    ensures Live(ty, Insert(ty, s, k, v), it)
    ensures Pending(ty, Insert(ty, s, k, v), it, q) <==> Pending(ty, s, it, q)
  {
    InsertLocate(ty, s, k, v, q);
    var t := if s.Rehashing() then s.ht1 else s.ht0;
    if it.nextEntry.Some? {
      var n, chain := it.nextEntry.value, Here(s, it);
      var p := FindIn(ty, chain, n);
      NextKeyIsThere(ty, s, it);
      InsertLocate(ty, s, k, v, n);
      PushBucket(ty, t, Slot(ty.hash(k), |t.buckets|), Entry(k, v), it.index, n);
    }
    hide Locate, Valid, Lawful, All, FindIn, HasKey, Push, Slot, Bucket;
  }

  lemma NextKeyIsThere<K(!new), V>(ty: DictType<K>, s: State<K, V>, it: Iter<K>)
    requires Valid(ty, s) && IterOk(ty, s, it) && it.nextEntry.Some?
    ensures HasKey(ty, All(s), it.nextEntry.value)
  {
    var n, chain := it.nextEntry.value, Here(s, it);
    var p := FindIn(ty, chain, n);
    ElemsContain(TableOf(s, it.table).buckets, it.index, chain[p]);
    assert chain[p] in All(s);
  }

  lemma AddPending<K(!new), V>(ty: DictType<K>, s: State<K, V>, it: Iter<K>, canResize: bool, k: K, v: V, q: K)
    requires Lawful(ty) && Valid(ty, s) && Live(ty, s, it) && HasKey(ty, All(s), q)
    requires GrowthFits(s, canResize)
    ensures var s' := Add(ty, s, canResize, k, v).0;
            Live(ty, s', it) && (Pending(ty, s', it, q) <==> Pending(ty, s, it, q))
  {
    NoStep(ty, s);
    ExpandIfNeededOk(ty, s, canResize);
    ExpandPending(ty, s, it, canResize, q);
    var s1 := ExpandIfNeeded(s, canResize).0;
    LocateOk(ty, s1, k);
    if !HasKey(ty, All(s1), k) {
      InsertPending(ty, s1, it, k, v, q);
    }
    hide ExpandIfNeeded, Valid, Live, Lawful, All, Pending, Locate, Step, Insert;
  }

  // ---------------------------------------------------------------- deletion

  lemma {:induction false} WithoutFind<K, V>(ty: DictType<K>, chain: seq<Entry<K, V>>, p: nat, q: K)
    requires p < |chain| && !ty.eq(q, chain[p].key)
    ensures var f := FindIn(ty, chain, q);
            FindIn(ty, Without(chain, p), q) == if f > p then f - 1 else f
  {
    if p == 0 {
      assert Without(chain, 0) == chain[1..];
    } else {
      assert Without(chain, p) == [chain[0]] + Without(chain[1..], p - 1);
      assert Without(chain, p)[1..] == Without(chain[1..], p - 1);
      WithoutFind(ty, chain[1..], p - 1, q);
    }
  }

  lemma RemoveBucket<K, V>(ty: DictType<K>, t: Table<K, V>, i: nat, p: nat, j: int, q: K)
    requires p < |Bucket(t, i)| && !ty.eq(q, Bucket(t, i)[p].key)
    ensures var t' := SetBucket(t, i, Without(Bucket(t, i), p), t.used - 1);
            var f := FindIn(ty, Bucket(t, j), q);
            && |t'.buckets| == |t.buckets|
            && |Bucket(t', j)| == |Bucket(t, j)| - (if i == j then 1 else 0)
            && FindIn(ty, Bucket(t', j), q) == if i == j && f > p then f - 1 else f
  {
    hide FindIn;
    WithoutFind(ty, Bucket(t, i), p, q);
  }

  /** Where another key is found after the entry at l has been unlinked. */
  lemma RemoveLocate<K, V>(ty: DictType<K>, s: State<K, V>, l: Place, q: K)
    requires l.At? && l.table <= 1 && EntryAt(s, l).Some?
    requires !ty.eq(q, EntryAt(s, l).value.key)
    ensures var m := Locate(ty, s, q);
            Locate(ty, RemovePlace(s, l), q) ==
            (if m.At? && m.table == l.table && m.idx == l.idx && m.pos > l.pos then m.(pos := m.pos - 1) else m)
  {
    hide LocateIn, RemovePlace, EntryAt;
    LocateInTable(ty, s, 0, q);
    LocateInTable(ty, s, 1, q);
    RemoveLocateIn(ty, s, l, 0, q);
    RemoveLocateIn(ty, s, l, 1, q);
    RemoveRehashing(s, l);
  }

  lemma LocateInTable<K, V>(ty: DictType<K>, s: State<K, V>, table: nat, q: K)
    ensures LocateIn(ty, s, table, q).At? ==> LocateIn(ty, s, table, q).table == table
  {
  }

  lemma RemoveRehashing<K, V>(s: State<K, V>, l: Place)
    ensures RemovePlace(s, l).Rehashing() == s.Rehashing()
  {
  }

  lemma RemoveLocateIn<K, V>(ty: DictType<K>, s: State<K, V>, l: Place, table: nat, q: K)
    requires l.At? && l.table <= 1 && EntryAt(s, l).Some? && table <= 1
    requires !ty.eq(q, EntryAt(s, l).value.key)
    ensures var m := LocateIn(ty, s, table, q);
            LocateIn(ty, RemovePlace(s, l), table, q) ==
            (if m.At? && table == l.table && m.idx == l.idx && m.pos > l.pos then m.(pos := m.pos - 1) else m)
  {
    hide FindIn, Slot, Without, Bucket, SetBucket;
    var t := TableOf(s, l.table);
    if table == l.table {
      RemoveBucket(ty, t, l.idx, l.pos, Slot(ty.hash(q), |t.buckets|), q);
    } else {
      assert TableOf(RemovePlace(s, l), table) == TableOf(s, table);
    }
  }

  lemma RemovePending<K, V>(ty: DictType<K>, s: State<K, V>, it: Iter<K>, l: Place, q: K)
    requires Live(ty, s, it)
    requires l.At? && l.table <= 1 && EntryAt(s, l).Some? && !ty.eq(q, EntryAt(s, l).value.key)
    requires it.nextEntry.Some? ==> !ty.eq(it.nextEntry.value, EntryAt(s, l).value.key)
    ensures Live(ty, RemovePlace(s, l), it)
    ensures Pending(ty, RemovePlace(s, l), it, q) <==> Pending(ty, s, it, q)
  {
    hide Locate, FindIn, Slot, Without, SetBucket;
    RemoveLocate(ty, s, l, q);
    var t := TableOf(s, l.table);
    var chain := Bucket(t, l.idx);
    LocateSound(ty, s, q);
    LocateOther(ty, s, l, q);
    if it.nextEntry.Some? {
      var n := it.nextEntry.value;
      RemoveBucket(ty, t, l.idx, l.pos, it.index, n);
      assert it.table == l.table && it.index == l.idx ==> FindIn(ty, chain, n) != l.pos;
    }
  }

  lemma LocateOther<K, V>(ty: DictType<K>, s: State<K, V>, l: Place, q: K)
    requires l.At? && EntryAt(s, l).Some? && !ty.eq(q, EntryAt(s, l).value.key)
    ensures Locate(ty, s, q) != l
  {
    LocateSound(ty, s, q);
  }

  /** Deleting any entry but the saved next one leaves the rest of the iteration alone. */
  lemma DeletePending<K(!new), V>(ty: DictType<K>, s: State<K, V>, it: Iter<K>, k: K, q: K)
    requires Lawful(ty) && Valid(ty, s) && Live(ty, s, it) && HasKey(ty, All(s), q) && !ty.eq(q, k)
    requires it.nextEntry.Some? ==> !ty.eq(it.nextEntry.value, k)
    ensures var s' := Delete(ty, s, k).0;
            Live(ty, s', it) && (Pending(ty, s', it, q) <==> Pending(ty, s, it, q))
  {
    NoStep(ty, s);
    LocateOk(ty, s, k);
    var l := Locate(ty, s, k);
    if l.At? {
      var e := EntryAt(s, l).value;
      assert ty.eq(k, e.key);
      assert ty.eq(q, e.key) ==> ty.eq(q, k);
      if it.nextEntry.Some? {
        var n := it.nextEntry.value;
        assert ty.eq(n, e.key) ==> ty.eq(n, k);
      }
      RemovePending(ty, s, it, l, q);
    } else {
      assert RemovePlace(s, l) == s;
    }
    hide Valid, Live, Lawful, All, Pending, Locate, Step, RemovePlace;
  }

  // -------------------------------------------------------------- replacement

  lemma {:induction false} UpdateFind<K, V>(ty: DictType<K>, chain: seq<Entry<K, V>>, p: nat, v: V, q: K)
    requires p < |chain|
    ensures FindIn(ty, chain[p := Entry(chain[p].key, v)], q) == FindIn(ty, chain, q)
  {
    var c := chain[p := Entry(chain[p].key, v)];
    if p == 0 {
      assert c[1..] == chain[1..];
    } else {
      assert c[1..] == chain[1..][p - 1 := Entry(chain[1..][p - 1].key, v)];
      UpdateFind(ty, chain[1..], p - 1, v, q);
    }
  }

  lemma SetValuePending<K, V>(ty: DictType<K>, s: State<K, V>, it: Iter<K>, l: Place, v: V, q: K)
    requires Live(ty, s, it) && (l.At? ==> l.table <= 1)
    ensures Live(ty, SetValue(s, l, v), it)
    ensures Pending(ty, SetValue(s, l, v), it, q) <==> Pending(ty, s, it, q)
  {
    if EntryAt(s, l).Some? {
      SetValueLocate(ty, s, l, v, q);
      if it.nextEntry.Some? {
        UpdateBucket(ty, TableOf(s, l.table), l.idx, l.pos, v, it.index, it.nextEntry.value);
      }
    }
    hide FindIn, Slot, Bucket, Locate, SetBucket;
  }

  lemma UpdateBucket<K, V>(ty: DictType<K>, t: Table<K, V>, i: nat, p: nat, v: V, j: int, q: K)
    requires p < |Bucket(t, i)|
    ensures var t' := SetBucket(t, i, Bucket(t, i)[p := Entry(Bucket(t, i)[p].key, v)], t.used);
            && |t'.buckets| == |t.buckets| && |Bucket(t', j)| == |Bucket(t, j)|
            && FindIn(ty, Bucket(t', j), q) == FindIn(ty, Bucket(t, j), q)
  {
    UpdateFind(ty, Bucket(t, i), p, v, q);
  }

  lemma SetValueLocate<K, V>(ty: DictType<K>, s: State<K, V>, l: Place, v: V, q: K)
    requires l.At? && l.table <= 1 && EntryAt(s, l).Some?
    ensures Locate(ty, SetValue(s, l, v), q) == Locate(ty, s, q)
  {
    var t := TableOf(s, l.table);
    UpdateBucket(ty, t, l.idx, l.pos, v, Slot(ty.hash(q), |t.buckets|), q);
    hide FindIn, Slot, Bucket, SetBucket;
  }

  lemma FindPending<K, V>(ty: DictType<K>, s: State<K, V>, it: Iter<K>, k: K)
    requires Live(ty, s, it)
    ensures Find(ty, s, k).0 == s
  {
    NoStep(ty, s);
  }

  lemma ReplacePending<K(!new), V>(ty: DictType<K>, s: State<K, V>, it: Iter<K>, canResize: bool, k: K, v: V, q: K)
    requires Lawful(ty) && Valid(ty, s) && Live(ty, s, it) && HasKey(ty, All(s), q)
    requires GrowthFits(s, canResize)
    ensures var s' := Replace(ty, s, canResize, k, v).0;
            Live(ty, s', it) && (Pending(ty, s', it, q) <==> Pending(ty, s, it, q))
  {
    AddPending(ty, s, it, canResize, k, v, q);
    AddOk(ty, s, canResize, k, v);
    var s1 := Add(ty, s, canResize, k, v).0;
    FindPending(ty, s1, it, k);
    FindOk(ty, s1, k);
    SetValuePending(ty, s1, it, Find(ty, s1, k).1, v, q);
    hide Valid, Live, Lawful, All, Pending, Find, Add, SetValue;
  }

  // ---------------------------------------------------------- whole iterations

  datatype Event<K, V> = NextEvent | OpEvent(canResize: bool, op: Op<K, V>)

  /** What the user of a safe iterator may do before the next call; q stays in the dict. */
  ghost predicate Allowed<K, V>(
      ty: DictType<K>, s: State<K, V>, it: Iter<K>, canResize: bool, op: Op<K, V>, q: K)
  {
    && Fits(ty, s, canResize, op)
    && (op.AddOp? || op.ReplaceOp? || op.FindOp? || op.ExpandOp? || op.ResizeOp?
        || (op.DeleteOp? && !ty.eq(q, op.k) && (it.nextEntry.Some? ==> !ty.eq(it.nextEntry.value, op.k))))
  }

  lemma OpPending<K(!new), V>(ty: DictType<K>, s: State<K, V>, it: Iter<K>, canResize: bool, op: Op<K, V>, q: K)
    requires Lawful(ty) && Valid(ty, s) && Live(ty, s, it) && HasKey(ty, All(s), q)
    requires Allowed(ty, s, it, canResize, op, q)
    ensures var s' := Apply(ty, s, canResize, op);
            && Valid(ty, s') && Live(ty, s', it) && HasKey(ty, All(s'), q)
            && (Pending(ty, s', it, q) <==> Pending(ty, s, it, q))
  {
    ApplyOk(ty, s, canResize, op);
    StaysInMap(ty, All(s), op, q);
    hide Valid, Live, Lawful, All, Pending, Find, Add, Delete, Replace, HasKey, MapApply;
    match op
    case AddOp(k, v) => AddPending(ty, s, it, canResize, k, v, q);
    case ReplaceOp(k, v) => ReplacePending(ty, s, it, canResize, k, v, q);
    case FindOp(k) => FindPending(ty, s, it, k);
    case ExpandOp(size) => ExplicitExpandPending(ty, s, it, size, q);
    case ResizeOp => ResizePending(ty, s, it, canResize, q);
    case DeleteOp(k) => DeletePending(ty, s, it, k, q);
  }

  lemma StaysInMap<K(!new), V>(ty: DictType<K>, m: multiset<Entry<K, V>>, op: Op<K, V>, q: K)
    requires Lawful(ty) && HasKey(ty, m, q) && (op.DeleteOp? ==> !ty.eq(q, op.k))
    ensures HasKey(ty, MapApply(ty, m, op), q)
  {
    hide Lawful, HasKey;
    var e := EntryOf(ty, m, q);
    var m' := MapApply(ty, m, op);
    match op
    case AddOp(k, v) =>
      KeyIsThere(ty, m', e, q);
    case ReplaceOp(k, v) =>
      if HasKey(ty, m, k) && e == EntryOf(ty, m, k) {
        KeyIsThere(ty, m', Entry(e.key, v), q);
      } else {
        KeyIsThere(ty, m', e, q);
      }
    case DeleteOp(k) =>
      if HasKey(ty, m, k) {
        OtherEntry(ty, e, EntryOf(ty, m, k), q, k);
      }
      KeyIsThere(ty, m', e, q);
    case _ =>
  }

  lemma KeyIsThere<K, V>(ty: DictType<K>, m: multiset<Entry<K, V>>, e: Entry<K, V>, q: K)
    requires e in m && ty.eq(q, e.key)
    ensures HasKey(ty, m, q)
  {
  }

  lemma OtherEntry<K(!new), V>(ty: DictType<K>, e: Entry<K, V>, f: Entry<K, V>, q: K, k: K)
    requires Lawful(ty) && ty.eq(q, e.key) && ty.eq(k, f.key) && !ty.eq(q, k)
    ensures e != f
  {
    assert ty.eq(k, f.key) ==> ty.eq(f.key, k);
  }

  /** Everything a history of events returns, until dictNext says there is nothing more. */
  function Returned<K, V>(ty: DictType<K>, s: State<K, V>, it: Iter<K>, events: seq<Event<K, V>>): seq<Entry<K, V>>
    decreases |events|
  {
    if events == [] then []
    else if events[0].OpEvent? then Returned(ty, Apply(ty, s, events[0].canResize, events[0].op), it, events[1..])
    else
      var (s', it', r) := Next(ty, s, it);
      if r.None? then [] else [r.value] + Returned(ty, s', it', events[1..])
  }

  /** The history keeps to the rules, leaves q in the dict and goes on until dictNext returns NULL. */
  ghost predicate Exhausts<K, V>(ty: DictType<K>, s: State<K, V>, it: Iter<K>, events: seq<Event<K, V>>, q: K)
    decreases |events|
  {
    && events != []
    && (events[0].OpEvent? ==>
          && Allowed(ty, s, it, events[0].canResize, events[0].op, q)
          && Exhausts(ty, Apply(ty, s, events[0].canResize, events[0].op), it, events[1..], q))
    && (events[0].NextEvent? ==>
          Next(ty, s, it).2.Some? ==> Exhausts(ty, Next(ty, s, it).0, Next(ty, s, it).1, events[1..], q))
  }

  /** How often a key was returned. */
  function Times<K, V>(ty: DictType<K>, out: seq<Entry<K, V>>, q: K): nat {
    if out == [] then 0 else (if ty.eq(q, out[0].key) then 1 else 0) + Times(ty, out[1..], q)
  }

  lemma {:induction false} RemainderReturned<K(!new), V>(
      ty: DictType<K>, s: State<K, V>, it: Iter<K>, events: seq<Event<K, V>>, q: K)
    requires Lawful(ty) && Valid(ty, s) && HasKey(ty, All(s), q)
    requires Live(ty, s, it) || (it == Fresh() && events != [] && events[0].NextEvent?)
    requires Exhausts(ty, s, it, events, q)
    ensures Times(ty, Returned(ty, s, it, events), q) == if Pending(ty, s, it, q) then 1 else 0
    decreases |events|
  {
    hide Valid, Live, Lawful, All, Pending, HasKey, Allowed, Apply, Next, Locate;
    if events[0].OpEvent? {
      OpPending(ty, s, it, events[0].canResize, events[0].op, q);
      RemainderReturned(ty, Apply(ty, s, events[0].canResize, events[0].op), it, events[1..], q);
    } else {
      var (s', it', r) := Next(ty, s, it);
      NextOk(ty, s, it, q);
      SamePending(ty, s, it, q);
      if r.Some? {
        RemainderReturned(ty, s', it', events[1..], q);
        var rest := Returned(ty, s', it', events[1..]);
        assert ([r.value] + rest)[1..] == rest;
      }
    }
  }

  lemma SamePending<K, V>(ty: DictType<K>, s: State<K, V>, it: Iter<K>, q: K)
    ensures Pending(ty, Next(ty, s, it).0, it, q) <==> Pending(ty, s, it, q)
  {
    var s' := Next(ty, s, it).0;
    assert Locate(ty, s', q) == Locate(ty, s, q);
  }

  /**
   Safe iteration is exact. A key that is in the dict throughout a complete
   iteration is returned exactly once, whatever is added, replaced, found or
   deleted on the way, and even if the table starts to expand meanwhile.
   */
  lemma SafeIterationExact<K(!new), V>(ty: DictType<K>, s: State<K, V>, events: seq<Event<K, V>>, q: K)
    requires Lawful(ty) && Valid(ty, s) && HasKey(ty, All(s), q)
    requires events != [] && events[0].NextEvent? && Exhausts(ty, s, Fresh(), events, q)
    ensures Times(ty, Returned(ty, s, Fresh(), events), q) == 1
  {
    FreshPending(ty, s, q);
    hide Pending, Valid, Lawful, All, HasKey, Exhausts, Returned, Times;
    RemainderReturned(ty, s, Fresh(), events, q);
  }
}
