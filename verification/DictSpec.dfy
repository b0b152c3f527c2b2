/**
 The hash table of dict.c as a value: two tables of chains, `rehashidx`, and the
 number of safe iterators. Each operation is a function from state to state that
 takes the branches of the C function; `Dict` runs the same operations in place.
 */
module DictSpec {
  import opened Common
  import opened Words

  const INITIAL_SIZE: nat := 4            // DICT_HT_INITIAL_SIZE
  const LONG_MAX: nat := 0x7FFF_FFFF_FFFF_FFFF
  const FORCE_RATIO: nat := 5             // dict_force_resize_ratio
  const MAX_LOG_SIZE: nat := 31           // a bucket index must fit an int

  type uint32 = x: int | 0 <= x < 0x1_0000_0000

  /** The callbacks of a dictType. */
  datatype DictType<!K> = DictType(hash: K -> uint32, eq: (K, K) -> bool)

  datatype Entry<K, V> = Entry(key: K, val: V)

  /** A dictht. A table whose pointer is NULL has no buckets. */
  datatype Table<K, V> = Table(buckets: seq<seq<Entry<K, V>>>, used: int)

  datatype State<K, V> = State(ht0: Table<K, V>, ht1: Table<K, V>, rehashidx: int, iterators: nat)
  {
    predicate Rehashing() { rehashidx != -1 }

    function Size(): int { ht0.used + ht1.used }
  }

  /** Key equality is an equivalence and the hash respects it. */
  ghost predicate Lawful<K(!new)>(ty: DictType<K>) {
    && (forall a :: ty.eq(a, a))
    && (forall a, b :: ty.eq(a, b) ==> ty.eq(b, a) && ty.hash(a) == ty.hash(b))
    && (forall a, b, c :: ty.eq(a, b) && ty.eq(b, c) ==> ty.eq(a, c))
  }

  // ------------------------------------------------------------ tables

  function EmptyTable<K, V>(n: nat): (t: Table<K, V>)
    ensures |t.buckets| == n
  {
    Table(seq(n, _ => []), 0)
  }

  /** `h & sizemask`; a table without buckets has sizemask 0. */
  function Slot(h: nat, size: nat): (i: nat)
    ensures size > 0 ==> i < size
  {
    if size == 0 then 0 else AndAtMostMask(h, size - 1); And(h, size - 1)
  }

  lemma {:induction false} AndAtMostMask(x: nat, y: nat)
    ensures And(x, y) <= y
    decreases x
  {
    if x != 0 {
      AndAtMostMask(x / 2, y / 2);
    }
  }

  function Bucket<K, V>(t: Table<K, V>, i: int): seq<Entry<K, V>> {
    if 0 <= i < |t.buckets| then t.buckets[i] else []
  }

  function SetBucket<K, V>(t: Table<K, V>, i: int, chain: seq<Entry<K, V>>, used: int): Table<K, V> {
    Table(if 0 <= i < |t.buckets| then t.buckets[i := chain] else t.buckets, used)
  }

  /** Insertion at the head of a chain. */
  function Push<K, V>(t: Table<K, V>, i: int, e: Entry<K, V>): Table<K, V> {
    SetBucket(t, i, [e] + Bucket(t, i), t.used + 1)
  }

  /** The position in the chain of the first entry with this key; the length if there is none. */
  function FindIn<K, V>(ty: DictType<K>, chain: seq<Entry<K, V>>, k: K): (p: nat)
    ensures p <= |chain|
    ensures p < |chain| ==> ty.eq(k, chain[p].key)
    ensures forall j :: 0 <= j < p ==> !ty.eq(k, chain[j].key)
  {
    if chain == [] then 0
    else if ty.eq(k, chain[0].key) then 0
    else 1 + FindIn(ty, chain[1..], k)
  }

  // ----------------------------------------------------------- rehashing

  /** The inner loop of dictRehash: push every entry of a chain to its new bucket. */
  function MoveChain<K, V>(ty: DictType<K>, chain: seq<Entry<K, V>>, t: Table<K, V>): Table<K, V> {
    if chain == [] then t
    else MoveChain(ty, chain[1..], Push(t, Slot(ty.hash(chain[0].key), |t.buckets|), chain[0]))
  }

  function MoveBucket<K, V>(ty: DictType<K>, s: State<K, V>): State<K, V> {
    var chain := Bucket(s.ht0, s.rehashidx);
    State(SetBucket(s.ht0, s.rehashidx, [], s.ht0.used - |chain|),
          MoveChain(ty, chain, s.ht1),
          s.rehashidx + 1,
          s.iterators)
  }

  /** The end of dictRehash: the new table takes over once the old one is empty. */
  function Finish<K, V>(s: State<K, V>): (State<K, V>, bool) {
    if s.ht0.used == 0 then (State(s.ht1, EmptyTable(0), -1, s.iterators), false)
    else (s, true)
  }

  /** The loop of dictRehash with n buckets still to move and `visits` empty buckets still allowed. */
  function RehashLoop<K, V>(ty: DictType<K>, s: State<K, V>, n: nat, visits: int): (State<K, V>, bool)
    decreases n, |s.ht0.buckets| - s.rehashidx
  {
    if n == 0 || s.ht0.used == 0 then Finish(s)
    else if s.rehashidx >= |s.ht0.buckets| then (s, true)
    else if Bucket(s.ht0, s.rehashidx) == [] then
      var s' := s.(rehashidx := s.rehashidx + 1);
      if visits - 1 == 0 then (s', true) else RehashLoop(ty, s', n, visits - 1)
    else RehashLoop(ty, MoveBucket(ty, s), n - 1, visits)
  }

  /** dictRehash; the flag is its return value. */
  function Rehash<K, V>(ty: DictType<K>, s: State<K, V>, n: nat): (State<K, V>, bool) {
    if !s.Rehashing() then (s, false) else RehashLoop(ty, s, n, n * 10)
  }

  /** _dictRehashStep behind its caller's test: nothing moves while a safe iterator is live. */
  function Step<K, V>(ty: DictType<K>, s: State<K, V>): State<K, V> {
    if s.Rehashing() && s.iterators == 0 then Rehash(ty, s, 1).0 else s
  }

  // ------------------------------------------------------------ resizing

  function NextPowerFrom(i: nat, size: nat): (r: nat)
    requires i > 0
    ensures r >= size && r >= i
    decreases size - i
  {
    if i >= size then i else NextPowerFrom(i * 2, size)
  }

  /** _dictNextPower */
  function NextPower(size: nat): (r: nat) {
    if size >= LONG_MAX then LONG_MAX else NextPowerFrom(INITIAL_SIZE, size)
  }

  /** dictExpand; the flag is true for DICT_OK. */
  function Expand<K, V>(s: State<K, V>, size: nat): (State<K, V>, bool) {
    var realsize := NextPower(size);
    if s.Rehashing() || s.ht0.used > size then (s, false)
    else if realsize == |s.ht0.buckets| then (s, false)
    else if |s.ht0.buckets| == 0 then (s.(ht0 := EmptyTable(realsize)), true)
    else (s.(ht1 := EmptyTable(realsize), rehashidx := 0), true)
  }

  /** dictResize */
  function Resize<K, V>(s: State<K, V>, canResize: bool): (State<K, V>, bool) {
    if !canResize || s.Rehashing() then (s, false)
    else if s.ht0.used < INITIAL_SIZE then Expand(s, INITIAL_SIZE)
    else Expand(s, s.ht0.used)
  }

  /** The test of _dictExpandIfNeeded that asks for twice the entries. */
  predicate Full<K, V>(s: State<K, V>, canResize: bool) {
    && !s.Rehashing() && |s.ht0.buckets| > 0
    && s.ht0.used >= |s.ht0.buckets| && (canResize || s.ht0.used / |s.ht0.buckets| > FORCE_RATIO)
  }

  /** The table then asked for is not beyond the range of a bucket index. */
  predicate GrowthFits<K, V>(s: State<K, V>, canResize: bool) {
    Full(s, canResize) ==> s.ht0.used * 2 <= Pow2(MAX_LOG_SIZE)
  }

  /** _dictExpandIfNeeded */
  function ExpandIfNeeded<K, V>(s: State<K, V>, canResize: bool): (State<K, V>, bool) {
    if s.Rehashing() then (s, true)
    else if |s.ht0.buckets| == 0 then Expand(s, INITIAL_SIZE)
    else if Full(s, canResize) then Expand(s, s.ht0.used * 2)
    else (s, true)
  }

  // ----------------------------------------------------- key operations

  datatype Place = Missing | At(table: nat, idx: nat, pos: nat)

  function TableOf<K, V>(s: State<K, V>, table: nat): Table<K, V> {
    if table == 0 then s.ht0 else s.ht1
  }

  function LocateIn<K, V>(ty: DictType<K>, s: State<K, V>, table: nat, k: K): Place {
    var t := TableOf(s, table);
    var i := Slot(ty.hash(k), |t.buckets|);
    var p := FindIn(ty, Bucket(t, i), k);
    if p < |Bucket(t, i)| then At(table, i, p) else Missing
  }

  /** The two-table search shared by find, delete and _dictKeyIndex. */
  function Locate<K, V>(ty: DictType<K>, s: State<K, V>, k: K): Place {
    var l := LocateIn(ty, s, 0, k);
    if l.At? || !s.Rehashing() then l else LocateIn(ty, s, 1, k)
  }

  /** A new entry goes to the table that is being filled. */
  function Insert<K, V>(ty: DictType<K>, s: State<K, V>, k: K, v: V): State<K, V> {
    if s.Rehashing() then s.(ht1 := Push(s.ht1, Slot(ty.hash(k), |s.ht1.buckets|), Entry(k, v)))
    else s.(ht0 := Push(s.ht0, Slot(ty.hash(k), |s.ht0.buckets|), Entry(k, v)))
  }

  /** dictAdd: dictAddRaw followed by storing the value. */
  function Add<K, V>(ty: DictType<K>, s: State<K, V>, canResize: bool, k: K, v: V): (State<K, V>, bool) {
    var (s1, ok) := ExpandIfNeeded(Step(ty, s), canResize);
    if !ok || Locate(ty, s1, k).At? then (s1, false)
    else (Insert(ty, s1, k, v), true)
  }

  function SetTable<K, V>(s: State<K, V>, table: nat, t: Table<K, V>): State<K, V> {
    if table == 0 then s.(ht0 := t) else s.(ht1 := t)
  }

  function EntryAt<K, V>(s: State<K, V>, l: Place): Option<Entry<K, V>> {
    if l.At? && l.pos < |Bucket(TableOf(s, l.table), l.idx)|
    then Some(Bucket(TableOf(s, l.table), l.idx)[l.pos]) else None
  }

  /** dictFind */
  function Find<K, V>(ty: DictType<K>, s: State<K, V>, k: K): (State<K, V>, Place) {
    if |s.ht0.buckets| == 0 then (s, Missing)
    else (Step(ty, s), Locate(ty, Step(ty, s), k))
  }

  function SetValue<K, V>(s: State<K, V>, l: Place, v: V): State<K, V> {
    if EntryAt(s, l).None? then s
    else
      var t := TableOf(s, l.table);
      var chain := Bucket(t, l.idx);
      SetTable(s, l.table, SetBucket(t, l.idx, chain[l.pos := Entry(chain[l.pos].key, v)], t.used))
  }

  /** dictReplace; the flag is true when the key was added from scratch. */
  function Replace<K, V>(ty: DictType<K>, s: State<K, V>, canResize: bool, k: K, v: V): (State<K, V>, bool) {
    var (s1, added) := Add(ty, s, canResize, k, v);
    if added then (s1, true)
    else
      var (s2, l) := Find(ty, s1, k);
      (SetValue(s2, l, v), false)
  }

  /** A chain with one entry unlinked. */
  function Without<E>(chain: seq<E>, p: nat): seq<E>
    requires p < |chain|
  {
    chain[..p] + chain[p + 1..]
  }

  function RemovePlace<K, V>(s: State<K, V>, l: Place): State<K, V> {
    if EntryAt(s, l).None? then s
    else
      var t := TableOf(s, l.table);
      var chain := Bucket(t, l.idx);
      SetTable(s, l.table, SetBucket(t, l.idx, Without(chain, l.pos), t.used - 1))
  }

  /** dictGenericDelete; the flag is true for DICT_OK. */
  function Delete<K, V>(ty: DictType<K>, s: State<K, V>, k: K): (State<K, V>, bool) {
    if |s.ht0.buckets| == 0 then (s, false)
    else
      var s1 := Step(ty, s);
      var l := Locate(ty, s1, k);
      (RemovePlace(s1, l), l.At?)
  }

  /** dictCreate */
  function Create<K, V>(): State<K, V> {
    State(EmptyTable(0), EmptyTable(0), -1, 0)
  }
}
