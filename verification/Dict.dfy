/**
 The hash table of dict.c in place: two arrays of chains that the operations
 update, each proved to take the state where the functions of `DictSpec` do.
 */
module Dict {
  import opened Common
  import opened Words
  import opened DictSpec
  import opened DictInvariant
  import opened DictScan
  import opened DictScanRun
  import opened DictRuns
  import opened DictIterator
  import Reverse

  class HashDict<K(!new), V> {
    const ty: DictType<K>
    var table0: array<seq<Entry<K, V>>>
    var used0: int
    var table1: array<seq<Entry<K, V>>>
    var used1: int
    var rehashidx: int
    var iterators: nat

    /** The value of the dict. */
    ghost function Abs(): State<K, V>
      reads this, table0, table1
    {
      State(Table(table0[..], used0), Table(table1[..], used1), rehashidx, iterators)
    }

    /** The arrays the dict owns. */
    ghost function Tables(): set<object>
      reads this
    {
      {table0, table1}
    }

    ghost predicate Ok()
      reads this, table0, table1
    {
      table0 != table1 && Lawful(ty) && Valid(ty, Abs())
    }

    /** dictCreate */
    constructor (ty: DictType<K>)
      requires Lawful(ty)
      ensures Ok() && this.ty == ty && Abs() == Create()
      ensures fresh(table0) && fresh(table1)
    {
      this.ty := ty;
      table0, used0 := new seq<Entry<K, V>>[0](_ => []), 0;
      table1, used1 := new seq<Entry<K, V>>[0](_ => []), 0;
      rehashidx, iterators := -1, 0;
      new;
      CreateValid<K, V>(ty);
      assert Abs() == Create();
    }

    // --------------------------------------------------------- rehashing

    /** The inner loop of dictRehash, with the two statements after it. */
    method MoveCurrentBucket()
      requires table0 != table1 && Core(ty, Abs()) && rehashidx != -1 && rehashidx < table0.Length
      modifies this`used0, this`used1, this`rehashidx, table0, table1
      ensures Abs() == MoveBucket(ty, old(Abs()))
    {
      hide Core, Slot, MoveChain, Push;
      ghost var s := Abs();
      CoreRehashing(ty, s);
      var de := table0[rehashidx];
      ghost var chain := de;
      while de != []
        invariant table0[..] == s.ht0.buckets && rehashidx == s.rehashidx
        invariant used0 - |de| == s.ht0.used - |chain|
        invariant MoveChain(ty, de, Table(table1[..], used1)) == MoveChain(ty, chain, s.ht1)
        decreases |de|
      {
        var h := Slot(ty.hash(de[0].key), table1.Length);
        ghost var t := Table(table1[..], used1);
        table1[h] := [de[0]] + table1[h];
        used0 := used0 - 1;
        used1 := used1 + 1;
        MoveOne(ty, de, t);
        assert Table(table1[..], used1) == Table(t.buckets[h := [de[0]] + t.buckets[h]], t.used + 1);
        de := de[1..];
      }
      MoveNone(ty, Table(table1[..], used1));
      table0[rehashidx] := [];
      rehashidx := rehashidx + 1;
    }

    /** The loop over empty buckets in dictRehash; `stop` when the allowance is used up. */
    method SkipEmptyBuckets(ghost m: nat, visits: int, ghost r: (State<K, V>, bool)) returns (left: int, stop: bool)
      requires table0 != table1 && Core(ty, Abs()) && rehashidx != -1 && used0 != 0 && m > 0
      requires LeadsTo(ty, Abs(), m, visits, r)
      modifies this`rehashidx
      ensures Core(ty, Abs()) && rehashidx != -1
      ensures stop ==> r == (Abs(), true)
      ensures !stop ==> LeadsTo(ty, Abs(), m, left, r) && 0 <= rehashidx < table0.Length && table0[rehashidx] != []
    {
      hide RehashLoop, Core, LeadsTo;
      left := visits;
      RehashIndexInside(ty, Abs());
      assert rehashidx < table0.Length;
      while table0[rehashidx] == []
        invariant rehashidx != -1 && Core(ty, Abs())
        invariant 0 <= rehashidx < table0.Length
        invariant LeadsTo(ty, Abs(), m, left, r)
        decreases table0.Length - rehashidx
      {
        ghost var s1 := Abs();
        SkipOk(ty, s1, m);
        LoopSkip(ty, s1, m, left, r);
        rehashidx := rehashidx + 1;
        assert Abs() == s1.(rehashidx := s1.rehashidx + 1);
        left := left - 1;
        RehashIndexInside(ty, Abs());
        if left == 0 { return left, true; }
      }
      stop := false;
    }

    /** The end of dictRehash: the new table takes the place of the old one. */
    method TakeOver()
      requires table0 != table1 && used0 == 0
      modifies this`table0, this`used0, this`table1, this`used1, this`rehashidx
      ensures Abs() == Finish(old(Abs())).0 && table0 != table1
      ensures table0 == old(table1) && fresh(table1)
    {
      table0, used0 := table1, used1;
      table1, used1 := new seq<Entry<K, V>>[0](_ => []), 0;
      rehashidx := -1;
      assert table1[..] == EmptyTable<K, V>(0).buckets;
    }

    /** The outer loop of dictRehash. */
    method MoveBuckets(n: nat, visits: int, ghost r: (State<K, V>, bool)) returns (more: bool)
      requires table0 != table1 && Core(ty, Abs()) && rehashidx != -1 && LeadsTo(ty, Abs(), n, visits, r)
      modifies this, table0, table1
      ensures r == (Abs(), more) && table0 != table1
      ensures (table0 == old(table0) || table0 == old(table1)) && (table1 == old(table1) || fresh(table1))
    {
      hide Core, MoveBucket, RehashLoop, All, Finish, LeadsTo;
      var emptyVisits := visits;
      var m := n;
      while m > 0 && used0 != 0
        invariant table0 == old(table0) && table1 == old(table1)
        invariant rehashidx != -1 && Core(ty, Abs()) && LeadsTo(ty, Abs(), m, emptyVisits, r)
        decreases m
      {
        var stop;
        emptyVisits, stop := SkipEmptyBuckets(m, emptyVisits, r);
        if stop { return true; }
        MoveBucketOk(ty, Abs());
        LoopMove(ty, Abs(), m, emptyVisits, r);
        MoveCurrentBucket();
        m := m - 1;
      }
      LoopEnd(ty, Abs(), m, emptyVisits, r);
      if used0 == 0 {
        TakeOver();
        return false;
      }
      return true;
    }

    /** dictRehash */
    method Rehash(n: nat) returns (more: bool)
      requires Ok()
      modifies this, table0, table1
      ensures Ok() && (Abs(), more) == DictSpec.Rehash(ty, old(Abs()), n)
      ensures fresh(Tables() - old(Tables()))
    {
      if rehashidx == -1 { return false; }
      ghost var s := Abs();
      RehashValid(ty, s, n);
      ValidIsCore(ty, s);
      more := MoveBuckets(n, n * 10, RehashLoop(ty, s, n, n * 10));
    }

    /** _dictRehashStep, behind the test every caller makes. */
    method RehashStep()
      requires Ok()
      modifies this, table0, table1
      ensures Ok() && Abs() == Step(ty, old(Abs()))
      ensures fresh(Tables() - old(Tables()))
    {
      if rehashidx != -1 {
        if iterators == 0 {
          var more := Rehash(1);
        }
      }
    }

    // ----------------------------------------------------------- resizing

    /** _dictNextPower */
    static method NextPowerOfTwo(size: nat) returns (i: nat)
      ensures i == NextPower(size)
    {
      i := INITIAL_SIZE;
      if size >= LONG_MAX { return LONG_MAX; }
      while true
        invariant i > 0 && NextPowerFrom(i, size) == NextPowerFrom(INITIAL_SIZE, size)
        decreases size - i
      {
        if i >= size { return i; }
        i := i * 2;
      }
    }

    /** dictExpand */
    method Expand(size: nat) returns (ok: bool)
      requires Ok() && size <= Pow2(MAX_LOG_SIZE)
      modifies this
      ensures Ok() && (Abs(), ok) == DictSpec.Expand(old(Abs()), size)
      ensures fresh(Tables() - old(Tables()))
    {
      hide Valid, Lawful, All, NextPower, Pow2;
      ExpandOk(ty, Abs(), size);
      var realsize := NextPowerOfTwo(size);
      if rehashidx != -1 || used0 > size { return false; }
      if realsize == table0.Length { return false; }
      var n := new seq<Entry<K, V>>[realsize](_ => []);
      assert n[..] == EmptyTable<K, V>(realsize).buckets;
      if table0.Length == 0 {
        table0, used0 := n, 0;
        return true;
      }
      table1, used1 := n, 0;
      rehashidx := 0;
      return true;
    }

    /** dictResize */
    method Resize(canResize: bool) returns (ok: bool)
      requires Ok() && ResizeFits(Abs(), canResize)
      modifies this
      ensures Ok() && (Abs(), ok) == DictSpec.Resize(old(Abs()), canResize)
      ensures fresh(Tables() - old(Tables()))
    {
      if !canResize || rehashidx != -1 { return false; }
      MaxSizeFits();
      SizeIsCard(Abs(), ty);
      CountIsCard(table0[..]);
      var minimal := used0;
      if minimal < INITIAL_SIZE {
        minimal := INITIAL_SIZE;
      }
      ok := Expand(minimal);
    }

    /** _dictExpandIfNeeded */
    method ExpandIfNeeded(canResize: bool) returns (ok: bool)
      requires Ok() && GrowthFits(Abs(), canResize)
      modifies this
      ensures Ok() && (Abs(), ok) == DictSpec.ExpandIfNeeded(old(Abs()), canResize)
      ensures fresh(Tables() - old(Tables()))
    {
      if rehashidx != -1 { return true; }
      MaxSizeFits();
      if table0.Length == 0 {
        ok := Expand(INITIAL_SIZE);
        return;
      }
      if used0 >= table0.Length && (canResize || used0 / table0.Length > FORCE_RATIO) {
        ok := Expand(used0 * 2);
        return;
      }
      return true;
    }

    // ---------------------------------------------------------- searching

    /** Walk a chain until a key matches. */
    method WalkChain(chain: seq<Entry<K, V>>, k: K) returns (p: nat)
      ensures p == FindIn(ty, chain, k)
    {
      var he := chain;
      p := 0;
      while he != []
        invariant p <= |chain| && he == chain[p..]
        invariant FindIn(ty, chain, k) == p + FindIn(ty, he, k)
        decreases |he|
      {
        if ty.eq(k, he[0].key) { return; }
        he := he[1..];
        p := p + 1;
      }
    }

    /** The search loop over the two tables. */
    method Lookup(k: K) returns (l: Place)
      requires Ok() && table0.Length > 0
      ensures l == Locate(ty, Abs(), k)
    {
      hide Valid, Lawful, FindIn, Slot;
      var h := ty.hash(k);
      var table := 0;
      while table <= 1
        invariant 0 <= table <= 2
        invariant table == 1 ==> rehashidx != -1 && LocateIn(ty, Abs(), 0, k).Missing?
        invariant table == 2 ==> Locate(ty, Abs(), k).Missing?
      {
        var t := if table == 0 then table0 else table1;
        TableSizes(ty, Abs());
        var idx := Slot(h, t.Length);
        var p := WalkChain(t[idx], k);
        if p < |t[idx]| { return At(table, idx, p); }
        if rehashidx == -1 { return Missing; }
        table := table + 1;
      }
      return Missing;
    }

    // ------------------------------------------------------ key operations

    /** _dictKeyIndex: the slot for a new key, or -1 if the key is there. */
    method KeyIndex(canResize: bool, k: K) returns (index: int)
      requires Ok() && GrowthFits(Abs(), canResize)
      modifies this
      ensures Ok() && Abs() == DictSpec.ExpandIfNeeded(old(Abs()), canResize).0 && table0.Length > 0
      ensures index == -1 <==> Locate(ty, Abs(), k).At?
      ensures index != -1 ==> index == Slot(ty.hash(k), (if rehashidx != -1 then table1 else table0).Length)
      ensures fresh(Tables() - old(Tables()))
    {
      ExpandIfNeededOk(ty, Abs(), canResize);
      var ok := ExpandIfNeeded(canResize);
      var l := Lookup(k);
      if l.At? { return -1; }
      index := Slot(ty.hash(k), (if rehashidx != -1 then table1 else table0).Length);
    }

    /** Put an entry at the head of a chain of the table that is being filled. */
    method PushHead(k: K, v: V)
      requires table0 != table1 && (if rehashidx != -1 then table1 else table0).Length > 0
      modifies this`used0, this`used1, table0, table1
      ensures Abs() == Insert(ty, old(Abs()), k, v)
    {
      if rehashidx != -1 {
        var index := Slot(ty.hash(k), table1.Length);
        table1[index] := [Entry(k, v)] + table1[index];
        used1 := used1 + 1;
        assert Abs() == Insert(ty, old(Abs()), k, v);
      } else {
        var index := Slot(ty.hash(k), table0.Length);
        table0[index] := [Entry(k, v)] + table0[index];
        used0 := used0 + 1;
        assert Abs() == Insert(ty, old(Abs()), k, v);
      }
    }

    /** dictAdd: dictAddRaw, then the value stored in the new entry. */
    method Add(canResize: bool, k: K, v: V) returns (ok: bool)
      requires Ok() && GrowthFits(Step(ty, Abs()), canResize)
      modifies this, table0, table1
      ensures Ok() && (Abs(), ok) == DictSpec.Add(ty, old(Abs()), canResize, k, v)
      ensures fresh(Tables() - old(Tables()))
    {
      hide Valid, Lawful, Step, DictSpec.ExpandIfNeeded, Locate, Insert, Slot;
      AddKeeps(ty, Abs(), canResize, k, v);
      RehashStep();
      var index := KeyIndex(canResize, k);
      if index == -1 { return false; }
      TableSizes(ty, Abs());
      PushHead(k, v);
      return true;
    }

    /** dictFind: the place of the entry, which stays valid while the dict does not change. */
    method Find(k: K) returns (l: Place)
      requires Ok()
      modifies this, table0, table1
      ensures Ok() && (Abs(), l) == DictSpec.Find(ty, old(Abs()), k)
      ensures fresh(Tables() - old(Tables()))
    {
      hide Valid, Lawful, All, Step, Locate;
      if table0.Length == 0 { return Missing; }
      StepOk(ty, Abs());
      RehashStep();
      l := Lookup(k);
    }

    /** Store a value in an entry. */
    method StoreValue(l: Place, v: V)
      requires table0 != table1 && l.At? && l.table <= 1 && EntryAt(Abs(), l).Some?
      modifies table0, table1
      ensures Abs() == SetValue(old(Abs()), l, v)
    {
      var t := if l.table == 0 then table0 else table1;
      var chain: seq<Entry<K, V>> := t[l.idx];
      t[l.idx] := chain[l.pos := Entry(chain[l.pos].key, v)];
      assert Abs() == SetValue(old(Abs()), l, v);
    }

    /** dictReplace; true when the key was added from scratch. */
    method Replace(canResize: bool, k: K, v: V) returns (added: bool)
      requires Ok() && GrowthFits(Step(ty, Abs()), canResize)
      modifies this, table0, table1
      ensures Ok() && (Abs(), added) == DictSpec.Replace(ty, old(Abs()), canResize, k, v)
      ensures fresh(Tables() - old(Tables()))
    {
      hide Valid, Lawful, DictSpec.Add, DictSpec.Find, SetValue, EntryAt;
      ReplaceKeeps(ty, Abs(), canResize, k, v);
      added := Add(canResize, k, v);
      if added { return; }
      var l := Find(k);
      StoreValue(l, v);
    }

    /** Unlink an entry. */
    method Unlink(l: Place)
      requires table0 != table1 && l.At? && l.table <= 1 && EntryAt(Abs(), l).Some?
      modifies this`used0, this`used1, table0, table1
      ensures Abs() == RemovePlace(old(Abs()), l)
    {
      if l.table == 0 {
        table0[l.idx] := table0[l.idx][..l.pos] + table0[l.idx][l.pos + 1..];
        used0 := used0 - 1;
        assert Abs() == RemovePlace(old(Abs()), l);
      } else {
        table1[l.idx] := table1[l.idx][..l.pos] + table1[l.idx][l.pos + 1..];
        used1 := used1 - 1;
        assert Abs() == RemovePlace(old(Abs()), l);
      }
    }

    /** dictGenericDelete */
    method Delete(k: K) returns (ok: bool)
      requires Ok()
      modifies this, table0, table1
      ensures Ok() && (Abs(), ok) == DictSpec.Delete(ty, old(Abs()), k)
      ensures fresh(Tables() - old(Tables()))
    {
      hide Valid, Lawful, Step, Locate, RemovePlace, EntryAt;
      if table0.Length == 0 { return false; }
      DeleteKeeps(ty, Abs(), k);
      RehashStep();
      var l := Lookup(k);
      if l.Missing? {
        RemoveMissing(Abs());
        return false;
      }
      Unlink(l);
      return true;
    }

    // ------------------------------------------------------------- scanning

    /** The loop over the expansions of the cursor in the larger table. */
    method ScanExpansions(t: array<seq<Entry<K, V>>>, v0: nat, ghost k0: nat, ghost d: nat, m0: nat, m1: nat)
      returns (v: nat, out: seq<Entry<K, V>>)
      requires v0 < Pow2(WORD) && k0 + d < WORD && Pow2(k0) <= Pow2(WORD)
      requires m0 + 1 == Pow2(k0) && m1 + 1 == Pow2(k0 + d) == t.Length
      ensures v < Pow2(WORD) && Low(v, k0) == Low(v0, k0)
      ensures out == EmitFrom(Table(t[..], 0), Low(v0, k0), k0, d, Expansion(v0, k0, d))
    {
      hide Pow2, Up, And, Or, Xor, Low, High, EmitFrom;
      ghost var e, all := Expansion(v0, k0, d), EmitFrom(Table(t[..], 0), Low(v0, k0), k0, d, Expansion(v0, k0, d));
      v, out := v0, [];
      var more := true;
      while more
        invariant v < Pow2(WORD) && Low(v, k0) == Low(v0, k0) && e <= Pow2(d)
        invariant more ==> e < Pow2(d) && Expansion(v, k0, d) == e
        invariant !more ==> e == Pow2(d)
        invariant out + EmitFrom(Table(t[..], 0), Low(v0, k0), k0, d, e) == all
        decreases Pow2(d) - e
      {
        ExpansionStep(v, k0, d);
        EmitHead(Table(t[..], 0), Low(v0, k0), k0, d, e);
        out := out + t[And(v, m1)];
        v := Or(And(Increment(Or(v, m0)), Not(m0)), And(v, m0));
        more := And(v, Xor(m0, m1)) != 0;
        e := e + 1;
      }
      EmitEnd(Table(t[..], 0), Low(v0, k0), k0, d);
    }

    /** `v | ~m0` and the increment of the reversed cursor. */
    static method AdvanceCursor(v0: nat, ghost k: nat, m0: nat) returns (v: nat)
      requires v0 < Pow2(WORD) && k <= WORD && m0 + 1 == Pow2(k)
      ensures v == NextCursor(v0, k)
    {
      hide Pow2, Or, RevN, NextCursor;
      CursorStep(v0, k);
      v := Or(v0, Not(m0));
      v := Reverse.Rev(v);
      v := Increment(v);
      v := Reverse.Rev(v);
    }

    /** dictScan: the new cursor, and the entries handed to the callback in their order. */
    method Scan(v0: nat) returns (v: nat, out: seq<Entry<K, V>>)
      requires Ok() && v0 < Pow2(WORD)
      ensures (v, out) == DictScanRun.Scan(Abs(), v0)
    {
      hide Valid, Lawful, Pow2, Low, NextCursor, EmitFrom, And, Log2;
      if used0 + used1 == 0 { return 0, []; }
      ScanSizes(ty, Abs());
      ghost var k0 := ScanLog(Abs());
      AndMask(v0, k0);
      LowBelow(v0, k0);
      v := v0;
      var m0;
      if rehashidx == -1 {
        m0 := table0.Length - 1;
        out := table0[And(v, m0)];
      } else {
        var t0, t1 := table0, table1;
        if t0.Length > t1.Length { t0, t1 := table1, table0; }
        m0 := t0.Length - 1;
        out := t0[And(v, m0)];
        var expanded;
        v, expanded := ScanExpansions(t1, v0, k0, ExtraBits(Abs()), m0, t1.Length - 1);
        EmitUsed(LargeTable(Abs()), 0, Low(v0, k0), k0, ExtraBits(Abs()), Expansion(v0, k0, ExtraBits(Abs())));
        out := out + expanded;
        NextCursorLow(v, v0, k0);
      }
      v := AdvanceCursor(v, k0, m0);
    }
  }

  lemma LowBelow(v: nat, k: nat)
    ensures Low(v, k) < Pow2(k)
  {
  }

  lemma ScanSizes<K, V>(ty: DictType<K>, s: State<K, V>)
    requires Valid(ty, s) && s.Size() != 0
    ensures var k0 := ScanLog(s);
            && k0 + ExtraBits(s) < WORD && Pow2(k0) <= Pow2(WORD)
            && |(if s.Rehashing() then SmallTable(s) else s.ht0).buckets| == Pow2(k0)
            && (s.Rehashing() ==> |LargeTable(s).buckets| == Pow2(k0 + ExtraBits(s)))
  {
    if |s.ht0.buckets| == 0 {
      CountZero(s.ht0.buckets);
      CountZero(s.ht1.buckets);
    }
    SizesAreLogs(ty, s);
    Pow2Mono(ScanLog(s), WORD);
  }

  /** What a bucket holds does not depend on the count beside the table. */
  lemma {:induction false} EmitUsed<K, V>(t: Table<K, V>, used: int, low: nat, k0: nat, d: nat, e: nat)
    ensures EmitFrom(Table(t.buckets, used), low, k0, d, e) == EmitFrom(t, low, k0, d, e)
    decreases Pow2(d) - e
  {
    if e < Pow2(d) {
      EmitUsed(t, used, low, k0, d, e + 1);
    }
  }

  /** A dictIterator made by dictGetSafeIterator. */
  class SafeIterator<K(!new), V> {
    const d: HashDict<K, V>
    var table: nat
    var index: int
    var entry: Option<K>
    var nextEntry: Option<K>

    ghost function It(): Iter<K>
      reads this
    {
      Iter(table, index, entry, nextEntry)
    }

    constructor (d: HashDict<K, V>)
      ensures this.d == d && It() == Fresh()
    {
      this.d := d;
      table, index := 0, -1;
      entry, nextEntry := None, None;
    }

    /** dictNext */
    method Next() returns (r: Option<Entry<K, V>>)
      requires d.Ok() && IterOk(d.ty, d.Abs(), It())
      modifies this, d`iterators
      ensures d.Ok() && (d.Abs(), It(), r) == DictIterator.Next(d.ty, old(d.Abs()), old(It()))
    {
      hide Valid, Lawful, NextFrom, IterOk;
      ghost var s, it := d.Abs(), It();
      NextKeeps(d.ty, s, it);
      if index == -1 && table == 0 {
        d.iterators := d.iterators + 1;
      }
      assert Yields(d.ty, d.Abs(), it, NextFrom(d.ty, d.Abs(), it));
      r := Advance(NextFrom(d.ty, d.Abs(), it));
    }

    /** The loop of dictNext. */
    method Advance(ghost y: (Iter<K>, Option<Entry<K, V>>)) returns (r: Option<Entry<K, V>>)
      requires d.Ok() && IterOk(d.ty, d.Abs(), It()) && Yields(d.ty, d.Abs(), It(), y)
      modifies this
      ensures (It(), r) == y
    {
      hide Valid, Lawful, FindIn, KeyAt, IterOk, Yields, NextFrom, Enter;
      ghost var s' := d.Abs();
      while true
        invariant IterOk(d.ty, s', It()) && Yields(d.ty, s', It(), y)
        decreases if table == 0 then 1 else 0, |TableOf(s', table).buckets| - index, if entry.Some? then 1 else 0
      {
        TableSizes(d.ty, s');
        IterInside(d.ty, s', It());
        var ht := if table == 0 then d.table0 else d.table1;
        if entry == None {
          ghost var from := It();
          index := index + 1;
          if index >= ht.Length {
            if d.rehashidx != -1 && table == 0 {
              table, index := 1, 0;
              ht := d.table1;
            } else {
              YieldsNull(d.ty, s', from, y);
              return None;
            }
          }
          YieldsEnter(d.ty, s', from, It(), y);
          var chain := ht[index];
          if chain != [] {
            entry, nextEntry := KeyAt(chain, 0), KeyAt(chain, 1);
            return Some(chain[0]);
          }
        } else if nextEntry == None {
          YieldsClear(d.ty, s', It(), y);
          entry := None;
        } else {
          r := Follow(ht[index], y);
          return;
        }
      }
    }

    /** On to the saved next entry. */
    method Follow(chain: seq<Entry<K, V>>, ghost y: (Iter<K>, Option<Entry<K, V>>)) returns (r: Option<Entry<K, V>>)
      requires IterOk(d.ty, d.Abs(), It()) && Yields(d.ty, d.Abs(), It(), y) && entry.Some? && nextEntry.Some?
      requires table <= 1 && 0 <= index < |TableOf(d.Abs(), table).buckets|
      requires chain == TableOf(d.Abs(), table).buckets[index] && FindIn(d.ty, chain, nextEntry.value) < |chain|
      modifies this
      ensures (It(), r) == y
    {
      hide FindIn, KeyAt, IterOk, Yields, NextFrom, Enter;
      YieldsFollow(d.ty, d.Abs(), It(), y);
      var p := d.WalkChain(chain, nextEntry.value);
      entry, nextEntry := nextEntry, KeyAt(chain, p + 1);
      return Some(chain[p]);
    }

    /** dictReleaseIterator */
    method Release()
      requires (index == -1 && table == 0) || d.iterators > 0
      modifies d`iterators
      ensures var started := !(index == -1 && table == 0);
              d.Abs() == old(d.Abs()).(iterators := old(d.iterators) - if started then 1 else 0)
    {
      if !(index == -1 && table == 0) {
        d.iterators := d.iterators - 1;
      }
    }
  }

  // What the methods need to know about the functions they are proved against.

  lemma AddKeeps<K(!new), V>(ty: DictType<K>, s: State<K, V>, canResize: bool, k: K, v: V)
    requires Lawful(ty) && Valid(ty, s) && GrowthFits(Step(ty, s), canResize)
    ensures Valid(ty, DictSpec.Add(ty, s, canResize, k, v).0)
    ensures |Step(ty, s).ht0.buckets| > 0 <==> |s.ht0.buckets| > 0
    ensures DictSpec.ExpandIfNeeded(Step(ty, s), canResize).1
  {
    AddOk(ty, s, canResize, k, v);
    StepOk(ty, s);
    ExpandIfNeededOk(ty, Step(ty, s), canResize);
  }

  lemma ReplaceKeeps<K(!new), V>(ty: DictType<K>, s: State<K, V>, canResize: bool, k: K, v: V)
    requires Lawful(ty) && Valid(ty, s) && GrowthFits(Step(ty, s), canResize)
    ensures Valid(ty, DictSpec.Replace(ty, s, canResize, k, v).0)
    ensures var (s1, added) := DictSpec.Add(ty, s, canResize, k, v);
            var (s2, l) := DictSpec.Find(ty, s1, k);
            !added ==> l.At? && l.table <= 1 && EntryAt(s2, l).Some?
  {
    ReplaceOk(ty, s, canResize, k, v);
    AddOk(ty, s, canResize, k, v);
    FindOk(ty, DictSpec.Add(ty, s, canResize, k, v).0, k);
  }

  lemma DeleteKeeps<K(!new), V>(ty: DictType<K>, s: State<K, V>, k: K)
    requires Lawful(ty) && Valid(ty, s) && |s.ht0.buckets| > 0
    ensures Valid(ty, DictSpec.Delete(ty, s, k).0)
    ensures |Step(ty, s).ht0.buckets| > 0
    ensures var l := Locate(ty, Step(ty, s), k); l.At? ==> l.table <= 1 && EntryAt(Step(ty, s), l).Some?
  {
    DeleteOk(ty, s, k);
    StepOk(ty, s);
    LocateOk(ty, Step(ty, s), k);
  }

  lemma TableSizes<K, V>(ty: DictType<K>, s: State<K, V>)
    requires Valid(ty, s)
    ensures s.Rehashing() ==> |s.ht1.buckets| > 0 && |s.ht0.buckets| > 0
  {
  }

  lemma RehashValid<K, V>(ty: DictType<K>, s: State<K, V>, n: nat)
    requires Valid(ty, s)
    ensures Valid(ty, DictSpec.Rehash(ty, s, n).0)
  {
    RehashOk(ty, s, n);
  }

  lemma ValidIsCore<K, V>(ty: DictType<K>, s: State<K, V>)
    requires Valid(ty, s)
    ensures Core(ty, s)
  {
  }

  lemma CoreRehashing<K, V>(ty: DictType<K>, s: State<K, V>)
    requires Core(ty, s) && s.Rehashing()
    ensures |s.ht1.buckets| > 0 && s.rehashidx >= 0
  {
  }

  lemma MoveOne<K, V>(ty: DictType<K>, chain: seq<Entry<K, V>>, t: Table<K, V>)
    requires chain != [] && |t.buckets| > 0
    ensures var i := Slot(ty.hash(chain[0].key), |t.buckets|);
            MoveChain(ty, chain, t) ==
            MoveChain(ty, chain[1..], Table(t.buckets[i := [chain[0]] + t.buckets[i]], t.used + 1))
  {
    hide Slot;
  }

  lemma MoveNone<K, V>(ty: DictType<K>, t: Table<K, V>)
    ensures MoveChain(ty, [], t) == t
  {
  }

  /** What dictRehash returns from here. */
  ghost predicate LeadsTo<K, V>(ty: DictType<K>, s: State<K, V>, n: nat, visits: int, r: (State<K, V>, bool)) {
    RehashLoop(ty, s, n, visits) == r
  }

  // One turn of the loop of dictRehash, as its function unfolds.

  lemma LoopSkip<K, V>(ty: DictType<K>, s: State<K, V>, n: nat, visits: int, r: (State<K, V>, bool))
    requires n > 0 && s.ht0.used != 0 && 0 <= s.rehashidx < |s.ht0.buckets|
    requires s.ht0.buckets[s.rehashidx] == [] && LeadsTo(ty, s, n, visits, r)
    ensures var s' := s.(rehashidx := s.rehashidx + 1);
            if visits - 1 == 0 then r == (s', true) else LeadsTo(ty, s', n, visits - 1, r)
  {
  }

  lemma LoopMove<K, V>(ty: DictType<K>, s: State<K, V>, n: nat, visits: int, r: (State<K, V>, bool))
    requires n > 0 && s.ht0.used != 0 && 0 <= s.rehashidx < |s.ht0.buckets|
    requires s.ht0.buckets[s.rehashidx] != [] && LeadsTo(ty, s, n, visits, r)
    ensures LeadsTo(ty, MoveBucket(ty, s), n - 1, visits, r)
  {
  }

  lemma LoopEnd<K, V>(ty: DictType<K>, s: State<K, V>, n: nat, visits: int, r: (State<K, V>, bool))
    requires (n == 0 || s.ht0.used == 0) && LeadsTo(ty, s, n, visits, r)
    ensures r == if s.ht0.used == 0 then (Finish(s).0, false) else (s, true)
  {
  }

  lemma NextKeeps<K(!new), V>(ty: DictType<K>, s: State<K, V>, it: Iter<K>)
    requires Lawful(ty) && Valid(ty, s) && IterOk(ty, s, it)
    ensures Valid(ty, s.(iterators := s.iterators + 1)) && IterOk(ty, s.(iterators := s.iterators + 1), it)
    ensures it.index == -1 ==> it.entry.None?
  {
  }

  /** What dictNext returns from here. */
  ghost predicate Yields<K, V>(ty: DictType<K>, s: State<K, V>, it: Iter<K>, y: (Iter<K>, Option<Entry<K, V>>)) {
    NextFrom(ty, s, it) == y
  }

  lemma IterInside<K, V>(ty: DictType<K>, s: State<K, V>, it: Iter<K>)
    requires IterOk(ty, s, it)
    ensures it.table <= 1 && it.index >= -1 && (it.table == 1 ==> s.Rehashing())
    ensures it.entry.None? ==> it.nextEntry.None?
    ensures it.nextEntry.Some? ==>
              && 0 <= it.index < |TableOf(s, it.table).buckets|
              && FindIn(ty, TableOf(s, it.table).buckets[it.index], it.nextEntry.value)
                 < |TableOf(s, it.table).buckets[it.index]|
  {
  }

  // One turn of the loop of dictNext, as its function unfolds.

  lemma YieldsNull<K, V>(ty: DictType<K>, s: State<K, V>, it: Iter<K>, y: (Iter<K>, Option<Entry<K, V>>))
    requires Yields(ty, s, it, y) && it.entry.None?
    requires it.index + 1 >= |TableOf(s, it.table).buckets| && !(s.Rehashing() && it.table == 0)
    ensures y == (it.(index := it.index + 1), None)
  {
  }

  lemma YieldsEnter<K, V>(ty: DictType<K>, s: State<K, V>, it: Iter<K>, to: Iter<K>, y: (Iter<K>, Option<Entry<K, V>>))
    requires Yields(ty, s, it, y) && it.entry.None? && to.entry.None? && to.nextEntry.None?
    requires it.table <= 1 && it.index >= -1
    requires to.table <= 1 && 0 <= to.index < |TableOf(s, to.table).buckets|
    requires || (to.table == it.table && to.index == it.index + 1 && (it.table == 1 ==> s.Rehashing()))
             || (it.index + 1 >= |TableOf(s, 0).buckets| && s.Rehashing()
                 && it.table == 0 && to.table == 1 && to.index == 0)
    ensures var chain := TableOf(s, to.table).buckets[to.index];
            if chain == [] then Yields(ty, s, to, y) && IterOk(ty, s, to)
            else y == (to.(entry := KeyAt(chain, 0), nextEntry := KeyAt(chain, 1)), Some(chain[0]))
  {
    assert NextFrom(ty, s, it) == Enter(ty, s, it, to);
  }

  lemma YieldsClear<K, V>(ty: DictType<K>, s: State<K, V>, it: Iter<K>, y: (Iter<K>, Option<Entry<K, V>>))
    requires Yields(ty, s, it, y) && it.entry.Some? && it.nextEntry.None? && IterOk(ty, s, it)
    ensures Yields(ty, s, it.(entry := None), y) && IterOk(ty, s, it.(entry := None))
  {
  }

  lemma YieldsFollow<K, V>(ty: DictType<K>, s: State<K, V>, it: Iter<K>, y: (Iter<K>, Option<Entry<K, V>>))
    requires Yields(ty, s, it, y) && it.entry.Some? && it.nextEntry.Some? && IterOk(ty, s, it)
    ensures var chain := Here(s, it);
            var p := FindIn(ty, chain, it.nextEntry.value);
            p < |chain| && y == (it.(entry := it.nextEntry, nextEntry := KeyAt(chain, p + 1)), Some(chain[p]))
  {
  }
}
