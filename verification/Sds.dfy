/**
 sds.c: the dynamic string itself, with its growth policy, and the operations
 that append to it or cut it in place.
 */
module Sds {
  import opened Common
  import opened SdsSplit
  import opened SdsRepr
  import opened Words

  const MAX_PREALLOC: nat := 0x10_0000

  // ---------------------------------------------------------- growth policy

  /** The capacity sdsMakeRoomFor leaves: unchanged if the room is there. */
  function Capacity(len: nat, free: nat, add: nat): (c: nat)
    ensures c >= len + add && c >= len + free
  {
    if free >= add then len + free
    else if len + add < MAX_PREALLOC then (len + add) * 2
    else len + add + MAX_PREALLOC
  }

  /** A string that moves gets twice what it needs, but never more than MAX_PREALLOC bytes to spare. */
  lemma CapacityIs(len: nat, free: nat, add: nat)
    ensures var need, c := len + add, Capacity(len, free, add);
            if free >= add then c == len + free
            else c <= 2 * need && c <= need + MAX_PREALLOC && (c == 2 * need || c == need + MAX_PREALLOC)
  {
  }

  /** How often appending pieces of these sizes moves the string. */
  function Moves(len: nat, free: nat, sizes: seq<nat>): nat
    decreases |sizes|
  {
    if sizes == [] then 0
    else var add := sizes[0];
         (if free >= add then 0 else 1) + Moves(len + add, Capacity(len, free, add) - len - add, sizes[1..])
  }

  function Sum(sizes: seq<nat>): nat {
    if sizes == [] then 0 else sizes[0] + Sum(sizes[1..])
  }

  /**
   After n moves: the capacity has doubled with each of at most 20 of them,
   and every other took the string a further MAX_PREALLOC bytes.
   */
  ghost predicate Grown(len: nat, cap: nat, n: nat) {
    || (n <= 20 && cap + 2 >= 2 * Pow2(n) && len <= cap)
    || (n > 20 && len >= (n - 20) * MAX_PREALLOC && cap >= (n - 20) * MAX_PREALLOC + MAX_PREALLOC)
  }

  lemma GrownStep(len: nat, cap: nat, n: nat, add: nat)
    requires Grown(len, cap, n) && len <= cap
    ensures Grown(len + add, Capacity(len, cap - len, add), if cap - len >= add then n else n + 1)
  {
    hide Pow2;
    if cap - len < add {
      PowStep(n);
      if n == 20 {
        assert Pow2(20) == MAX_PREALLOC by { Pow20(); }
      } else if n < 20 {
        PowBound(n + 1);
      } else {
        assert (n + 1 - 20) * MAX_PREALLOC == (n - 20) * MAX_PREALLOC + MAX_PREALLOC;
      }
    }
  }

  lemma PowStep(n: nat)
    ensures Pow2(n + 1) == 2 * Pow2(n)
  {
  }

  lemma {:induction false} PowBound(n: nat)
    requires n <= 20
    ensures Pow2(n) <= MAX_PREALLOC
    decreases 20 - n
  {
    if n == 20 {
      Pow20();
    } else {
      PowBound(n + 1);
    }
  }

  lemma Pow20()
    ensures Pow2(20) == MAX_PREALLOC
  {
    assert Pow2(4) == 16 by { assert Pow2(2) == 4; }
    assert Pow2(8) == 256 by { assert Pow2(6) == 64; }
    assert Pow2(12) == 4096 by { assert Pow2(10) == 1024; }
    assert Pow2(16) == 65536 by { assert Pow2(14) == 16384; }
    assert Pow2(20) == 0x10_0000 by { assert Pow2(18) == 0x4_0000; }
  }

  lemma {:induction false} GrownRun(len: nat, free: nat, n: nat, sizes: seq<nat>)
    requires Grown(len, len + free, n)
    ensures var over := n + Moves(len, free, sizes) - 20; over >= 0 ==> over * MAX_PREALLOC <= len + Sum(sizes)
    decreases |sizes|
  {
    if sizes != [] {
      var add := sizes[0];
      GrownStep(len, len + free, n, add);
      GrownRun(len + add, Capacity(len, free, add) - len - add, if free >= add then n else n + 1, sizes[1..]);
    }
  }

  /** Appending pieces of any sizes, N bytes in all, to an empty string moves it at most 20 + N / 2^20 times. */
  lemma GrowthBound(sizes: seq<nat>)
    ensures Moves(0, 0, sizes) <= 20 + Sum(sizes) / MAX_PREALLOC
  {
    assert Pow2(0) == 1;
    GrownRun(0, 0, 0, sizes);
  }

  // ----------------------------------------------------------------- ranges

  /** A bound counted from the end if negative, no lower than 0. */
  function Bound(len: nat, i: int): nat {
    if i >= 0 then i else if len + i >= 0 then len + i else 0
  }

  /** What sdsrange keeps: from start to end, both included. */
  function Kept(s: seq<byte>, start: int, end: int): seq<byte> {
    var from, to := Bound(|s|, start), Bound(|s|, end);
    if s == [] || from > to || from >= |s| then []
    else if to >= |s| then s[from..]
    else s[from..to + 1]
  }

  // ----------------------------------------------------------------- string

  class Sds {
    var len: nat
    var free: nat
    var buf: array<byte>

    ghost predicate Valid()
      reads this, buf
    {
      buf.Length == len + free + 1 && buf[len] == 0
    }

    ghost function Contents(): seq<byte>
      reads this, buf
      requires Valid()
    {
      buf[..len]
    }

    /** sdsnewlen. */
    constructor (init: seq<byte>)
      ensures Valid() && fresh(buf) && Contents() == init && free == 0
    {
      var b := new byte[|init| + 1];
      forall i | 0 <= i < |init| {
        b[i] := init[i];
      }
      b[|init|] := 0;
      buf := b;
      len := |init|;
      free := 0;
      new;
      assert buf[..len] == init;
    }

    /** sdsMakeRoomFor. The string moves exactly when the room is not there. */
    method MakeRoomFor(addlen: nat)
      requires Valid()
      modifies this
      ensures Valid() && Contents() == old(Contents())
      ensures len == old(len) && len + free == Capacity(old(len), old(free), addlen)
      ensures if old(free) >= addlen then buf == old(buf) else fresh(buf)
    {
      if free >= addlen {
        return;
      }
      var newlen := len + addlen;
      if newlen < MAX_PREALLOC {
        newlen := newlen * 2;
      } else {
        newlen := newlen + MAX_PREALLOC;
      }
      var b := new byte[newlen + 1];
      forall i | 0 <= i < buf.Length {
        b[i] := buf[i];
      }
      assert b[..len] == buf[..len];
      buf := b;
      free := newlen - len;
    }

    /** sdscatlen. */
    method CatLen(t: seq<byte>)
      requires Valid()
      modifies this, buf
      ensures Valid() && Contents() == old(Contents()) + t
      ensures len + free == Capacity(old(len), old(free), |t|)
      ensures if old(free) >= |t| then buf == old(buf) else fresh(buf)
    {
      var curlen := len;
      MakeRoomFor(|t|);
      ghost var was := buf[..curlen];
      forall i | 0 <= i < |t| {
        buf[curlen + i] := t[i];
      }
      len := curlen + |t|;
      free := free - |t|;
      buf[len] := 0;
      assert buf[..len] == was + t;
    }

    /** One sdscatlen after another, counting how often the string moves. */
    method CatAll(pieces: seq<seq<byte>>) returns (moves: nat)
      requires Valid()
      modifies this, buf
      ensures Valid() && Contents() == old(Contents()) + Concat(pieces)
      ensures moves == Moves(old(len), old(free), Sizes(pieces))
      ensures len == old(len) + Sum(Sizes(pieces)) && len + free >= old(len + free)
    {
      hide Capacity, Moves, Concat, Sum;
      moves := 0;
      var i := 0;
      assert pieces[0..] == pieces;
      while i < |pieces|
        invariant 0 <= i <= |pieces| && Valid() && (buf == old(buf) || fresh(buf))
        invariant len + free >= old(len + free)
        invariant Contents() + Concat(pieces[i..]) == old(Contents()) + Concat(pieces)
        invariant moves + Moves(len, free, Sizes(pieces[i..])) == Moves(old(len), old(free), Sizes(pieces))
        invariant len + Sum(Sizes(pieces[i..])) == old(len) + Sum(Sizes(pieces))
      {
        ghost var now := Contents();
        AppendOne(pieces[i..], len, free);
        assert pieces[i..][1..] == pieces[i + 1..] && pieces[i..][0] == pieces[i];
        var was := buf;
        CatLen(pieces[i]);
        if buf != was {
          moves := moves + 1;
        }
        assert now + (pieces[i] + Concat(pieces[i + 1..])) == now + pieces[i] + Concat(pieces[i + 1..]);
        i := i + 1;
      }
      NoPieces(len, free);
      assert pieces[i..] == [];
      assert Contents() + [] == Contents();
    }

    /** The switch of sdscatrepr. */
    method CatEscape(c: byte)
      requires Valid()
      modifies this, buf
      ensures Valid() && Contents() == old(Contents()) + Escape(c)
      ensures buf == old(buf) || fresh(buf)
    {
      hide Escape, HexDigit, Capacity;
      CharEscape(c);
      if c == SLASH || c == QUOTE {
        CatLen([SLASH, c]);
      } else if c == 10 {
        CatLen([SLASH, 110]);
      } else if c == 13 {
        CatLen([SLASH, 114]);
      } else if c == 9 {
        CatLen([SLASH, 116]);
      } else if c == 7 {
        CatLen([SLASH, 97]);
      } else if c == 8 {
        CatLen([SLASH, 98]);
      } else if IsPrint(c) {
        CatLen([c]);
      } else {
        CatLen([SLASH, 120, HexDigit(c / 16), HexDigit(c % 16)]);
      }
    }

    /** sdscatrepr. */
    method CatRepr(p: seq<byte>)
      requires Valid()
      modifies this, buf
      ensures Valid() && Contents() == old(Contents()) + Quoted(p)
      ensures buf == old(buf) || fresh(buf)
    {
      hide Escape, HexDigit, Capacity;
      ghost var was := Contents();
      CatLen([QUOTE]);
      var i := 0;
      while i < |p|
        invariant 0 <= i <= |p| && Valid() && (buf == old(buf) || fresh(buf))
        invariant Contents() + Escaped(p[i..]) == was + [QUOTE] + Escaped(p)
      {
        var c := p[i];
        ghost var now := Contents();
        CatEscape(c);
        assert p[i..][1..] == p[i + 1..];
        assert now + Escaped(p[i..]) == now + Escape(c) + Escaped(p[i + 1..]);
        i := i + 1;
      }
      assert p[i..] == [];
      assert Contents() + Escaped([]) == Contents();
      CatLen([QUOTE]);
      assert was + [QUOTE] + Escaped(p) + [QUOTE] == was + Quoted(p);
    }

    /** sdsrange: cuts in place. */
    method Range(start: int, end: int)
      requires Valid()
      modifies this, buf
      ensures Valid() && Contents() == Kept(old(Contents()), start, end)
      ensures buf == old(buf) && len + free == old(len + free)
    {
      if len == 0 {
        return;
      }
      hide Kept, Bound;
      ghost var b := buf[..];
      var from, newlen := Clip(start, end);
      SliceOfPrefix(b, len, from, newlen);
      if from != 0 && newlen != 0 {
        MoveDown(from, newlen);
      }
      assert buf[..newlen] == b[from..from + newlen];
      buf[newlen] := 0;
      free := free + (len - newlen);
      len := newlen;
    }

    /** The bounds of sdsrange, counted from either end: where what is kept begins, and its length. */
    method Clip(start: int, end: int) returns (from: nat, newlen: nat)
      requires Valid() && len != 0
      ensures from + newlen <= len && Kept(Contents(), start, end) == Contents()[from..from + newlen]
    {
      var first: int, last: int := start, end;
      if first < 0 {
        first := len + first;
        if first < 0 {
          first := 0;
        }
      }
      if last < 0 {
        last := len + last;
        if last < 0 {
          last := 0;
        }
      }
      var n := if first > last then 0 else last - first + 1;
      if n != 0 {
        if first >= len {
          n := 0;
        } else if last >= len {
          last := len - 1;
          n := if first > last then 0 else last - first + 1;
        }
      } else {
        first := 0;
      }
      hide Kept;
      KeptSlice(Contents(), start, end, first, n);
      from, newlen := if n == 0 then 0 else first, n;
    }

    /** memmove to the front. */
    method MoveDown(from: nat, n: nat)
      requires from + n < buf.Length
      modifies buf
      ensures buf[..n] == old(buf[from..from + n])
    {
      forall i | 0 <= i < n {
        buf[i] := buf[from + i];
      }
    }
  }

  lemma SliceOfPrefix(b: seq<byte>, len: nat, from: nat, n: nat)
    requires from + n <= len <= |b|
    ensures b[..len][from..from + n] == b[from..from + n]
  {
  }

  lemma KeptSlice(s: seq<byte>, start: int, end: int, from: int, n: nat)
    requires s != []
    requires var a, b := Bound(|s|, start), Bound(|s|, end);
             if a > b || a >= |s| then n == 0 else from == a && n == (if b >= |s| then |s| - 1 else b) - a + 1
    ensures n == 0 ==> Kept(s, start, end) == []
    ensures n != 0 ==> 0 <= from && from + n <= |s| && Kept(s, start, end) == s[from..from + n]
  {
  }

  /** From start to end, counted from the end of the string if negative; an end before it counts as its first byte. */
  predicate InRange(n: nat, start: int, end: int, k: nat) {
    && (if start < 0 then n + start else start) <= k
    && if end < 0 then k <= n + end || k == 0 else k <= end
  }

  /** sdsrange keeps one piece of the string, the bytes in range. */
  lemma KeptExact(s: seq<byte>, start: int, end: int) returns (a: nat, b: nat)
    ensures a <= b <= |s| && Kept(s, start, end) == s[a..b]
    ensures forall k :: 0 <= k < |s| ==> (a <= k < b <==> InRange(|s|, start, end, k))
    ensures s != [] ==> Kept(s, 1, -1) == s[1..] && Kept(s, 0, -|s| - 1) == [s[0]]
  {
    var from, to := Bound(|s|, start), Bound(|s|, end);
    if from > to || from >= |s| {
      return 0, 0;
    }
    return from, if to < |s| then to + 1 else |s|;
  }

  function Concat(pieces: seq<seq<byte>>): seq<byte> {
    if pieces == [] then [] else pieces[0] + Concat(pieces[1..])
  }

  function Sizes(pieces: seq<seq<byte>>): seq<nat> {
    seq(|pieces|, i requires 0 <= i < |pieces| => |pieces[i]|)
  }

  lemma AppendOne(pieces: seq<seq<byte>>, len: nat, free: nat)
    requires pieces != []
    ensures Concat(pieces) == pieces[0] + Concat(pieces[1..])
    ensures Sum(Sizes(pieces)) == |pieces[0]| + Sum(Sizes(pieces[1..]))
    ensures var add := |pieces[0]|;
            Moves(len, free, Sizes(pieces)) ==
            (if free >= add then 0 else 1)
            + Moves(len + add, Capacity(len, free, add) - len - add, Sizes(pieces[1..]))
  {
    assert Sizes(pieces)[1..] == Sizes(pieces[1..]);
  }

  lemma NoPieces(len: nat, free: nat)
    ensures Concat([]) == [] && Sum(Sizes([])) == 0 && Moves(len, free, Sizes([])) == 0
  {
  }

  lemma {:induction false} SizeOfAll(pieces: seq<seq<byte>>)
    ensures |Concat(pieces)| == Sum(Sizes(pieces))
  {
    if pieces != [] {
      AppendOne(pieces, 0, 0);
      SizeOfAll(pieces[1..]);
    }
  }

  /** A string built from pieces: their concatenation, with at most 20 + N / 2^20 moves for N bytes. */
  method BuildUp(pieces: seq<seq<byte>>) returns (s: Sds, moves: nat)
    ensures fresh(s) && s.Valid() && s.Contents() == Concat(pieces)
    ensures moves <= 20 + |Concat(pieces)| / MAX_PREALLOC
  {
    hide Moves, Concat, Sum, Sizes;
    s := new Sds([]);
    moves := s.CatAll(pieces);
    GrowthBound(Sizes(pieces));
    SizeOfAll(pieces);
    assert [] + Concat(pieces) == Concat(pieces);
  }

  lemma CharEscape(c: byte)
    ensures Escape(c) == if c == SLASH || c == QUOTE then [SLASH, c] else if c == 10 then [SLASH, 110]
                         else if c == 13 then [SLASH, 114] else if c == 9 then [SLASH, 116]
                         else if c == 7 then [SLASH, 97] else if c == 8 then [SLASH, 98]
                         else if IsPrint(c) then [c] else [SLASH, 120, HexDigit(c / 16), HexDigit(c % 16)]
  {
  }

  /** sdsjoin, of C strings. */
  method JoinAll(argv: seq<seq<byte>>, sep: seq<byte>) returns (join: Sds)
    ensures fresh(join) && join.Valid() && join.Contents() == JoinStrings(argv, sep)
  {
    hide Capacity, Join, Joins;
    ghost var c := seq(|argv|, i requires 0 <= i < |argv| => CString(argv[i]));
    ghost var glue := CString(sep);
    join := new Sds([]);
    JoinsStart(c, glue);
    var j := 0;
    while j < |argv|
      invariant 0 <= j <= |argv| && fresh(join) && fresh(join.buf) && join.Valid()
      invariant Joins(join.Contents(), c, j, glue)
    {
      JoinsMore(join.Contents(), c, j, glue);
      join.CatLen(CString(argv[j]));
      if j != |argv| - 1 {
        join.CatLen(CString(sep));
      }
      j := j + 1;
    }
    assert join.Contents() == Join(c, glue) by { JoinsEnd(join.Contents(), c, glue); }
  }

  /** What is built so far is the join up to item j. */
  ghost predicate Joins(s: seq<byte>, c: seq<seq<byte>>, j: nat, glue: seq<byte>)
    requires j <= |c|
  {
    s + Join(c[j..], glue) == Join(c, glue)
  }

  lemma JoinsStart(c: seq<seq<byte>>, glue: seq<byte>)
    ensures Joins([], c, 0, glue)
  {
    hide Join;
    assert c[0..] == c;
    assert [] + Join(c, glue) == Join(c, glue);
  }

  lemma JoinsMore(s: seq<byte>, c: seq<seq<byte>>, j: nat, glue: seq<byte>)
    requires j < |c| && Joins(s, c, j, glue)
    ensures Joins(s + c[j] + if j < |c| - 1 then glue else [], c, j + 1, glue)
    ensures j == |c| - 1 ==> Joins(s + c[j], c, j + 1, glue)
  {
    var t := c[j..];
    assert t[1..] == c[j + 1..];
    assert s + (t[0] + glue + Join(t[1..], glue)) == s + t[0] + glue + Join(t[1..], glue);
    assert j == |c| - 1 ==> s + c[j] + [] == s + c[j] && Join(t[1..], glue) == [];
  }

  lemma JoinsEnd(s: seq<byte>, c: seq<seq<byte>>, glue: seq<byte>)
    requires Joins(s, c, |c|, glue)
    ensures s == Join(c, glue)
  {
    assert c[|c|..] == [];
    assert s + [] == s;
  }
}
