/**
 sds.c: sdsll2str and sdsull2str, a digit loop from the right followed by a
 reversal in place, and the decimal text they produce.
 */
module SdsNumber {
  import opened Common

  const LLSTR_SIZE: nat := 21
  const LLONG_MIN: int := -0x8000_0000_0000_0000
  const ULLONG_SIZE: nat := 0x1_0000_0000_0000_0000

  type longlong = x: int | LLONG_MIN <= x < 0x8000_0000_0000_0000
  type ulonglong = x: int | 0 <= x < ULLONG_SIZE

  // ------------------------------------------------------- decimal numbers

  /** The number a string of digits stands for. */
  function Number(s: seq<byte>): int {
    if s == [] then 0 else 10 * Number(s[..|s| - 1]) + s[|s| - 1] - 48
  }

  /** Digits only, at least one, and no zero in front of others. */
  predicate Canonical(s: seq<byte>) {
    && s != []
    && (forall i :: 0 <= i < |s| ==> 48 <= s[i] <= 57)
    && (|s| > 1 ==> s[0] != 48)
  }

  /** Text stands for value: canonical digits, with a minus before them exactly for a negative one. */
  predicate Denotes(text: seq<byte>, value: int) {
    if value < 0 then text != [] && text[0] == 45 && Canonical(text[1..]) && Number(text[1..]) == -value
    else Canonical(text) && Number(text) == value
  }

  function Power10(k: nat): (p: nat)
    ensures p > 0
  {
    if k == 0 then 1 else 10 * Power10(k - 1)
  }

  /** The size of a canonical number fixes its number of digits. */
  lemma {:induction false} NumberSize(s: seq<byte>)
    requires Canonical(s)
    ensures 0 <= Number(s) < Power10(|s|)
    ensures |s| > 1 ==> Power10(|s| - 1) <= Number(s)
  {
    var n := |s| - 1;
    var d: int := s[n] - 48;
    if n > 0 {
      assert Canonical(s[..n]);
      NumberSize(s[..n]);
    } else {
      assert Number(s[..0]) == 0;
      assert Power10(1) == 10 * Power10(0);
    }
  }

  /** There is one canonical text for a number. */
  lemma {:induction false} DenotesUnique(s: seq<byte>, t: seq<byte>)
    requires Canonical(s) && Canonical(t) && Number(s) == Number(t)
    ensures s == t
    decreases |s|
  {
    var m, n := |s| - 1, |t| - 1;
    assert s == s[..m] + [s[m]] && t == t[..n] + [t[n]];
    if m > 0 && n > 0 {
      DenotesUnique(s[..m], t[..n]);
    } else {
      NumberSize(s);
      NumberSize(t);
      assert Power10(1) == 10 * Power10(0);
      SizeMono(1, m);
      SizeMono(1, n);
    }
  }

  lemma {:induction false} SizeMono(a: nat, b: nat)
    ensures a <= b ==> Power10(a) <= Power10(b)
    decreases b
  {
    if a < b {
      SizeMono(a, b - 1);
    }
  }

  lemma Powers()
    ensures ULLONG_SIZE <= Power10(20) && -LLONG_MIN < Power10(19)
  {
    assert Power10(4) == 10000 by { assert Power10(2) == 100; }
    assert Power10(8) == 1_0000_0000 by { assert Power10(6) == 100_0000; }
    assert Power10(12) == 1_0000_0000_0000 by { assert Power10(10) == 100_0000_0000; }
    assert Power10(16) == 1_0000_0000_0000_0000 by { assert Power10(14) == 100_0000_0000_0000; }
    assert Power10(20) == 1_0000_0000_0000_0000_0000 by { assert Power10(18) == 100_0000_0000_0000_0000; }
    assert Power10(20) == 10 * Power10(19);
  }

  // -------------------------------------------------- digits from the right

  /** The number whose low digits are r, lowest first, and whose other digits are v. */
  function Above(r: seq<byte>, v: int): int {
    if r == [] then v else Above(r[..|r| - 1], 10 * v + r[|r| - 1] - 48)
  }

  function Reversed(r: seq<byte>): (s: seq<byte>)
    ensures |s| == |r|
  {
    seq(|r|, i requires 0 <= i < |r| => r[|r| - 1 - i])
  }

  /** Digits written lowest first and then reversed are read highest first. */
  lemma {:induction false} AboveNumber(r: seq<byte>, v: int, high: seq<byte>)
    requires Number(high) == v
    ensures Number(high + Reversed(r)) == Above(r, v)
    decreases |r|
  {
    var n := |r| - 1;
    if r == [] {
      assert high + Reversed(r) == high;
    } else {
      var more := high + [r[n]];
      assert more[..|high|] == high;
      AboveNumber(r[..n], 10 * v + r[n] - 48, more);
      assert high + Reversed(r) == more + Reversed(r[..n]);
    }
  }

  lemma ReversedCanonical(r: seq<byte>, v: nat)
    requires r != [] && forall i :: 0 <= i < |r| ==> 48 <= r[i] <= 57
    requires |r| > 1 ==> r[|r| - 1] != 48
    requires Above(r, 0) == v
    ensures Denotes(Reversed(r), v)
  {
    hide Above;
    AboveNumber(r, 0, []);
    assert [] + Reversed(r) == Reversed(r);
  }

  lemma AboveMore(r: seq<byte>, d: byte, v: int)
    ensures Above(r + [d], v) == Above(r, 10 * v + d - 48)
  {
    assert (r + [d])[..|r|] == r;
  }

  /** The digit loop: how many digits v has, and the digits from the right. */
  method PutDigits(s: array<byte>, value: ulonglong, ghost n: nat) returns (p: nat)
    requires value < Power10(n) && 0 < n < s.Length
    modifies s
    ensures 0 < p <= n && Denotes(Reversed(s[..p]), value)
    ensures forall i :: n <= i < s.Length ==> s[i] == old(s[i])
  {
    hide Power10, Above;
    var v: nat := value;
    p := 0;
    var more := true;
    AboveNone(v);
    while more
      invariant p <= n && Above(s[..p], v) == value && v < Power10(n - p)
      invariant forall i :: 0 <= i < p ==> 48 <= s[i] <= 57
      invariant if more then p == 0 || v > 0 else v == 0 && p > 0 && (p > 1 ==> s[p - 1] != 48)
      invariant forall i :: n <= i < s.Length ==> s[i] == old(s[i])
      decreases more, v
    {
      PowerDown(v, n - p);
      ghost var before := s[..p];
      s[p] := 48 + v % 10;
      AboveMore(before, s[p], v / 10);
      p := p + 1;
      assert s[..p] == before + [s[p - 1]];
      v := v / 10;
      more := v != 0;
    }
    ReversedCanonical(s[..p], value);
  }

  lemma AboveNone(v: int)
    ensures Above([], v) == v
  {
  }

  /** A number below 10^k with k = 0 is 0; otherwise dropping a digit takes it below 10^(k - 1). */
  lemma PowerDown(v: nat, k: nat)
    requires v < Power10(k)
    ensures k > 0 ==> v / 10 < Power10(k - 1)
    ensures k == 0 ==> v == 0
    ensures k == 1 ==> v / 10 == 0
  {
    if k > 0 {
      assert Power10(k) == 10 * Power10(k - 1);
    }
  }

  /** The reversal in place between two moving pointers. */
  method Reverse(s: array<byte>, l: nat)
    requires 0 < l <= s.Length
    modifies s
    ensures s[..l] == Reversed(old(s[..l])) && forall i :: l <= i < s.Length ==> s[i] == old(s[i])
  {
    var lo, hi := 0, l - 1;
    while lo < hi
      invariant 0 <= lo <= hi + 1 && lo + hi == l - 1
      invariant forall i :: lo <= i <= hi ==> s[i] == old(s[i])
      invariant forall i :: 0 <= i < lo ==> s[i] == old(s[l - 1 - i]) && s[l - 1 - i] == old(s[i])
      invariant forall i :: l <= i < s.Length ==> s[i] == old(s[i])
    {
      s[lo], s[hi] := s[hi], s[lo];
      lo := lo + 1;
      hi := hi - 1;
    }
    forall i | 0 <= i < l
      ensures s[..l][i] == Reversed(old(s[..l]))[i]
    {
      assert i >= lo ==> s[l - 1 - (l - 1 - i)] == old(s[l - 1 - i]);
    }
  }

  /** `-value` in 64 bits: the smallest number is its own negation. */
  function Negate(value: longlong): longlong {
    if value == LLONG_MIN then LLONG_MIN else -value
  }

  function ToUnsigned(value: longlong): ulonglong {
    value % ULLONG_SIZE
  }

  /** sdsll2str: the decimal text of any value and a NUL, within LLSTR_SIZE bytes. */
  method LL2Str(s: array<byte>, value: longlong) returns (l: nat)
    requires s.Length >= LLSTR_SIZE
    modifies s
    ensures l < LLSTR_SIZE && Denotes(s[..l], value) && s[l] == 0
    ensures forall i :: LLSTR_SIZE <= i < s.Length ==> s[i] == old(s[i])
  {
    hide Reversed, Denotes, Power10;
    Powers();
    var v := ToUnsigned(if value < 0 then Negate(value) else value);
    ghost var w: int := value;
    assert v == if w < 0 then -w else w;
    var p := PutDigits(s, v, 19);
    ghost var r := s[..p];
    if value < 0 {
      s[p] := 45;
      p := p + 1;
      assert s[..p] == r + [45];
      ReversedLast(r, 45);
    }
    s[p] := 0;
    l := p;
    ghost var t := s[..l];
    assert t == if value < 0 then r + [45] else r;
    Reverse(s, l);
    assert s[..l] == Reversed(t);
    if value < 0 {
      Negative(Reversed(r), v);
      assert Reversed(t) == [45] + Reversed(r) && -w == v;
    }
    assert Denotes(Reversed(t), w);
  }

  lemma Negative(t: seq<byte>, v: int)
    requires v > 0 && Denotes(t, v)
    ensures Denotes([45] + t, -v)
  {
    assert ([45] + t)[1..] == t;
  }

  lemma ReversedLast(r: seq<byte>, b: byte)
    ensures Reversed(r + [b]) == [b] + Reversed(r)
  {
  }

  /** sdsull2str. */
  method ULL2Str(s: array<byte>, v: ulonglong) returns (l: nat)
    requires s.Length >= LLSTR_SIZE
    modifies s
    ensures l < LLSTR_SIZE && Denotes(s[..l], v) && s[l] == 0
    ensures forall i :: LLSTR_SIZE <= i < s.Length ==> s[i] == old(s[i])
  {
    hide Reversed, Canonical, Number, Power10;
    Powers();
    l := PutDigits(s, v, 20);
    ghost var r := s[..l];
    s[l] := 0;
    assert s[..l] == r;
    Reverse(s, l);
  }

  /** A text stands for one value only, and a value has one text. */
  lemma TextIsExact(s: seq<byte>, v: int, t: seq<byte>, w: int)
    requires Denotes(s, v) && Denotes(t, w)
    ensures s == t <==> v == w
  {
    hide Number;
    if v < 0 {
      assert s == [45] + s[1..];
    }
    if w < 0 {
      assert t == [45] + t[1..];
    }
    if v == w {
      if v < 0 {
        DenotesUnique(s[1..], t[1..]);
      } else {
        DenotesUnique(s, t);
      }
    }
  }
}
