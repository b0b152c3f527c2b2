/**
 base64.c: the encoder with its branch-free padding, the decoder with its
 accumulator that is never cleared, and section 4 of RFC 4648 between them.
 */
module Base64 {
  import opened Common
  import opened Words

  const PAD: byte := 61       // '='

  // ---------------------------------------------------------------- alphabet

  /** The encoder's table: A-Z, a-z, 0-9, + and /. */
  function Letter(v: nat): byte
    requires v < 64
  {
    if v < 26 then 65 + v else if v < 52 then 97 + v - 26 else if v < 62 then 48 + v - 52
    else if v == 62 then 43 else 47
  }

  /** The decoder's table, in which '=' stands for 0 and -1 marks what is not a letter. */
  function Value(c: byte): (v: int)
    ensures -1 <= v < 64
  {
    if c == 43 then 62 else if c == 47 then 63
    else if 48 <= c <= 57 then c - 48 + 52
    else if c == PAD then 0
    else if 65 <= c <= 90 then c - 65
    else if 97 <= c <= 122 then c - 97 + 26
    else -1
  }

  lemma LetterValue(v: nat)
    requires v < 64
    ensures Value(Letter(v)) == v && Letter(v) != PAD
  {
  }

  // ------------------------------------------- section 4 of RFC 4648

  /** Byte i, or zero behind the last byte. */
  function At(p: seq<byte>, i: nat): byte {
    if i < |p| then p[i] else 0
  }

  /** The 24 bits of group g. */
  function Bits(p: seq<byte>, g: nat): (x: nat)
    ensures x < 0x100_0000
  {
    At(p, 3 * g) * 65536 + At(p, 3 * g + 1) * 256 + At(p, 3 * g + 2)
  }

  /** The four 6-bit pieces of a group, first to last. */
  function Sextet(x: nat, r: nat): (v: nat)
    ensures v < 64
  {
    if r == 0 then x / 262144 % 64 else if r == 1 then x / 4096 % 64 else if r == 2 then x / 64 % 64 else x % 64
  }

  /** The letter whose six bits start at bit 6k. */
  function LetterAt(p: seq<byte>, k: nat): byte {
    Letter(Sextet(Bits(p, k / 4), k % 4))
  }

  /** A place without a bit of the input holds the pad. */
  function Char(p: seq<byte>, k: nat): byte {
    if 6 * k < 8 * |p| then LetterAt(p, k) else PAD
  }

  function Size(n: nat): nat {
    (n + 2) / 3 * 4
  }

  /** Base 64 with padding. */
  function Text(p: seq<byte>): (t: seq<byte>)
    ensures |t| == Size(|p|)
  {
    seq(Size(|p|), k requires 0 <= k => Char(p, k))
  }

  lemma OneGroup(p: seq<byte>)
    requires 1 <= |p| <= 3
    ensures var x := At(p, 0) * 65536 + At(p, 1) * 256 + At(p, 2);
            Text(p) == [Letter(x / 262144), Letter(x / 4096 % 64),
                        if |p| == 1 then PAD else Letter(x / 64 % 64), if |p| == 3 then Letter(x % 64) else PAD]
  {
    hide Letter;
  }

  /** "f" and "foo" of section 10 of RFC 4648, and the last two letters of the alphabet. */
  lemma Vectors()
    ensures Text([102]) == [90, 103, 61, 61] && Text([102, 111, 111]) == [90, 109, 57, 118]
    ensures Text([251, 239, 255]) == [43, 43, 47, 47]
  {
    hide Text;
    OneGroup([102]);
    OneGroup([102, 111, 111]);
    OneGroup([251, 239, 255]);
  }

  // ------------------------------------------------------------ base64_encode

  /** `a - b` on a size_t. */
  function Minus(a: nat, b: nat): (r: nat)
    requires a < SIZE_T && b < SIZE_T
    ensures r < SIZE_T
  {
    (a - b) % SIZE_T
  }

  /** `(d >> 31 & '=') | (~(d >> 31) & c)`, stored in a char. */
  function PadOr(d: nat, c: byte): byte
    requires d < SIZE_T
  {
    Or(And(d / 0x8000_0000, PAD), And(SIZE_T - 1 - d / 0x8000_0000, c)) % 256
  }

  /** `&` with all of the k low bits, or with none of them. */
  lemma {:induction false} AndSteps(m: nat, y: nat, k: nat)
    requires y < Pow2(k)
    ensures Low(m, k) == Pow2(k) - 1 ==> And(m, y) == y
    ensures Low(m, k) == 0 ==> And(m, y) == 0
  {
    if k > 0 {
      AndSteps(m / 2, y / 2, k - 1);
    } else {
      AndZero(m);
    }
  }

  lemma AndByte(m: nat, y: byte)
    ensures m % 256 == 255 ==> And(m, y) == y
    ensures m % 256 == 0 ==> And(m, y) == 0
  {
    Low8(m);
    assert Pow2(8) == 256;
    AndSteps(m, y, 8);
  }

  /** With d below 2^31 the expression is c. */
  lemma PadOrLetter(d: nat, c: byte)
    requires d < 0x8000_0000
    ensures PadOr(d, c) == c
  {
    hide And, Or;
    AndByte(0, PAD);
    AndByte(SIZE_T - 1, c);
    OrZero(c);
  }

  /** With d wrapped below zero it is '='. */
  lemma PadOrPad(d: nat, c: byte)
    requires SIZE_T - 2 <= d < SIZE_T
    ensures PadOr(d, c) == PAD
  {
    hide And, Or;
    var m := d / 0x8000_0000;
    assert m == 0x1_FFFF_FFFF;
    AndByte(m, PAD);
    AndByte(SIZE_T - 1 - m, c);
    OrZero(PAD);
  }

  /** From 2^31 up to 2^32 it is neither: 'C' takes the place of 'B'. */
  lemma PadOrWrong(d: nat)
    requires 0x8000_0000 <= d < 0x1_0000_0000
    ensures PadOr(d, 66) == 67
  {
    hide And, Or;
    SmallBits();
    AndEven(SIZE_T - 2, 66);
    AndByte(SIZE_T / 2 - 1, 33);
  }

  lemma SmallBits()
    ensures And(1, PAD) == 1 && Or(1, 66) == 67
  {
    hide And, Or;
    AndHead(1, 61);
    AndNothing(30);
    OrHead(1, 66);
    OrZero(33);
  }

  lemma AndNothing(y: nat)
    ensures And(0, y) == 0
  {
  }

  lemma AndEven(x: nat, y: nat)
    requires x % 2 == 0
    ensures And(x, y) == 2 * And(x / 2, y / 2)
  {
  }

  /** The character base64_encode writes at place k of the text of p. */
  function Written(p: seq<byte>, k: nat): byte
    requires |p| + 2 < SIZE_T && k < Size(|p|)
  {
    var last := k / 4 * 3 + 2;
    if k % 4 == 2 then PadOr(Minus(|p|, last), LetterAt(p, k))
    else if k % 4 == 3 then PadOr(Minus(Minus(|p|, 1), last), LetterAt(p, k))
    else LetterAt(p, k)
  }

  /** base64_encode: the size it needs and, in a buffer with that room, the text. */
  method Encode(buf: array<byte>, p: seq<byte>) returns (m: nat)
    requires |p| + 2 < SIZE_T
    modifies buf
    ensures m == Size(|p|)
    ensures buf.Length < m ==> buf[..] == old(buf[..])
    ensures buf.Length >= m ==> buf[m..] == old(buf[m..])
    ensures buf.Length >= m ==> forall k :: 0 <= k < m ==> buf[k] == Written(p, k)
    ensures buf.Length >= m && |p| <= 0x8000_0001 ==> buf[..m] == Text(p)
  {
    hide *;
    var n := |p|;
    m := (n + 2) / 3 * 4;
    assert m == Size(n) by { SizeIs(n); }
    if buf.Length >= m {
      var out := 0;
      var i := 0;
      ghost var g := 0;
      while i < n
        invariant i == 3 * g && i <= n + 2 && out == 4 * g <= m
        invariant forall k :: 0 <= k < out ==> buf[k] == Written(p, k)
        invariant buf[m..] == old(buf[m..])
      {
        var x: nat := p[i];
        x := x * 65536;
        i := i + 1;
        x := x + (if i < n then p[i] as nat else 0) * 256;
        i := i + 1;
        x := x + (if i < n then p[i] as nat else 0);
        GroupWritten(p, g, x);
        buf[out] := Letter(x / 262144 % 64);
        buf[out + 1] := Letter(x / 4096 % 64);
        buf[out + 2] := PadOr(Minus(n, i), Letter(x / 64 % 64));
        buf[out + 3] := PadOr(Minus(Minus(n, 1), i), Letter(x % 64));
        out := out + 4;
        i := i + 1;
        g := g + 1;
      }
      if |p| <= 0x8000_0001 {
        EncodedText(p, buf[..m]);
      }
    }
  }

  lemma SizeIs(n: nat)
    ensures Size(n) == (n + 2) / 3 * 4
  {
  }

  /** One turn of the encoder's loop. */
  lemma GroupWritten(p: seq<byte>, g: nat, x: nat)
    requires |p| + 2 < SIZE_T && 3 * g < |p|
    requires x == p[3 * g] as nat * 65536 + (if 3 * g + 1 < |p| then p[3 * g + 1] as nat else 0) * 256
                  + (if 3 * g + 2 < |p| then p[3 * g + 2] as nat else 0)
    ensures 4 * g + 4 <= Size(|p|)
    ensures Written(p, 4 * g) == Letter(x / 262144 % 64) && Written(p, 4 * g + 1) == Letter(x / 4096 % 64)
    ensures Written(p, 4 * g + 2) == PadOr(Minus(|p|, 3 * g + 2), Letter(x / 64 % 64))
    ensures Written(p, 4 * g + 3) == PadOr(Minus(Minus(|p|, 1), 3 * g + 2), Letter(x % 64))
  {
    hide Letter, PadOr, Minus;
    assert x == Bits(p, g);
  }

  lemma EncodedText(p: seq<byte>, s: seq<byte>)
    requires |p| <= 0x8000_0001 && |s| == Size(|p|)
    requires forall k :: 0 <= k < |s| ==> s[k] == Written(p, k)
    ensures s == Text(p)
  {
    hide Written, Char, Size;
    forall k | 0 <= k < |s| ensures s[k] == Char(p, k) {
      WrittenChar(p, k);
    }
  }

  /** Where the third byte of a character's group is, and which characters hold bits of the input. */
  lemma LastPlace(n: nat, k: nat)
    requires k < Size(n) && n <= 0x8000_0001
    ensures var last := k / 4 * 3 + 2;
            && last <= n + 1 && last < SIZE_T
            && (6 * k < 8 * n <==> if k % 4 == 2 then last <= n else k % 4 == 3 ==> last < n)
            && Minus(n, last) == (if last <= n then n - last else SIZE_T - 1)
            && Minus(Minus(n, 1), last) == (if last < n then n - 1 - last else SIZE_T + n - 1 - last)
  {
    var g := k / 4;
    assert k == 4 * g + k % 4 && g < (n + 2) / 3;
  }

  lemma WrittenChar(p: seq<byte>, k: nat)
    requires |p| <= 0x8000_0001 && k < Size(|p|)
    ensures Written(p, k) == Char(p, k)
  {
    hide LetterAt, PadOr, Minus, Size;
    var n, last, c := |p|, k / 4 * 3 + 2, LetterAt(p, k);
    LastPlace(n, k);
    if k % 4 == 2 {
      if last <= n {
        PadOrLetter(n - last, c);
      } else {
        PadOrPad(Minus(n, last), c);
      }
    } else if k % 4 == 3 {
      if last < n {
        PadOrLetter(n - 1 - last, c);
      } else {
        PadOrPad(Minus(Minus(n, 1), last), c);
      }
    }
  }

  /** The encoder is right on all inputs of a length exactly when the length is at most 2^31 + 1. */
  lemma EncodeExactIff(n: nat)
    requires n + 2 < SIZE_T
    ensures n <= 0x8000_0001 <==>
            forall p: seq<byte>, k :: |p| == n && 0 <= k < Size(n) ==> Written(p, k) == Text(p)[k]
  {
    hide Written, Char, Size;
    if n <= 0x8000_0001 {
      forall p: seq<byte>, k | |p| == n && 0 <= k < Size(n) ensures Written(p, k) == Text(p)[k] {
        WrittenChar(p, k);
      }
    } else {
      var p, k := WrongText(n);
    }
  }

  /** A longer input, and a place where the encoder writes 'C' instead of 'B'. */
  lemma WrongText(n: nat) returns (p: seq<byte>, k: nat)
    requires 0x8000_0001 < n && n + 2 < SIZE_T
    ensures |p| == n && k < Size(n) && Written(p, k) == 67 && Text(p)[k] == 66
  {
    hide PadOr, Bits, Letter;
    var g := WrongGroup(n);
    p := seq(n, i => if i == 3 * g + 2 then 64 else 0);
    k := 4 * g + 2;
    LetterB(p, g);
    PadOrWrong(n - (3 * g + 2));
  }

  lemma WrongGroup(n: nat) returns (g: nat)
    requires 0x8000_0001 < n
    ensures 0x8000_0000 <= n - (3 * g + 2) < 0x8000_0003 && 4 * g + 2 < Size(n)
  {
    g := (n - 2 - 0x8000_0000) / 3;
  }

  lemma LetterB(p: seq<byte>, g: nat)
    requires At(p, 3 * g) == 0 && At(p, 3 * g + 1) == 0 && At(p, 3 * g + 2) == 64
    ensures LetterAt(p, 4 * g + 2) == 66
  {
    assert Bits(p, g) == 64;
  }

  // ------------------------------------------------------------ base64_decode

  /** Group g of a text as a number. */
  function Number(s: seq<byte>, g: nat): (x: int)
    requires 4 * g + 4 <= |s|
  {
    Value(s[4 * g]) * 262144 + Value(s[4 * g + 1]) * 4096 + Value(s[4 * g + 2]) * 64 + Value(s[4 * g + 3])
  }

  function Pads(s: seq<byte>): (n: nat)
  {
    if s == [] then 0 else Pads(s[..|s| - 1]) + if s[|s| - 1] == PAD then 1 else 0
  }

  /** The first 3 - j bytes of a 24-bit number; none from j = 3 on. */
  function Bytewise(x: int, j: nat): (r: seq<byte>)
    ensures |r| == if j < 3 then 3 - j else 0
  {
    var b: seq<byte> := [x / 65536 % 256, x / 256 % 256, x % 256];
    b[..if j < 3 then 3 - j else 0]
  }

  /** The bytes of the first g groups: each loses as many as there are pads so far. */
  function Plain(s: seq<byte>, g: nat): (r: seq<byte>)
    requires 4 * g <= |s|
    ensures |r| <= 3 * g
  {
    if g == 0 then [] else Plain(s, g - 1) + Bytewise(Number(s, g - 1), Pads(s[..4 * g]))
  }

  predicate Readable(s: seq<byte>) {
    |s| % 4 == 0 && forall k :: 0 <= k < |s| ==> Value(s[k]) >= 0
  }

  function DecodeSpec(s: seq<byte>): Option<seq<byte>> {
    if Readable(s) then Some(Plain(s, |s| / 4)) else None
  }

  /** `x << 6 | v` on an unsigned long. */
  function Push6(x: nat, v: nat): nat
    requires v < 64
  {
    Or(x * 64 % SIZE_T, v)
  }

  /** Six bits drop out at the top, the rest moves up, and v comes in. */
  lemma Push6Is(x: nat, v: nat)
    requires v < 64
    ensures Push6(x, v) == x % 0x400_0000_0000_0000 * 64 + v
  {
    hide Or, Up, Pow2;
    var q, y := x / 0x400_0000_0000_0000, x % 0x400_0000_0000_0000;
    Divide(x * 64, q, SIZE_T, y * 64);
    Up6(y);
    Up6(1);
    UpPow2(0, 6);
    Pow2Zero();
    OrDisjoint(y, 6, v);
  }

  /** What the low bits are after one more character; older bits have moved up. */
  lemma Push6Low(x: nat, v: nat)
    requires v < 64
    ensures Push6(x, v) % 64 == v
    ensures Push6(x, v) % 4096 == x % 64 * 64 + v
    ensures Push6(x, v) % 262144 == x % 4096 * 64 + v
    ensures Push6(x, v) % 0x100_0000 == x % 262144 * 64 + v
  {
    hide Push6;
    Push6Is(x, v);
    var y := x % 0x400_0000_0000_0000;
    SameLow(x, x / 0x400_0000_0000_0000, y);
    PushedLow(y, v, y * 64 + v);
  }

  /** Quotient and remainder are unique. */
  lemma Divide(x: nat, q: nat, m: nat, r: nat)
    requires x == q * m + r && r < m
    ensures x / m == q && x % m == r
  {
    Unique(x / m, x % m, m, q, r);
  }

  lemma {:induction false} Unique(d: nat, e: nat, m: nat, q: nat, r: nat)
    requires d * m + e == q * m + r && e < m && r < m
    ensures d == q && e == r
  {
    assert d > 0 ==> d * m == (d - 1) * m + m;
    assert q > 0 ==> q * m == (q - 1) * m + m;
    if d > 0 && q > 0 {
      Unique(d - 1, e, m, q - 1, r);
    }
  }

  lemma SameLow(x: nat, q: nat, y: nat)
    requires x == q * 0x400_0000_0000_0000 + y
    ensures y % 64 == x % 64 && y % 4096 == x % 4096 && y % 262144 == x % 262144
  {
    Divide(x, q * 0x10_0000_0000_0000 + y / 64, 64, y % 64);
    Divide(x, q * 0x4000_0000_0000 + y / 4096, 4096, y % 4096);
    Divide(x, q * 0x100_0000_0000 + y / 262144, 262144, y % 262144);
  }

  lemma PushedLow(y: nat, v: nat, z: nat)
    requires v < 64 && z == y * 64 + v
    ensures z % 64 == v && z % 4096 == y % 64 * 64 + v
    ensures z % 262144 == y % 4096 * 64 + v && z % 0x100_0000 == y % 262144 * 64 + v
  {
    Divide(z, y, 64, v);
    Divide(z, y / 64, 4096, y % 64 * 64 + v);
    Divide(z, y / 4096, 262144, y % 4096 * 64 + v);
    Divide(z, y / 262144, 0x100_0000, y % 262144 * 64 + v);
  }

  /** The low 6i bits of x are the first i characters of group g. */
  ghost predicate Holds(x: nat, s: seq<byte>, g: nat, i: nat)
    requires 4 * g + 4 <= |s|
  {
    && (i == 1 ==> x % 64 == Value(s[4 * g]))
    && (i == 2 ==> x % 4096 == Value(s[4 * g]) * 64 + Value(s[4 * g + 1]))
    && (i == 3 ==> x % 262144 == Value(s[4 * g]) * 4096 + Value(s[4 * g + 1]) * 64 + Value(s[4 * g + 2]))
    && (i == 4 ==> x % 0x100_0000 == Number(s, g))
  }

  lemma HoldsMore(x: nat, s: seq<byte>, g: nat, i: nat)
    requires 4 * g + 4 <= |s| && i < 4 && Holds(x, s, g, i) && Value(s[4 * g + i]) >= 0
    ensures Holds(Push6(x, Value(s[4 * g + i])), s, g, i + 1)
  {
    hide Value, Push6;
    Push6Low(x, Value(s[4 * g + i]));
  }

  /** The output loop: bytes 2, 1, 0 of the accumulator, as far as j lets it go. */
  method PutBytes(dst: array<byte>, at: nat, x: nat, j: nat, ghost more: seq<byte>) returns (size: nat)
    requires at + 3 <= dst.Length
    requires more == [x / 65536 % 256, x / 256 % 256, x % 256][..if j < 3 then 3 - j else 0]
    modifies dst
    ensures size == at + |more| && dst[..size] == old(dst[..at]) + more
  {
    size := at;
    var i := 3;
    while i > j
      invariant i <= 3 && (i == 3 || i >= j)
      invariant size == at + 3 - i
      invariant dst[..at] == old(dst[..at])
      invariant forall k :: 0 <= k < 3 - i ==> dst[at + k] == more[k]
      decreases i
    {
      dst[size] := if i == 3 then x / 65536 % 256 else if i == 2 then x / 256 % 256 else x % 256;
      size := size + 1;
      i := i - 1;
    }
  }

  /** base64_decode: the accumulator x is shared by all groups and j counts all pads. */
  method Decode(src: seq<byte>) returns (r: Option<seq<byte>>, dst: array<byte>)
    ensures r == DecodeSpec(src)
    ensures r.Some? ==> |r.value| <= dst.Length && dst[..|r.value|] == r.value
    ensures r.Some? && src != [] ==> |r.value| < dst.Length && dst[|r.value|] == 0
  {
    hide Value, Pads, Plain, Push6, Holds, Bytewise;
    dst := new byte[|src|];
    if |src| % 4 != 0 {
      return None, dst;
    }
    var x: nat, j: nat, size: nat, at: nat := 0, 0, 0, 0;
    assert Pads([]) == 0 && Plain(src, 0) == [] by { Nothing(src); }
    ghost var g := 0;
    while at < |src|
      invariant at == 4 * g && at <= |src| && dst.Length == |src|
      invariant forall k :: 0 <= k < at ==> Value(src[k]) >= 0
      invariant j == Pads(src[..at])
      invariant size <= 3 * g && dst[..size] == Plain(src, g)
    {
      assert Holds(x, src, g, 0) by { HoldsNone(x, src, g); }
      var i := 0;
      while i < 4
        invariant 0 <= i <= 4 && Holds(x, src, g, i)
        invariant dst[..size] == Plain(src, g)
        invariant forall k :: 0 <= k < at + i ==> Value(src[k]) >= 0
        invariant j == Pads(src[..at + i])
      {
        if Value(src[at + i]) == -1 {
          return None, dst;
        }
        HoldsMore(x, src, g, i);
        x := Push6(x, Value(src[at + i]));
        PadsMore(src, at + i);
        j := j + if src[at + i] == PAD then 1 else 0;
        i := i + 1;
      }
      assert j == Pads(src[..4 * (g + 1)]);
      ghost var more := Bytewise(Number(src, g), j);
      HoldsAll(x, src, g, j);
      size := PutBytes(dst, size, x, j, more);
      PlainMore(src, g + 1);
      g := g + 1;
      at := at + 4;
    }
    if size < dst.Length {
      dst[size] := 0;                 // the block for the empty text has no room for this
    }
    r := Some(dst[..size]);
  }

  lemma Nothing(s: seq<byte>)
    ensures Pads([]) == 0 && Plain(s, 0) == []
  {
  }

  lemma HoldsNone(x: nat, s: seq<byte>, g: nat)
    requires 4 * g + 4 <= |s|
    ensures Holds(x, s, g, 0)
  {
  }

  /** The three bytes the output loop picks. */
  lemma HoldsAll(x: nat, s: seq<byte>, g: nat, j: nat)
    requires 4 * g + 4 <= |s| && Holds(x, s, g, 4)
    ensures Bytewise(Number(s, g), j) == [x / 65536 % 256, x / 256 % 256, x % 256][..if j < 3 then 3 - j else 0]
  {
    hide Value, Number;
    Bytes24(x, x / 0x100_0000, x % 0x100_0000);
  }

  lemma Bytes24(x: nat, q: nat, y: nat)
    requires x == q * 0x100_0000 + y && y < 0x100_0000
    ensures y / 65536 % 256 == x / 65536 % 256
    ensures y / 256 % 256 == x / 256 % 256
    ensures y % 256 == x % 256
  {
    Divide(x, q * 256 + y / 65536, 65536, y % 65536);
    Divide(q * 256 + y / 65536, q, 256, y / 65536);
    Divide(x, q * 65536 + y / 256, 256, y % 256);
    Divide(q * 65536 + y / 256, q * 256 + y / 256 / 256, 256, y / 256 % 256);
  }

  lemma PadsMore(s: seq<byte>, k: nat)
    requires k < |s|
    ensures Pads(s[..k + 1]) == Pads(s[..k]) + if s[k] == PAD then 1 else 0
  {
    assert s[..k + 1][..k] == s[..k];
  }

  lemma PlainMore(s: seq<byte>, g: nat)
    requires 0 < g && 4 * g <= |s|
    ensures Plain(s, g) == Plain(s, g - 1) + Bytewise(Number(s, g - 1), Pads(s[..4 * g]))
  {
  }

  // -------------------------------------------------------------- round trip

  /** The text of p has no pad before its last group. */
  lemma {:induction false} NoPads(p: seq<byte>, k: nat)
    requires k <= Size(|p|) && 3 * k <= 4 * |p| + 2
    ensures Pads(Text(p)[..k]) == 0
  {
    if k == 0 {
      Nothing(Text(p));
    } else {
      hide Pads, Bits, Sextet, Letter, Value;
      NoPads(p, k - 1);
      PadsMore(Text(p), k - 1);
      LetterValue(Sextet(Bits(p, (k - 1) / 4), (k - 1) % 4));
    }
  }

  lemma GroupNumber(p: seq<byte>, g: nat)
    requires 3 * g < |p|
    ensures 4 * g + 4 <= Size(|p|) && Number(Text(p), g) == Bits(p, g)
  {
    hide Value, Char, Bits;
    Sextets(Bits(p, g));
    CharValue(p, 4 * g);
    CharValue(p, 4 * g + 1);
    CharValue(p, 4 * g + 2);
    CharValue(p, 4 * g + 3);
  }

  /** The four pieces put together again. */
  lemma Sextets(x: nat)
    requires x < 0x100_0000
    ensures Sextet(x, 0) * 262144 + Sextet(x, 1) * 4096 + Sextet(x, 2) * 64 + Sextet(x, 3) == x
  {
    var y, z := x / 64, x / 4096;
    var w := z / 64;
    assert x == y * 64 + x % 64 && y == y / 64 * 64 + y % 64 && z == w * 64 + z % 64;
    assert y / 64 == z && x / 262144 == w && w % 64 == w;
  }

  lemma CharValue(p: seq<byte>, k: nat)
    requires k < Size(|p|)
    ensures Value(Char(p, k)) == Sextet(Bits(p, k / 4), k % 4)
  {
    hide Value, Letter, Sextet, Bits;
    LetterValue(Sextet(Bits(p, k / 4), k % 4));
    ValuePad();
    if 6 * k >= 8 * |p| {
      PadSextet(p, k / 4, k % 4);
    }
  }

  /** A place for the pad has no bit of the input. */
  lemma PadSextet(p: seq<byte>, g: nat, r: nat)
    requires 4 * g + r < Size(|p|) && r < 4 && 6 * (4 * g + r) >= 8 * |p|
    ensures Sextet(Bits(p, g), r) == 0
  {
    assert At(p, 3 * g + 2) == 0 && (r == 2 ==> At(p, 3 * g + 1) == 0);
    if r == 2 {
      assert Bits(p, g) == At(p, 3 * g) * 65536;
    }
  }

  lemma ValuePad()
    ensures Value(PAD) == 0
  {
  }

  /** The first g groups of the text give back the first 3g bytes. */
  lemma {:induction false} PlainText(p: seq<byte>, g: nat)
    requires 3 * g < |p| + 3
    ensures 4 * g <= Size(|p|)
    ensures Plain(Text(p), g) == p[..if 3 * g <= |p| then 3 * g else |p|]
  {
    hide *;
    var s := Text(p);
    if g > 0 {
      PlainText(p, g - 1);
      GroupNumber(p, g - 1);
      GroupPads(p, g);
      GroupBytes(p, g - 1);
      PlainMore(s, g);
      var n := if 3 * g <= |p| then 3 * g else |p|;
      assert p[..n] == p[..3 * (g - 1)] + p[3 * (g - 1)..n];
    } else {
      Nothing(s);
      assert p[..0] == [];
    }
  }

  /** The pads up to the end of group g - 1: as many as the group lacks bytes. */
  lemma GroupPads(p: seq<byte>, g: nat)
    requires 0 < g && 3 * (g - 1) < |p|
    ensures 4 * g <= Size(|p|)
    ensures Pads(Text(p)[..4 * g]) == if 3 * g <= |p| then 0 else 3 * g - |p|
  {
    hide Pads, Letter;
    if 3 * g <= |p| {
      NoPads(p, 4 * g);
    } else {
      var s := Text(p);
      LetterValue(Sextet(Bits(p, g - 1), 2));
      NoPads(p, 4 * g - 2);
      PadsMore(s, 4 * g - 2);
      PadsMore(s, 4 * g - 1);
    }
  }

  lemma BitsBytes(a: byte, b: byte, c: byte, x: nat)
    requires x == a as nat * 65536 + b as nat * 256 + c
    ensures x / 65536 % 256 == a && x / 256 % 256 == b && x % 256 == c
  {
    Divide(x, a as nat * 256 + b, 256, c);
    Divide(a as nat * 256 + b, a, 256, b);
    Divide(x, a, 65536, b as nat * 256 + c);
  }

  lemma GroupBytes(p: seq<byte>, g: nat)
    requires 3 * g < |p|
    ensures var n := if 3 * g + 3 <= |p| then 3 else |p| - 3 * g;
            Bytewise(Bits(p, g), 3 - n) == p[3 * g..3 * g + n]
  {
    BitsBytes(At(p, 3 * g), At(p, 3 * g + 1), At(p, 3 * g + 2), Bits(p, g));
  }

  /** Decoding the text of any bytes returns them. */
  lemma RoundTrip(p: seq<byte>)
    ensures DecodeSpec(Text(p)) == Some(p)
  {
    hide Value, Letter, Plain, Char;
    var s := Text(p);
    forall k | 0 <= k < |s|
      ensures Value(s[k]) >= 0
    {
      CharValue(p, k);
    }
    PlainText(p, |s| / 4);
    assert p[..|p|] == p;
  }

  // -------------------------------------------------- what the decoder takes

  lemma ValueIff(c: byte)
    ensures Value(c) >= 0 <==> c == PAD || exists v :: 0 <= v < 64 && Letter(v) == c
  {
    if Value(c) >= 0 && c != PAD {
      assert Letter(Value(c)) == c;
    }
    forall v | 0 <= v < 64
      ensures Value(Letter(v)) == v
    {
      LetterValue(v);
    }
  }

  lemma {:induction false} PadsAppend(s: seq<byte>, t: seq<byte>)
    ensures Pads(s + t) == Pads(s) + Pads(t)
    decreases |t|
  {
    if t == [] {
      assert s + t == s;
    } else {
      var n := |t| - 1;
      assert (s + t)[..|s| + n] == s + t[..n];
      PadsAppend(s, t[..n]);
    }
  }

  lemma {:induction false} PlainFront(s: seq<byte>, t: seq<byte>, g: nat)
    requires 4 * g <= |s|
    ensures Plain(s + t, g) == Plain(s, g)
    decreases g
  {
    hide Bytewise, Pads, Value, Plain;
    if g > 0 {
      PlainFront(s, t, g - 1);
      PlainMore(s + t, g);
      PlainMore(s, g);
      assert (s + t)[..4 * g] == s[..4 * g];
      var k := 4 * (g - 1);
      assert (s + t)[k] == s[k] && (s + t)[k + 1] == s[k + 1] && (s + t)[k + 2] == s[k + 2];
    } else {
      Nothing(s);
      Nothing(s + t);
    }
  }

  /** Behind a text with d pads every group loses d bytes more. */
  lemma {:induction false} PlainBack(s: seq<byte>, t: seq<byte>, g: nat)
    requires |s| % 4 == 0 && 4 * g <= |t|
    ensures Pads(s) == 0 ==> Plain(s + t, |s| / 4 + g) == Plain(s, |s| / 4) + Plain(t, g)
    ensures Pads(s) > 0 && (forall i :: 0 <= i <= g ==> Pads(t[..4 * i]) < 3) ==>
              |Plain(s + t, |s| / 4 + g)| + g <= |Plain(s, |s| / 4)| + |Plain(t, g)|
    decreases g
  {
    hide Pads, Value, Plain, Bytewise;
    var m := |s| / 4;
    if g == 0 {
      PlainFront(s, t, m);
      Nothing(t);
    } else {
      PlainBack(s, t, g - 1);
      PlainMore(s + t, m + g);
      PlainMore(t, g);
      assert (s + t)[..4 * (m + g)] == s + t[..4 * g];
      PadsAppend(s, t[..4 * g]);
      NumberBack(s, t, g - 1);
    }
  }

  lemma NumberBack(s: seq<byte>, t: seq<byte>, g: nat)
    requires |s| % 4 == 0 && 4 * g + 4 <= |t|
    ensures Number(s + t, |s| / 4 + g) == Number(t, g)
  {
    hide Value;
    var k := |s| + 4 * g;
    assert 4 * (|s| / 4 + g) == k;
    assert (s + t)[k] == t[4 * g] && (s + t)[k + 1] == t[4 * g + 1];
    assert (s + t)[k + 2] == t[4 * g + 2] && (s + t)[k + 3] == t[4 * g + 3];
  }

  /**
   Two texts one behind the other decode to the two strings exactly if the first
   has no pads: the pads are counted over the whole text, so that every group
   behind them loses bytes.
   */
  lemma ConcatIff(p: seq<byte>, q: seq<byte>)
    ensures DecodeSpec(Text(p) + Text(q)) == Some(p + q) <==> |p| % 3 == 0 || q == []
  {
    hide Value, Letter, Plain, Char, Pads;
    var s, t := Text(p), Text(q);
    var m, g := |s| / 4, |t| / 4;
    RoundTrip(p);
    RoundTrip(q);
    assert Readable(s) && Readable(t) && Readable(s + t);
    assert |s + t| / 4 == m + g;
    TextPads(p, m);
    forall i | 0 <= i <= g
      ensures Pads(t[..4 * i]) < 3
    {
      TextPads(q, i);
    }
    assert s[..4 * m] == s;
    PlainBack(s, t, g);
    if q == [] {
      assert s + t == s && p + q == p;
    } else if |p| % 3 != 0 {
      assert g > 0 && |DecodeSpec(s + t).value| < |p + q|;
    }
  }

  /** The pads in the first g groups of a text. */
  lemma TextPads(p: seq<byte>, g: nat)
    requires 4 * g <= Size(|p|)
    ensures Pads(Text(p)[..4 * g]) == if 3 * g <= |p| then 0 else 3 * g - |p|
    ensures Pads(Text(p)[..4 * g]) < 3
  {
    hide Text, Pads;
    if g == 0 {
      Nothing(Text(p));
      assert Text(p)[..0] == [];
    } else {
      GroupPads(p, g);
    }
  }
}
