/**
 The dictionary type of the HTTP header table (worker.c): the hash runs over the
 whole string, the comparison stops at the first NUL.
 */
module CaseKeys {
  import opened Common
  import opened SdsSplit
  import DictSpec

  const W32: nat := 0x1_0000_0000

  function Lower(c: byte): byte {
    if 65 <= c <= 90 then c + 32 else c
  }

  function Folded(s: seq<byte>): (r: seq<byte>)
    ensures |r| == |s|
  {
    seq(|s|, i requires 0 <= i < |s| => Lower(s[i]))
  }

  /** hash * 33 + c for each byte, folded to lower case, in 32 bits. */
  function CaseHash(seed: DictSpec.uint32, key: seq<byte>): DictSpec.uint32 {
    if key == [] then seed
    else (CaseHash(seed, key[..|key| - 1]) * 33 + Lower(key[|key| - 1])) % W32
  }

  /** dictGenCaseHashFunction. */
  method GenCaseHash(seed: DictSpec.uint32, buf: seq<byte>) returns (hash: DictSpec.uint32)
    ensures hash == CaseHash(seed, buf)
  {
    hide CaseHash, Lower;
    hash := seed;
    var i := 0;
    HashNext(seed, buf, 0);
    while i < |buf|
      invariant 0 <= i <= |buf| && hash == CaseHash(seed, buf[..i])
    {
      HashNext(seed, buf, i);
      Times33(hash, Lower(buf[i]));
      hash := ((hash * 32 % W32 + hash) % W32 + Lower(buf[i])) % W32;
      i := i + 1;
    }
    assert buf[..i] == buf;
  }

  lemma HashNext(seed: DictSpec.uint32, buf: seq<byte>, i: nat)
    requires i <= |buf|
    ensures i == 0 ==> CaseHash(seed, buf[..i]) == seed
    ensures i < |buf| ==> CaseHash(seed, buf[..i + 1]) == (CaseHash(seed, buf[..i]) * 33 + Lower(buf[i])) % W32
  {
    assert i < |buf| ==> buf[..i + 1][..i] == buf[..i];
  }

  /** With the usual seed, one letter in both cases. */
  lemma HashExample()
    ensures CaseHash(5381, [97]) == CaseHash(5381, [65]) == 177670
  {
    assert CaseHash(5381, []) == 5381;
    assert [97][..0] == [] && [65][..0] == [];
  }

  /** `(hash << 5) + hash` and the addition of c, each in 32 bits. */
  lemma Times33(h: nat, c: nat)
    requires h < W32 && c < 256
    ensures ((h * 32 % W32 + h) % W32 + c) % W32 == (h * 33 + c) % W32
  {
    var q, r := h * 32 / W32, h * 32 % W32;
    assert h * 32 == q * W32 + r;
    var t := (r + h) / W32;
    assert r + h == t * W32 + (r + h) % W32;
    Wraps((r + h) % W32 + c, q + t);
    assert h * 33 + c == (q + t) * W32 + ((r + h) % W32 + c);
  }

  lemma Wraps(x: nat, k: nat)
    ensures (k * W32 + x) % W32 == x % W32
  {
  }

  /** dictSdsKeyCaseCompare: strcasecmp finds no difference. */
  predicate CaseEqual(a: seq<byte>, b: seq<byte>) {
    Folded(CString(a)) == Folded(CString(b))
  }

  /** The same byte, or the two cases of one letter. */
  predicate SameLetter(x: byte, y: byte) {
    x == y || (65 <= x <= 90 && y == x + 32) || (65 <= y <= 90 && x == y + 32)
  }

  /** Keys are equal exactly if up to their first NUL they differ in the case of letters only. */
  lemma CaseEqualIff(a: seq<byte>, b: seq<byte>)
    ensures var x, y := CString(a), CString(b);
            CaseEqual(a, b) <==> |x| == |y| && forall i :: 0 <= i < |x| ==> SameLetter(x[i], y[i])
  {
    hide CString;
    var x, y := CString(a), CString(b);
    assert |Folded(x)| == |x| && |Folded(y)| == |y|;
    assert forall i :: 0 <= i < |x| ==> Folded(x)[i] == Lower(x[i]);
    assert forall i :: 0 <= i < |y| ==> Folded(y)[i] == Lower(y[i]);
  }

  lemma {:induction false} HashFolded(seed: DictSpec.uint32, a: seq<byte>, b: seq<byte>)
    requires Folded(a) == Folded(b)
    ensures CaseHash(seed, a) == CaseHash(seed, b)
    decreases |a|
  {
    assert |Folded(a)| == |Folded(b)|;
    if a != [] {
      var n := |a| - 1;
      assert Folded(a)[n] == Folded(b)[n];
      assert Folded(a[..n]) == Folded(a)[..n] && Folded(b[..n]) == Folded(b)[..n];
      HashFolded(seed, a[..n], b[..n]);
    }
  }

  type Key = s: seq<byte> | 0 !in s

  function HeaderType(seed: DictSpec.uint32): DictSpec.DictType<Key> {
    DictSpec.DictType((k: Key) => CaseHash(seed, k), (a: Key, b: Key) => CaseEqual(a, b))
  }

  /** On keys without a NUL the type is what the dictionary asks for. */
  lemma HeaderTypeLawful(seed: DictSpec.uint32)
    ensures DictSpec.Lawful(HeaderType(seed))
  {
    hide CaseHash, Folded, CString;
    var ty := HeaderType(seed);
    forall a: Key, b: Key | ty.eq(a, b)
      ensures ty.eq(b, a) && ty.hash(a) == ty.hash(b)
    {
      assert CString(a) == a && CString(b) == b;
      HashFolded(seed, a, b);
    }
  }

  /** A key with a NUL equals some other key of a different hash. */
  lemma NulBreaksHash(seed: DictSpec.uint32, k: seq<byte>)
    requires 0 in k
    ensures exists l :: CaseEqual(k, l) && CaseHash(seed, k) != CaseHash(seed, l)
  {
    var l, m := k + [1], k + [2];
    CStringMore(k, [1]);
    CStringMore(k, [2]);
    assert l[..|k|] == k && m[..|k|] == k;
    assert CaseEqual(k, l) && CaseEqual(k, m);
    assert CaseHash(seed, l) != CaseHash(seed, m);
  }

  lemma {:induction false} CStringMore(k: seq<byte>, more: seq<byte>)
    requires 0 in k
    ensures CString(k + more) == CString(k)
  {
    if k[0] != 0 {
      assert (k + more)[1..] == k[1..] + more;
      CStringMore(k[1..], more);
    }
  }
}
