/**
 SHA-1 as FIPS 180-4 defines it: section 4.1.1 (functions), 5.1.1 (padding),
 5.3.1 (initial value) and 6.1.2 (computation).
 */
module Sha1Spec {
  type byte = bv8
  type word = bv32

  // --------------------------------------- section 3.2: rotations of 32-bit words

  function Rotl1(x: word): word { (x << 1) | (x >> 31) }
  function Rotl5(x: word): word { (x << 5) | (x >> 27) }
  function Rotl30(x: word): word { (x << 30) | (x >> 2) }

  // --------------------------------------- section 4.1.1 and 4.2.1

  function Ch(x: word, y: word, z: word): word { (x & y) ^ (!x & z) }
  function Parity(x: word, y: word, z: word): word { x ^ y ^ z }
  function Maj(x: word, y: word, z: word): word { (x & y) ^ (x & z) ^ (y & z) }

  function F(t: nat, x: word, y: word, z: word): word {
    if t < 20 then Ch(x, y, z) else if t < 40 then Parity(x, y, z)
    else if t < 60 then Maj(x, y, z) else Parity(x, y, z)
  }

  function K(t: nat): word {
    if t < 20 then 0x5A827999 else if t < 40 then 0x6ED9EBA1
    else if t < 60 then 0x8F1BBCDC else 0xCA62C1D6
  }

  // --------------------------------------- section 6.1.2

  datatype Regs = Regs(a: word, b: word, c: word, d: word, e: word)

  /** The message schedule of 80 words. */
  ghost function W(m: seq<word>, t: nat): word
    requires |m| == 16
  {
    if t < 16 then m[t] else Mixed(W(m, t - 3), W(m, t - 8), W(m, t - 14), W(m, t - 16))
  }

  function Mixed(a: word, b: word, c: word, d: word): word { Rotl1(a ^ b ^ c ^ d) }

  ghost function Step(r: Regs, t: nat, w: word): Regs {
    Regs(Sum5(Rotl5(r.a), F(t, r.b, r.c, r.d), r.e, K(t), w), r.a, Rotl30(r.b), r.c, r.d)
  }

  function Sum5(a: word, b: word, c: word, d: word, e: word): word { a + b + c + d + e }

  function Sum(a: word, b: word): word { a + b }

  /** The working variables after t of the 80 steps. */
  ghost function Rounds(r: Regs, m: seq<word>, t: nat): Regs
    requires |m| == 16
  {
    if t == 0 then r else Step(Rounds(r, m, t - 1), t - 1, W(m, t - 1))
  }

  function Plus(r: Regs, s: Regs): Regs {
    Regs(Sum(r.a, s.a), Sum(r.b, s.b), Sum(r.c, s.c), Sum(r.d, s.d), Sum(r.e, s.e))
  }

  /** The next hash value from one 512-bit block of words. */
  ghost function Compress(h: Regs, m: seq<word>): Regs
    requires |m| == 16
  {
    Plus(h, Rounds(h, m, 80))
  }

  // --------------------------------------- section 5.2.1: blocks

  /** Four bytes as a word, most significant first. */
  function BigEndian(b0: byte, b1: byte, b2: byte, b3: byte): word {
    ((b0 as word) << 24) | ((b1 as word) << 16) | ((b2 as word) << 8) | (b3 as word)
  }

  function BlockWords(block: seq<byte>): (m: seq<word>)
    requires |block| == 64
    ensures |m| == 16
  {
    seq(16, i requires 0 <= i < 16 => BigEndian(block[4 * i], block[4 * i + 1], block[4 * i + 2], block[4 * i + 3]))
  }

  const H0: Regs := Regs(0x67452301, 0xEFCDAB89, 0x98BADCFE, 0x10325476, 0xC3D2E1F0)

  /** The hash value after the first n blocks of m. */
  ghost function Chain(m: seq<byte>, n: nat): Regs
    requires 64 * n <= |m|
  {
    if n == 0 then H0 else Compress(Chain(m, n - 1), BlockWords(m[64 * (n - 1)..64 * n]))
  }

  // --------------------------------------- section 5.1.1: padding

  /** The eight bytes of a 64-bit number, most significant first. */
  function LengthBytes(bits: nat): (s: seq<byte>)
    ensures |s| == 8
  {
    seq(8, i requires 0 <= i < 8 => ByteOf(bits, 7 - i))
  }

  /** Byte k of a number, counted from the least significant. */
  function ByteOf(x: nat, k: nat): byte {
    if k == 0 then (x % 256) as byte else ByteOf(x / 256, k - 1)
  }

  function Zeros(n: nat): (s: seq<byte>)
    ensures |s| == n
  {
    seq(n, _ => 0 as byte)
  }

  /** How many zero bytes follow the byte 0x80. */
  function ZeroCount(length: nat): (z: nat)
    ensures z < 64 && (length + 1 + z) % 64 == 56
  {
    (119 - length % 64) % 64
  }

  function Pad(m: seq<byte>): (p: seq<byte>)
    ensures |p| % 64 == 0
  {
    m + [0x80 as byte] + Zeros(ZeroCount(|m|)) + LengthBytes(8 * |m|)
  }

  // --------------------------------------- the digest

  function WordBytes(w: word): seq<byte> {
    [(w >> 24) as byte, ((w >> 16) & 0xFF) as byte, ((w >> 8) & 0xFF) as byte, (w & 0xFF) as byte]
  }

  function DigestBytes(r: Regs): seq<byte> {
    WordBytes(r.a) + WordBytes(r.b) + WordBytes(r.c) + WordBytes(r.d) + WordBytes(r.e)
  }

  /** SHA-1 of a message shorter than 2^64 bits. */
  ghost function Sha1Of(m: seq<byte>): seq<byte>
    requires |m| < 0x2000_0000_0000_0000
  {
    DigestBytes(Chain(Pad(m), |Pad(m)| / 64))
  }
}
