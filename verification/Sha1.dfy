/** SHA-1 as FIPS 180-4 defines it: functions on 32-bit words (section 4.1.1), padding (section 5.1.1) and
    hash computation with the schedule of 80 words (section 6.1.2). */
module Sha1 {

  datatype Words = Words(a: bv32, b: bv32, c: bv32, d: bv32, e: bv32)

  const INITIAL: Words := Words(0x67452301, 0xEFCDAB89, 0x98BADCFE, 0x10325476, 0xC3D2E1F0)

  function Rol1(x: bv32): bv32 { (x << 1) | (x >> 31) }

  function Rol5(x: bv32): bv32 { (x << 5) | (x >> 27) }

  function Rol30(x: bv32): bv32 { (x << 30) | (x >> 2) }

  function Ch(x: bv32, y: bv32, z: bv32): bv32 { (x & y) ^ (!x & z) }

  function Parity(x: bv32, y: bv32, z: bv32): bv32 { x ^ y ^ z }

  function Maj(x: bv32, y: bv32, z: bv32): bv32 { (x & y) ^ (x & z) ^ (y & z) }

  function F(t: nat, x: bv32, y: bv32, z: bv32): bv32 {
    if t < 20 then Ch(x, y, z) else if t < 40 then Parity(x, y, z) else if t < 60 then Maj(x, y, z) else Parity(x, y, z)
  }

  function Sum(p: bv32, q: bv32, r: bv32, s: bv32, t: bv32): bv32 { p + q + r + s + t }

  function Xor(p: bv32, q: bv32, r: bv32, s: bv32): bv32 { p ^ q ^ r ^ s }

  function K(t: nat): bv32 {
    if t < 20 then 0x5A827999 else if t < 40 then 0x6ED9EBA1 else if t < 60 then 0x8F1BBCDC else 0xCA62C1D6
  }

  /** The round constants are 2^30 times the square roots of 2, 3, 5 and 10. */
  lemma KIsSquareRoot(t: nat)
    requires t < 80
    ensures var k, n := K(t) as int, if t < 20 then 2 else if t < 40 then 3 else if t < 60 then 5 else 10;
      k * k <= n * 0x1000_0000_0000_0000 < (k + 1) * (k + 1)
  {
    if t < 20 {
      assert 0x5A827999 as bv32 as int == 0x5A827999;
    } else if t < 40 {
      assert 0x6ED9EBA1 as bv32 as int == 0x6ED9EBA1;
    } else if t < 60 {
      assert 0x8F1BBCDC as bv32 as int == 0x8F1BBCDC;
    } else {
      assert 0xCA62C1D6 as bv32 as int == 0xCA62C1D6;
    }
  }

  /** Word i of a block, most significant byte first. */
  function Word(block: seq<bv8>, i: nat): bv32
    requires |block| == 64 && i < 16
  {
    BigEndian(block[4 * i], block[4 * i + 1], block[4 * i + 2], block[4 * i + 3])
  }

  function BigEndian(b0: bv8, b1: bv8, b2: bv8, b3: bv8): bv32 {
    ((b0 as bv32) << 24) | ((b1 as bv32) << 16) | ((b2 as bv32) << 8) | (b3 as bv32)
  }

  /** The message schedule. */
  function W(block: seq<bv8>, t: nat): bv32
    requires |block| == 64
  {
    if t < 16 then Word(block, t) else Rol1(Xor(W(block, t - 3), W(block, t - 8), W(block, t - 14), W(block, t - 16)))
  }

  function Round(v: Words, w: bv32, t: nat): Words {
    Words(Sum(Rol5(v.a), F(t, v.b, v.c, v.d), v.e, K(t), w), v.a, Rol30(v.b), v.c, v.d)
  }

  /** The working variables after t rounds. */
  function Rounds(h: Words, block: seq<bv8>, t: nat): Words
    requires |block| == 64
  {
    if t == 0 then h else Round(Rounds(h, block, t - 1), W(block, t - 1), t - 1)
  }

  function Compress(h: Words, block: seq<bv8>): Words
    requires |block| == 64
  {
    AddWords(h, Rounds(h, block, 80))
  }

  function AddWords(h: Words, v: Words): Words {
    Words(h.a + v.a, h.b + v.b, h.c + v.c, h.d + v.d, h.e + v.e)
  }

  /** The hash values after all whole blocks of a message. */
  function Hash(h: Words, m: seq<bv8>): Words
    decreases |m|
  {
    if |m| < 64 then h else Hash(Compress(h, m[..64]), m[64..])
  }

  /** The bytes of a 32-bit word, most significant first. */
  function WordBytes(x: bv32): (s: seq<bv8>)
    ensures |s| == 4
  {
    [(x >> 24) as bv8, ((x >> 16) & 0xFF) as bv8, ((x >> 8) & 0xFF) as bv8, (x & 0xFF) as bv8]
  }

  /** A number below 2^32 as such bytes. */
  function NumberBytes(n: nat): (s: seq<bv8>)
    requires n < 0x1_0000_0000
    ensures |s| == 4
  {
    [(n / 0x100_0000) as bv8, (n / 0x1_0000 % 256) as bv8, (n / 256 % 256) as bv8, (n % 256) as bv8]
  }

  /** The bytes of a number are its digits to the base 256, most significant first. */
  lemma NumberDigits(n: nat, a: nat, b: nat, c: nat, d: nat)
    requires a < 256 && b < 256 && c < 256 && d < 256 && n == 0x100_0000 * a + 0x1_0000 * b + 256 * c + d
    ensures n < 0x1_0000_0000 && NumberBytes(n) == [a as bv8, b as bv8, c as bv8, d as bv8]
  {
    DigitsAreQuotients(n, a, b, c, d);
  }

  lemma DigitsAreQuotients(n: nat, a: nat, b: nat, c: nat, d: nat)
    requires a < 256 && b < 256 && c < 256 && d < 256 && n == 0x100_0000 * a + 0x1_0000 * b + 256 * c + d
    ensures n / 0x100_0000 == a && n / 0x1_0000 % 256 == b && n / 256 % 256 == c && n % 256 == d
  {
    LastDigit(n, 0x1_0000 * a + 256 * b + c, d);
    LastDigit(0x1_0000 * a + 256 * b + c, 256 * a + b, c);
    LastDigit(256 * a + b, a, b);
    assert n / 0x1_0000 == n / 256 / 256 && n / 0x100_0000 == n / 0x1_0000 / 256;
  }

  lemma LastDigit(n: nat, m: nat, d: nat)
    requires n == 256 * m + d && d < 256
    ensures n / 256 == m && n % 256 == d
  {}

  function Zeros(n: nat): (s: seq<bv8>)
    ensures |s| == n
  {
    seq(n, _ => 0)
  }

  /** How many zero bytes follow the bit appended to a message of n bytes. */
  function ZeroCount(n: nat): (k: nat)
    ensures k < 64 && (n + 1 + k) % 64 == 56
  {
    (119 - n % 64) % 64
  }

  /** The padded message: a one bit, zeros, and the length in bits as 64 bits. */
  function Pad(m: seq<bv8>): seq<bv8>
    requires |m| < 0x2000_0000_0000_0000
  {
    var bits := 8 * |m|;
    m + [0x80] + Zeros(ZeroCount(|m|)) + (NumberBytes(bits / 0x1_0000_0000) + NumberBytes(bits % 0x1_0000_0000))
  }

  function Digest(h: Words): seq<bv8> {
    WordBytes(h.a) + WordBytes(h.b) + WordBytes(h.c) + WordBytes(h.d) + WordBytes(h.e)
  }

  /** SHA-1 of a message. */
  function MessageDigest(m: seq<bv8>): seq<bv8>
    requires |m| < 0x2000_0000_0000_0000
  {
    Digest(Hash(INITIAL, Pad(m)))
  }

  // ---------------------------------------------------------------- whole blocks

  lemma {:induction false} HashAppend(h: Words, a: seq<bv8>, b: seq<bv8>)
    requires |a| % 64 == 0
    ensures Hash(h, a + b) == Hash(Hash(h, a), b)
    decreases |a|
  {
    if |a| >= 64 {
      assert (a + b)[..64] == a[..64] && (a + b)[64..] == a[64..] + b;
      hide Compress;
      HashAppend(Compress(h, a[..64]), a[64..], b);
    } else {
      assert a + b == b;
    }
  }

  /** What is left after the whole blocks does not matter yet. */
  lemma HashWhole(h: Words, m: seq<bv8>)
    ensures Hash(h, m) == Hash(h, m[..|m| - |m| % 64])
  {
    var n := |m| - |m| % 64;
    assert m[..n] + m[n..] == m;
    HashAppend(h, m[..n], m[n..]);
    assert |m[n..]| < 64;
  }
}
