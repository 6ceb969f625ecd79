/** The MD5 message digest as RFC 1321 defines it (sections 2 and 3). */
module Md5Spec {

  type Word = bv32
  type Bytes = seq<bv8>

  datatype State = State(a: Word, b: Word, c: Word, d: Word)

  const INITIAL := State(0x67452301, 0xefcdab89, 0x98badcfe, 0x10325476)

  // Section 3.4: the four auxiliary functions.

  function F(x: Word, y: Word, z: Word): Word { (x & y) | (!x & z) }

  function G(x: Word, y: Word, z: Word): Word { (x & z) | (y & !z) }

  function H(x: Word, y: Word, z: Word): Word { x ^ y ^ z }

  function I(x: Word, y: Word, z: Word): Word { y ^ (x | !z) }

  function Auxiliary(i: nat, x: Word, y: Word, z: Word): Word
  {
    if i < 16 then F(x, y, z) else if i < 32 then G(x, y, z) else if i < 48 then H(x, y, z) else I(x, y, z)
  }

  /** Which word of the block operation `i` uses. */
  function K(i: nat): (k: nat)
    ensures k < 16
  {
    if i < 16 then i else if i < 32 then (5 * i + 1) % 16 else if i < 48 then (3 * i + 5) % 16 else 7 * i % 16
  }

  /** How far operation `i` rotates. */
  function S(i: nat): (s: nat)
    ensures 0 < s < 32
  {
    if i < 16 then [7, 12, 17, 22][i % 4]
    else if i < 32 then [5, 9, 14, 20][i % 4]
    else if i < 48 then [4, 11, 16, 23][i % 4]
    else [6, 10, 15, 21][i % 4]
  }

  /** The sine table of section 3.4, one row for each round. */
  function T(i: nat): Word
    requires i < 64
  {
    if i < 16 then T1(i) else if i < 32 then T2(i - 16) else if i < 48 then T3(i - 32) else T4(i - 48)
  }

  function T1(j: nat): Word
    requires j < 16
  {
    match j
    case 0 => 0xd76aa478
    case 1 => 0xe8c7b756
    case 2 => 0x242070db
    case 3 => 0xc1bdceee
    case 4 => 0xf57c0faf
    case 5 => 0x4787c62a
    case 6 => 0xa8304613
    case 7 => 0xfd469501
    case 8 => 0x698098d8
    case 9 => 0x8b44f7af
    case 10 => 0xffff5bb1
    case 11 => 0x895cd7be
    case 12 => 0x6b901122
    case 13 => 0xfd987193
    case 14 => 0xa679438e
    case _ => 0x49b40821
  }

  function T2(j: nat): Word
    requires j < 16
  {
    match j
    case 0 => 0xf61e2562
    case 1 => 0xc040b340
    case 2 => 0x265e5a51
    case 3 => 0xe9b6c7aa
    case 4 => 0xd62f105d
    case 5 => 0x02441453
    case 6 => 0xd8a1e681
    case 7 => 0xe7d3fbc8
    case 8 => 0x21e1cde6
    case 9 => 0xc33707d6
    case 10 => 0xf4d50d87
    case 11 => 0x455a14ed
    case 12 => 0xa9e3e905
    case 13 => 0xfcefa3f8
    case 14 => 0x676f02d9
    case _ => 0x8d2a4c8a
  }

  function T3(j: nat): Word
    requires j < 16
  {
    match j
    case 0 => 0xfffa3942
    case 1 => 0x8771f681
    case 2 => 0x6d9d6122
    case 3 => 0xfde5380c
    case 4 => 0xa4beea44
    case 5 => 0x4bdecfa9
    case 6 => 0xf6bb4b60
    case 7 => 0xbebfbc70
    case 8 => 0x289b7ec6
    case 9 => 0xeaa127fa
    case 10 => 0xd4ef3085
    case 11 => 0x04881d05
    case 12 => 0xd9d4d039
    case 13 => 0xe6db99e5
    case 14 => 0x1fa27cf8
    case _ => 0xc4ac5665
  }

  function T4(j: nat): Word
    requires j < 16
  {
    match j
    case 0 => 0xf4292244
    case 1 => 0x432aff97
    case 2 => 0xab9423a7
    case 3 => 0xfc93a039
    case 4 => 0x655b59c3
    case 5 => 0x8f0ccc92
    case 6 => 0xffeff47d
    case 7 => 0x85845dd1
    case 8 => 0x6fa87e4f
    case 9 => 0xfe2ce6e0
    case 10 => 0xa3014314
    case 11 => 0x4e0811a1
    case 12 => 0xf7537e82
    case 13 => 0xbd3af235
    case 14 => 0x2ad7d2bb
    case _ => 0xeb86d391
  }

  function RotateLeft(w: Word, s: nat): Word
    requires 0 < s < 32
  {
    (w << s) | (w >> (32 - s))
  }

  /** a = b + ((a + f + x + t) <<< s), where f is the auxiliary function's value. */
  function NewA(f: Word, a: Word, b: Word, x: Word, t: Word, s: nat): Word
    requires 0 < s < 32
  {
    b + RotateLeft(a + f + x + t, s)
  }

  /** One operation "[abcd k s i]"; the four roles move on by one place. */
  function Operation(i: nat, st: State, x: seq<Word>): State
    requires i < 64 && |x| == 16
  {
    State(st.d,
          NewA(Auxiliary(i, st.b, st.c, st.d), st.a, st.b, x[K(i)], T(i), S(i)),
          st.b,
          st.c)
  }

  function Operations(n: nat, st: State, x: seq<Word>): State
    requires n <= 64 && |x| == 16
  {
    if n == 0 then st else Operation(n - 1, Operations(n - 1, st, x), x)
  }

  /** Addition modulo 2^32. */
  function Add(x: Word, y: Word): Word { x + y }

  function Sum(s: State, t: State): State
  {
    State(Add(s.a, t.a), Add(s.b, t.b), Add(s.c, t.c), Add(s.d, t.d))
  }

  /** Bytes to words and back, low-order byte first (section 2). */
  function WordOf(b: Bytes): Word
    requires |b| == 4
  {
    (b[0] as Word) | ((b[1] as Word) << 8) | ((b[2] as Word) << 16) | ((b[3] as Word) << 24)
  }

  function BytesOf(w: Word): (b: Bytes)
    ensures |b| == 4
  {
    [(w & 0xff) as bv8, ((w >> 8) & 0xff) as bv8, ((w >> 16) & 0xff) as bv8, ((w >> 24) & 0xff) as bv8]
  }

  function WordsOf(b: Bytes): (x: seq<Word>)
    requires |b| == 64
    ensures |x| == 16
  {
    seq(16, i requires 0 <= i < 16 => WordOf(b[4 * i..4 * i + 4]))
  }

  function Compress(st: State, block: Bytes): State
    requires |block| == 64
  {
    Sum(st, Operations(64, st, WordsOf(block)))
  }

  /** Section 3.4: the whole blocks of `m`, in order. A last partial block is left alone. */
  function Absorb(st: State, m: Bytes): State
    decreases |m|
  {
    if |m| < 64 then st else Absorb(Compress(st, m[..64]), m[64..])
  }

  /** Section 3.1: a one bit, then zeros up to 56 modulo 64 bytes. */
  function Padding(n: nat): (p: Bytes)
    ensures 1 <= |p| <= 64 && (n + |p|) % 64 == 56
    ensures p[0] == 0x80 && forall i | 1 <= i < |p| :: p[i] == 0
  {
    [0x80] + seq((119 - n % 64) % 64, _ => 0)
  }

  /** The little-endian bytes of a number, `n` of them. */
  function LittleEndian(x: nat, n: nat): (b: Bytes)
    ensures |b| == n
  {
    if n == 0 then [] else [(x % 256) as bv8] + LittleEndian(x / 256, n - 1)
  }

  /** Section 3.2: the bit count modulo 2^64, as two words, low-order word first. */
  function Padded(m: Bytes): Bytes
  {
    m + Padding(|m|) + LittleEndian(8 * |m| % 0x1_0000_0000_0000_0000, 8)
  }

  function DigestOf(st: State): (d: Bytes)
    ensures |d| == 16
  {
    BytesOf(st.a) + BytesOf(st.b) + BytesOf(st.c) + BytesOf(st.d)
  }

  function Md5(m: Bytes): Bytes
  {
    DigestOf(Absorb(INITIAL, Padded(m)))
  }
}
