/** MD5 as sections 3.1 to 3.5 of RFC 1321 define it: pad, then fold a compression
    function over 64-byte blocks.  Words are integers below 2^32 with explicit
    wrap-around; the bit operations work bit by bit. */
module Md5Spec {
  import opened Bits

  const WORD: int := 0x1_0000_0000
  const BITCOUNT: int := 0x1_0000_0000_0000_0000

  type Word = x: int | 0 <= x < WORD
  type Byte = x: int | 0 <= x < 256

  function BitNot(x: Word): nat {
    WORD - 1 - x
  }

  function Add(x: nat, y: nat): Word {
    (x + y) % WORD
  }

  /** (x << s) | (x >> (32 - s)) on 32-bit words. */
  function Rotl(x: Word, s: nat): nat
    requires s <= 32
  {
    BitOr(x * Pow2(s) % WORD, Quotient(x, Pow2(32 - s)))
  }

  // ---- section 3.4 ----

  function F(x: Word, y: Word, z: Word): nat {
    BitOr(BitAnd(x, y), BitAnd(BitNot(x), z))
  }

  function G(x: Word, y: Word, z: Word): nat {
    BitOr(BitAnd(x, z), BitAnd(y, BitNot(z)))
  }

  function H(x: Word, y: Word, z: Word): nat {
    BitXor(BitXor(x, y), z)
  }

  function I(x: Word, y: Word, z: Word): nat {
    BitXor(y, BitOr(x, BitNot(z)))
  }

  /** The round function used at step i, counted from 0. */
  function Round(i: nat, x: Word, y: Word, z: Word): nat {
    if i < 16 then F(x, y, z) else if i < 32 then G(x, y, z) else if i < 48 then H(x, y, z) else I(x, y, z)
  }

  /** Which word of the block step i reads: consecutively in round 1, then in
      strides of 5, 3 and 7. */
  function WordIndex(i: nat): (k: nat)
    ensures k < 16
  {
    if i < 16 then i else if i < 32 then (5 * i + 1) % 16 else if i < 48 then (3 * i + 5) % 16 else 7 * i % 16
  }

  /** The rotation at step i. */
  function Shift(i: nat): (s: nat)
    ensures s <= 32
  {
    if i < 16 then (if i % 4 == 0 then 7 else if i % 4 == 1 then 12 else if i % 4 == 2 then 17 else 22)
    else if i < 32 then (if i % 4 == 0 then 5 else if i % 4 == 1 then 9 else if i % 4 == 2 then 14 else 20)
    else if i < 48 then (if i % 4 == 0 then 4 else if i % 4 == 1 then 11 else if i % 4 == 2 then 16 else 23)
    else (if i % 4 == 0 then 6 else if i % 4 == 1 then 10 else if i % 4 == 2 then 15 else 21)
  }

  /** The additive constants T[1] to T[64] of section 3.4, counted from 0. */
  function Sine(i: nat): Word {
    match i
    case 0 => 0xd76aa478
    case 1 => 0xe8c7b756
    case 2 => 0x242070db
    case 3 => 0xc1bdceee
    case 4 => 0xf57c0faf
    case 5 => 0x4787c62a
    case 6 => 0xa8304613
    case 7 => 0xfd469501
    case 8 => 0x698098d8
    case 9 => 0x8b44f7af
    case 10 => 0xffff5bb1
    case 11 => 0x895cd7be
    case 12 => 0x6b901122
    case 13 => 0xfd987193
    case 14 => 0xa679438e
    case 15 => 0x49b40821
    case 16 => 0xf61e2562
    case 17 => 0xc040b340
    case 18 => 0x265e5a51
    case 19 => 0xe9b6c7aa
    case 20 => 0xd62f105d
    case 21 => 0x02441453
    case 22 => 0xd8a1e681
    case 23 => 0xe7d3fbc8
    case 24 => 0x21e1cde6
    case 25 => 0xc33707d6
    case 26 => 0xf4d50d87
    case 27 => 0x455a14ed
    case 28 => 0xa9e3e905
    case 29 => 0xfcefa3f8
    case 30 => 0x676f02d9
    case 31 => 0x8d2a4c8a
    case 32 => 0xfffa3942
    case 33 => 0x8771f681
    case 34 => 0x6d9d6122
    case 35 => 0xfde5380c
    case 36 => 0xa4beea44
    case 37 => 0x4bdecfa9
    case 38 => 0xf6bb4b60
    case 39 => 0xbebfbc70
    case 40 => 0x289b7ec6
    case 41 => 0xeaa127fa
    case 42 => 0xd4ef3085
    case 43 => 0x04881d05
    case 44 => 0xd9d4d039
    case 45 => 0xe6db99e5
    case 46 => 0x1fa27cf8
    case 47 => 0xc4ac5665
    case 48 => 0xf4292244
    case 49 => 0x432aff97
    case 50 => 0xab9423a7
    case 51 => 0xfc93a039
    case 52 => 0x655b59c3
    case 53 => 0x8f0ccc92
    case 54 => 0xffeff47d
    case 55 => 0x85845dd1
    case 56 => 0x6fa87e4f
    case 57 => 0xfe2ce6e0
    case 58 => 0xa3014314
    case 59 => 0x4e0811a1
    case 60 => 0xf7537e82
    case 61 => 0xbd3af235
    case 62 => 0x2ad7d2bb
    case 63 => 0xeb86d391
    case _ => 0
  }

  datatype Regs = Regs(a: Word, b: Word, c: Word, d: Word)

  /** b + ((a + f + x + t) <<< s) */
  function Mix(a: Word, f: nat, x: Word, s: nat, t: Word, b: Word): Word
    requires s <= 32
  {
    Add(Rotl(Add(Add(Add(a, f), x), t), s), b)
  }

  function Step(i: nat, r: Regs, X: seq<Word>): Regs
    requires |X| == 16
  {
    Regs(r.d, Mix(r.a, Round(i, r.b, r.c, r.d), X[WordIndex(i)], Shift(i), Sine(i), r.b), r.b, r.c)
  }

  /** Steps 0 to n - 1. */
  function Steps(n: nat, r: Regs, X: seq<Word>): Regs
    requires |X| == 16
  {
    if n == 0 then r else Step(n - 1, Steps(n - 1, r, X), X)
  }

  // ---- words, blocks and padding ----

  function LittleEndian(b0: Byte, b1: Byte, b2: Byte, b3: Byte): Word {
    b0 + 0x100 * b1 + 0x1_0000 * b2 + 0x100_0000 * b3
  }

  /** The bytes of a word, low byte first. */
  function Bytes(w: Word): (s: seq<Byte>)
    ensures |s| == 4
  {
    [w % 256, w / 0x100 % 256, w / 0x1_0000 % 256, w / 0x100_0000 % 256]
  }

  /** The words of a 64-byte block. */
  function Words(block: seq<Byte>): (X: seq<Word>)
    requires |block| == 64
    ensures |X| == 16
  {
    seq(16, j requires 0 <= j < 16 => LittleEndian(block[4 * j], block[4 * j + 1], block[4 * j + 2], block[4 * j + 3]))
  }

  function AddRegs(r: Regs, q: Regs): Regs {
    Regs(Add(r.a, q.a), Add(r.b, q.b), Add(r.c, q.c), Add(r.d, q.d))
  }

  function Compress(r: Regs, block: seq<Byte>): Regs
    requires |block| == 64
  {
    AddRegs(r, Steps(64, r, Words(block)))
  }

  /** Compress applied to the n leading blocks of m in turn. */
  function Fold(r: Regs, m: seq<Byte>, n: nat): Regs
    requires 64 * n <= |m|
  {
    if n == 0 then r else Compress(Fold(r, m, n - 1), m[64 * (n - 1)..64 * n])
  }

  const INIT: Regs := Regs(0x67452301, 0xefcdab89, 0x98badcfe, 0x10325476)

  function Zeros(n: nat): (s: seq<Byte>)
    ensures |s| == n
  {
    seq(n, i => 0)
  }

  /** How many zero bytes follow the 0x80 byte: the fewest that reach 56 mod 64. */
  function PadZeros(length: nat): (k: nat)
    ensures k < 64 && (length + 1 + k) % 64 == 56
  {
    (119 - length % 64) % 64
  }

  /** The bit count modulo 2^64, low word first. */
  function LengthBytes(length: nat): (s: seq<Byte>)
    ensures |s| == 8
  {
    var bits := 8 * length % BITCOUNT;
    Bytes(bits % WORD) + Bytes(bits / WORD)
  }

  lemma FillsBlock(n: nat)
    requires n % 64 == 56
    ensures (n + 8) % 64 == 0
  {
  }

  function Pad(m: seq<Byte>): (p: seq<Byte>)
    ensures |p| % 64 == 0 && m <= p
  {
    FillsBlock(|m| + 1 + PadZeros(|m|));
    m + [0x80] + Zeros(PadZeros(|m|)) + LengthBytes(|m|)
  }

  function Digest(r: Regs): (s: seq<Byte>)
    ensures |s| == 16
  {
    Bytes(r.a) + Bytes(r.b) + Bytes(r.c) + Bytes(r.d)
  }

  /** The digest of a message. */
  function Md5(m: seq<Byte>): (s: seq<Byte>)
    ensures |s| == 16
  {
    Digest(Fold(INIT, Pad(m), |Pad(m)| / 64))
  }

  function Concat(chunks: seq<seq<Byte>>): seq<Byte> {
    if chunks == [] then [] else Concat(chunks[..|chunks| - 1]) + chunks[|chunks| - 1]
  }
}
