/** Facts about padding, folding and counting that both MD5 implementations use. */
module Md5Lemmas {
  import opened Bits
  import opened Md5Spec

  lemma NoSteps(r: Regs, X: seq<Word>)
    requires |X| == 16
    ensures Steps(0, r, X) == r
  {
  }

  lemma FourSteps(n: nat, r: Regs, X: seq<Word>)
    requires |X| == 16
    ensures Steps(n + 4, r, X) == Step(n + 3, Step(n + 2, Step(n + 1, Step(n, Steps(n, r, X), X), X), X), X)
  {
    assert Steps(n + 2, r, X) == Step(n + 1, Steps(n + 1, r, X), X);
    assert Steps(n + 3, r, X) == Step(n + 2, Steps(n + 2, r, X), X);
  }

  /** Folding leading blocks ignores what follows them. */
  lemma {:induction false} FoldPrefix(r: Regs, m: seq<Byte>, p: seq<Byte>, n: nat)
    requires m <= p && 64 * n <= |m|
    ensures Fold(r, m, n) == Fold(r, p, n)
  {
    hide Compress;
    if n > 0 {
      FoldPrefix(r, m, p, n - 1);
      assert m[64 * (n - 1)..64 * n] == p[64 * (n - 1)..64 * n];
    }
  }

  /** The two-word bit counter stands for a message length. */
  ghost predicate Counts(low: Word, high: Word, length: nat) {
    low + WORD * high == 8 * length % BITCOUNT
  }

  lemma SplitBy64(x: nat, n: nat, r: nat)
    requires x == 64 * n + r && r < 64
    ensures x / 64 == n && x % 64 == r
  {
  }

  lemma CountsOffset(low: Word, high: Word, length: nat)
    requires Counts(low, high, length)
    ensures low / 8 % 64 == length % 64
  {
    var q := 8 * length / BITCOUNT;
    var bytes := low / 8;
    assert 8 * length == BITCOUNT * q + WORD * high + low;
    assert low == 8 * (length - 0x2000_0000_0000_0000 * q - 0x2000_0000 * high);
    assert length == 64 * (0x80_0000_0000_0000 * q + 0x80_0000 * high + bytes / 64) + bytes % 64;
    SplitBy64(length, 0x80_0000_0000_0000 * q + 0x80_0000 * high + bytes / 64, bytes % 64);
  }

  /** Adding n bytes: the low word wraps, and its carry and the bits of n above
      the low word go to the high word. */
  lemma CountsAdd(low: Word, high: Word, length: nat, n: nat, low': Word, high': Word)
    requires Counts(low, high, length) && n < WORD
    requires low' == Add(low, 8 * n % WORD)
    requires high' == Add(high, n / 0x2000_0000 + (if low + 8 * n % WORD >= WORD then 1 else 0))
    ensures Counts(low', high', length + n)
  {
    var bits := 8 * n % WORD;
    var top := n / 0x2000_0000;
    assert 8 * n == bits + WORD * top;
    var carry := if low + bits >= WORD then 1 else 0;
    assert low' == low + bits - WORD * carry;
    var wrap := (high + (top + carry)) / WORD;
    assert high' == high + top + carry - WORD * wrap;
    var q := 8 * length / BITCOUNT;
    assert 8 * length == BITCOUNT * q + low + WORD * high;
    assert 8 * (length + n) == BITCOUNT * (q + wrap) + (low' + WORD * high');
    ModUnique(8 * (length + n), BITCOUNT, q + wrap, low' + WORD * high');
  }

  lemma ModUnique(x: int, m: int, q: int, r: int)
    requires m == BITCOUNT && 0 <= r < m && x == m * q + r
    ensures x % m == r
  {
  }

  /** Either way of testing for a carry out of the low word. */
  lemma Carries(low: Word, bits: Word)
    ensures Add(low, bits) < bits <==> low + bits >= WORD
    ensures Add(low, bits) < low <==> low + bits >= WORD
  {
  }

  lemma AddTwice(h: nat, x: nat, y: nat)
    ensures Add(Add(h, x), y) == Add(h, x + y)
  {
    AddReduces(h + x, y);
  }

  lemma AddReduces(x: nat, y: nat)
    ensures Add(x % WORD, y) == Add(x, y)
  {
  }

  lemma AddAssoc(a: nat, f: nat, x: nat, t: nat)
    ensures Add(a, Add(Add(f, x), t)) == Add(Add(Add(a, f), x), t)
  {
    AddReduces(f + x, t);
    AddReduces(f + x + t, a);
    AddReduces(a + f, x);
    AddReduces(a + f + x, t);
  }

  lemma PowersOfTwo()
    ensures Pow2(8) == 0x100 && Pow2(16) == 0x1_0000 && Pow2(24) == 0x100_0000
  {
  }

  lemma OrDecodes(b0: Byte, b1: Byte, b2: Byte, b3: Byte)
    ensures BitOr(BitOr(BitOr(b3 * 0x100_0000, b2 * 0x1_0000), b1 * 0x100), b0) == LittleEndian(b0, b1, b2, b3)
  {
    hide BitOr, Pow2;
    PowersOfTwo();
    OrIsSum(b3, 24, b2 * 0x1_0000);
    OrIsSum(b3 * 0x100 + b2, 16, b1 * 0x100);
    OrIsSum(b3 * 0x1_0000 + b2 * 0x100 + b1, 8, b0);
  }

  /** A word written out byte by byte and read back. */
  lemma BytesRoundTrip(w: Word)
    ensures LittleEndian(Bytes(w)[0], Bytes(w)[1], Bytes(w)[2], Bytes(w)[3]) == w
  {
    var q1 := w / 0x100;
    var q2 := q1 / 0x100;
    var q3 := q2 / 0x100;
    assert w / 0x1_0000 == q2;
    assert w / 0x100_0000 == q3 < 0x100;
  }

  /** What both finishers append: padding bytes up to 56 mod 64, then the length. */
  const PADDING: seq<Byte> := [0x80] + Zeros(63)

  lemma PadSplits(m: seq<Byte>, n: nat)
    requires n == 1 + PadZeros(|m|)
    ensures |PADDING| == 64 && Pad(m) == m + PADDING[..n] + LengthBytes(|m|)
    ensures (|m| + n) % 64 == 56
  {
    assert PADDING[..n] == [0x80] + Zeros(n - 1);
  }

  lemma PadSwitch(length: nat)
    ensures (if length % 64 < 56 then 56 - length % 64 else 120 - length % 64) == 1 + PadZeros(length)
  {
  }

  lemma LengthFromCounter(low: Word, high: Word, length: nat)
    requires Counts(low, high, length)
    ensures LengthBytes(length) == Bytes(low) + Bytes(high)
  {
    var bits := 8 * length % BITCOUNT;
    assert bits % WORD == low && bits / WORD == high;
  }

  lemma PadLength(low: Word, high: Word, length: nat)
    requires Counts(low, high, length)
    ensures (55 - low / 8) % 64 == PadZeros(length)
  {
    hide Counts;
    CountsOffset(low, high, length);
    var x := low / 8;
    assert x == 64 * (x / 64) + length % 64;
  }

  lemma FoldNext(m: seq<Byte>, n: nat)
    requires 64 * (n + 1) <= |m|
    ensures Fold(INIT, m, n + 1) == Compress(Fold(INIT, m, n), m[64 * n..64 * (n + 1)])
  {
    hide Compress;
  }

  lemma Md5Unfolds(m: seq<Byte>)
    ensures Md5(m) == Digest(Fold(INIT, Pad(m), |Pad(m)| / 64))
  {
  }

  lemma ConcatStep(chunks: seq<seq<Byte>>, i: nat)
    requires i < |chunks|
    ensures Concat(chunks[..i + 1]) == Concat(chunks[..i]) + chunks[i]
  {
    assert chunks[..i + 1][..i] == chunks[..i];
  }

  lemma ConcatEnds(chunks: seq<seq<Byte>>)
    ensures Concat(chunks[..0]) == [] && chunks[..|chunks|] == chunks
  {
  }

  // ---- what the round functions do to each bit ----

  lemma WordIsPower()
    ensures Pow2(32) == WORD
  {
    assert Pow2(8) == 256;
    assert Pow2(16) == 65536;
    assert Pow2(24) == 16777216;
  }

  /** Addition of words wraps around once. */
  lemma AddWraps(x: Word, y: Word)
    ensures Add(x, y) == x + y || (x + y >= WORD && Add(x, y) == x + y - WORD)
  {
  }

  lemma NotBit(x: Word, k: nat)
    requires k < 32
    ensures Bit(BitNot(x), k) == 1 - Bit(x, k)
  {
    WordIsPower();
    FlipBit(x, 32, k);
  }

  /** F takes the bit from y where x is set, else from z. */
  lemma FBit(x: Word, y: Word, z: Word, k: nat)
    requires k < 32
    ensures Bit(F(x, y, z), k) == if Bit(x, k) == 1 then Bit(y, k) else Bit(z, k)
  {
    NotBit(x, k);
    AndBit(x, y, k);
    AndBit(BitNot(x), z, k);
    OrBit(BitAnd(x, y), BitAnd(BitNot(x), z), k);
  }

  /** G takes the bit from x where z is set, else from y. */
  lemma GBit(x: Word, y: Word, z: Word, k: nat)
    requires k < 32
    ensures Bit(G(x, y, z), k) == if Bit(z, k) == 1 then Bit(x, k) else Bit(y, k)
  {
    NotBit(z, k);
    AndBit(x, z, k);
    AndBit(y, BitNot(z), k);
    OrBit(BitAnd(x, z), BitAnd(y, BitNot(z)), k);
  }

  /** H is the parity of the three bits. */
  lemma HBit(x: Word, y: Word, z: Word, k: nat)
    ensures Bit(H(x, y, z), k) == (Bit(x, k) + Bit(y, k) + Bit(z, k)) % 2
  {
    hide Bit, BitXor;
    XorBit(x, y, k);
    XorBit(BitXor(x, y), z, k);
  }

  /** I flips the bit of y where x is set or z is not. */
  lemma IBit(x: Word, y: Word, z: Word, k: nat)
    requires k < 32
    ensures Bit(I(x, y, z), k) == if Bit(x, k) == 1 || Bit(z, k) == 0 then 1 - Bit(y, k) else Bit(y, k)
  {
    NotBit(z, k);
    OrBit(x, BitNot(z), k);
    XorBit(y, BitOr(x, BitNot(z)), k);
  }

  /** A rotation moves bit k to bit k + s, counted round the word. */
  lemma RotlBit(x: Word, s: nat, k: nat)
    requires s <= 32 && k < 32
    ensures Bit(Rotl(x, s), (k + s) % 32) == Bit(x, k)
  {
    hide Bit, BitOr, Pow2;
    WordIsPower();
    var j := if k + s < 32 then k + s else k + s - 32;
    RotlOr(x, s, j);
    if k + s < 32 {
      NoHighBit(x, 32, k + 32);
    }
  }

  /** The two shifts of a rotation, seen from bit j of its result. */
  lemma RotlOr(x: Word, s: nat, j: nat)
    requires s <= 32 && j < 32
    ensures Bit(Rotl(x, s), j) == if (j >= s && Bit(x, j - s) == 1) || Bit(x, j + (32 - s)) == 1 then 1 else 0
  {
    WordIsPower();
    hide Bit, BitOr, Pow2;
    UpBit(x, s, j);
    LowBit(x * Pow2(s), 32, j);
    DownBit(x, 32 - s, j);
    OrBit(x * Pow2(s) % WORD, Quotient(x, Pow2(32 - s)), j);
  }
}
