/** The streaming MD5 that takes one byte at a time, with UINT4 as the 32-bit type
    its header calls for. */
module Md5Rivest {
  import opened Bits
  import opened Md5Spec
  import opened Md5Lemmas
  import Md5Deutsch

  /** The FF, GG, HH and II macros: the three terms are summed before they are
      added to a. */
  function RMix(a: Word, f: nat, x: Word, s: nat, t: Word, b: Word): (r: Word)
    requires s <= 32
    ensures r == Mix(a, f, x, s, t, b)
  {
    AddAssoc(a, f, x, t);
    Add(Rotl(Add(a, Add(Add(f, x), t)), s), b)
  }

  /** Round 1: steps 0 to 15 of the block that started from r0. */
  method Round1(r: Regs, X: seq<Word>, ghost r0: Regs) returns (q: Regs)
    requires |X| == 16 && r == Steps(0, r0, X)
    ensures q == Steps(16, r0, X)
  {
    hide Mix, RMix, F, G, H, I, Steps;
    var a, b, c, d := r.a, r.b, r.c, r.d;
    a := RMix(a, F(b, c, d), X[0], 7, 3614090360, b);
    d := RMix(d, F(a, b, c), X[1], 12, 3905402710, a);
    c := RMix(c, F(d, a, b), X[2], 17, 606105819, d);
    b := RMix(b, F(c, d, a), X[3], 22, 3250441966, c);
    FourSteps(0, r0, X);
    assert Regs(a, b, c, d) == Steps(4, r0, X);
    a := RMix(a, F(b, c, d), X[4], 7, 4118548399, b);
    d := RMix(d, F(a, b, c), X[5], 12, 1200080426, a);
    c := RMix(c, F(d, a, b), X[6], 17, 2821735955, d);
    b := RMix(b, F(c, d, a), X[7], 22, 4249261313, c);
    FourSteps(4, r0, X);
    assert Regs(a, b, c, d) == Steps(8, r0, X);
    a := RMix(a, F(b, c, d), X[8], 7, 1770035416, b);
    d := RMix(d, F(a, b, c), X[9], 12, 2336552879, a);
    c := RMix(c, F(d, a, b), X[10], 17, 4294925233, d);
    b := RMix(b, F(c, d, a), X[11], 22, 2304563134, c);
    FourSteps(8, r0, X);
    assert Regs(a, b, c, d) == Steps(12, r0, X);
    a := RMix(a, F(b, c, d), X[12], 7, 1804603682, b);
    d := RMix(d, F(a, b, c), X[13], 12, 4254626195, a);
    c := RMix(c, F(d, a, b), X[14], 17, 2792965006, d);
    b := RMix(b, F(c, d, a), X[15], 22, 1236535329, c);
    FourSteps(12, r0, X);
    assert Regs(a, b, c, d) == Steps(16, r0, X);
    q := Regs(a, b, c, d);
  }

  /** Round 2: steps 16 to 31 of the block that started from r0. */
  method Round2(r: Regs, X: seq<Word>, ghost r0: Regs) returns (q: Regs)
    requires |X| == 16 && r == Steps(16, r0, X)
    ensures q == Steps(32, r0, X)
  {
    hide Mix, RMix, F, G, H, I, Steps;
    var a, b, c, d := r.a, r.b, r.c, r.d;
    a := RMix(a, G(b, c, d), X[1], 5, 4129170786, b);
    d := RMix(d, G(a, b, c), X[6], 9, 3225465664, a);
    c := RMix(c, G(d, a, b), X[11], 14, 643717713, d);
    b := RMix(b, G(c, d, a), X[0], 20, 3921069994, c);
    FourSteps(16, r0, X);
    assert Regs(a, b, c, d) == Steps(20, r0, X);
    a := RMix(a, G(b, c, d), X[5], 5, 3593408605, b);
    d := RMix(d, G(a, b, c), X[10], 9, 38016083, a);
    c := RMix(c, G(d, a, b), X[15], 14, 3634488961, d);
    b := RMix(b, G(c, d, a), X[4], 20, 3889429448, c);
    FourSteps(20, r0, X);
    assert Regs(a, b, c, d) == Steps(24, r0, X);
    a := RMix(a, G(b, c, d), X[9], 5, 568446438, b);
    d := RMix(d, G(a, b, c), X[14], 9, 3275163606, a);
    c := RMix(c, G(d, a, b), X[3], 14, 4107603335, d);
    b := RMix(b, G(c, d, a), X[8], 20, 1163531501, c);
    FourSteps(24, r0, X);
    assert Regs(a, b, c, d) == Steps(28, r0, X);
    a := RMix(a, G(b, c, d), X[13], 5, 2850285829, b);
    d := RMix(d, G(a, b, c), X[2], 9, 4243563512, a);
    c := RMix(c, G(d, a, b), X[7], 14, 1735328473, d);
    b := RMix(b, G(c, d, a), X[12], 20, 2368359562, c);
    FourSteps(28, r0, X);
    assert Regs(a, b, c, d) == Steps(32, r0, X);
    q := Regs(a, b, c, d);
  }

  /** Round 3: steps 32 to 47 of the block that started from r0. */
  method Round3(r: Regs, X: seq<Word>, ghost r0: Regs) returns (q: Regs)
    requires |X| == 16 && r == Steps(32, r0, X)
    ensures q == Steps(48, r0, X)
  {
    hide Mix, RMix, F, G, H, I, Steps;
    var a, b, c, d := r.a, r.b, r.c, r.d;
    a := RMix(a, H(b, c, d), X[5], 4, 4294588738, b);
    d := RMix(d, H(a, b, c), X[8], 11, 2272392833, a);
    c := RMix(c, H(d, a, b), X[11], 16, 1839030562, d);
    b := RMix(b, H(c, d, a), X[14], 23, 4259657740, c);
    FourSteps(32, r0, X);
    assert Regs(a, b, c, d) == Steps(36, r0, X);
    a := RMix(a, H(b, c, d), X[1], 4, 2763975236, b);
    d := RMix(d, H(a, b, c), X[4], 11, 1272893353, a);
    c := RMix(c, H(d, a, b), X[7], 16, 4139469664, d);
    b := RMix(b, H(c, d, a), X[10], 23, 3200236656, c);
    FourSteps(36, r0, X);
    assert Regs(a, b, c, d) == Steps(40, r0, X);
    a := RMix(a, H(b, c, d), X[13], 4, 681279174, b);
    d := RMix(d, H(a, b, c), X[0], 11, 3936430074, a);
    c := RMix(c, H(d, a, b), X[3], 16, 3572445317, d);
    b := RMix(b, H(c, d, a), X[6], 23, 76029189, c);
    FourSteps(40, r0, X);
    assert Regs(a, b, c, d) == Steps(44, r0, X);
    a := RMix(a, H(b, c, d), X[9], 4, 3654602809, b);
    d := RMix(d, H(a, b, c), X[12], 11, 3873151461, a);
    c := RMix(c, H(d, a, b), X[15], 16, 530742520, d);
    b := RMix(b, H(c, d, a), X[2], 23, 3299628645, c);
    FourSteps(44, r0, X);
    assert Regs(a, b, c, d) == Steps(48, r0, X);
    q := Regs(a, b, c, d);
  }

  /** Round 4: steps 48 to 63 of the block that started from r0. */
  method Round4(r: Regs, X: seq<Word>, ghost r0: Regs) returns (q: Regs)
    requires |X| == 16 && r == Steps(48, r0, X)
    ensures q == Steps(64, r0, X)
  {
    hide Mix, RMix, F, G, H, I, Steps;
    var a, b, c, d := r.a, r.b, r.c, r.d;
    a := RMix(a, I(b, c, d), X[0], 6, 4096336452, b);
    d := RMix(d, I(a, b, c), X[7], 10, 1126891415, a);
    c := RMix(c, I(d, a, b), X[14], 15, 2878612391, d);
    b := RMix(b, I(c, d, a), X[5], 21, 4237533241, c);
    FourSteps(48, r0, X);
    assert Regs(a, b, c, d) == Steps(52, r0, X);
    a := RMix(a, I(b, c, d), X[12], 6, 1700485571, b);
    d := RMix(d, I(a, b, c), X[3], 10, 2399980690, a);
    c := RMix(c, I(d, a, b), X[10], 15, 4293915773, d);
    b := RMix(b, I(c, d, a), X[1], 21, 2240044497, c);
    FourSteps(52, r0, X);
    assert Regs(a, b, c, d) == Steps(56, r0, X);
    a := RMix(a, I(b, c, d), X[8], 6, 1873313359, b);
    d := RMix(d, I(a, b, c), X[15], 10, 4264355552, a);
    c := RMix(c, I(d, a, b), X[6], 15, 2734768916, d);
    b := RMix(b, I(c, d, a), X[13], 21, 1309151649, c);
    FourSteps(56, r0, X);
    assert Regs(a, b, c, d) == Steps(60, r0, X);
    a := RMix(a, I(b, c, d), X[4], 6, 4149444226, b);
    d := RMix(d, I(a, b, c), X[11], 10, 3174756917, a);
    c := RMix(c, I(d, a, b), X[2], 15, 718787259, d);
    b := RMix(b, I(c, d, a), X[9], 21, 3951481745, c);
    FourSteps(60, r0, X);
    assert Regs(a, b, c, d) == Steps(64, r0, X);
    q := Regs(a, b, c, d);
  }

  method Transform(buf: Regs, X: seq<Word>) returns (r: Regs)
    requires |X| == 16
    ensures r == AddRegs(buf, Steps(64, buf, X))
  {
    hide Steps;
    NoSteps(buf, X);
    var q := Round1(buf, X, buf);
    q := Round2(q, X, buf);
    q := Round3(q, X, buf);
    q := Round4(q, X, buf);
    r := Regs(Add(buf.a, q.a), Add(buf.b, q.b), Add(buf.c, q.c), Add(buf.d, q.d));
  }

  /** Assembles the first n words of the input buffer with shifts and ors. */
  method LoadWords(block: seq<Byte>, n: nat) returns (X: seq<Word>)
    requires |block| == 64 && n <= 16
    ensures X == Words(block)[..n]
  {
    X := [];
    for i := 0 to n
      invariant |X| == i && forall j :: 0 <= j < i ==> X[j] == Words(block)[j]
    {
      var b0: int, b1: int, b2: int, b3: int := block[4 * i], block[4 * i + 1], block[4 * i + 2], block[4 * i + 3];
      OrDecodes(b0, b1, b2, b3);
      X := X + [BitOr(BitOr(BitOr(b3 * 0x100_0000, b2 * 0x1_0000), b1 * 0x100), b0)];
    }
  }

  class Context {
    var i0: Word
    var i1: Word
    var buf: Regs
    const input: array<Byte>
    ghost var msg: seq<Byte>

    ghost predicate Valid()
      reads this, input
    {
      && Counts(i0, i1, |msg|)
      && Absorbed(msg)
    }

    /** The registers have absorbed the full blocks of m and the input buffer
        starts with the rest. */
    ghost predicate Absorbed(m: seq<Byte>)
      reads this, input
    {
      && input.Length == 64
      && buf == Fold(INIT, m, |m| / 64)
      && input[..|m| % 64] == m[|m| - |m| % 64..]
    }

    constructor ()
      ensures Valid() && msg == [] && fresh(input)
    {
      i0, i1 := 0, 0;
      buf := Regs(0x67452301, 0xefcdab89, 0x98badcfe, 0x10325476);
      input := new Byte[64](i => 0);
      msg := [];
    }

    /** One turn of the byte loop; mdi is the fill level of the input buffer. */
    method Feed(b: Byte, mdi: nat, ghost m: seq<Byte>) returns (mdi': nat)
      requires Absorbed(m) && mdi == |m| % 64
      modifies this`buf, input
      ensures Absorbed(m + [b]) && mdi' == |m + [b]| % 64
    {
      hide Compress, Fold, Steps;
      ghost var m', n := m + [b], |m| / 64;
      FoldPrefix(INIT, m, m', n);
      input[mdi] := b;
      mdi' := mdi + 1;
      assert input[..mdi + 1] == m'[|m| - mdi..];
      if mdi' == 0x40 {
        assert input[..] == m'[64 * n..64 * (n + 1)];
        FoldNext(m', n);
        var X := LoadWords(input[..], 16);
        assert X == Words(input[..]);
        BlockStep(buf, input[..]);
        buf := Transform(buf, X);
        mdi' := 0;
      }
    }

    method Update(data: seq<Byte>)
      requires Valid() && |data| < WORD
      modifies this, input
      ensures Valid() && msg == old(msg) + data
    {
      hide Compress, Fold, Counts;
      CountsOffset(i0, i1, |msg|);
      var mdi := i0 / 8 % 64;
      UpdateCount(|data|);
      assert msg + data[..0] == msg;
      for i := 0 to |data|
        invariant Absorbed(msg + data[..i]) && mdi == |msg + data[..i]| % 64
        invariant Counts(i0, i1, |msg| + |data|) && msg == old(msg)
      {
        assert msg + data[..i + 1] == (msg + data[..i]) + [data[i]];
        mdi := Feed(data[i], mdi, msg + data[..i]);
      }
      assert data[..|data|] == data;
      msg := msg + data;
    }

    method UpdateCount(inLen: nat)
      requires Counts(i0, i1, |msg|) && inLen < WORD
      modifies this`i0, this`i1
      ensures Counts(i0, i1, |msg| + inLen)
    {
      var bits := inLen * 8 % WORD;
      ghost var low, high := i0, i1;
      hide Counts, Add;
      Carries(low, bits);
      AddTwice(high, 1, inLen / 0x2000_0000);
      if Add(i0, bits) < i0 {
        i1 := Add(i1, 1);
      }
      i0 := Add(i0, bits);
      i1 := Add(i1, inLen / 0x2000_0000);
      CountsAdd(low, high, |msg|, inLen, i0, i1);
    }

    /** Pads with Update, but appends the length as two words of the last block
        without going through the buffer. */
    method Final() returns (digest: seq<Byte>)
      requires Valid()
      modifies this, input
      ensures digest == Md5(old(msg))
    {
      hide Md5, Pad, Counts, Fold, Compress, Words, Steps, PadZeros;
      ghost var m := msg;
      var low, high := i0, i1;
      CountsOffset(i0, i1, |m|);
      var mdi := i0 / 8 % 64;
      var padLen := if mdi < 56 then 56 - mdi else 120 - mdi;
      PadSwitch(|m|);
      PadSplits(m, padLen);
      LengthFromCounter(low, high, |m|);
      Update(PADDING[..padLen]);
      ghost var n := |msg| / 64;
      SplitBy64(|msg|, n, 56);
      FoldPrefix(INIT, msg, Pad(m), n);
      var X := LoadWords(input[..], 14);
      LastBlock(input[..], msg, low, high, n);
      assert Pad(m) == msg + Bytes(low) + Bytes(high);
      FoldNext(Pad(m), n);
      BlockStep(buf, Pad(m)[64 * n..]);
      assert Pad(m)[64 * n..64 * (n + 1)] == Pad(m)[64 * n..];
      buf := Transform(buf, X + [low, high]);
      Md5Unfolds(m);
      digest := StoreDigest(buf);
    }
  }

  method StoreDigest(buf: Regs) returns (digest: seq<Byte>)
    ensures digest == Digest(buf)
  {
    digest := [];
    var words := [buf.a, buf.b, buf.c, buf.d];
    for i := 0 to 4
      invariant digest == StoredWords(words[..i])
    {
      assert words[..i + 1][..i] == words[..i];
      var w: int := words[i];
      digest := digest + [w % 256, w / 0x100 % 256, w / 0x1_0000 % 256, w / 0x100_0000 % 256];
    }
    assert words[..4] == words;
    StoredDigest(buf);
  }

  ghost function StoredWords(words: seq<Word>): seq<Byte> {
    if words == [] then [] else StoredWords(words[..|words| - 1]) + Bytes(words[|words| - 1])
  }

  lemma StoredDigest(r: Regs)
    ensures StoredWords([r.a, r.b, r.c, r.d]) == Digest(r)
  {
    var w := [r.a, r.b, r.c, r.d];
    assert w[..3] == [r.a, r.b, r.c] && w[..3][..2] == [r.a, r.b] && w[..3][..2][..1] == [r.a];
    assert StoredWords([r.a]) == Bytes(r.a);
    assert StoredWords([r.a, r.b]) == StoredWords([r.a]) + Bytes(r.b) by { assert [r.a, r.b][..1] == [r.a]; }
    assert StoredWords([r.a, r.b, r.c]) == StoredWords([r.a, r.b]) + Bytes(r.c) by { assert [r.a, r.b, r.c][..2] == [r.a, r.b]; }
  }

  lemma BlockStep(r: Regs, block: seq<Byte>)
    requires |block| == 64
    ensures Compress(r, block) == AddRegs(r, Steps(64, r, Words(block)))
  {
    hide Steps, Words;
  }

  /** The last block: fourteen words from the buffer, then the saved counter. */
  lemma LastBlock(input: seq<Byte>, msg: seq<Byte>, low: Word, high: Word, n: nat)
    requires |input| == 64 && |msg| == 64 * n + 56 && input[..56] == msg[64 * n..]
    ensures var p := msg + Bytes(low) + Bytes(high);
            Words(input)[..14] + [low, high] == Words(p[64 * n..])
  {
    var block := (msg + Bytes(low) + Bytes(high))[64 * n..];
    assert block == input[..56] + Bytes(low) + Bytes(high);
    BytesRoundTrip(low);
    BytesRoundTrip(high);
    var X := Words(input)[..14] + [low, high];
    forall j | 0 <= j < 16
      ensures X[j] == Words(block)[j]
    {
      if j < 14 {
        assert block[4 * j] == input[4 * j] && block[4 * j + 1] == input[4 * j + 1];
        assert block[4 * j + 2] == input[4 * j + 2] && block[4 * j + 3] == input[4 * j + 3];
      } else if j == 14 {
        assert block[56..60] == Bytes(low);
        assert block[56] == block[56..60][0] && block[57] == block[56..60][1] && block[58] == block[56..60][2] && block[59] == block[56..60][3];
      } else {
        assert block[60..64] == Bytes(high);
        assert block[60] == block[60..64][0] && block[61] == block[60..64][1] && block[62] == block[60..64][2] && block[63] == block[60..64][3];
      }
    }
  }

  method Hash(chunks: seq<seq<Byte>>) returns (digest: seq<Byte>)
    requires forall i :: 0 <= i < |chunks| ==> |chunks[i]| < WORD
    ensures digest == Md5(Concat(chunks))
  {
    hide Md5, Fold, Compress, Steps, Counts, Concat;
    ConcatEnds(chunks);
    var context := new Context();
    for i := 0 to |chunks|
      invariant fresh(context) && fresh(context.input) && context.Valid() && context.msg == Concat(chunks[..i])
    {
      ConcatStep(chunks, i);
      context.Update(chunks[i]);
    }
    digest := context.Final();
  }

  /** Both implementations agree on a message, however each of them is fed. */
  method HashBoth(chunks: seq<seq<Byte>>, others: seq<seq<Byte>>) returns (one: seq<Byte>, other: seq<Byte>)
    requires Concat(chunks) == Concat(others)
    requires forall i :: 0 <= i < |chunks| ==> |Concat(chunks[..i])| % 64 + |chunks[i]| < 0x8000_0000
    requires forall i :: 0 <= i < |others| ==> |others[i]| < WORD
    ensures one == other == Md5(Concat(chunks))
  {
    one := Md5Deutsch.Hash(chunks);
    other := Hash(others);
  }
}
