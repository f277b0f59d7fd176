/** The streaming MD5 that copies blocks in bulk. */
module Md5Deutsch {
  import opened Md5Spec
  import opened Md5Lemmas

  /** Round 1: steps 0 to 15 of the block that started from r0. */
  method Round1(r: Regs, X: seq<Word>, ghost r0: Regs) returns (q: Regs)
    requires |X| == 16 && r == Steps(0, r0, X)
    ensures q == Steps(16, r0, X)
  {
    hide Mix, F, G, H, I, Steps;
    var a, b, c, d := r.a, r.b, r.c, r.d;
    a := Mix(a, F(b, c, d), X[0], 7, 0xd76aa478, b);
    d := Mix(d, F(a, b, c), X[1], 12, 0xe8c7b756, a);
    c := Mix(c, F(d, a, b), X[2], 17, 0x242070db, d);
    b := Mix(b, F(c, d, a), X[3], 22, 0xc1bdceee, c);
    FourSteps(0, r0, X);
    assert Regs(a, b, c, d) == Steps(4, r0, X);
    a := Mix(a, F(b, c, d), X[4], 7, 0xf57c0faf, b);
    d := Mix(d, F(a, b, c), X[5], 12, 0x4787c62a, a);
    c := Mix(c, F(d, a, b), X[6], 17, 0xa8304613, d);
    b := Mix(b, F(c, d, a), X[7], 22, 0xfd469501, c);
    FourSteps(4, r0, X);
    assert Regs(a, b, c, d) == Steps(8, r0, X);
    a := Mix(a, F(b, c, d), X[8], 7, 0x698098d8, b);
    d := Mix(d, F(a, b, c), X[9], 12, 0x8b44f7af, a);
    c := Mix(c, F(d, a, b), X[10], 17, 0xffff5bb1, d);
    b := Mix(b, F(c, d, a), X[11], 22, 0x895cd7be, c);
    FourSteps(8, r0, X);
    assert Regs(a, b, c, d) == Steps(12, r0, X);
    a := Mix(a, F(b, c, d), X[12], 7, 0x6b901122, b);
    d := Mix(d, F(a, b, c), X[13], 12, 0xfd987193, a);
    c := Mix(c, F(d, a, b), X[14], 17, 0xa679438e, d);
    b := Mix(b, F(c, d, a), X[15], 22, 0x49b40821, c);
    FourSteps(12, r0, X);
    assert Regs(a, b, c, d) == Steps(16, r0, X);
    q := Regs(a, b, c, d);
  }

  /** Round 2: steps 16 to 31 of the block that started from r0. */
  method Round2(r: Regs, X: seq<Word>, ghost r0: Regs) returns (q: Regs)
    requires |X| == 16 && r == Steps(16, r0, X)
    ensures q == Steps(32, r0, X)
  {
    hide Mix, F, G, H, I, Steps;
    var a, b, c, d := r.a, r.b, r.c, r.d;
    a := Mix(a, G(b, c, d), X[1], 5, 0xf61e2562, b);
    d := Mix(d, G(a, b, c), X[6], 9, 0xc040b340, a);
    c := Mix(c, G(d, a, b), X[11], 14, 0x265e5a51, d);
    b := Mix(b, G(c, d, a), X[0], 20, 0xe9b6c7aa, c);
    FourSteps(16, r0, X);
    assert Regs(a, b, c, d) == Steps(20, r0, X);
    a := Mix(a, G(b, c, d), X[5], 5, 0xd62f105d, b);
    d := Mix(d, G(a, b, c), X[10], 9, 0x02441453, a);
    c := Mix(c, G(d, a, b), X[15], 14, 0xd8a1e681, d);
    b := Mix(b, G(c, d, a), X[4], 20, 0xe7d3fbc8, c);
    FourSteps(20, r0, X);
    assert Regs(a, b, c, d) == Steps(24, r0, X);
    a := Mix(a, G(b, c, d), X[9], 5, 0x21e1cde6, b);
    d := Mix(d, G(a, b, c), X[14], 9, 0xc33707d6, a);
    c := Mix(c, G(d, a, b), X[3], 14, 0xf4d50d87, d);
    b := Mix(b, G(c, d, a), X[8], 20, 0x455a14ed, c);
    FourSteps(24, r0, X);
    assert Regs(a, b, c, d) == Steps(28, r0, X);
    a := Mix(a, G(b, c, d), X[13], 5, 0xa9e3e905, b);
    d := Mix(d, G(a, b, c), X[2], 9, 0xfcefa3f8, a);
    c := Mix(c, G(d, a, b), X[7], 14, 0x676f02d9, d);
    b := Mix(b, G(c, d, a), X[12], 20, 0x8d2a4c8a, c);
    FourSteps(28, r0, X);
    assert Regs(a, b, c, d) == Steps(32, r0, X);
    q := Regs(a, b, c, d);
  }

  /** Round 3: steps 32 to 47 of the block that started from r0. */
  method Round3(r: Regs, X: seq<Word>, ghost r0: Regs) returns (q: Regs)
    requires |X| == 16 && r == Steps(32, r0, X)
    ensures q == Steps(48, r0, X)
  {
    hide Mix, F, G, H, I, Steps;
    var a, b, c, d := r.a, r.b, r.c, r.d;
    a := Mix(a, H(b, c, d), X[5], 4, 0xfffa3942, b);
    d := Mix(d, H(a, b, c), X[8], 11, 0x8771f681, a);
    c := Mix(c, H(d, a, b), X[11], 16, 0x6d9d6122, d);
    b := Mix(b, H(c, d, a), X[14], 23, 0xfde5380c, c);
    FourSteps(32, r0, X);
    assert Regs(a, b, c, d) == Steps(36, r0, X);
    a := Mix(a, H(b, c, d), X[1], 4, 0xa4beea44, b);
    d := Mix(d, H(a, b, c), X[4], 11, 0x4bdecfa9, a);
    c := Mix(c, H(d, a, b), X[7], 16, 0xf6bb4b60, d);
    b := Mix(b, H(c, d, a), X[10], 23, 0xbebfbc70, c);
    FourSteps(36, r0, X);
    assert Regs(a, b, c, d) == Steps(40, r0, X);
    a := Mix(a, H(b, c, d), X[13], 4, 0x289b7ec6, b);
    d := Mix(d, H(a, b, c), X[0], 11, 0xeaa127fa, a);
    c := Mix(c, H(d, a, b), X[3], 16, 0xd4ef3085, d);
    b := Mix(b, H(c, d, a), X[6], 23, 0x04881d05, c);
    FourSteps(40, r0, X);
    assert Regs(a, b, c, d) == Steps(44, r0, X);
    a := Mix(a, H(b, c, d), X[9], 4, 0xd9d4d039, b);
    d := Mix(d, H(a, b, c), X[12], 11, 0xe6db99e5, a);
    c := Mix(c, H(d, a, b), X[15], 16, 0x1fa27cf8, d);
    b := Mix(b, H(c, d, a), X[2], 23, 0xc4ac5665, c);
    FourSteps(44, r0, X);
    assert Regs(a, b, c, d) == Steps(48, r0, X);
    q := Regs(a, b, c, d);
  }

  /** Round 4: steps 48 to 63 of the block that started from r0. */
  method Round4(r: Regs, X: seq<Word>, ghost r0: Regs) returns (q: Regs)
    requires |X| == 16 && r == Steps(48, r0, X)
    ensures q == Steps(64, r0, X)
  {
    hide Mix, F, G, H, I, Steps;
    var a, b, c, d := r.a, r.b, r.c, r.d;
    a := Mix(a, I(b, c, d), X[0], 6, 0xf4292244, b);
    d := Mix(d, I(a, b, c), X[7], 10, 0x432aff97, a);
    c := Mix(c, I(d, a, b), X[14], 15, 0xab9423a7, d);
    b := Mix(b, I(c, d, a), X[5], 21, 0xfc93a039, c);
    FourSteps(48, r0, X);
    assert Regs(a, b, c, d) == Steps(52, r0, X);
    a := Mix(a, I(b, c, d), X[12], 6, 0x655b59c3, b);
    d := Mix(d, I(a, b, c), X[3], 10, 0x8f0ccc92, a);
    c := Mix(c, I(d, a, b), X[10], 15, 0xffeff47d, d);
    b := Mix(b, I(c, d, a), X[1], 21, 0x85845dd1, c);
    FourSteps(52, r0, X);
    assert Regs(a, b, c, d) == Steps(56, r0, X);
    a := Mix(a, I(b, c, d), X[8], 6, 0x6fa87e4f, b);
    d := Mix(d, I(a, b, c), X[15], 10, 0xfe2ce6e0, a);
    c := Mix(c, I(d, a, b), X[6], 15, 0xa3014314, d);
    b := Mix(b, I(c, d, a), X[13], 21, 0x4e0811a1, c);
    FourSteps(56, r0, X);
    assert Regs(a, b, c, d) == Steps(60, r0, X);
    a := Mix(a, I(b, c, d), X[4], 6, 0xf7537e82, b);
    d := Mix(d, I(a, b, c), X[11], 10, 0xbd3af235, a);
    c := Mix(c, I(d, a, b), X[2], 15, 0x2ad7d2bb, d);
    b := Mix(b, I(c, d, a), X[9], 21, 0xeb86d391, c);
    FourSteps(60, r0, X);
    assert Regs(a, b, c, d) == Steps(64, r0, X);
    q := Regs(a, b, c, d);
  }

  /** Assembles the sixteen words of a block. */
  method LoadWords(data: seq<Byte>) returns (X: seq<Word>)
    requires |data| == 64
    ensures X == Words(data)
  {
    X := [];
    for i := 0 to 16
      invariant |X| == i && forall j :: 0 <= j < i ==> X[j] == Words(data)[j]
    {
      var xp := data[4 * i..4 * i + 4];
      X := X + [xp[0] as int + xp[1] as int * 0x100 + xp[2] as int * 0x1_0000 + xp[3] as int * 0x100_0000];
    }
  }

  /** Byte i of a run of words, lowest byte of each word first. */
  function ByteAt(words: seq<Word>, i: nat): Byte
    requires i < 4 * |words|
  {
    words[i / 4] / (if i % 4 == 0 then 1 else if i % 4 == 1 then 0x100 else if i % 4 == 2 then 0x1_0000 else 0x100_0000) % 256
  }

  lemma ByteAtWord(words: seq<Word>, i: nat)
    requires i < |words|
    ensures [ByteAt(words, 4 * i), ByteAt(words, 4 * i + 1), ByteAt(words, 4 * i + 2), ByteAt(words, 4 * i + 3)] == Bytes(words[i])
  {
  }

  method StoreWords(words: seq<Word>) returns (bytes: seq<Byte>)
    ensures |bytes| == 4 * |words|
    ensures forall i :: 0 <= i < |words| ==> bytes[4 * i..4 * i + 4] == Bytes(words[i])
  {
    hide ByteAt, Bytes;
    bytes := [];
    for i := 0 to 4 * |words|
      invariant |bytes| == i && forall j :: 0 <= j < i ==> bytes[j] == ByteAt(words, j)
    {
      bytes := bytes + [ByteAt(words, i)];
    }
    forall i | 0 <= i < |words|
      ensures bytes[4 * i..4 * i + 4] == Bytes(words[i])
    {
      ByteAtWord(words, i);
      assert bytes[4 * i..4 * i + 4] == [bytes[4 * i], bytes[4 * i + 1], bytes[4 * i + 2], bytes[4 * i + 3]];
    }
  }

  /** After filling the buffer behind a partial block, it holds that block's bytes. */
  lemma FilledTail(msg: seq<Byte>, data: seq<Byte>, offset: nat, copy: nat, buf: seq<Byte>)
    requires offset <= |msg| && copy <= |data| && offset + copy <= 64 == |buf|
    requires buf[..offset] == msg[|msg| - offset..] && buf[offset..offset + copy] == data[..copy]
    ensures buf[..offset + copy] == (msg + data)[|msg| - offset..|msg| + copy]
  {
    assert buf[..offset + copy] == buf[..offset] + buf[offset..offset + copy];
  }

  lemma TailSlice(m: seq<Byte>, data: seq<Byte>, i: nat, j: nat)
    requires |data| <= |m| && m[|m| - |data|..] == data && i <= j <= |data|
    ensures data[i..j] == m[|m| - |data| + i..|m| - |data| + j]
  {
  }

  class State {
    var count0: Word
    var count1: Word
    var abcd: Regs
    const buf: array<Byte>
    ghost var msg: seq<Byte>

    /** The counter is the length of the message so far in bits, the registers
        have absorbed its full blocks, and the buffer starts with the rest. */
    ghost predicate Valid()
      reads this, buf
    {
      && buf.Length == 64
      && Counts(count0, count1, |msg|)
      && abcd == Fold(INIT, msg, |msg| / 64)
      && buf[..|msg| % 64] == msg[|msg| - |msg| % 64..]
    }

    constructor ()
      ensures Valid() && msg == [] && fresh(buf)
    {
      count0, count1 := 0, 0;
      abcd := Regs(0x67452301, 0xefcdab89, 0x98badcfe, 0x10325476);
      buf := new Byte[64](i => 0);
      msg := [];
    }

    method Process(data: seq<Byte>)
      requires |data| == 64
      modifies this`abcd
      ensures abcd == Compress(old(abcd), data)
    {
      hide Steps;
      var X := LoadWords(data);
      NoSteps(abcd, X);
      var q := Round1(abcd, X, abcd);
      q := Round2(q, X, abcd);
      q := Round3(q, X, abcd);
      q := Round4(q, X, abcd);
      abcd := Regs(Add(abcd.a, q.a), Add(abcd.b, q.b), Add(abcd.c, q.c), Add(abcd.d, q.d));
    }

    /** memcpy(buf + at, data, |data|) */
    method Fill(at: nat, data: seq<Byte>)
      requires buf.Length == 64 && at + |data| <= 64
      modifies buf
      ensures buf[..at] == old(buf[..at]) && buf[at..at + |data|] == data
    {
      forall i | 0 <= i < |data| {
        buf[at + i] := data[i];
      }
    }

    method UpdateCount(nbytes: nat)
      requires Counts(count0, count1, |msg|) && nbytes < 0x8000_0000
      modifies this`count0, this`count1
      ensures Counts(count0, count1, |msg| + nbytes)
    {
      var nbits: Word := nbytes * 8 % WORD;
      ghost var low, high := count0, count1;
      hide Counts, Add;
      Carries(low, nbits);
      AddTwice(high, nbytes / 0x2000_0000, 1);
      count1 := Add(count1, nbytes / 0x2000_0000);
      count0 := Add(count0, nbits);
      if count0 < nbits {
        count1 := Add(count1, 1);
      }
      CountsAdd(low, high, |msg|, nbytes, count0, count1);
    }

    /** Absorbs the full blocks of data from position p on and buffers the rest;
        the message m ends with data, and n blocks of it are done. */
    method Blocks(data: seq<Byte>, p: nat, ghost m: seq<Byte>, ghost n: nat)
      requires buf.Length == 64 && p <= |data| <= |m| && m[|m| - |data|..] == data
      requires |m| - |data| + p == 64 * n && abcd == Fold(INIT, m, n)
      modifies this`abcd, buf
      ensures abcd == Fold(INIT, m, |m| / 64)
      ensures buf[..|m| % 64] == m[|m| - |m| % 64..]
    {
      hide Compress;
      var p, left := p, |data| - p;
      ghost var n := n;
      while left >= 64
        invariant p + left == |data| && left >= 0
        invariant |m| - |data| + p == 64 * n && abcd == Fold(INIT, m, n)
      {
        TailSlice(m, data, p, p + 64);
        Process(data[p..p + 64]);
        p, left, n := p + 64, left - 64, n + 1;
      }
      SplitBy64(|m|, n, left);
      if left != 0 {
        Fill(0, data[p..p + left]);
        assert buf[0..left] == buf[..left];
      }
      TailSlice(m, data, p, p + left);
    }

    /** The fill level of the buffer, read off the counter. */
    method Offset() returns (offset: nat, ghost n: nat)
      requires Counts(count0, count1, |msg|)
      ensures |msg| == 64 * n + offset && n == |msg| / 64 && offset == |msg| % 64 < 64
    {
      CountsOffset(count0, count1, |msg|);
      offset, n := count0 / 8 % 64, |msg| / 64;
    }

    /** Tops up a partial block of the message with data; complete tells whether
        that filled it, with p bytes of data used. */
    method TopUp(data: seq<Byte>, offset: nat, ghost n: nat) returns (complete: bool, p: nat)
      requires buf.Length == 64 && |msg| == 64 * n + offset && offset < 64
      requires buf[..offset] == msg[64 * n..] && abcd == Fold(INIT, msg + data, n)
      modifies this`abcd, buf
      ensures complete <==> offset + |data| >= 64
      ensures complete ==> p <= |data| && |msg| + p == 64 * (n + 1) && abcd == Fold(INIT, msg + data, n + 1)
      ensures !complete ==> abcd == Fold(INIT, msg + data, n) && buf[..offset + |data|] == (msg + data)[64 * n..]
    {
      hide Compress, Fold;
      ghost var m := msg + data;
      var nbytes := |data|;
      var copy := if offset + nbytes > 64 then 64 - offset else nbytes;
      Fill(offset, data[..copy]);
      FilledTail(msg, data, offset, copy, buf[..]);
      if offset + copy < 64 {
        return false, copy;
      }
      FoldNext(m, n);
      assert buf[..] == buf[..offset + copy];
      Process(buf[..]);
      return true, copy;
    }

    /** Appends data to the message.  The C code adds nbytes to an offset below 64
        in an int, hence the bound. */
    method Append(data: seq<Byte>)
      requires Valid() && |msg| % 64 + |data| < 0x8000_0000
      modifies this, buf
      ensures Valid() && msg == old(msg) + data
    {
      hide Compress, Fold, Counts;
      var nbytes := |data|;
      ghost var n;
      var offset;
      offset, n := Offset();
      if nbytes <= 0 {
        assert msg + data == msg;
        return;
      }
      UpdateCount(nbytes);
      ghost var m := msg + data;
      FoldPrefix(INIT, msg, m, n);
      var p := 0;
      if offset != 0 {
        var complete;
        complete, p := TopUp(data, offset, n);
        if !complete {
          SplitBy64(|m|, n, offset + nbytes);
          msg := m;
          return;
        }
        n := n + 1;
      }
      assert m[|m| - |data|..] == data;
      Blocks(data, p, m, n);
      msg := m;
    }

    /** Pads, appends the length saved before padding, and reads off the digest. */
    method Finish() returns (digest: seq<Byte>)
      requires Valid()
      modifies this, buf
      ensures digest == Md5(old(msg))
    {
      hide Md5, Pad, Counts, Fold, Compress, LengthBytes;
      ghost var m := msg;
      var words := [count0, count1];
      var data := StoreWords(words);
      assert words[0] == count0 && words[1] == count1;
      assert data == data[0..4] + data[4..8];
      LengthFromCounter(count0, count1, |m|);
      assert data == LengthBytes(|m|);
      PadLength(count0, count1, |m|);
      var padLen := (55 - count0 / 8) % 64 + 1;
      PadSplits(m, padLen);
      Append(PADDING[..padLen]);
      Append(data);
      assert msg == Pad(m);
      Md5Unfolds(m);
      words := [abcd.a, abcd.b, abcd.c, abcd.d];
      digest := StoreWords(words);
      assert words[0] == abcd.a && words[1] == abcd.b && words[2] == abcd.c && words[3] == abcd.d;
      assert digest == digest[0..4] + digest[4..8] + digest[8..12] + digest[12..16];
    }
  }

  /** Every way of cutting a message into chunks gives its RFC 1321 digest. */
  method Hash(chunks: seq<seq<Byte>>) returns (digest: seq<Byte>)
    requires forall i :: 0 <= i < |chunks| ==> |Concat(chunks[..i])| % 64 + |chunks[i]| < 0x8000_0000
    ensures digest == Md5(Concat(chunks))
  {
    hide Md5, Fold, Compress, Steps, Counts, Concat;
    ConcatEnds(chunks);
    var state := new State();
    for i := 0 to |chunks|
      invariant fresh(state) && fresh(state.buf) && state.Valid() && state.msg == Concat(chunks[..i])
    {
      ConcatStep(chunks, i);
      state.Append(chunks[i]);
    }
    digest := state.Finish();
  }
}
