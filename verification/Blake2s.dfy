/**
 BLAKE2s of RFC 7693 as a streaming hash (blake2s.c): a full buffer is held
 back until more data arrives, and a 64-bit byte counter lives in two words.
 */
module Blake2s {
  import opened Words

  type index = x: nat | x < 16

  const IV: seq<word> := [
    0x6A09E667, 0xBB67AE85, 0x3C6EF372, 0xA54FF53A, 0x510E527F, 0x9B05688C, 0x1F83D9AB, 0x5BE0CD19]

  // ---------- the compression function, section 3.2 of RFC 7693 ----------

  /* Cyclic right rotation. */
  function RotR(x: word, n: nat): word
    requires 0 < n < 32
  {
    ShiftBound(x, n);
    XorWord(x / Pow2(n), x as int * Pow2(32 - n) % B)
  }

  lemma ShiftBound(x: word, n: nat)
    ensures 0 <= x / Pow2(n) < B
  {
    hide Pow2;
    HighNonneg(x, Pow2(n));
    QuotientBelow(x, Pow2(n));
  }

  /* The mixing function on four words, section 3.1 of RFC 7693. */
  function G(a0: word, b0: word, c0: word, d0: word, x: word, y: word): (word, word, word, word)
  {
    var a1 := AddWord(AddWord(a0, b0), x);
    var d1 := RotR(XorWord(d0, a1), 16);
    var c1 := AddWord(c0, d1);
    var b1 := RotR(XorWord(b0, c1), 12);
    var a2 := AddWord(AddWord(a1, b1), y);
    var d2 := RotR(XorWord(d1, a2), 8);
    var c2 := AddWord(c1, d2);
    var b2 := RotR(XorWord(b1, c2), 7);
    (a2, b2, c2, d2)
  }

  function Mix(v: seq<word>, a: index, b: index, c: index, d: index, x: word, y: word): (r: seq<word>)
    requires |v| == 16
    ensures |r| == 16
  {
    var q := G(v[a], v[b], v[c], v[d], x, y);
    v[a := q.0][b := q.1][c := q.2][d := q.3]
  }

  function Sigma(i: nat): (row: seq<index>)
    requires i < 10
    ensures |row| == 16
  {
    if i == 0 then [0, 1, 2, 3, 4, 5, 6, 7, 8, 9, 10, 11, 12, 13, 14, 15]
    else if i == 1 then [14, 10, 4, 8, 9, 15, 13, 6, 1, 12, 0, 2, 11, 7, 5, 3]
    else if i == 2 then [11, 8, 12, 0, 5, 2, 15, 13, 10, 14, 3, 6, 7, 1, 9, 4]
    else if i == 3 then [7, 9, 3, 1, 13, 12, 11, 14, 2, 6, 5, 10, 4, 0, 15, 8]
    else if i == 4 then [9, 0, 5, 7, 2, 4, 10, 15, 14, 1, 11, 12, 6, 8, 3, 13]
    else if i == 5 then [2, 12, 6, 10, 0, 11, 8, 3, 4, 13, 7, 5, 15, 14, 1, 9]
    else if i == 6 then [12, 5, 1, 15, 14, 13, 4, 10, 0, 7, 6, 3, 9, 2, 8, 11]
    else if i == 7 then [13, 11, 7, 14, 12, 1, 3, 9, 5, 0, 15, 4, 8, 6, 2, 10]
    else if i == 8 then [6, 15, 14, 9, 11, 3, 0, 8, 12, 2, 13, 7, 1, 4, 10, 5]
    else [10, 2, 8, 4, 7, 6, 1, 5, 15, 11, 9, 14, 3, 12, 13, 0]
  }

  /* One round with the message words in the order s. */
  function Round(v: seq<word>, m: seq<word>, s: seq<index>): (r: seq<word>)
    requires |v| == |m| == |s| == 16
    ensures |r| == 16
  {
    hide *;
    var v1 := Mix(v, 0, 4, 8, 12, m[s[0]], m[s[1]]);
    var v2 := Mix(v1, 1, 5, 9, 13, m[s[2]], m[s[3]]);
    var v3 := Mix(v2, 2, 6, 10, 14, m[s[4]], m[s[5]]);
    var v4 := Mix(v3, 3, 7, 11, 15, m[s[6]], m[s[7]]);
    var v5 := Mix(v4, 0, 5, 10, 15, m[s[8]], m[s[9]]);
    var v6 := Mix(v5, 1, 6, 11, 12, m[s[10]], m[s[11]]);
    var v7 := Mix(v6, 2, 7, 8, 13, m[s[12]], m[s[13]]);
    Mix(v7, 3, 4, 9, 14, m[s[14]], m[s[15]])
  }

  function Rounds(v: seq<word>, m: seq<word>, n: nat): (r: seq<word>)
    requires |v| == 16 && |m| == 16 && n <= 10
    ensures |r| == 16
  {
    hide *;
    if n == 0 then v else Round(Rounds(v, m, n - 1), m, Sigma(n - 1))
  }

  function Message(b: seq<byte>): (m: seq<word>)
    requires |b| == 64
    ensures |m| == 16
  {
    seq(16, i requires 0 <= i < 16 => Load32(b, 4 * i))
  }

  function WorkVector(h: seq<word>, t: nat, last: bool): (v: seq<word>)
    requires |h| == 8
    ensures |v| == 16
  {
    h + [IV[0], IV[1], IV[2], IV[3], XorWord(IV[4], t % B), XorWord(IV[5], t / B % B),
         if last then 0xffff_ffff - IV[6] as int else IV[6], IV[7]]
  }

  function Compress(h: seq<word>, b: seq<byte>, t: nat, last: bool): (r: seq<word>)
    requires |h| == 8 && |b| == 64
    ensures |r| == 8
  {
    Feed(h, Rounds(WorkVector(h, t, last), Message(b), 10))
  }

  function Feed(h: seq<word>, v: seq<word>): (r: seq<word>)
    requires |h| == 8 && |v| == 16
    ensures |r| == 8
  {
    seq(8, i requires 0 <= i < 8 => XorWord(h[i], XorWord(v[i], v[i + 8])))
  }

  // ---------- the hash, section 3.3 of RFC 7693 ----------

  /* The parameter block folded into the first word. */
  function Start(outLen: nat, keyLen: nat): (h: seq<word>)
    requires 0 < outLen <= 32 && keyLen <= 32
    ensures |h| == 8
  {
    IV[0 := XorWord(IV[0], XorWord(XorWord(0x01010000, keyLen * 0x100), outLen))]
  }

  /* A key occupies a block of its own before the message. */
  function Input(key: seq<byte>, msg: seq<byte>): seq<byte>
    requires |key| <= 32
  {
    if key == [] then msg else key + Zeros(64 - |key|) + msg
  }

  /* Arithmetic of the 64-bit byte counter. */
  function Wrap64(x: nat): (r: nat)
    ensures r < TWO64
  {
    x % 0x1_0000_0000_0000_0000
  }

  /* The first n blocks of d, none of them the last. */
  function Chain(h: seq<word>, d: seq<byte>, n: nat): (r: seq<word>)
    requires |h| == 8 && 64 * n <= |d|
    ensures |r| == 8
  {
    if n == 0 then h else Compress(Chain(h, d, n - 1), d[64 * (n - 1)..64 * n], Wrap64(64 * n), false)
  }

  /* All blocks before the one that holds the last byte. */
  function FullBlocks(d: seq<byte>): (n: nat)
    ensures 64 * n <= |d| && |d| - 64 * n <= 64
  {
    if d == [] then 0 else (|d| - 1) / 64
  }

  /* A short block filled up with zeros. */
  function PadBlock(tail: seq<byte>): (b: seq<byte>)
    requires |tail| <= 64
    ensures |b| == 64
  {
    tail + Zeros(64 - |tail|)
  }

  function Last(h: seq<word>, d: seq<byte>): (r: seq<word>)
    requires |h| == 8
    ensures |r| == 8
  {
    var n := FullBlocks(d);
    Compress(Chain(h, d, n), PadBlock(d[64 * n..]), Wrap64(|d|), true)
  }

  function Digest(h: seq<word>, outLen: nat): (r: seq<byte>)
    requires |h| == 8 && outLen <= 32
    ensures |r| == outLen
  {
    seq(outLen, i requires 0 <= i < outLen => LEBytes(h[i / 4], 4)[i % 4])
  }

  function Hash(outLen: nat, key: seq<byte>, msg: seq<byte>): (r: seq<byte>)
    requires 0 < outLen <= 32 && |key| <= 32
    ensures |r| == outLen
  {
    Digest(Last(Start(outLen, |key|), Input(key, msg)), outLen)
  }

  // ---------- compression in place ----------

  method MixInPlace(v: array<word>, a: index, b: index, c: index, d: index, x: word, y: word)
    requires v.Length == 16 && a != b && a != c && a != d && b != c && b != d && c != d
    modifies v
    ensures v[..] == Mix(old(v[..]), a, b, c, d, x, y)
  {
    hide RotR, Xor;
    v[a] := AddWord(AddWord(v[a], v[b]), x);
    v[d] := RotR(XorWord(v[d], v[a]), 16);
    v[c] := AddWord(v[c], v[d]);
    v[b] := RotR(XorWord(v[b], v[c]), 12);
    v[a] := AddWord(AddWord(v[a], v[b]), y);
    v[d] := RotR(XorWord(v[d], v[a]), 8);
    v[c] := AddWord(v[c], v[d]);
    v[b] := RotR(XorWord(v[b], v[c]), 7);
  }

  method RoundInPlace(v: array<word>, m: array<word>, s: seq<index>)
    requires v.Length == 16 && m.Length == 16 && |s| == 16 && v != m
    modifies v
    ensures v[..] == Round(old(v[..]), m[..], s)
  {
    hide Mix;
    MixInPlace(v, 0, 4, 8, 12, m[s[0]], m[s[1]]);
    MixInPlace(v, 1, 5, 9, 13, m[s[2]], m[s[3]]);
    MixInPlace(v, 2, 6, 10, 14, m[s[4]], m[s[5]]);
    MixInPlace(v, 3, 7, 11, 15, m[s[6]], m[s[7]]);
    MixInPlace(v, 0, 5, 10, 15, m[s[8]], m[s[9]]);
    MixInPlace(v, 1, 6, 11, 12, m[s[10]], m[s[11]]);
    MixInPlace(v, 2, 7, 8, 13, m[s[12]], m[s[13]]);
    MixInPlace(v, 3, 4, 9, 14, m[s[14]], m[s[15]]);
  }

  // ---------- the streaming context ----------

  class Context {
    const b: array<byte>
    const h: array<word>
    const t: array<word>
    var c: nat
    var outLen: nat
    ghost var start: seq<word>
    ghost var input: seq<byte>

    ghost predicate Shape()
    {
      && b.Length == 64 && h.Length == 8 && t.Length == 2
      && h != t && b as object != h && b as object != t
    }

    ghost function Counter(): nat
      requires Shape()
      reads t
    {
      t[0] as int + B * t[1] as int
    }

    /* All but the last c bytes of the input have been compressed and counted. */
    ghost predicate Holding()
      reads this, b, h, t
    {
      && Shape() && |start| == 8 && 0 < outLen <= 32
      && c <= 64 && c <= |input| && (|input| - c) % 64 == 0
      && b[..c] == input[|input| - c..]
      && Counter() == Wrap64(|input| - c)
      && h[..] == Chain(start, input, (|input| - c) / 64)
    }

    /* Between calls the last byte is always held back, even at the end of a block. */
    ghost predicate Valid()
      reads this, b, h, t
    {
      Holding() && c <= 64 && (input != [] ==> c > 0)
    }

    constructor ()
      ensures Shape() && fresh(b) && fresh(h) && fresh(t)
    {
      b := new byte[64];
      h := new word[8];
      t := new word[2];
      c, outLen := 0, 0;
      start, input := [], [];
      new;
      assert b as object != h && b as object != t;
    }

    /* blake2s_compress */
    method CompressBlock(last: bool)
      requires Shape()
      modifies h
      ensures h[..] == Compress(old(h[..]), b[..], Counter(), last)
    {
      hide Round, Message, WorkVector, Feed, Sigma, Counter;
      var v, m := new word[16], new word[16];
      InitWork(v, last);
      LoadMessage(m);
      ghost var w, msg := v[..], Message(b[..]);
      for i := 0 to 10
        invariant v[..] == Rounds(w, msg, i) && m[..] == msg && h[..] == old(h[..])
      {
        RoundInPlace(v, m, Sigma(i));
      }
      FeedForward(v);
    }

    method LoadMessage(m: array<word>)
      requires Shape() && m.Length == 16 && m as object != b
      modifies m
      ensures m[..] == Message(b[..])
    {
      hide Load32;
      for i := 0 to 16
        invariant forall k :: 0 <= k < i ==> m[k] == Load32(b[..], 4 * k)
      {
        m[i] := Load32(b[..], 4 * i);
      }
    }

    method FeedForward(v: array<word>)
      requires Shape() && v.Length == 16 && v != h
      modifies h
      ensures h[..] == Feed(old(h[..]), v[..])
    {
      hide Xor;
      for i := 0 to 8
        invariant forall k :: 0 <= k < i ==> h[k] == XorWord(old(h[k]), XorWord(v[k], v[k + 8]))
        invariant forall k :: i <= k < 8 ==> h[k] == old(h[k])
      {
        h[i] := XorWord(h[i], XorWord(v[i], v[i + 8]));
      }
    }

    method InitWork(v: array<word>, last: bool)
      requires Shape() && v.Length == 16 && v != h && v != t && v as object != b
      modifies v
      ensures v[..] == WorkVector(h[..], Counter(), last)
    {
      hide Xor;
      for i := 0 to 8
        invariant forall k :: 0 <= k < i ==> v[k] == h[k] && v[k + 8] == IV[k]
      {
        v[i] := h[i];
        v[i + 8] := IV[i];
      }
      CounterWords(t[0], t[1]);
      v[12] := XorWord(v[12], t[0]);
      v[13] := XorWord(v[13], t[1]);
      if last {
        v[14] := 0xffff_ffff - v[14] as int;
      }
    }

    /* t[0] += n with the carry into t[1]. */
    method Count(n: nat)
      requires Shape() && n <= 64
      modifies t
      ensures Counter() == Wrap64(old(Counter()) + n)
    {
      CountWords(t[0], t[1], n);
      t[0] := (t[0] as int + n) % B;
      if t[0] < n {
        t[1] := (t[1] as int + 1) % B;
      }
    }

    /* blake2s_update */
    method Update(data: array<byte>, p: nat, len: nat)
      requires Valid() && p + len <= data.Length
      requires data != b && data as object != h && data as object != t
      modifies this`c, this`input, b, h, t
      ensures Valid() && input == old(input) + data[p..p + len]
      ensures old(c) + len <= 64 ==> c == old(c) + len && forall k :: c <= k < b.Length ==> b[k] == old(b[k])
    {
      hide Holding;
      for i := 0 to len
        invariant Valid() && input == old(input) + data[p..p + i]
        invariant old(c) + len <= 64 ==> c == old(c) + i && forall k :: c <= k < b.Length ==> b[k] == old(b[k])
      {
        if c == 64 {
          Flush();
        }
        PutByte(data[p + i]);
        assert data[p..p + i + 1] == data[p..p + i] + [data[p + i]];
      }
    }

    /* Compresses the held-back buffer because more data follows it. */
    method Flush()
      requires Valid() && c == 64
      modifies this`c, h, t
      ensures Holding() && c == 0
    {
      hide Compress, Counter, Chain, Wrap64;
      ghost var n := |input| / 64 - 1;
      assert input[|input| - 64..] == input[64 * n..64 * n + 64];
      assert b[..64] == b[..];
      CountMod(|input| - 64, 64);
      ChainNext(start, input, n);
      Count(c);
      CompressBlock(false);
      c := 0;
    }

    method PutByte(x: byte)
      requires Holding() && c < 64
      modifies this`c, this`input, b
      ensures Valid() && input == old(input) + [x]
      ensures c == old(c) + 1 && forall k :: c <= k < b.Length ==> b[k] == old(b[k])
    {
      hide Chain, Counter, Wrap64;
      ghost var tail := input[|input| - c..];
      ChainPrefix(start, input, [x], (|input| - c) / 64);
      b[c] := x;
      c := c + 1;
      input := input + [x];
      assert b[..c] == tail + [x] == input[|input| - c..];
    }

    /* blake2s_init with a key buffer; without a key keyLen is zero. */
    method Init(outLen: nat, key: array<byte>, keyLen: nat) returns (ok: bool)
      requires Shape() && keyLen <= key.Length
      requires key != b && key as object != h && key as object != t
      modifies this, b, h, t
      ensures ok <==> 0 < outLen <= 32 && keyLen <= 32
      ensures ok ==> Valid() && this.outLen == outLen && start == Start(outLen, keyLen)
                     && input == Input(key[..keyLen], [])
    {
      hide Start, Holding;
      if outLen == 0 || outLen > 32 || keyLen > 32 {
        return false;
      }
      InitWords(outLen, keyLen);
      c := 0;
      this.outLen := outLen;
      start := h[..];
      input := [];
      for i := keyLen to 64
        invariant forall k :: keyLen <= k < i ==> b[k] == 0
        invariant h[..] == start && Counter() == 0
        invariant c == 0 && input == [] && this.outLen == outLen && start == Start(outLen, keyLen)
      {
        b[i] := 0;
      }
      NothingRead();
      if keyLen > 0 {
        Update(key, 0, keyLen);
        assert input == key[..keyLen];
        EndKeyBlock(keyLen);
      }
      return true;
    }

    /* ctx->c = 64 after a key: the zeroes behind it belong to the input. */
    method EndKeyBlock(keyLen: nat)
      requires Valid() && c == keyLen == |input| <= 32 && forall k :: keyLen <= k < 64 ==> b[k] == 0
      modifies this`c, this`input
      ensures Valid() && input == old(input) + Zeros(64 - keyLen)
    {
      hide Chain, Counter;
      assert b[..keyLen] == input;
      ChainZero(start, input);
      c := 64;
      input := input + Zeros(64 - keyLen);
      assert b[..64] == input;
      ChainZero(start, input);
    }

    lemma NothingRead()
      requires Shape() && c == 0 && input == [] && h[..] == start && Counter() == 0 && 0 < outLen <= 32
      ensures Valid()
    {
      ChainZero(start, input);
      assert b[..0] == [] && (|input| - c) / 64 == 0;
    }

    method InitWords(outLen: nat, keyLen: nat)
      requires Shape() && 0 < outLen <= 32 && keyLen <= 32
      modifies h, t
      ensures h[..] == Start(outLen, keyLen) && Counter() == 0
    {
      hide Xor;
      for i := 0 to 8
        invariant forall k :: 0 <= k < i ==> h[k] == IV[k]
      {
        h[i] := IV[i];
      }
      h[0] := XorWord(h[0], XorWord(XorWord(0x01010000, keyLen * 0x100), outLen));
      t[0] := 0;
      t[1] := 0;
    }

    lemma HeldFacts() returns (n: nat)
      requires Valid()
      ensures Shape() && 0 < outLen <= 32 && c <= 64 && |start| == 8
      ensures |input| == 64 * n + c && (input != [] ==> c > 0)
      ensures b[..c] == input[64 * n..] && h[..] == Chain(start, input, n)
      ensures Wrap64(Counter() + c) == Wrap64(|input|)
    {
      hide Chain, Counter, Wrap64;
      n := (|input| - c) / 64;
      CountMod(|input| - c, c);
    }

    /* What is held back, padded and counted, makes the last compression. */
    lemma HeldBack()
      requires Valid()
      ensures Shape() && 0 < outLen <= 32 && c <= 64 && |start| == 8
      ensures Last(start, input) == Compress(h[..], PadBlock(b[..c]), Wrap64(Counter() + c), true)
    {
      hide *;
      var n := HeldFacts();
      LastIs(start, input, n, c);
    }

    /* Counts, pads and compresses the last block. */
    method CompressLast()
      requires Valid()
      modifies this`c, b, h, t
      ensures h[..] == Last(start, old(input))
    {
      hide Compress, Counter, Last, PadBlock, Valid, Wrap64;
      HeldBack();
      Count(c);
      FillZeros();
      CompressBlock(true);
    }

    /* blake2s_final */
    method Final(out: array<byte>)
      requires Valid() && outLen <= out.Length
      requires out != b && out as object != h && out as object != t
      modifies this`c, b, h, t, out
      ensures out[..outLen] == Digest(Last(start, old(input)), outLen)
      ensures forall k :: outLen <= k < out.Length ==> out[k] == old(out[k])
    {
      hide Compress, Counter, Last, Digest, Zeros, Valid;
      HeldBack();
      CompressLast();
      StoreDigest(out);
    }

    /* Fills the buffer up with zeros. */
    method FillZeros()
      requires Shape() && c <= 64
      modifies this`c, b
      ensures b[..] == PadBlock(old(b[..c]))
    {
      ghost var tail := b[..c];
      while c < 64
        invariant |tail| <= c <= 64 && b[..c] == tail + Zeros(c - |tail|)
      {
        b[c] := 0;
        c := c + 1;
        assert b[..c] == b[..c - 1] + [0];
        assert Zeros(c - |tail|) == Zeros(c - |tail| - 1) + [0];
      }
      assert b[..64] == b[..];
    }

    /* (h[i >> 2] >> (8 * (i & 3))) & 0xFF */
    method StoreDigest(out: array<byte>)
      requires Shape() && outLen <= 32 && outLen <= out.Length && out != b && out as object != h
      modifies out
      ensures out[..outLen] == Digest(h[..], outLen)
      ensures forall k :: outLen <= k < out.Length ==> out[k] == old(out[k])
    {
      hide LEBytes, And, Pow2;
      for i := 0 to outLen
        invariant forall k :: 0 <= k < i ==> out[k] == LEBytes(h[k / 4], 4)[k % 4]
        invariant forall k :: i <= k < out.Length ==> out[k] == old(out[k])
      {
        ByteOfWord(h[i / 4], i);
        out[i] := And(h[i / 4] / Pow2(8 * And(i, 3)), 0xff);
      }
      assert forall k :: 0 <= k < outLen ==> out[..outLen][k] == out[k];
    }
  }

  lemma CountWords(lo: word, hi: word, n: nat)
    requires n <= 64
    ensures
      var l := (lo as int + n) % B;
      l + B * (if l < n then (hi as int + 1) % B else hi) == Wrap64(lo as int + B * hi as int + n)
  {
    var l := (lo as int + n) % B;
    var q := if l < n && hi == 0xffff_ffff then 1 else 0;
    DivModUnique(lo as int + B * hi as int + n, TWO64, q, l + B * (if l < n then (hi as int + 1) % B else hi));
  }

  lemma LastIs(h: seq<word>, d: seq<byte>, n: nat, c: nat)
    requires |h| == 8 && c <= 64 && |d| == 64 * n + c && (d != [] ==> c > 0)
    ensures Last(h, d) == Compress(Chain(h, d, n), PadBlock(d[64 * n..]), Wrap64(|d|), true)
  {
    hide Compress, Chain, Wrap64, PadBlock;
    assert FullBlocks(d) == n;
  }

  lemma ChainZero(h: seq<word>, d: seq<byte>)
    requires |h| == 8
    ensures Chain(h, d, 0) == h
  {
  }

  lemma ByteOfWord(w: word, i: nat)
    ensures w / Pow2(8 * And(i, 3)) >= 0
    ensures And(w / Pow2(8 * And(i, 3)), 0xff) == LEBytes(w, 4)[i % 4]
  {
    hide And, Pow2, LEBytes;
    Pow2Values();
    AndMask(i, 2);
    HighNonneg(w, Pow2(8 * (i % 4)));
    AndMask(w / Pow2(8 * (i % 4)), 8);
    FourBytes(w);
  }

  lemma CountMod(x: nat, n: nat)
    ensures Wrap64(Wrap64(x) + n) == Wrap64(x + n)
  {
  }

  lemma ChainNext(h: seq<word>, d: seq<byte>, n: nat)
    requires |h| == 8 && 64 * n + 64 <= |d|
    ensures Chain(h, d, n + 1) == Compress(Chain(h, d, n), d[64 * n..64 * n + 64], Wrap64(64 * n + 64), false)
  {
    hide Compress;
  }

  /* The chain over complete blocks does not see what follows them. */
  lemma {:induction false} ChainPrefix(h: seq<word>, d: seq<byte>, e: seq<byte>, n: nat)
    requires |h| == 8 && 64 * n <= |d|
    ensures Chain(h, d + e, n) == Chain(h, d, n)
  {
    hide Compress;
    if n > 0 {
      ChainPrefix(h, d, e, n - 1);
      assert (d + e)[64 * (n - 1)..64 * n] == d[64 * (n - 1)..64 * n];
    }
  }

  lemma CounterWords(lo: word, hi: word)
    ensures (lo as int + B * hi as int) % B == lo && (lo as int + B * hi as int) / B % B == hi
  {
  }

  lemma InputAppend(key: seq<byte>, a: seq<byte>, m: seq<byte>)
    requires |key| <= 32
    ensures Input(key, a) + m == Input(key, a + m)
  {
    if key != [] {
      assert key + Zeros(64 - |key|) + a + m == key + Zeros(64 - |key|) + (a + m);
    }
  }

  /* blake2s: the one-shot form; false stands for -1. */
  method Compute(out: array<byte>, outLen: nat, key: array<byte>, keyLen: nat, data: array<byte>, p: nat, len: nat)
    returns (ok: bool)
    requires keyLen <= key.Length && p + len <= data.Length && outLen <= out.Length
    modifies out
    ensures ok <==> 0 < outLen <= 32 && keyLen <= 32
    ensures ok ==> out[..outLen] == Hash(outLen, old(key[..keyLen]), old(data[p..p + len]))
    ensures forall k :: (if ok then outLen else 0) <= k < out.Length ==> out[k] == old(out[k])
  {
    hide Digest, Last, Start, Chain, Zeros, Context.Counter;
    var ctx := new Context();
    ghost var k, m := key[..keyLen], data[p..p + len];
    ok := ctx.Init(outLen, key, keyLen);
    if ok {
      hide Context.Holding;
      ctx.Update(data, p, len);
      InputAppend(k, [], m);
      assert [] + m == m;
      ctx.Final(out);
    }
  }
}
