/**
 BLAKE2s apart from the program: where its tables come from, what goes into the
 working vector, and a hash as one chain of compressions over padded blocks.
 */
module Blake2sShape {
  import opened Words
  import H = Blake2s
  import M = Permutations

  // ---------- the tables ----------

  const PRIMES: seq<nat> := [2, 3, 5, 7, 11, 13, 17, 19]

  /* Every initial word is the first 32 bits of the fractional part of the square root of a prime. */
  lemma IvIsRoots(i: nat)
    requires i < 8
    ensures
      var root := [1, 1, 2, 2, 3, 3, 4, 4][i] * 0x1_0000_0000 + H.IV[i] as int;
      root * root <= PRIMES[i] * 0x1_0000_0000_0000_0000 < (root + 1) * (root + 1)
  {
  }

  /* Every row of the table is a permutation of the sixteen message words. */
  lemma SigmaPermutes(i: nat, x: H.index)
    requires i < 10
    ensures x in H.Sigma(i)
  {
  }

  /* The table read by columns: which words come at one place in the ten rounds. */
  function Place(c: H.index): (words: seq<H.index>)
    ensures |words| == 10
  {
    match c
    case 0 => [0, 14, 11, 7, 9, 2, 12, 13, 6, 10]
    case 1 => [1, 10, 8, 9, 0, 12, 5, 11, 15, 2]
    case 2 => [2, 4, 12, 3, 5, 6, 1, 7, 14, 8]
    case 3 => [3, 8, 0, 1, 7, 10, 15, 14, 9, 4]
    case 4 => [4, 9, 5, 13, 2, 0, 14, 12, 11, 7]
    case 5 => [5, 15, 2, 12, 4, 11, 13, 1, 3, 6]
    case 6 => [6, 13, 15, 11, 10, 8, 4, 3, 0, 1]
    case 7 => [7, 6, 13, 14, 15, 3, 10, 9, 8, 5]
    case 8 => [8, 1, 10, 2, 14, 4, 0, 5, 12, 15]
    case 9 => [9, 12, 14, 6, 1, 13, 7, 0, 2, 11]
    case 10 => [10, 0, 3, 5, 11, 7, 6, 15, 13, 9]
    case 11 => [11, 2, 6, 10, 12, 5, 3, 4, 7, 14]
    case 12 => [12, 11, 7, 4, 6, 15, 9, 8, 1, 3]
    case 13 => [13, 7, 1, 0, 8, 14, 2, 6, 4, 12]
    case 14 => [14, 5, 9, 15, 3, 1, 8, 2, 10, 13]
    case _ => [15, 3, 4, 8, 13, 9, 11, 10, 5, 0]
  }

  lemma SigmaPlaces(i: nat, c: H.index)
    requires i < 10
    ensures H.Sigma(i)[c] == Place(c)[i]
  {
    hide H.Sigma, Place;
    if i < 5 {
      EarlyPlaces(i, c);
    } else {
      LatePlaces(i, c);
    }
  }

  lemma EarlyPlaces(i: nat, c: H.index)
    requires i < 5
    ensures H.Sigma(i)[c] == Place(c)[i]
  {
  }

  lemma LatePlaces(i: nat, c: H.index)
    requires 5 <= i < 10
    ensures H.Sigma(i)[c] == Place(c)[i]
  {
  }

  /* No word comes at the same place in two rounds. */
  lemma SigmaMoves(i: nat, j: nat, c: H.index)
    requires i < j < 10
    ensures H.Sigma(i)[c] != H.Sigma(j)[c]
  {
    hide H.Sigma;
    if c < 8 {
      ColumnWordsMove(i, j, c);
    } else {
      DiagonalWordsMove(i, j, c);
    }
  }

  lemma ColumnWordsMove(i: nat, j: nat, c: H.index)
    requires i < j < 10 && c < 8
    ensures H.Sigma(i)[c] != H.Sigma(j)[c]
  {
  }

  lemma DiagonalWordsMove(i: nat, j: nat, c: H.index)
    requires i < j < 10 && 8 <= c
    ensures H.Sigma(i)[c] != H.Sigma(j)[c]
  {
  }

  // ---------- one compression ----------

  type words8 = s: seq<word> | |s| == 8 witness seq(8, _ => 0)
  type block = b: seq<byte> | |b| == 64 witness seq(64, _ => 0)

  /* The chaining value, then the initial words, with the byte count in words 12 and 13 and the last block
     marked by turning word 14 over. */
  ghost predicate Working(v: M.state, h: words8, t: nat, last: bool)
  {
    && (forall i :: 0 <= i < 8 ==> v[i] == h[i])
    && (forall i :: 8 <= i < 12 ==> v[i] == H.IV[i - 8])
    && v[15] == H.IV[7]
    && XorWord(v[12], H.IV[4]) == t % 0x1_0000_0000
    && XorWord(v[13], H.IV[5]) == t / 0x1_0000_0000 % 0x1_0000_0000
    && v[14] as int == if last then 0xffff_ffff - H.IV[6] as int else H.IV[6] as int
  }

  /* What one round makes of the state, with the sixteen little-endian words of the block. */
  function Next(v: M.state, b: block, row: seq<H.index>): (r: M.state)
    requires |row| == 16
  {
    var w := M.Ordered(H.Message(b), row);
    M.Unturn(M.MixColumns(M.Turn(M.MixColumns(v, w[..8])), w[8..]))
  }

  lemma {:induction false} RoundsTrace(v: M.state, b: block, n: nat) returns (s: seq<M.state>)
    requires n <= 10
    ensures |s| == n + 1 && s[0] == v && s[n] == H.Rounds(v, H.Message(b), n)
    ensures forall i :: 0 <= i < n ==> s[i + 1] == Next(s[i], b, H.Sigma(i))
  {
    hide H.Message, H.Sigma, H.Round, Next;
    if n == 0 {
      s := [v];
    } else {
      s := RoundsTrace(v, b, n - 1);
      NextIsRound(s[n - 1], b, H.Sigma(n - 1));
      s := s + [Next(s[n - 1], b, H.Sigma(n - 1))];
    }
  }

  lemma NextIsRound(v: M.state, b: block, row: seq<H.index>)
    requires |row| == 16
    ensures Next(v, b, row) == H.Round(v, H.Message(b), row)
  {
    hide H.Message, H.Round, M.MixColumns, M.Turn, M.Unturn, M.Ordered;
    M.RoundShape(v, H.Message(b), row);
  }

  lemma MessageWords(b: block, i: nat)
    requires i < 16
    ensures H.Message(b)[i] == LE(b[4 * i..4 * i + 4])
  {
    hide Load32, LE;
  }

  lemma WorkVectorShape(h: words8, t: nat, last: bool)
    ensures Working(H.WorkVector(h, t, last), h, t, last)
  {
    hide Xor;
    XorUndone(H.IV[4], t % 0x1_0000_0000);
    XorUndone(H.IV[5], t / 0x1_0000_0000 % 0x1_0000_0000);
  }

  lemma XorUndone(x: word, y: word)
    ensures XorWord(XorWord(x, y), x) == y
  {
    hide Xor;
    XorComm(x, y);
    M.XorBack(y, x);
  }

  /* Ten rounds, each with its own row of the table. */
  ghost predicate TenRounds(s: seq<M.state>, b: block)
  {
    hide *;
    |s| == 11 && forall i :: 0 <= i < 10 ==> s[i + 1] == Next(s[i], b, H.Sigma(i))
  }

  /* Both halves of the last state, taken out of the result again, leave the chaining value. */
  ghost predicate FedForward(r: words8, v: M.state, h: words8)
  {
    hide *;
    forall i :: 0 <= i < 8 ==> XorWord(XorWord(r[i], v[i + 8]), v[i]) == h[i]
  }

  lemma CompressTrace(h: words8, b: block, t: nat, last: bool) returns (s: seq<M.state>)
    ensures TenRounds(s, b) && Working(s[0], h, t, last) && FedForward(H.Compress(h, b, t, last), s[10], h)
  {
    hide H.Rounds, H.Message, H.Sigma, Next, Xor, Working, H.WorkVector;
    WorkVectorShape(h, t, last);
    s := RoundsTrace(H.WorkVector(h, t, last), b, 10);
    FeedShape(h, s[10]);
  }

  lemma FeedShape(h: words8, v: M.state)
    ensures FedForward(H.Feed(h, v), v, h)
  {
    hide XorWord;
    forall i | 0 <= i < 8
      ensures XorWord(XorWord(H.Feed(h, v)[i], v[i + 8]), v[i]) == h[i]
    {
      FedBack(h[i], v[i], v[i + 8]);
    }
  }

  lemma FedBack(h: word, x: word, y: word)
    ensures XorWord(XorWord(XorWord(h, XorWord(x, y)), y), x) == h
  {
    hide Xor, Bit;
    var r := XorWord(XorWord(XorWord(h, XorWord(x, y)), y), x);
    forall i: nat
      ensures Bit(r, i) <==> Bit(h, i)
    {
      XorBit(x, y, i);
      XorBit(h, XorWord(x, y), i);
      XorBit(XorWord(h, XorWord(x, y)), y, i);
      XorBit(XorWord(XorWord(h, XorWord(x, y)), y), x, i);
    }
    SameBits(r, h);
  }

  lemma {:induction false} XorBit(x: nat, y: nat, i: nat)
    ensures Bit(Xor(x, y), i) <==> (Bit(x, i) != Bit(y, i))
  {
    hide Bit, Xor;
    BitHalf(x, i);
    BitHalf(y, i);
    BitHalf(Xor(x, y), i);
    XorStep(x, y);
    if i > 0 {
      XorBit(x / 2, y / 2, i - 1);
    }
  }

  lemma {:induction false} SameBits(x: nat, y: nat)
    requires forall i: nat :: Bit(x, i) <==> Bit(y, i)
    ensures x == y
  {
    hide Bit;
    if x != 0 || y != 0 {
      BitHalf(x, 0);
      BitHalf(y, 0);
      forall i: nat
        ensures Bit(x / 2, i) <==> Bit(y / 2, i)
      {
        BitHalf(x, i + 1);
        BitHalf(y, i + 1);
        assert Bit(x, i + 1) <==> Bit(y, i + 1);
      }
      assert Bit(x, 0) <==> Bit(y, 0);
      SameBits(x / 2, y / 2);
    }
  }

  // ---------- a whole hash ----------

  /* Block i of a text that is filled up with zeros. */
  function BlockOf(d: seq<byte>, i: nat): (b: block)
    requires 64 * i <= |d|
  {
    if 64 * i + 64 <= |d| then d[64 * i..64 * i + 64] else d[64 * i..] + Zeros(64 - (|d| - 64 * i))
  }

  /* At least one block, even for the empty text. */
  function Blocks(d: seq<byte>): (n: nat)
    ensures 0 < n && 64 * (n - 1) <= |d| <= 64 * n
    ensures 64 * (n - 1) == |d| ==> d == []
  {
    if d == [] then 1 else (|d| + 63) / 64
  }

  /* Every block is compressed with the number of bytes up to its end, the last one marked as such. */
  ghost predicate Chained(hs: seq<words8>, d: seq<byte>)
  {
    hide *;
    && |hs| == Blocks(d) + 1
    && forall i :: 0 <= i < Blocks(d) ==>
         hs[i + 1] ==
         H.Compress(hs[i], BlockOf(d, i), H.Wrap64(if i == Blocks(d) - 1 then |d| else 64 * i + 64), i == Blocks(d) - 1)
  }

  lemma {:induction false} ChainTrace(h: words8, d: seq<byte>, n: nat) returns (hs: seq<words8>)
    requires 64 * n <= |d|
    ensures |hs| == n + 1 && hs[0] == h && hs[n] == H.Chain(h, d, n)
    ensures forall i :: 0 <= i < n ==> hs[i + 1] == H.Compress(hs[i], BlockOf(d, i), H.Wrap64(64 * i + 64), false)
  {
    hide H.Compress, H.Wrap64;
    if n == 0 {
      hs := [h];
    } else {
      hs := ChainTrace(h, d, n - 1);
      hs := hs + [H.Chain(h, d, n)];
    }
  }

  /* The hash of every key and message. */
  lemma HashTrace(outLen: nat, key: seq<byte>, msg: seq<byte>) returns (hs: seq<words8>)
    requires 0 < outLen <= 32 && |key| <= 32
    ensures Chained(hs, H.Input(key, msg)) && hs[0] == H.Start(outLen, |key|)
    ensures H.Hash(outLen, key, msg) == H.Digest(hs[|hs| - 1], outLen)
  {
    hide H.Compress, H.Wrap64, H.Start, H.Input, H.Digest, H.Chain;
    var d, h := H.Input(key, msg), H.Start(outLen, |key|);
    var n := Blocks(d) - 1;
    LastBlockAt(d);
    hs := ChainTrace(h, d, n);
    hs := hs + [H.Last(h, d)];
  }

  lemma LastBlockAt(d: seq<byte>)
    ensures H.FullBlocks(d) == Blocks(d) - 1
    ensures H.PadBlock(d[64 * (Blocks(d) - 1)..]) == BlockOf(d, Blocks(d) - 1)
  {
  }

  /* The digest is the bytes of the last chaining value, low byte first; a shorter one is a prefix. */
  lemma DigestBytes(h: words8, outLen: nat, i: nat)
    requires outLen <= 32 && i < 8
    ensures H.Digest(h, outLen) == H.Digest(h, 32)[..outLen]
    ensures LE(H.Digest(h, 32)[4 * i..4 * i + 4]) == h[i]
  {
    hide LE, LEBytes;
    assert H.Digest(h, 32)[4 * i..4 * i + 4] == LEBytes(h[i], 4);
    WordBytes(h[i]);
  }

  /* A key fills a block of its own in front of the message. */
  lemma InputShape(key: seq<byte>, msg: seq<byte>)
    requires |key| <= 32
    ensures
      var d := H.Input(key, msg);
      if key == [] then d == msg
      else d[..|key|] == key && d[|key|..64] == Zeros(64 - |key|) && d[64..] == msg
  {
    hide Zeros;
  }

  /* The first word carries the parameter block: length of hash and key, and two ones. */
  lemma StartShape(outLen: nat, keyLen: nat)
    requires 0 < outLen <= 32 && keyLen <= 32
    ensures
      var h := H.Start(outLen, keyLen);
      h[1..] == H.IV[1..] && XorWord(h[0], H.IV[0]) == LE([outLen, keyLen, 1, 1])
  {
    hide Xor, LE;
    XorUndone(H.IV[0], XorWord(XorWord(0x01010000, keyLen * 0x100), outLen));
    Disjoint3(outLen, keyLen);
    LE4([outLen, keyLen, 1, 1]);
  }

  lemma Disjoint3(x: nat, y: nat)
    requires x <= 32 && y <= 32
    ensures Xor(Xor(0x01010000, y * 0x100), x) == x + 0x100 * y + 0x1_0000 + 0x100_0000
  {
    hide Xor, Pow2;
    Pow2Values();
    XorDisjoint(0x101, y * 0x100, 16);
    XorDisjoint(0x1_0100 + y, x, 8);
  }

  lemma XorDisjoint(x: nat, y: nat, k: nat)
    requires y < Pow2(k)
    ensures Xor(x * Pow2(k), y) == x * Pow2(k) + y
  {
    hide Xor, And, Pow2;
    M.XorPlusAnd(x * Pow2(k), y);
    AndSplit(x * Pow2(k), y, k);
    DivModUnique(x * Pow2(k), Pow2(k), x, 0);
    DivModUnique(y, Pow2(k), 0, y);
    AndZero(x);
    M.AndNothing(y);
  }
}
