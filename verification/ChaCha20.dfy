/**
 The ChaCha20 stream cipher of RFC 7539 and HChaCha20 (chacha20.c): quarter
 rounds on a word array in place, and a keystream loop that advances the block
 counter and handles a short last block.
 */
module ChaCha20 {
  import opened Words

  // ---------- the block function ----------

  function RotL(v: word, n: nat): (r: word)
    requires 0 < n < 32
  {
    RotBound(v, n);
    Or(v as int * Pow2(n) % B, v / Pow2(32 - n))
  }

  lemma RotBound(v: word, n: nat)
    requires 0 < n < 32
    ensures 0 <= v / Pow2(32 - n) < B
    ensures Or(v as int * Pow2(n) % B, v / Pow2(32 - n)) < B
  {
    hide Or, Pow2;
    Pow2Values();
    HighNonneg(v, Pow2(32 - n));
    QuotientBelow(v, Pow2(32 - n));
    OrBound(v as int * Pow2(n) % B, v / Pow2(32 - n), 32);
  }

  /* Section 2.1 of RFC 7539. */
  function Quarter(a0: word, b0: word, c0: word, d0: word): (word, word, word, word)
  {
    var a1 := AddWord(a0, b0);
    var d1 := RotL(XorWord(d0, a1), 16);
    var c1 := AddWord(c0, d1);
    var b1 := RotL(XorWord(b0, c1), 12);
    var a2 := AddWord(a1, b1);
    var d2 := RotL(XorWord(d1, a2), 8);
    var c2 := AddWord(c1, d2);
    var b2 := RotL(XorWord(b1, c2), 7);
    (a2, b2, c2, d2)
  }

  function QuarterAt(s: seq<word>, i: nat, j: nat, k: nat, l: nat): (r: seq<word>)
    requires |s| == 16 && i < 16 && j < 16 && k < 16 && l < 16
    ensures |r| == 16
  {
    var q := Quarter(s[i], s[j], s[k], s[l]);
    s[i := q.0][j := q.1][k := q.2][l := q.3]
  }

  /* A column round followed by a diagonal round. */
  function DoubleRound(s: seq<word>): (r: seq<word>)
    requires |s| == 16
    ensures |r| == 16
  {
    var s1 := QuarterAt(s, 0, 4, 8, 12);
    var s2 := QuarterAt(s1, 1, 5, 9, 13);
    var s3 := QuarterAt(s2, 2, 6, 10, 14);
    var s4 := QuarterAt(s3, 3, 7, 11, 15);
    var s5 := QuarterAt(s4, 0, 5, 10, 15);
    var s6 := QuarterAt(s5, 1, 6, 11, 12);
    var s7 := QuarterAt(s6, 2, 7, 8, 13);
    QuarterAt(s7, 3, 4, 9, 14)
  }

  function Rounds(s: seq<word>, n: nat): (r: seq<word>)
    requires |s| == 16
    ensures |r| == 16
  {
    if n == 0 then s else DoubleRound(Rounds(s, n - 1))
  }

  function Serialize(s: seq<word>): (r: seq<byte>)
    ensures |r| == 4 * |s|
  {
    if s == [] then [] else Serialize(s[..|s| - 1]) + LEBytes(s[|s| - 1], 4)
  }

  /* Section 2.3 of RFC 7539. */
  function Block(s: seq<word>): (r: seq<byte>)
    requires |s| == 16
    ensures |r| == 64
  {
    Serialize(Sums(Rounds(s, 10), s))
  }

  function Sums(w: seq<word>, s: seq<word>): (r: seq<word>)
    requires |w| == |s|
    ensures |r| == |s|
  {
    seq(|s|, i requires 0 <= i < |s| => AddWord(w[i], s[i]))
  }

  // ---------- the key stream ----------

  /* Byte i of the key stream that starts at the counter in word 12. */
  function KeyByte(s: seq<word>, i: nat): byte
    requires |s| == 16
  {
    Block(s[12 := (s[12] as int + i / 64) % B])[i % 64]
  }

  /* Section 2.4 of RFC 7539: the exclusive or with the key stream. */
  function XorStream(s: seq<word>, data: seq<byte>): (r: seq<byte>)
    requires |s| == 16
    ensures |r| == |data|
  {
    seq(|data|, i requires 0 <= i < |data| => XorByte(data[i], KeyByte(s, i)))
  }

  /* Applying the same key stream twice gives the data back. */
  lemma XorStreamInvolutive(s: seq<word>, data: seq<byte>)
    requires |s| == 16
    ensures XorStream(s, XorStream(s, data)) == data
  {
    hide KeyByte, Xor;
    var c := XorStream(s, data);
    forall i | 0 <= i < |data|
      ensures XorByte(c[i], KeyByte(s, i)) == data[i]
    {
    }
    assert XorStream(s, c) == data;
  }

  const CONSTANTS: seq<word> := [0x61707865, 0x3320646e, 0x79622d32, 0x6b206574]

  function KeyWords(key: seq<byte>): (r: seq<word>)
    requires |key| == 32
    ensures |r| == 8
  {
    [Load32(key, 0), Load32(key, 4), Load32(key, 8), Load32(key, 12),
     Load32(key, 16), Load32(key, 20), Load32(key, 24), Load32(key, 28)]
  }

  /* The initial state: counter zero and a 64-bit nonce in the last two words. */
  function InitState(key: seq<byte>, nonce: dword): (r: seq<word>)
    requires |key| == 32
    ensures |r| == 16
  {
    CONSTANTS + KeyWords(key) + [0, 0, nonce % B, nonce / B]
  }

  /* draft-irtf-cfrg-xchacha section 2.2: the outer words of the state after twenty rounds. */
  function HChaCha(nonce: seq<byte>, key: seq<byte>): (r: seq<byte>)
    requires |nonce| == 16 && |key| == 32
    ensures |r| == 32
  {
    var s := Rounds(CONSTANTS + KeyWords(key)
                    + [Load32(nonce, 0), Load32(nonce, 4), Load32(nonce, 8), Load32(nonce, 12)], 10);
    Serialize(s[..4]) + Serialize(s[12..])
  }

  // ---------- in place ----------

  method QuarterRound(block: array<word>, i: nat, j: nat, k: nat, l: nat)
    requires block.Length == 16 && i < 16 && j < 16 && k < 16 && l < 16
    requires i != j && i != k && i != l && j != k && j != l && k != l
    modifies block
    ensures block[..] == old(QuarterAt(block[..], i, j, k, l))
  {
    hide RotL, Xor;
    block[i] := AddWord(block[i], block[j]);
    block[l] := XorWord(block[l], block[i]);
    block[l] := RotL(block[l], 16);
    block[k] := AddWord(block[k], block[l]);
    block[j] := XorWord(block[j], block[k]);
    block[j] := RotL(block[j], 12);
    block[i] := AddWord(block[i], block[j]);
    block[l] := XorWord(block[l], block[i]);
    block[l] := RotL(block[l], 8);
    block[k] := AddWord(block[k], block[l]);
    block[j] := XorWord(block[j], block[k]);
    block[j] := RotL(block[j], 7);
  }

  method InnerBlock(block: array<word>)
    requires block.Length == 16
    modifies block
    ensures block[..] == DoubleRound(old(block[..]))
  {
    hide QuarterAt;
    QuarterRound(block, 0, 4, 8, 12);
    QuarterRound(block, 1, 5, 9, 13);
    QuarterRound(block, 2, 6, 10, 14);
    QuarterRound(block, 3, 7, 11, 15);
    QuarterRound(block, 0, 5, 10, 15);
    QuarterRound(block, 1, 6, 11, 12);
    QuarterRound(block, 2, 7, 8, 13);
    QuarterRound(block, 3, 4, 9, 14);
  }

  method TwentyRounds(block: array<word>)
    requires block.Length == 16
    modifies block
    ensures block[..] == Rounds(old(block[..]), 10)
  {
    hide DoubleRound;
    ghost var s := block[..];
    for i := 0 to 10
      invariant block[..] == Rounds(s, i)
    {
      InnerBlock(block);
    }
  }

  /* U32TO8_LITTLE at word i of a buffer. */
  method StoreLittle(out: array<byte>, p: nat, w: word)
    requires p + 4 <= out.Length
    modifies out
    ensures out[..] == old(out[..p]) + LEBytes(w, 4) + old(out[p + 4..])
  {
    FourBytes(w);
    hide LEBytes;
    out[p], out[p + 1], out[p + 2], out[p + 3] := w % 0x100, w / 0x100 % 0x100, w / 0x1_0000 % 0x100,
        w / 0x100_0000 % 0x100;
  }

  method BlockInto(ctx: array<word>, stream: array<byte>)
    requires ctx.Length == 16 && stream.Length == 64 && ctx as object != stream
    modifies stream
    ensures stream[..] == Block(ctx[..])
  {
    hide Rounds, LEBytes;
    var working := new word[16];
    for i := 0 to 16
      invariant working[..i] == ctx[..i]
    {
      working[i] := ctx[i];
    }
    assert working[..] == ctx[..];
    TwentyRounds(working);
    ghost var w := working[..];
    ghost var sums := Sums(w, ctx[..]);
    for i := 0 to 16
      invariant working[..] == w
      invariant stream[..4 * i] == Serialize(sums[..i])
    {
      ghost var before := stream[..4 * i];
      StoreLittle(stream, 4 * i, AddWord(working[i], ctx[i]));
      assert stream[..4 * i + 4] == stream[..][..4 * i + 4] == before + LEBytes(sums[i], 4);
      assert sums[..i + 1][i] == sums[i];
      assert sums[..i + 1][..i] == sums[..i];
    }
    assert stream[..64] == stream[..];
    WholePrefix(sums, 16);
  }

  lemma WholePrefix<T>(s: seq<T>, n: nat)
    requires n == |s|
    ensures s[..n] == s
  {
  }

  // ---------- the keystream loop ----------

  /* Two buffer regions that may overlap only where bytes are read before they are overwritten. */
  ghost predicate ReadAhead(out: array<byte>, op: nat, inp: array<byte>, ip: nat, len: nat)
  {
    && op + len <= out.Length && ip + len <= inp.Length
    && (out != inp || op <= ip || ip + len <= op)
  }

  /* out[i] = in[i] ^ output[i] for n bytes. */
  method XorInto(out: array<byte>, op: nat, inp: array<byte>, ip: nat, n: nat, ks: array<byte>)
    requires ReadAhead(out, op, inp, ip, n) && n <= ks.Length && ks != out
    modifies out
    ensures forall k :: op <= k < op + n ==> out[k] == XorByte(old(inp[k - op + ip]), ks[k - op])
    ensures forall k :: 0 <= k < out.Length && !(op <= k < op + n) ==> out[k] == old(out[k])
  {
    hide Xor;
    for i := 0 to n
      invariant forall k :: op <= k < op + i ==> out[k] == XorByte(old(inp[k - op + ip]), ks[k - op])
      invariant forall k :: ip + i <= k < ip + n ==> inp[k] == old(inp[k])
      invariant forall k :: 0 <= k < out.Length && !(op <= k < op + i) ==> out[k] == old(out[k])
    {
      out[op + i] := XorByte(inp[ip + i], ks[i]);
    }
  }

  /* The block at the counter of byte done is the key stream from there. */
  lemma KeyBytes(s: seq<word>, done: nat, block: seq<byte>)
    requires |s| == 16 && |block| == 64 && done % 64 == 0
    requires block == Block(s[12 := (s[12] as int + done / 64) % B])
    ensures forall j :: 0 <= j < 64 ==> block[j] == KeyByte(s, done + j)
  {
    hide Block;
    forall j | 0 <= j < 64
      ensures block[j] == KeyByte(s, done + j)
    {
      assert (done + j) / 64 == done / 64 && (done + j) % 64 == j;
    }
  }

  /* The state with the counter past done bytes of text. */
  function CountedOn(s: seq<word>, done: nat): (r: seq<word>)
    requires |s| == 16
    ensures |r| == 16
  {
    s[12 := (s[12] as int + (done + 63) / 64) % B]
  }

  lemma NextCounter(s: seq<word>, done: nat, n: nat)
    requires |s| == 16 && done % 64 == 0 && 0 < n <= 64
    ensures CountedOn(s, done)[12 := AddWord(CountedOn(s, done)[12], 1)] == CountedOn(s, done + n)
    ensures CountedOn(s, done) == s[12 := (s[12] as int + done / 64) % B]
  {
    BlocksIn(done, n);
    OneMore(s[12] as int + done / 64);
  }

  lemma BlocksIn(done: nat, n: nat)
    requires done % 64 == 0 && 0 < n <= 64
    ensures (done + 63) / 64 == done / 64 && (done + n + 63) / 64 == done / 64 + 1
  {
    DivModUnique(done + 63, 64, done / 64, 63);
    DivModUnique(done + n + 63, 64, done / 64 + 1, n - 1);
  }

  lemma OneMore(x: nat)
    ensures (x % 0x1_0000_0000 + 1) % 0x1_0000_0000 == (x + 1) % 0x1_0000_0000
  {
  }

  lemma NotCounted(s: seq<word>)
    requires |s| == 16
    ensures CountedOn(s, 0) == s
  {
  }

  /* Bytes from..from + n of a region hold the data under the key stream, the rest of the buffer is as it was. */
  ghost predicate Streamed(now: seq<byte>, was: seq<byte>, op: nat, s: seq<word>, data: seq<byte>, from: nat, n: nat)
    requires |s| == 16
  {
    && |now| == |was| && from + n <= |data| && op + |data| <= |was|
    && (forall k :: 0 <= k < |was| ==>
          now[k] == if op + from <= k < op + from + n then XorByte(data[k - op], KeyByte(s, k - op)) else was[k])
  }

  lemma StreamedOn(now: seq<byte>, mid: seq<byte>, was: seq<byte>, op: nat, s: seq<word>, data: seq<byte>,
                   done: nat, n: nat)
    requires |s| == 16 && Streamed(mid, was, op, s, data, 0, done) && Streamed(now, mid, op, s, data, done, n)
    ensures Streamed(now, was, op, s, data, 0, done + n)
  {
    hide KeyByte, XorByte;
  }

  lemma NothingStreamed(was: seq<byte>, op: nat, s: seq<word>, data: seq<byte>)
    requires |s| == 16 && op + |data| <= |was|
    ensures Streamed(was, was, op, s, data, 0, 0)
  {
  }

  lemma StreamedAll(now: seq<byte>, was: seq<byte>, op: nat, s: seq<word>, data: seq<byte>)
    requires |s| == 16 && Streamed(now, was, op, s, data, 0, |data|)
    ensures now[op..op + |data|] == XorStream(s, data)
    ensures forall k :: 0 <= k < |was| && !(op <= k < op + |data|) ==> now[k] == was[k]
  {
    hide KeyByte, XorByte;
  }

  /* The key stream of one block over its bytes of the data. */
  lemma BlockStreamed(now: seq<byte>, was: seq<byte>, op: nat, s: seq<word>, data: seq<byte>, done: nat, n: nat,
                      block: seq<byte>)
    requires |s| == 16 && |now| == |was| && done + n <= |data| && op + |data| <= |was| && n <= |block| == 64
    requires forall j :: 0 <= j < 64 ==> block[j] == KeyByte(s, done + j)
    requires forall j :: 0 <= j < n ==> now[op + done + j] == XorByte(data[done + j], block[j])
    requires forall k :: 0 <= k < |was| && !(op + done <= k < op + done + n) ==> now[k] == was[k]
    ensures Streamed(now, was, op, s, data, done, n)
  {
    hide KeyByte, XorByte;
    forall k | op + done <= k < op + done + n
      ensures now[k] == XorByte(data[k - op], KeyByte(s, k - op))
    {
      var j := k - op - done;
      assert now[op + done + j] == XorByte(data[done + j], block[j]);
    }
  }

  /* One block of key stream over up to 64 bytes of the text, and the counter moved on. */
  method StreamBlock(ctx: array<word>, out: array<byte>, op: nat, inp: array<byte>, ip: nat, done: nat, n: nat,
                     output: array<byte>, ghost s: seq<word>, ghost data: seq<byte>)
    requires ctx.Length == 16 && output.Length == 64 && 0 < n <= 64 && done + n <= |data|
    requires ReadAhead(out, op, inp, ip, |data|)
    requires ctx as object != out && ctx as object != inp && output != out && output != inp && ctx as object != output
    requires |s| == 16 && done % 64 == 0 && ctx[..] == CountedOn(s, done)
    requires inp[ip + done..ip + |data|] == data[done..]
    modifies ctx, out, output
    ensures ctx[..] == CountedOn(s, done + n)
    ensures Streamed(out[..], old(out[..]), op, s, data, done, n)
    ensures inp[ip + done + n..ip + |data|] == data[done + n..]
  {
    hide Block, XorByte, KeyByte, Streamed, CountedOn, AddWord;
    NextCounter(s, done, n);
    ghost var ahead := inp[ip + done..ip + |data|];
    ghost var was := out[..];
    BlockInto(ctx, output);
    KeyBytes(s, done, output[..]);
    ctx[12] := AddWord(ctx[12], 1);
    XorInto(out, op + done, inp, ip + done, n, output);
    forall j | n <= j < |ahead|
      ensures inp[ip + done + j] == ahead[j] == data[done + j]
    {
      assert ahead[j] == data[done..][j];
    }
    forall j | 0 <= j < n
      ensures out[..][op + done + j] == XorByte(data[done + j], output[..][j])
    {
      assert ahead[j] == data[done..][j];
    }
    BlockStreamed(out[..], was, op, s, data, done, n, output[..]);
  }

  /* chacha20 */
  method Chacha20(ctx: array<word>, out: array<byte>, op: nat, inp: array<byte>, ip: nat, len: word)
    requires ctx.Length == 16 && ReadAhead(out, op, inp, ip, len)
    requires ctx as object != out && ctx as object != inp
    modifies ctx, out
    ensures out[op..op + len] == XorStream(old(ctx[..]), old(inp[ip..ip + len]))
    ensures ctx[..] == CountedOn(old(ctx[..]), len)
    ensures forall k :: 0 <= k < out.Length && !(op <= k < op + len) ==> out[k] == old(out[k])
  {
    hide Block, XorByte, KeyByte, XorStream, Streamed, CountedOn;
    ghost var s, data, was := ctx[..], inp[ip..ip + len], out[..];
    NothingStreamed(was, op, s, data);
    NotCounted(s);
    var output := new byte[64];
    var n, done := len, 0;
    if n != 0 {
      while true
        invariant done % 64 == 0 && 0 < n == len - done
        invariant ctx[..] == CountedOn(s, done)
        invariant Streamed(out[..], was, op, s, data, 0, done) && inp[ip + done..ip + len] == data[done..]
        decreases n
      {
        ghost var mid := out[..];
        if n <= 64 {
          StreamBlock(ctx, out, op, inp, ip, done, n, output, s, data);
          StreamedOn(out[..], mid, was, op, s, data, done, n);
          break;
        }
        StreamBlock(ctx, out, op, inp, ip, done, 64, output, s, data);
        StreamedOn(out[..], mid, was, op, s, data, done, 64);
        n, done := n - 64, done + 64;
      }
    }
    StreamedAll(out[..], was, op, s, data);
  }

  // ---------- initialisation and HChaCha20 ----------

  /* The assignments of words 0 to 11 shared by both initialisations. */
  method LoadKey(state: array<word>, key: array<byte>)
    requires state.Length == 16 && key.Length == 32 && state as object != key
    modifies state
    ensures state[..12] == CONSTANTS + KeyWords(key[..])
  {
    hide Load32;
    LoadConstants(state);
    state[4], state[5], state[6], state[7] := Load32(key[..], 0), Load32(key[..], 4), Load32(key[..], 8),
        Load32(key[..], 12);
    state[8], state[9], state[10], state[11] := Load32(key[..], 16), Load32(key[..], 20), Load32(key[..], 24),
        Load32(key[..], 28);
    assert state[..4] == CONSTANTS;
    assert state[4..12] == KeyWords(key[..]);
    assert state[..12] == state[..4] + state[4..12];
  }

  method LoadConstants(state: array<word>)
    requires state.Length == 16
    modifies state
    ensures state[..4] == CONSTANTS
  {
    state[0], state[1], state[2], state[3] := 0x61707865, 0x3320646e, 0x79622d32, 0x6b206574;
    assert state[..4] == [0x61707865, 0x3320646e, 0x79622d32, 0x6b206574];
  }

  /* chacha20_init */
  method Init(ctx: array<word>, key: array<byte>, nonce: dword)
    requires ctx.Length == 16 && key.Length == 32 && ctx as object != key
    modifies ctx
    ensures ctx[..] == InitState(key[..], nonce)
  {
    hide KeyWords;
    LoadKey(ctx, key);
    ctx[12] := 0;
    ctx[13] := 0;
    ctx[14] := nonce % B;
    ctx[15] := nonce / B;
    assert ctx[..] == ctx[..12] + [0, 0, nonce % B, nonce / B];
  }

  /* hchacha20 */
  method Hchacha20(out: array<byte>, nonce: array<byte>, key: array<byte>)
    requires out.Length == 32 && nonce.Length >= 16 && key.Length == 32 && out != nonce && out != key
    modifies out
    ensures out[..] == HChaCha(nonce[..16], key[..])
  {
    hide KeyWords, Load32, Rounds, LEBytes;
    var state := new word[16];
    LoadKey(state, key);
    state[12], state[13] := Load32(nonce[..16], 0), Load32(nonce[..16], 4);
    state[14], state[15] := Load32(nonce[..16], 8), Load32(nonce[..16], 12);
    ghost var n := nonce[..16];
    assert state[..] == state[..12] + [Load32(n, 0), Load32(n, 4), Load32(n, 8), Load32(n, 12)];
    TwentyRounds(state);
    StoreFour(out, 0, state[..4]);
    ghost var low := out[..16];
    StoreFour(out, 16, state[12..]);
    assert out[..16] == low;
    assert out[..] == out[..16] + out[16..32];
  }

  /* Consecutive little-endian words. */
  method StoreFour(out: array<byte>, p: nat, s: seq<word>)
    requires p + 16 <= out.Length && |s| == 4
    modifies out
    ensures out[p..p + 16] == Serialize(s)
    ensures forall k :: 0 <= k < out.Length && !(p <= k < p + 16) ==> out[k] == old(out[k])
  {
    hide LEBytes;
    for i := 0 to 4
      invariant out[p..p + 4 * i] == Serialize(s[..i])
      invariant forall k :: 0 <= k < out.Length && !(p <= k < p + 16) ==> out[k] == old(out[k])
    {
      ghost var before := out[p..p + 4 * i];
      StoreLittle(out, p + 4 * i, s[i]);
      assert out[p..p + 4 * i + 4] == out[..][p..p + 4 * i + 4] == before + LEBytes(s[i], 4);
      assert s[..i + 1][..i] == s[..i];
    }
    WholePrefix(s, 4);
  }
}
