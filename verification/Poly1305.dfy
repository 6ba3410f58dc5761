/**
 The Poly1305 authenticator of section 2.5 of RFC 7539, as streamed through a
 16-byte buffer by poly1305-donna.c and poly1305-donna-32.h.
 */
module Poly1305 {
  import opened Words
  import opened PolyField

  // ---------- the one-shot authenticator ----------

  const CLAMP: nat := 0x0fff_fffc_0fff_fffc_0fff_fffc_0fff_ffff

  function KeyR(key: seq<byte>): nat
    requires |key| == 32
  {
    And(LE(key[..16]), CLAMP)
  }

  function KeyS(key: seq<byte>): nat
    requires |key| == 32
  {
    LE(key[16..])
  }

  /* A block of up to 16 bytes with a one bit appended. */
  function BlockNum(b: seq<byte>): nat
  {
    LE(b) + Pow2(8 * |b|)
  }

  /* Adding a block to the accumulator and multiplying by r. */
  function Absorb(r: nat, a: nat, x: nat): (h: nat)
    ensures h < Q
  {
    ModQ((a + x) * r)
  }

  function LastBlock(m: seq<byte>): nat
  {
    if |m| % 16 == 0 then 16 else |m| % 16
  }

  /* The polynomial over the blocks of m; only the last block may be short. */
  function Acc(r: nat, m: seq<byte>): nat
  {
    if m == [] then 0
    else
      var n := |m| - LastBlock(m);
      Absorb(r, Acc(r, m[..n]), BlockNum(m[n..]))
  }

  function Mac(key: seq<byte>, m: seq<byte>): seq<byte>
    requires |key| == 32
  {
    LEBytes((Acc(KeyR(key), m) + KeyS(key)) % TWO128, 16)
  }

  /* Full blocks absorbed from the front, each with the given high bit. */
  function Fold(r: nat, a: nat, s: seq<byte>, high: nat): nat
    decreases |s|
  {
    if |s| < 16 then a else Fold(r, Absorb(r, a, LE(s[..16]) + high), s[16..], high)
  }

  lemma {:induction false} FoldAcc(r: nat, x: seq<byte>, s: seq<byte>)
    requires |x| % 16 == 0 && |s| % 16 == 0
    ensures Fold(r, Acc(r, x), s, TWO128) == Acc(r, x + s)
    decreases |s|
  {
    hide Acc, Absorb, LE, BlockNum;
    if s == [] {
      assert x + s == x;
    } else {
      AccSnoc(r, x, s[..16]);
      FoldAcc(r, x + s[..16], s[16..]);
      assert x + s[..16] + s[16..] == x + s;
    }
  }

  lemma AccSnoc(r: nat, x: seq<byte>, b: seq<byte>)
    requires |x| % 16 == 0 && 0 < |b| <= 16
    ensures Acc(r, x + b) == Absorb(r, Acc(r, x), BlockNum(b))
    ensures |b| == 16 ==> BlockNum(b) == LE(b) + TWO128
  {
    hide LE, Absorb, Pow2;
    assert LastBlock(x + b) == |b|;
    assert (x + b)[..|x|] == x && (x + b)[|x|..] == b;
    Pow2At128();
  }

  lemma Pow2At128()
    ensures Pow2(128) == TWO128
  {
    hide Pow2;
    Pow2Values();
    Pow2Add(32, 32);
    Pow2Add(64, 64);
  }

  // ---------- 26-bit limbs of a block ----------

  lemma LE16(b: seq<byte>)
    requires |b| == 16
    ensures LE(b) == LE(b[0..4]) + 0x1_0000_0000 * LE(b[4..8]) + 0x1_0000_0000_0000_0000 * LE(b[8..12])
                     + 0x1_0000_0000_0000_0000_0000_0000 * LE(b[12..16])
  {
    hide LE, Pow2;
    Pow2Values();
    LEConcat(b[..4], b[4..]);
    LEConcat(b[4..8], b[8..]);
    LEConcat(b[8..12], b[12..]);
    assert b[..4] == b[0..4] && b[12..] == b[12..16];
    assert b[..4] + b[4..] == b && b[4..8] + b[8..] == b[4..] && b[8..12] + b[12..] == b[8..];
  }

  /* Splitting a little-endian word of four bytes at a bit position inside its first byte. */
  function Shifted(b: seq<byte>, i: nat, d: nat): nat
    requires i + 4 <= |b| && d > 0
  {
    HighNonneg(LE(b[i..i + 4]), d);
    LE(b[i..i + 4]) / d
  }

  function BlockLimbs(b: seq<byte>): Limbs5
    requires |b| == 16
  {
    L5(Shifted(b, 0, 1) % LIMB, Shifted(b, 3, 4) % LIMB, Shifted(b, 6, 16) % LIMB, Shifted(b, 9, 64) % LIMB,
        Shifted(b, 12, 256))
  }

  lemma LowLimbs(b: seq<byte>)
    requires |b| == 16
    ensures
      var t := BlockLimbs(b);
      && t.a0 == b[0] as int + 0x100 * b[1] as int + 0x1_0000 * b[2] as int + 0x100_0000 * (b[3] as int % 4)
      && t.a1 == b[3] as int / 4 + 0x40 * b[4] as int + 0x4000 * b[5] as int + 0x40_0000 * (b[6] as int % 16)
      && t.a2 == b[6] as int / 16 + 0x10 * b[7] as int + 0x1000 * b[8] as int + 0x10_0000 * (b[9] as int % 64)
  {
    hide LE, Word4;
    WordAt(b, 0);
    WordAt(b, 3);
    WordAt(b, 6);
    Limb0(b[0], b[1], b[2], b[3]);
    Limb1(b[3], b[4], b[5], b[6]);
    Limb2(b[6], b[7], b[8], b[9]);
  }

  lemma HighLimbs(b: seq<byte>)
    requires |b| == 16
    ensures
      var t := BlockLimbs(b);
      && t.a3 == b[9] as int / 64 + 4 * b[10] as int + 0x400 * b[11] as int + 0x4_0000 * b[12] as int
      && t.a4 == b[13] as int + 0x100 * b[14] as int + 0x1_0000 * b[15] as int
      && t.a3 == Shifted(b, 9, 64) && t.a4 < 0x100_0000
  {
    hide LE, Word4;
    WordAt(b, 9);
    WordAt(b, 12);
    Limb3(b[9], b[10], b[11], b[12]);
    Limb4(b[12], b[13], b[14], b[15]);
  }

  lemma BlockLimbsNum(b: seq<byte>)
    requires |b| == 16
    ensures Num(BlockLimbs(b)) == LE(b)
    ensures BlockLimbs(b).a3 == Shifted(b, 9, 64)
    ensures BlockLimbs(b).a4 < 0x100_0000
  {
    hide LE, Word4, Num, BlockLimbs;
    LE16(b);
    WordAt(b, 0);
    WordAt(b, 4);
    WordAt(b, 8);
    WordAt(b, 12);
    LowLimbs(b);
    HighLimbs(b);
    LimbSum(b, BlockLimbs(b));
  }

  lemma WordAt(b: seq<byte>, i: nat)
    requires i + 4 <= |b|
    ensures LE(b[i..i + 4]) == Word4(b[i], b[i + 1], b[i + 2], b[i + 3])
  {
    LE4(b[i..i + 4]);
  }

  function Word4(p: int, q: int, r: int, s: int): int
  {
    p + 0x100 * q + 0x1_0000 * r + 0x100_0000 * s
  }

  lemma Limb0(p: byte, q: byte, r: byte, s: byte)
    ensures Word4(p, q, r, s) % LIMB == p as int + 0x100 * q as int + 0x1_0000 * r as int + 0x100_0000 * (s as int % 4)
  {
  }

  lemma Limb1(p: byte, q: byte, r: byte, s: byte)
    ensures Word4(p, q, r, s) / 4 % LIMB == p as int / 4 + 0x40 * q as int + 0x4000 * r as int
      + 0x40_0000 * (s as int % 16)
  {
  }

  lemma Limb2(p: byte, q: byte, r: byte, s: byte)
    ensures Word4(p, q, r, s) / 16 % LIMB == p as int / 16 + 0x10 * q as int + 0x1000 * r as int
      + 0x10_0000 * (s as int % 64)
  {
  }

  lemma Limb3(p: byte, q: byte, r: byte, s: byte)
    ensures Word4(p, q, r, s) / 64 == p as int / 64 + 4 * q as int + 0x400 * r as int + 0x4_0000 * s as int < LIMB
  {
  }

  lemma Limb4(p: byte, q: byte, r: byte, s: byte)
    ensures Word4(p, q, r, s) / 256 == q as int + 0x100 * r as int + 0x1_0000 * s as int
  {
  }

  lemma LimbSum(b: seq<byte>, t: Limbs5)
    requires |b| == 16
    requires t.a0 == b[0] as int + 0x100 * b[1] as int + 0x1_0000 * b[2] as int + 0x100_0000 * (b[3] as int % 4)
    requires t.a1 == b[3] as int / 4 + 0x40 * b[4] as int + 0x4000 * b[5] as int + 0x40_0000 * (b[6] as int % 16)
    requires t.a2 == b[6] as int / 16 + 0x10 * b[7] as int + 0x1000 * b[8] as int + 0x10_0000 * (b[9] as int % 64)
    requires t.a3 == b[9] as int / 64 + 4 * b[10] as int + 0x400 * b[11] as int + 0x4_0000 * b[12] as int
    requires t.a4 == b[13] as int + 0x100 * b[14] as int + 0x1_0000 * b[15] as int
    ensures
      Word4(b[0], b[1], b[2], b[3]) + 0x1_0000_0000 * Word4(b[4], b[5], b[6], b[7])
      + 0x1_0000_0000_0000_0000 * Word4(b[8], b[9], b[10], b[11])
      + 0x1_0000_0000_0000_0000_0000_0000 * Word4(b[12], b[13], b[14], b[15]) == Num(t)
  {
    var b3: int, b6: int, b9: int := b[3], b[6], b[9];
    assert b3 == 4 * (b3 / 4) + b3 % 4;
    assert b6 == 16 * (b6 / 16) + b6 % 16;
    assert b9 == 64 * (b9 / 64) + b9 % 64;
  }

  // ---------- clamping the key limb by limb ----------

  lemma AndCons(a: nat, x: nat, m: nat, y: nat)
    requires a < LIMB && m < LIMB
    ensures And(a + 0x400_0000 * x, m + 0x400_0000 * y) == And(a, m) + 0x400_0000 * And(x, y)
  {
    hide And, Pow2;
    Pow2Values();
    AndSplit(a + 0x400_0000 * x, m + 0x400_0000 * y, 26);
    DivModUnique(a + 0x400_0000 * x, 0x400_0000, x, a);
    DivModUnique(m + 0x400_0000 * y, 0x400_0000, y, m);
  }

  function Tail(a: nat, x: nat): nat
  {
    a + 0x400_0000 * x
  }

  lemma NumTails(a: Limbs5)
    ensures Num(a) == Tail(a.a0, Tail(a.a1, Tail(a.a2, Tail(a.a3, a.a4))))
  {
  }

  /* Masking 130-bit numbers limb by limb. */
  lemma AndLimbs(a: Limbs5, m: Limbs5)
    requires a.a0 < LIMB && a.a1 < LIMB && a.a2 < LIMB && a.a3 < LIMB
    requires m.a0 < LIMB && m.a1 < LIMB && m.a2 < LIMB && m.a3 < LIMB
    ensures And(Num(a), Num(m))
            == Num(L5(And(a.a0, m.a0), And(a.a1, m.a1), And(a.a2, m.a2), And(a.a3, m.a3), And(a.a4, m.a4)))
  {
    hide And, Num;
    NumTails(a);
    NumTails(m);
    NumTails(L5(And(a.a0, m.a0), And(a.a1, m.a1), And(a.a2, m.a2), And(a.a3, m.a3), And(a.a4, m.a4)));
    AndCons(a.a3, a.a4, m.a3, m.a4);
    AndCons(a.a2, Tail(a.a3, a.a4), m.a2, Tail(m.a3, m.a4));
    AndCons(a.a1, Tail(a.a2, Tail(a.a3, a.a4)), m.a1, Tail(m.a2, Tail(m.a3, m.a4)));
    AndCons(a.a0, Tail(a.a1, Tail(a.a2, Tail(a.a3, a.a4))), m.a0, Tail(m.a1, Tail(m.a2, Tail(m.a3, m.a4))));
  }

  const RMASK: Limbs5 := L5(0x3ff_ffff, 0x3ff_ff03, 0x3ff_c0ff, 0x3f0_3fff, 0x00f_ffff)

  lemma ClampLimbs(b: seq<byte>)
    requires |b| == 16
    ensures
      var r := L5(And(Shifted(b, 0, 1), RMASK.a0), And(Shifted(b, 3, 4), RMASK.a1), And(Shifted(b, 6, 16), RMASK.a2),
                  And(Shifted(b, 9, 64), RMASK.a3), And(Shifted(b, 12, 256), RMASK.a4));
      Num(r) == And(LE(b), CLAMP) && Clamped(r)
  {
    assert Num(RMASK) == CLAMP;
    hide And, LE, Num, Shifted;
    BlockLimbsNum(b);
    AndLimbs(BlockLimbs(b), RMASK);
    MaskLimb(Shifted(b, 0, 1), RMASK.a0);
    MaskLimb(Shifted(b, 3, 4), RMASK.a1);
    MaskLimb(Shifted(b, 6, 16), RMASK.a2);
    MaskLimb(Shifted(b, 9, 64), RMASK.a3);
    MaskLimb(Shifted(b, 12, 256), RMASK.a4);
  }

  lemma MaskLimb(x: nat, m: nat)
    requires m < LIMB
    ensures And(x, m) == And(x % LIMB, m) <= m
  {
    hide And, Pow2;
    Pow2Values();
    AndSmall(x, m, 26);
  }

  // ---------- one block into the accumulator ----------

  /* The five 26-bit pieces of a block, the top one with the high bit. */
  method LoadBlock(m: array<byte>, p: nat, hibit: word) returns (t0: word, t1: word, t2: word, t3: word, t4: word)
    requires p + 16 <= m.Length && (hibit == 0 || hibit == 0x100_0000)
    ensures t0 < LIMB && t1 < LIMB && t2 < LIMB && t3 < LIMB && t4 < 0x200_0000
    ensures Num(L5(t0, t1, t2, t3, t4)) == LE(m[p..p + 16]) + (if hibit == 0 then 0 else TWO128)
  {
    hide LE, And, Or, Pow2, Load32;
    ghost var b := m[p..p + 16];
    BlockLimbsNum(b);
    LimbOf(m[..], p, 0, 1);
    LimbOf(m[..], p, 3, 4);
    LimbOf(m[..], p, 6, 16);
    LimbOf(m[..], p, 9, 64);
    LimbOf(m[..], p, 12, 256);
    hide Shifted, Mask26, Num;
    t0 := Mask26(Load32(m[..], p) / 1);
    t1 := Mask26(Load32(m[..], p + 3) / 4);
    t2 := Mask26(Load32(m[..], p + 6) / 16);
    t3 := Mask26(Load32(m[..], p + 9) / 64);
    OrHigh(Load32(m[..], p + 12) / 256, hibit);
    t4 := Or(Load32(m[..], p + 12) / 256, hibit);
    assert m[..][p..p + 16] == b;
    assert L5(t0, t1, t2, t3, t4 as int - hibit as int) == BlockLimbs(b);
    HighLimb(BlockLimbs(b), hibit);
  }

  lemma HighLimb(t: Limbs5, x: nat)
    ensures Num(L5(t.a0, t.a1, t.a2, t.a3, t.a4 + x)) == Num(t) + 0x100_0000_0000_0000_0000_0000_0000 * x
  {
  }

  lemma LimbOf(m: seq<byte>, p: nat, i: nat, d: nat)
    requires i + 4 <= 16 && p + 16 <= |m|
    requires d == 1 || d == 4 || d == 16 || d == 64 || d == 256
    ensures Load32(m, p + i) / d == Shifted(m[p..p + 16], i, d)
    ensures 0 <= Load32(m, p + i) / d < B
    ensures Mask26(Load32(m, p + i) / d) == Shifted(m[p..p + 16], i, d) % LIMB < LIMB
  {
    hide LE, And, Load32;
    SliceWord(m, p, i);
  }

  lemma SliceWord(m: seq<byte>, p: nat, i: nat)
    requires p + i + 4 <= p + 16 <= |m|
    ensures LE(m[p..p + 16][i..i + 4]) == Load32(m, p + i)
    ensures |m[p..p + 16]| == 16
  {
    hide LE, Load32;
    SliceSlice(m, p, p + 16, i, i + 4);
    assert p + (i + 4) == p + i + 4;
  }

  lemma OrHigh(x: nat, hibit: word)
    requires x < 0x100_0000 && (hibit == 0 || hibit == 0x100_0000)
    ensures Or(x, hibit) == x + hibit as int
  {
    Pow2Values();
    OrDisjoint(1, x, 24);
  }

  /* h += block; h *= r: one step of the fold. */
  lemma FoldStep(r: nat, h: nat, s: seq<byte>, high: nat, h': nat)
    requires |s| >= 16 && ModQ(h') == Absorb(r, h, LE(s[..16]) + high)
    ensures Fold(r, ModQ(h), s, high) == Fold(r, ModQ(h'), s[16..], high)
  {
    hide ModQ, LE, Absorb;
    ModQProduct(h, LE(s[..16]) + high, r);
  }

  /* The accumulator may be reduced before a block is added. */
  lemma ModQProduct(h: nat, x: nat, r: nat)
    ensures Absorb(r, h, x) == Absorb(r, ModQ(h), x)
  {
    hide ModQ, QuotientQ;
    var k := QuotientQ(h);
    StepAlgebra(h, k, ModQ(h), x, r, Q);
    AddMultipleQ((ModQ(h) + x) * r, k * r);
  }

  lemma StepAlgebra(h: int, k: int, a: int, x: int, r: int, q: int)
    requires h == k * q + a
    ensures (h + x) * r == (a + x) * r + (k * r) * q
  {
    MulEqual(h, k * q + a, r);
  }

  lemma MulEqual(x: int, y: int, r: int)
    requires x == y
    ensures x * r == y * r
  {
  }

  lemma LoadedSum(h: Limbs5, t: Limbs5)
    requires Carried(h) && t.a0 < LIMB && t.a1 < LIMB && t.a2 < LIMB && t.a3 < LIMB && t.a4 < 0x200_0000
    ensures Loaded(L5(h.a0 + t.a0, h.a1 + t.a1, h.a2 + t.a2, h.a3 + t.a3, h.a4 + t.a4))
    ensures Num(L5(h.a0 + t.a0, h.a1 + t.a1, h.a2 + t.a2, h.a3 + t.a3, h.a4 + t.a4)) == Num(h) + Num(t)
    ensures h.a0 + t.a0 < B && h.a1 + t.a1 < B && h.a2 + t.a2 < B && h.a3 + t.a3 < B && h.a4 + t.a4 < B
  {
  }

  lemma WholeBlocks(n: nat, a: nat)
    requires a % 16 == 0
    ensures n / 16 * 16 <= n < n / 16 * 16 + 16 && (a + n / 16 * 16) % 16 == 0
  {
    DivModUnique(a + n / 16 * 16, 16, a / 16 + n / 16, 0);
  }

  class Authenticator {
    const r: array<word>
    const h: array<word>
    const pad: array<word>
    const buffer: array<byte>
    var leftover: nat
    var final: bool
    ghost var key: seq<byte>
    ghost var absorbed: seq<byte>

    ghost predicate Shape()
    {
      && r.Length == 5 && h.Length == 5 && pad.Length == 4 && buffer.Length == 16
      && r != h && r != pad && h != pad
      && buffer as object != r && buffer as object != h && buffer as object != pad
    }

    ghost function R(): Limbs5
      requires Shape()
      reads r
    {
      L5(r[0], r[1], r[2], r[3], r[4])
    }

    ghost function H(): Limbs5
      requires Shape()
      reads h
    {
      L5(h[0], h[1], h[2], h[3], h[4])
    }

    ghost function Pad(): nat
      requires Shape()
      reads pad
    {
      pad[0] as int + 0x1_0000_0000 * pad[1] as int + 0x1_0000_0000_0000_0000 * pad[2] as int
      + 0x1_0000_0000_0000_0000_0000_0000 * pad[3] as int
    }

    /* h is the polynomial over the full blocks absorbed so far; the rest waits in the buffer. */
    ghost predicate Holding()
      reads this, r, h, pad, buffer
    {
      && Shape() && |key| == 32 && !final
      && Clamped(R()) && Num(R()) == KeyR(key) && Pad() == KeyS(key)
      && leftover <= 16 && leftover <= |absorbed| && (|absorbed| - leftover) % 16 == 0
      && buffer[..leftover] == absorbed[|absorbed| - leftover..]
      && Carried(H()) && ModQ(Num(H())) == Acc(KeyR(key), absorbed[..|absorbed| - leftover])
    }

    /* Between calls less than a block is held back. */
    ghost predicate Valid()
      reads this, r, h, pad, buffer
    {
      Holding() && leftover < 16
    }

    /* poly1305_blocks */
    method Blocks(m: array<byte>, p: nat, bytes: nat)
      requires Shape() && Clamped(R()) && Carried(H())
      requires p + bytes <= m.Length && m as object != h
      modifies h
      ensures Carried(H())
      ensures ModQ(Num(H())) == Fold(Num(R()), old(ModQ(Num(H()))), m[p..p + bytes], if final then 0 else TWO128)
    {
      hide ModQ, Num, Carried, Loaded, Clamped, Fold;
      var hibit: word := if final then 0 else 0x100_0000;
      ghost var high := if final then 0 else TWO128;
      ghost var rs, a0 := R(), ModQ(Num(H()));
      var h0: word, h1: word, h2: word, h3: word, h4: word := h[0], h[1], h[2], h[3], h[4];
      var q, n := p, bytes;
      while n >= 16
        invariant 0 <= n <= bytes && q + n == p + bytes
        invariant Carried(L5(h0, h1, h2, h3, h4))
        invariant Fold(Num(rs), a0, m[p..p + bytes], high)
                  == Fold(Num(rs), ModQ(Num(L5(h0, h1, h2, h3, h4))), m[q..q + n], high)
      {
        ghost var s := m[q..q + n];
        ghost var before := Num(L5(h0, h1, h2, h3, h4));
        var t0, t1, t2, t3, t4 := LoadBlock(m, q, hibit);
        assert s[..16] == m[q..q + 16] && s[16..] == m[q + 16..q + n];
        LoadedSum(L5(h0, h1, h2, h3, h4), L5(t0, t1, t2, t3, t4));
        h0 := (h0 as int + t0 as int) % B;
        h1 := (h1 as int + t1 as int) % B;
        h2 := (h2 as int + t2 as int) % B;
        h3 := (h3 as int + t3 as int) % B;
        h4 := (h4 as int + t4 as int) % B;
        h0, h1, h2, h3, h4 := MulReduce(h0, h1, h2, h3, h4, r[0], r[1], r[2], r[3], r[4]);
        FoldStep(Num(rs), before, s, high, Num(L5(h0, h1, h2, h3, h4)));
        q, n := q + 16, n - 16;
      }
      FoldEnd(Num(rs), ModQ(Num(L5(h0, h1, h2, h3, h4))), m[q..q + n], high);
      h[0], h[1], h[2], h[3], h[4] := h0, h1, h2, h3, h4;
    }

    /* An uninitialised context. */
    constructor ()
      ensures Shape() && fresh(r) && fresh(h) && fresh(pad) && fresh(buffer)
    {
      r := new word[5];
      h := new word[5];
      pad := new word[4];
      buffer := new byte[16];
      leftover := 0;
      final := false;
      key := [];
      absorbed := [];
    }

    /* poly1305_init */
    method Init(k: array<byte>)
      requires Shape() && k.Length == 32 && k as object != r && k as object != h && k as object != pad
      modifies this`leftover, this`final, this`key, this`absorbed, r, h, pad
      ensures Valid() && key == k[..] && absorbed == []
    {
      hide Num, ModQ, Clamped, Carried, KeyR, KeyS, Acc, R, H, Pad;
      SetR(k);
      ClearH();
      SetPad(k);
      leftover := 0;
      final := false;
      key := k[..];
      absorbed := [];
      AccEmpty(KeyR(key), absorbed);
      assert absorbed[..|absorbed| - leftover] == absorbed[..0];
      assert buffer[..leftover] == absorbed[|absorbed| - leftover..];
    }

    method ClearH()
      requires Shape()
      modifies h
      ensures Carried(H()) && ModQ(Num(H())) == 0
    {
      hide Num, ModQ, Carried;
      h[0], h[1], h[2], h[3], h[4] := 0, 0, 0, 0, 0;
      ZeroLimbs();
    }

    method SetPad(k: array<byte>)
      requires Shape() && k.Length == 32 && k as object != pad
      modifies pad
      ensures Pad() == KeyS(old(k[..]))
    {
      hide LE, Load32, KeyS;
      KeyPad(k[..]);
      pad[0], pad[1], pad[2], pad[3] := Load32(k[..], 16), Load32(k[..], 20), Load32(k[..], 24), Load32(k[..], 28);
    }

    method SetR(k: array<byte>)
      requires Shape() && k.Length == 32 && k as object != r
      modifies r
      ensures Num(R()) == KeyR(k[..]) && Clamped(R())
    {
      hide And, LE, Load32, Num, Clamped, Shifted;
      ghost var b := k[..][..16];
      ClampLimbs(b);
      KeyLimb(k[..], 0, 1, RMASK.a0);
      KeyLimb(k[..], 3, 4, RMASK.a1);
      KeyLimb(k[..], 6, 16, RMASK.a2);
      KeyLimb(k[..], 9, 64, RMASK.a3);
      KeyLimb(k[..], 12, 256, RMASK.a4);
      r[0] := And(Load32(k[..], 0) / 1, 0x3ff_ffff);
      r[1] := And(Load32(k[..], 3) / 4, 0x3ff_ff03);
      r[2] := And(Load32(k[..], 6) / 16, 0x3ff_c0ff);
      r[3] := And(Load32(k[..], 9) / 64, 0x3f0_3fff);
      r[4] := And(Load32(k[..], 12) / 256, 0x00f_ffff);
    }

    /* Copies bytes behind the held-back ones. */
    method FillBuffer(m: array<byte>, p: nat, want: nat)
      requires Holding() && leftover + want <= 16 && p + want <= m.Length && m != buffer
      modifies this`leftover, this`absorbed, buffer
      ensures Holding() && absorbed == old(absorbed) + m[p..p + want] && leftover == old(leftover) + want
    {
      hide Acc, Num, ModQ, Clamped, Carried, KeyR, KeyS, R, H, Pad;
      var l := leftover;
      ghost var kept := buffer[..l];
      for i := 0 to want
        invariant buffer[..l + i] == kept + m[p..p + i]
        invariant leftover == l && absorbed == old(absorbed)
      {
        buffer[leftover + i] := m[p + i];
        assert buffer[..l + i + 1] == buffer[..l + i] + [m[p + i]];
      }
      absorbed := absorbed + m[p..p + want];
      leftover := leftover + want;
      assert absorbed[..|absorbed| - leftover] == old(absorbed)[..|old(absorbed)| - old(leftover)];
    }

    /* Absorbs the full buffer. */
    method FlushBuffer()
      requires Holding() && leftover == 16
      modifies this`leftover, h
      ensures Valid() && leftover == 0
    {
      hide Acc, Num, ModQ, Clamped, Carried, Fold, KeyR, KeyS, R, H, Pad;
      ghost var x, s := absorbed[..|absorbed| - 16], absorbed[|absorbed| - 16..];
      assert buffer[0..16] == s;
      Blocks(buffer, 0, 16);
      leftover := 0;
      FoldAcc(KeyR(key), x, s);
      assert x + s == absorbed && absorbed[..|absorbed| - 0] == absorbed;
    }

    /* Absorbs the full blocks of the input straight from it. */
    method AbsorbBlocks(m: array<byte>, p: nat, n: word) returns (want: word)
      requires Valid() && leftover == 0 && p + n <= m.Length && m as object != h
      modifies this`absorbed, h
      ensures Valid() && leftover == 0 && want <= n < want + 16 && absorbed == old(absorbed) + m[p..p + want]
    {
      hide Acc, Num, ModQ, Clamped, Carried, Fold, KeyR, KeyS, R, H, Pad, And;
      RoundDown16(n);
      want := And(n, 0xffff_fff0);
      WholeBlocks(n, |absorbed|);
      assert absorbed[..|absorbed| - 0] == absorbed;
      ghost var s := m[p..p + want];
      Blocks(m, p, want);
      FoldAcc(KeyR(key), absorbed, s);
      absorbed := absorbed + s;
      assert absorbed[..|absorbed| - 0] == absorbed;
    }

    /* Fills the buffer up, and absorbs it once it is full. */
    method TopUp(m: array<byte>, p: nat, n: word) returns (want: word)
      requires Valid() && leftover != 0 && p + n <= m.Length && m != buffer && m as object != h
      modifies this`leftover, this`absorbed, h, buffer
      ensures Valid() && want <= n && absorbed == old(absorbed) + m[p..p + want]
      ensures leftover != 0 ==> want == n
    {
      hide Holding, Shape;
      want := 16 - leftover;
      if want > n {
        want := n;
      }
      FillBuffer(m, p, want);
      if leftover == 16 {
        FlushBuffer();
      }
    }

    /* Full blocks straight from the input, then the rest into the empty buffer. */
    method AbsorbRest(m: array<byte>, p: nat, n: word)
      requires Valid() && leftover == 0 && p + n <= m.Length && m != buffer && m as object != h
      modifies this`leftover, this`absorbed, h, buffer
      ensures Valid() && absorbed == old(absorbed) + m[p..p + n]
    {
      hide Holding, Shape;
      var q: nat, rest: word := p, n;
      if rest >= 16 {
        var want := AbsorbBlocks(m, q, rest);
        q := q + want;
        rest := rest - want;
      }
      assert absorbed == old(absorbed) + m[p..q];
      if rest > 0 {
        FillBuffer(m, q, rest);
        AppendSlices(old(absorbed), m[..], p, q, p + n);
      }
    }

    /* poly1305_update: fill the buffer, absorb full blocks, keep the rest. */
    method Update(m: array<byte>, p: nat, len: word)
      requires Valid() && p + len <= m.Length && m != buffer && m as object != h
      modifies this`leftover, this`absorbed, h, buffer
      ensures Valid() && absorbed == old(absorbed) + m[p..p + len]
    {
      hide Valid;
      var q: nat, n: word := p, len;
      if leftover != 0 {
        var want := TopUp(m, q, n);
        n := n - want;
        q := q + want;
        if leftover != 0 {
          return;
        }
      }
      assert absorbed == old(absorbed) + m[p..q];
      AbsorbRest(m, q, n);
      AppendSlices(old(absorbed), m[..], p, q, p + len);
    }

    /* poly1305_finish writes the one-shot authenticator of everything absorbed. */
    method Finish(mac: array<byte>, p: nat)
      requires Valid() && p + 16 <= mac.Length && mac != buffer
      requires mac as object != h && mac as object != r && mac as object != pad
      modifies this`final, h, r, pad, buffer, mac
      ensures mac[p..p + 16] == Mac(old(key), old(absorbed))
      ensures forall k :: 0 <= k < mac.Length && !(p <= k < p + 16) ==> mac[k] == old(mac[k])
      ensures Shape()
    {
      hide Acc, KeyR, KeyS, LEBytes, Holding, Num4;
      var w0, w1, w2, w3 := Result();
      StoreWords(mac, p, w0, w1, w2, w3);
      h[0], h[1], h[2], h[3], h[4] := 0, 0, 0, 0, 0;
      r[0], r[1], r[2], r[3], r[4] := 0, 0, 0, 0, 0;
      pad[0], pad[1], pad[2], pad[3] := 0, 0, 0, 0;
    }

    /* The last block, the full reduction and the addition of the pad. */
    method Result() returns (w0: word, w1: word, w2: word, w3: word)
      requires Valid()
      modifies this`final, h, buffer
      ensures Shape() && Num4(w0, w1, w2, w3) == (Acc(KeyR(key), absorbed) + KeyS(key)) % TWO128
    {
      hide Acc, Num, ModQ, Clamped, Carried, KeyR, KeyS, R, Pad, Num4;
      PadNum();
      LastBlockIn();
      var h0, h1, h2, h3, h4 := FullCarry(h[0], h[1], h[2], h[3], h[4]);
      h0, h1, h2, h3, h4 := SelectReduced(h0, h1, h2, h3, h4);
      w0, w1, w2, w3 := Repack(h0, h1, h2, h3, h4);
      w0, w1, w2, w3 := AddPad(w0, w1, w2, w3, pad[0], pad[1], pad[2], pad[3]);
      SumMod(Acc(KeyR(key), absorbed), KeyS(key));
    }

    lemma PadNum()
      requires Shape()
      ensures Pad() == Num4(pad[0], pad[1], pad[2], pad[3])
    {
    }

    /* Pads the held-back bytes with a one byte and zeros and absorbs them without the high bit. */
    method LastBlockIn()
      requires Valid()
      modifies this`final, h, buffer
      ensures Shape() && Carried(H()) && ModQ(Num(H())) == Acc(KeyR(key), absorbed)
    {
      hide Acc, Num, ModQ, Clamped, Carried, Fold, KeyR, KeyS, R, H, Pad, LE, Pow2, Absorb;
      ghost var x, tail := absorbed[..|absorbed| - leftover], absorbed[|absorbed| - leftover..];
      assert absorbed == x + tail;
      if leftover != 0 {
        PadBuffer();
        final := true;
        ghost var a0 := ModQ(Num(H()));
        Blocks(buffer, 0, 16);
        ShortBlock(Num(R()), a0, buffer[0..16], tail);
        AccSnoc(KeyR(key), x, tail);
      } else {
        assert x == absorbed;
      }
    }

    method PadBuffer()
      requires Shape() && 0 < leftover < 16
      modifies buffer
      ensures buffer[0..16] == old(buffer[..leftover]) + [1] + Zeros(15 - leftover)
    {
      var i := leftover;
      ghost var kept := buffer[..leftover];
      buffer[i] := 1;
      i := i + 1;
      while i < 16
        invariant leftover + 1 <= i <= 16
        invariant buffer[..i] == kept + [1] + Zeros(i - leftover - 1)
      {
        buffer[i] := 0;
        assert buffer[..i + 1] == buffer[..i] + [0];
        i := i + 1;
      }
      assert buffer[..16] == buffer[0..16];
    }
  }

  /* The padded buffer denotes the short block with its one bit. */
  lemma ShortBlock(r: nat, a: nat, b: seq<byte>, tail: seq<byte>)
    requires |b| == 16 && 0 < |tail| < 16 && b == tail + [1] + Zeros(15 - |tail|)
    ensures Fold(r, a, b, 0) == Absorb(r, a, BlockNum(tail))
  {
    PaddedNum(b, tail);
    hide LE, Absorb, Pow2;
    assert b[..16] == b && b[16..] == [];
    assert Fold(r, a, b, 0) == Fold(r, Absorb(r, a, LE(b[..16]) + 0), b[16..], 0);
  }

  lemma PaddedNum(b: seq<byte>, tail: seq<byte>)
    requires |b| == 16 && 0 < |tail| < 16 && b == tail + [1] + Zeros(15 - |tail|)
    ensures LE(b) == BlockNum(tail)
  {
    var z := Zeros(15 - |tail|);
    LEZeros(15 - |tail|);
    assert LE([1] + z) == 1 by {
      assert ([1] + z)[1..] == z;
    }
    hide LE, Pow2;
    assert b == tail + ([1] + z);
    LEConcat(tail, [1] + z);
  }

  lemma SumMod(t: nat, s: nat)
    ensures (t % TWO128 + s) % TWO128 == (t + s) % TWO128
  {
  }

  /* U32TO8 four times. */
  method StoreWords(mac: array<byte>, p: nat, w0: word, w1: word, w2: word, w3: word)
    requires p + 16 <= mac.Length
    modifies mac
    ensures mac[p..p + 16] == LEBytes(Num4(w0, w1, w2, w3), 16)
    ensures forall k :: 0 <= k < mac.Length && !(p <= k < p + 16) ==> mac[k] == old(mac[k])
  {
    hide LE, LEBytes;
    StoreWord(mac, p, w0);
    StoreWord(mac, p + 4, w1);
    StoreWord(mac, p + 8, w2);
    StoreWord(mac, p + 12, w3);
    WordsBytes(mac[p..p + 16], w0, w1, w2, w3);
  }

  lemma AccEmpty(r: nat, m: seq<byte>)
    ensures Acc(r, m[..0]) == 0
  {
  }

  lemma ZeroLimbs()
    ensures Carried(L5(0, 0, 0, 0, 0)) && ModQ(Num(L5(0, 0, 0, 0, 0))) == 0
  {
    hide ModQ;
    ModQSmall(0, 0, 0);
  }

  lemma KeyLimb(k: seq<byte>, i: nat, d: nat, mask: nat)
    requires |k| == 32 && i + 4 <= 16 && mask < B
    requires d == 1 || d == 4 || d == 16 || d == 64 || d == 256
    ensures 0 <= Load32(k, i) / d
    ensures And(Load32(k, i) / d, mask) == And(Shifted(k[..16], i, d), mask) <= mask
  {
    hide And, LE, Load32;
    assert k[..16][i..i + 4] == k[i..i + 4];
    AndBelow(Shifted(k[..16], i, d), mask);
  }

  lemma KeyPad(k: seq<byte>)
    requires |k| == 32
    ensures Load32(k, 16) as int + 0x1_0000_0000 * Load32(k, 20) as int + 0x1_0000_0000_0000_0000 * Load32(k, 24) as int
            + 0x1_0000_0000_0000_0000_0000_0000 * Load32(k, 28) as int == KeyS(k)
  {
    hide LE, Load32;
    LE16(k[16..]);
    assert k[16..][0..4] == k[16..20] && k[16..][4..8] == k[20..24] && k[16..][8..12] == k[24..28]
      && k[16..][12..16] == k[28..32];
  }

  lemma FoldEnd(r: nat, a: nat, s: seq<byte>, high: nat)
    requires |s| < 16
    ensures Fold(r, a, s, high) == a
  {
  }

  lemma WordsBytes(b: seq<byte>, w0: word, w1: word, w2: word, w3: word)
    requires |b| == 16
    requires b[0..4] == LEBytes(w0, 4) && b[4..8] == LEBytes(w1, 4) && b[8..12] == LEBytes(w2, 4)
      && b[12..16] == LEBytes(w3, 4)
    ensures b == LEBytes(Num4(w0, w1, w2, w3), 16)
  {
    hide LE, LEBytes;
    LE16(b);
    WordBytes(w0);
    WordBytes(w1);
    WordBytes(w2);
    WordBytes(w3);
    LEBytesOfLE(b);
  }

  /* U32TO8 */
  method StoreWord(mac: array<byte>, p: nat, w: word)
    requires p + 4 <= mac.Length
    modifies mac
    ensures mac[p..p + 4] == LEBytes(w, 4)
    ensures forall k :: 0 <= k < mac.Length && !(p <= k < p + 4) ==> mac[k] == old(mac[k])
  {
    FourBytes(w);
    hide LEBytes;
    mac[p], mac[p + 1], mac[p + 2], mac[p + 3] := w % 0x100, w / 0x100 % 0x100, w / 0x1_0000 % 0x100,
        w / 0x100_0000 % 0x100;
  }
}
