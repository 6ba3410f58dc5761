/**
 Arithmetic modulo q = 2^130 - 5 in five limbs of 26 bits (poly1305-donna-32.h):
 no 32-bit or 64-bit intermediate wraps, and the partial reduction is exact
 modulo q.
 */
module PolyField {
  import opened Words

  const Q: int := 0x3_ffffffff_ffffffff_ffffffff_fffffffb
  const TWO128: int := 0x1_00000000_00000000_00000000_00000000
  const LIMB: int := 0x400_0000

  function ModQ(x: int): (r: nat)
    ensures r < Q
  {
    x % 0x3_ffffffff_ffffffff_ffffffff_fffffffb
  }

  function QuotientQ(x: int): (k: int)
    ensures x == k * Q + ModQ(x)
  {
    x / 0x3_ffffffff_ffffffff_ffffffff_fffffffb
  }

  lemma AddMultipleQ(x: int, k: int)
    ensures ModQ(x + k * Q) == ModQ(x)
  {
  }

  lemma ModQSmall(x: int, k: int, r: nat)
    requires x == k * Q + r && r < Q
    ensures ModQ(x) == r
  {
  }

  /* Five limbs; limbs may exceed 26 bits. */
  datatype Limbs5 = L5(a0: nat, a1: nat, a2: nat, a3: nat, a4: nat)

  function Num(a: Limbs5): nat
  {
    a.a0 + 0x400_0000 * a.a1 + 0x10_0000_0000_0000 * a.a2
    + 0x4000_0000_0000_0000_0000 * a.a3 + 0x100_0000_0000_0000_0000_0000_0000 * a.a4
  }

  /* What poly1305_blocks leaves behind: only limb 1 may exceed 26 bits, by less than 64. */
  predicate Carried(h: Limbs5)
  {
    h.a0 < LIMB && h.a1 < LIMB + 64 && h.a2 < LIMB && h.a3 < LIMB && h.a4 < LIMB
  }

  /* The same after a block of 26-bit limbs and the high bit have been added. */
  predicate Loaded(h: Limbs5)
  {
    && h.a0 < 2 * LIMB && h.a1 < 2 * LIMB + 64 && h.a2 < 2 * LIMB && h.a3 < 2 * LIMB
    && h.a4 < LIMB + 0x200_0000
  }

  predicate Clamped(r: Limbs5)
  {
    r.a0 < LIMB && r.a1 < LIMB && r.a2 < LIMB && r.a3 < LIMB && r.a4 < 0x10_0000
  }

  // ---------- the product ----------

  function Dot(h: Limbs5, a: int, b: int, c: int, d: int, e: int): int
  {
    h.a0 * a + h.a1 * b + h.a2 * c + h.a3 * d + h.a4 * e
  }

  /* The five column sums of the product, columns 5 to 8 folded back with weight 5. */
  function Columns(h: Limbs5, r: Limbs5): Limbs5
  {
    ColumnsNonneg(h, r);
    L5(Dot(h, r.a0, 5 * r.a4, 5 * r.a3, 5 * r.a2, 5 * r.a1),
       Dot(h, r.a1, r.a0, 5 * r.a4, 5 * r.a3, 5 * r.a2),
       Dot(h, r.a2, r.a1, r.a0, 5 * r.a4, 5 * r.a3),
       Dot(h, r.a3, r.a2, r.a1, r.a0, 5 * r.a4),
       Dot(h, r.a4, r.a3, r.a2, r.a1, r.a0))
  }

  lemma MulBound(x: int, mx: int, y: int, my: int)
    requires 0 <= x <= mx && 0 <= y <= my
    ensures 0 <= x * y <= mx * my
  {
    assert (mx - x) * y >= 0;
    assert mx * (my - y) >= 0;
    assert (mx - x) * y == mx * y - x * y;
    assert mx * (my - y) == mx * my - mx * y;
    assert x * y >= 0;
  }

  lemma DotNonneg(h: Limbs5, a: nat, b: nat, c: nat, d: nat, e: nat)
    ensures Dot(h, a, b, c, d, e) >= 0
  {
    MulBound(h.a0, h.a0, a, a);
    MulBound(h.a1, h.a1, b, b);
    MulBound(h.a2, h.a2, c, c);
    MulBound(h.a3, h.a3, d, d);
    MulBound(h.a4, h.a4, e, e);
  }

  lemma ColumnsNonneg(h: Limbs5, r: Limbs5)
    ensures Dot(h, r.a0, 5 * r.a4, 5 * r.a3, 5 * r.a2, 5 * r.a1) >= 0
    ensures Dot(h, r.a1, r.a0, 5 * r.a4, 5 * r.a3, 5 * r.a2) >= 0
    ensures Dot(h, r.a2, r.a1, r.a0, 5 * r.a4, 5 * r.a3) >= 0
    ensures Dot(h, r.a3, r.a2, r.a1, r.a0, 5 * r.a4) >= 0
    ensures Dot(h, r.a4, r.a3, r.a2, r.a1, r.a0) >= 0
  {
    hide Dot;
    DotNonneg(h, r.a0, 5 * r.a4, 5 * r.a3, 5 * r.a2, 5 * r.a1);
    DotNonneg(h, r.a1, r.a0, 5 * r.a4, 5 * r.a3, 5 * r.a2);
    DotNonneg(h, r.a2, r.a1, r.a0, 5 * r.a4, 5 * r.a3);
    DotNonneg(h, r.a3, r.a2, r.a1, r.a0, 5 * r.a4);
    DotNonneg(h, r.a4, r.a3, r.a2, r.a1, r.a0);
  }

  /* Limbs of at most 28 bits times multipliers of at most m. */
  lemma DotBound(h: Limbs5, a: nat, b: nat, c: nat, d: nat, e: nat, m: nat)
    requires Loaded(h) && a <= m && b <= m && c <= m && d <= m && e <= m
    ensures 0 <= Dot(h, a, b, c, d, e) <= 5 * (0x800_0040 * m)
  {
    MulBound(h.a0, 0x800_0040, a, m);
    MulBound(h.a1, 0x800_0040, b, m);
    MulBound(h.a2, 0x800_0040, c, m);
    MulBound(h.a3, 0x800_0040, d, m);
    MulBound(h.a4, 0x800_0040, e, m);
  }

  lemma ColumnsBound(h: Limbs5, r: Limbs5)
    requires Loaded(h) && Clamped(r)
    ensures var d := Columns(h, r);
            && d.a0 < 0x400_0000_0000_0000 - B && d.a1 < 0x400_0000_0000_0000 - B
            && d.a2 < 0x400_0000_0000_0000 - B && d.a3 < 0x400_0000_0000_0000 - B
            && d.a4 < 0xc0_0000_0000_0000
  {
    hide Dot, Loaded;
    var m := 5 * 0x3ff_ffff;
    DotBound(h, r.a0, 5 * r.a4, 5 * r.a3, 5 * r.a2, 5 * r.a1, m);
    DotBound(h, r.a1, r.a0, 5 * r.a4, 5 * r.a3, 5 * r.a2, m);
    DotBound(h, r.a2, r.a1, r.a0, 5 * r.a4, 5 * r.a3, m);
    DotBound(h, r.a3, r.a2, r.a1, r.a0, 5 * r.a4, m);
    DotBound(h, r.a4, r.a3, r.a2, r.a1, r.a0, 0x3ff_ffff);
  }

  /* A column times a number in limbs. */
  lemma RowExpand(x: int, r: Limbs5)
    ensures x * Num(r)
            == x * r.a0 + 0x400_0000 * (x * r.a1) + 0x10_0000_0000_0000 * (x * r.a2)
               + 0x4000_0000_0000_0000_0000 * (x * r.a3) + 0x100_0000_0000_0000_0000_0000_0000 * (x * r.a4)
  {
  }

  lemma NumTimes(h: Limbs5, y: int)
    ensures Num(h) * y
            == h.a0 * y + 0x400_0000 * (h.a1 * y) + 0x10_0000_0000_0000 * (h.a2 * y)
               + 0x4000_0000_0000_0000_0000 * (h.a3 * y) + 0x100_0000_0000_0000_0000_0000_0000 * (h.a4 * y)
  {
  }

  lemma TimesFive(x: int, y: int)
    ensures x * (5 * y) == 5 * (x * y)
  {
  }

  lemma FiveFold(h: Limbs5, r: Limbs5)
    ensures
      var d := Columns(h, r);
      && d.a0 == h.a0 * r.a0 + 5 * (h.a1 * r.a4) + 5 * (h.a2 * r.a3) + 5 * (h.a3 * r.a2) + 5 * (h.a4 * r.a1)
      && d.a1 == h.a0 * r.a1 + h.a1 * r.a0 + 5 * (h.a2 * r.a4) + 5 * (h.a3 * r.a3) + 5 * (h.a4 * r.a2)
      && d.a2 == h.a0 * r.a2 + h.a1 * r.a1 + h.a2 * r.a0 + 5 * (h.a3 * r.a4) + 5 * (h.a4 * r.a3)
      && d.a3 == h.a0 * r.a3 + h.a1 * r.a2 + h.a2 * r.a1 + h.a3 * r.a0 + 5 * (h.a4 * r.a4)
      && d.a4 == h.a0 * r.a4 + h.a1 * r.a3 + h.a2 * r.a2 + h.a3 * r.a1 + h.a4 * r.a0
  {
    TimesFive(h.a1, r.a4);
    TimesFive(h.a2, r.a3);
    TimesFive(h.a3, r.a2);
    TimesFive(h.a4, r.a1);
    TimesFive(h.a2, r.a4);
    TimesFive(h.a3, r.a3);
    TimesFive(h.a4, r.a2);
    TimesFive(h.a3, r.a4);
    TimesFive(h.a4, r.a3);
    TimesFive(h.a4, r.a4);
  }

  /* The columns denote the product modulo q. */
  lemma ColumnsProduct(h: Limbs5, r: Limbs5)
    ensures ModQ(Num(Columns(h, r))) == ModQ(Num(h) * Num(r))
  {
    var d := Columns(h, r);
    var k := HighColumns(h, r);
    ColumnsExact(h, r);
    hide Num, Columns, ModQ, HighColumns;
    AddMultipleQ(Num(d), k);
  }

  /* Columns 5 to 8 of the product, which the program folds with weight 5. */
  function HighColumns(h: Limbs5, r: Limbs5): int
  {
    (h.a1 * r.a4 + h.a2 * r.a3 + h.a3 * r.a2 + h.a4 * r.a1)
    + 0x400_0000 * (h.a2 * r.a4 + h.a3 * r.a3 + h.a4 * r.a2)
    + 0x10_0000_0000_0000 * (h.a3 * r.a4 + h.a4 * r.a3)
    + 0x4000_0000_0000_0000_0000 * (h.a4 * r.a4)
  }

  lemma ColumnsExact(h: Limbs5, r: Limbs5)
    ensures Num(h) * Num(r) == Num(Columns(h, r)) + HighColumns(h, r) * Q
  {
    FiveFold(h, r);
    NumTimes(h, Num(r));
    RowExpand(h.a0, r);
    RowExpand(h.a1, r);
    RowExpand(h.a2, r);
    RowExpand(h.a3, r);
    RowExpand(h.a4, r);
    hide Columns, Dot;
  }

  // ---------- one block ----------

  /* x & 0x3ffffff on a 32-bit word. */
  function Mask26(x: nat): (r: word)
    ensures r == x % B % LIMB
  {
    Pow2Values();
    AndMask(x % B, 26);
    And(x % B, 0x3ff_ffff)
  }

  /* c = x >> 26 truncated to 32 bits, and the low 26 bits. */
  lemma SplitLimb(x: nat)
    requires x < 0x400_0000_0000_0000
    ensures x / LIMB % B == x / LIMB < B
    ensures x == x / LIMB * LIMB + x % B % LIMB
  {
  }

  /* h *= r followed by the partial reduction of the five columns. */
  method MulReduce(h0: word, h1: word, h2: word, h3: word, h4: word, r0: word, r1: word, r2: word, r3: word, r4: word)
    returns (o0: word, o1: word, o2: word, o3: word, o4: word)
    requires Loaded(L5(h0, h1, h2, h3, h4)) && Clamped(L5(r0, r1, r2, r3, r4))
    ensures Carried(L5(o0, o1, o2, o3, o4))
    ensures ModQ(Num(L5(o0, o1, o2, o3, o4))) == ModQ(Num(L5(h0, h1, h2, h3, h4)) * Num(L5(r0, r1, r2, r3, r4)))
  {
    hide Num, ModQ, Loaded, Columns, Carried, Clamped;
    ghost var h, r := L5(h0, h1, h2, h3, h4), L5(r0, r1, r2, r3, r4);
    ColumnsBound(h, r);
    ColumnsProduct(h, r);
    FiveTimes(r);
    var s1: word, s2: word, s3: word, s4: word := r1 as int * 5 % B, r2 as int * 5 % B, r3 as int * 5 % B,
        r4 as int * 5 % B;
    var d0, d1, d2, d3, d4 := ColumnSums(h0, h1, h2, h3, h4, r0, r1, r2, r3, r4, s1, s2, s3, s4);
    o0, o1, o2, o3, o4 := PartialReduce(d0, d1, d2, d3, d4);
  }

  lemma FiveTimes(r: Limbs5)
    requires Clamped(r)
    ensures 5 * r.a1 < B && 5 * r.a2 < B && 5 * r.a3 < B && 5 * r.a4 < B
  {
  }

  method ColumnSums(h0: word, h1: word, h2: word, h3: word, h4: word, r0: word, r1: word, r2: word, r3: word, r4: word,
                    s1: word, s2: word, s3: word, s4: word)
    returns (d0: dword, d1: dword, d2: dword, d3: dword, d4: dword)
    requires Loaded(L5(h0, h1, h2, h3, h4)) && Clamped(L5(r0, r1, r2, r3, r4))
    requires s1 == 5 * r1 as int && s2 == 5 * r2 as int && s3 == 5 * r3 as int && s4 == 5 * r4 as int
    ensures L5(d0, d1, d2, d3, d4) == Columns(L5(h0, h1, h2, h3, h4), L5(r0, r1, r2, r3, r4))
  {
    hide Loaded;
    ghost var h, r := L5(h0, h1, h2, h3, h4), L5(r0, r1, r2, r3, r4);
    ColumnsBound(h, r);
    d0 := (h0 as int * r0 as int + h1 as int * s4 as int + h2 as int * s3 as int + h3 as int * s2 as int
        + h4 as int * s1 as int) % TWO64;
    d1 := (h0 as int * r1 as int + h1 as int * r0 as int + h2 as int * s4 as int + h3 as int * s3 as int
        + h4 as int * s2 as int) % TWO64;
    d2 := (h0 as int * r2 as int + h1 as int * r1 as int + h2 as int * r0 as int + h3 as int * s4 as int
        + h4 as int * s3 as int) % TWO64;
    d3 := (h0 as int * r3 as int + h1 as int * r2 as int + h2 as int * r1 as int + h3 as int * r0 as int
        + h4 as int * s4 as int) % TWO64;
    d4 := (h0 as int * r4 as int + h1 as int * r3 as int + h2 as int * r2 as int + h3 as int * r1 as int
        + h4 as int * r0 as int) % TWO64;
  }

  /* d += carry; the next carry is (unsigned long)(d >> 26), the limb (unsigned long)d & 0x3ffffff. */
  method CarryLimb(d: dword, carry: word) returns (lo: word, carry': word)
    requires d as int + carry as int < 0x400_0000_0000_0000
    ensures d as int + carry as int == carry' as int * LIMB + lo as int && lo < LIMB
  {
    hide And;
    var t := (d as int + carry as int) % TWO64;
    SplitLimb(t);
    carry' := t / LIMB % B;
    lo := Mask26(t);
  }

  /* The carry out of the top limb comes back in at the bottom without leaving its word. */
  lemma FoldedWord(d4: int, c3: int, c4: int, h4: int, h0: int)
    requires 0 <= d4 < 0xc0_0000_0000_0000 && 0 <= c3 < 0x1_0000_0000 && d4 + c3 == c4 * 0x400_0000 + h4
    requires 0 <= h4 < 0x400_0000 && 0 <= h0 < 0x400_0000
    ensures (h0 + c4 * 5 % 0x1_0000_0000) % 0x1_0000_0000 == h0 + 5 * c4 && 0 <= c4 < 0x3000_0100
  {
  }

  method PartialReduce(d0: dword, d1: dword, d2: dword, d3: dword, d4: dword)
    returns (h0: word, h1: word, h2: word, h3: word, h4: word)
    requires d0 < 0x400_0000_0000_0000 - B && d1 < 0x400_0000_0000_0000 - B && d2 < 0x400_0000_0000_0000 - B
    requires d3 < 0x400_0000_0000_0000 - B && d4 < 0xc0_0000_0000_0000
    ensures Carried(L5(h0, h1, h2, h3, h4))
    ensures ModQ(Num(L5(h0, h1, h2, h3, h4))) == ModQ(Num(L5(d0, d1, d2, d3, d4)))
  {
    hide ModQ, Num, Carried;
    var c: word, c1: word, c2: word, c3: word, c4: word, c5: word;
    h0, c := CarryLimb(d0, 0);
    h1, c1 := CarryLimb(d1, c);
    h2, c2 := CarryLimb(d2, c1);
    h3, c3 := CarryLimb(d3, c2);
    h4, c4 := CarryLimb(d4, c3);
    ghost var l0, l1 := h0, h1;
    FoldedWord(d4, c3, c4, h4, l0);
    h0, c5 := CarryLimb((h0 as int + c4 as int * 5 % B) % B, 0);
    h1 := (h1 as int + c5 as int) % B;
    CarriedSum(L5(d0, d1, d2, d3, d4), L5(h0, h1, h2, h3, h4), l0, l1, c, c1, c2, c3, c4, c5);
    AddMultipleQ(Num(L5(h0, h1, h2, h3, h4)), c4);
    FinalCarry(d4, c3, c4, l0, c5, h0, h1, l1, h2, h3, h4);
  }

  lemma FinalCarry(d4: int, c3: int, c4: int, l0: int, c5: int, h0: nat, h1: nat, l1: int, h2: nat, h3: nat, h4: nat)
    requires d4 < 0xc0_0000_0000_0000 && 0 <= c3 < B && d4 + c3 == c4 * LIMB + h4
    requires 0 <= l0 < LIMB && 0 <= l1 < LIMB && h0 < LIMB && h2 < LIMB && h3 < LIMB && h4 < LIMB
    requires l0 + 5 * c4 == c5 * LIMB + h0 && h1 == l1 + c5
    ensures Carried(L5(h0, h1, h2, h3, h4))
  {
  }

  /* The carries telescope; the one out of limb 4 is worth q too much. */
  lemma CarriedSum(d: Limbs5, h: Limbs5, l0: int, l1: int, c0: int, c1: int, c2: int, c3: int, c4: int, c5: int)
    requires d.a0 == c0 * LIMB + l0 && d.a1 + c0 == c1 * LIMB + l1 && d.a2 + c1 == c2 * LIMB + h.a2
    requires d.a3 + c2 == c3 * LIMB + h.a3 && d.a4 + c3 == c4 * LIMB + h.a4
    requires l0 + 5 * c4 == c5 * LIMB + h.a0 && h.a1 == l1 + c5
    ensures Num(d) == Num(h) + c4 * Q
  {
  }

  // ---------- the final reduction ----------

  /* Carries everything: afterwards every limb is below 2^26, limb 1 included. */
  method FullCarry(a0: word, a1: word, a2: word, a3: word, a4: word)
    returns (h0: word, h1: word, h2: word, h3: word, h4: word)
    requires Carried(L5(a0, a1, a2, a3, a4))
    ensures h0 < LIMB && h1 < LIMB && h2 < LIMB && h3 < LIMB && h4 < LIMB
    ensures ModQ(Num(L5(h0, h1, h2, h3, h4))) == ModQ(Num(L5(a0, a1, a2, a3, a4)))
  {
    hide ModQ, Num;
    var c1: word, c2: word, c3: word, c4: word, c0: word;
    h1, c1 := CarryWord(a1, 0);
    h2, c2 := CarryWord(a2, c1);
    h3, c3 := CarryWord(a3, c2);
    h4, c4 := CarryWord(a4, c3);
    ghost var l1 := h1;
    SmallCarries(a3, a4, c2, c3, c4, h3, h4);
    h0, c0 := CarryWord(a0, c4 as int * 5 % B);
    h1 := (h1 as int + c0 as int) % B;
    FullCarrySum(L5(a0, a1, a2, a3, a4), L5(h0, h1, h2, h3, h4), c1, c2, c3, c4, c0, l1);
    AddMultipleQ(Num(L5(h0, h1, h2, h3, h4)), c4);
  }

  /* At most one goes out of the top limb. */
  lemma SmallCarries(a3: int, a4: int, c2: int, c3: int, c4: int, h3: int, h4: int)
    requires 0 <= a3 < 0x400_0000 && 0 <= a4 < 0x400_0000 && 0 <= c2 <= 0x400_0000
    requires a3 + c2 == c3 * 0x400_0000 + h3 && a4 + c3 == c4 * 0x400_0000 + h4
    requires 0 <= h3 < 0x400_0000 && 0 <= h4 < 0x400_0000
    ensures 0 <= c4 <= 1
  {
  }

  lemma FullCarrySum(a: Limbs5, h: Limbs5, c1: int, c2: int, c3: int, c4: int, c0: int, l1: int)
    requires a.a1 == c1 * LIMB + l1 && a.a2 + c1 == c2 * LIMB + h.a2 && a.a3 + c2 == c3 * LIMB + h.a3
    requires a.a4 + c3 == c4 * LIMB + h.a4 && a.a0 + 5 * c4 == c0 * LIMB + h.a0 && h.a1 == l1 + c0
    ensures Num(a) == Num(h) + c4 * Q
  {
  }

  /* x += carry on 32 bits, split at bit 26. */
  method CarryWord(x: word, carry: word) returns (lo: word, carry': word)
    requires x as int + carry as int < B
    ensures x as int + carry as int == carry' as int * LIMB + lo as int && lo < LIMB
  {
    hide And;
    var t := (x as int + carry as int) % B;
    SplitLimb(t);
    carry' := t / LIMB;
    lo := Mask26(t);
  }

  /* Subtracts q when the number is at least q, by selecting h or h + 5 - 2^130 with a mask. */
  method SelectReduced(h0: word, h1: word, h2: word, h3: word, h4: word)
    returns (o0: word, o1: word, o2: word, o3: word, o4: word)
    requires h0 < LIMB && h1 < LIMB && h2 < LIMB && h3 < LIMB && h4 < LIMB
    ensures o0 < LIMB && o1 < LIMB && o2 < LIMB && o3 < LIMB && o4 < LIMB
    ensures Num(L5(o0, o1, o2, o3, o4)) == ModQ(Num(L5(h0, h1, h2, h3, h4)))
  {
    hide And, Or, ModQ, Num;
    var c0: word, c1: word, c2: word, c3: word;
    o0, c0 := CarryWord(h0, 5);
    o1, c1 := CarryWord(h1, c0);
    o2, c2 := CarryWord(h2, c1);
    o3, c3 := CarryWord(h3, c2);
    o4 := (h4 as int + c3 as int - LIMB) % B;
    ghost var g4: int := h4 as int + c3 as int - LIMB;
    SelectArith(L5(h0, h1, h2, h3, h4), o0, o1, o2, o3, g4, c0, c1, c2, c3);
    var mask: word := (o4 as int / 0x8000_0000 - 1) % B;
    o0 := Choose(h0, o0, mask);
    o1 := Choose(h1, o1, mask);
    o2 := Choose(h2, o2, mask);
    o3 := Choose(h3, o3, mask);
    o4 := Choose(h4, o4, mask);
  }

  /* (h & ~mask) | (g & mask) */
  method Choose(h: word, g: word, mask: word) returns (o: word)
    requires mask == 0 || mask == 0xffff_ffff
    ensures o == if mask == 0 then h else g
  {
    hide And, Or;
    FullMask(h);
    FullMask(g);
    var g': word := And(g, mask);
    var notMask: word := 0xffff_ffff - mask as int;
    o := Or(And(h, notMask), g');
  }

  lemma FullMask(x: word)
    ensures And(x, 0xffff_ffff) == x && And(x, 0) == 0 && Or(x, 0) == x && Or(0, x) == x
  {
    AndZero(x);
    Pow2Values();
    hide And;
    AndMask(x, 32);
  }

  lemma SelectArith(h: Limbs5, g0: nat, g1: nat, g2: nat, g3: nat, g4: int, c0: nat, c1: nat, c2: nat, c3: nat)
    requires h.a0 < LIMB && h.a1 < LIMB && h.a2 < LIMB && h.a3 < LIMB && h.a4 < LIMB
    requires g0 < LIMB && g1 < LIMB && g2 < LIMB && g3 < LIMB && g4 == h.a4 + c3 - LIMB
    requires h.a0 + 5 == c0 * LIMB + g0 && h.a1 + c0 == c1 * LIMB + g1 && h.a2 + c1 == c2 * LIMB + g2
    requires h.a3 + c2 == c3 * LIMB + g3
    ensures -LIMB <= g4 <= 0
    ensures g4 >= 0 ==> Num(L5(g0, g1, g2, g3, g4)) == ModQ(Num(h))
    ensures g4 < 0 ==> Num(h) == ModQ(Num(h))
  {
    var v := g0 + 0x400_0000 * g1 + 0x10_0000_0000_0000 * g2 + 0x4000_0000_0000_0000_0000 * g3
             + 0x100_0000_0000_0000_0000_0000_0000 * g4;
    assert Num(h) == v + Q;
    hide ModQ;
    if g4 >= 0 {
      ModQSmall(Num(h), 1, v);
    } else {
      ModQSmall(Num(h), 0, Num(h));
    }
  }

  // ---------- 32-bit words of the result ----------

  function Num4(w0: int, w1: int, w2: int, w3: int): int
  {
    w0 + 0x1_0000_0000 * w1 + 0x1_0000_0000_0000_0000 * w2 + 0x1_0000_0000_0000_0000_0000_0000 * w3
  }

  /* (x | (hi << s)) & 0xffffffff on 32 bits, where x has s bits. */
  method Join(x: nat, hi: word, s: nat) returns (w: word)
    requires s <= 32 && x < Pow2(s)
    ensures w == x + hi as int % Pow2(32 - s) * Pow2(s)
  {
    hide And, Or, Pow2;
    JoinDisjoint(x, hi, s);
    w := And(Or(x, hi as int * Pow2(s) % B), 0xffff_ffff);
  }

  lemma JoinDisjoint(x: nat, hi: word, s: nat)
    requires s <= 32 && x < Pow2(s)
    ensures hi as int * Pow2(s) % B == hi as int % Pow2(32 - s) * Pow2(s) >= 0
    ensures x + hi as int % Pow2(32 - s) * Pow2(s) < B
    ensures And(Or(x, hi as int * Pow2(s) % B), 0xffff_ffff) == x + hi as int % Pow2(32 - s) * Pow2(s)
  {
    hide And, Or, Pow2;
    Pow2Values();
    Pow2Add(32 - s, s);
    var m, p := Pow2(32 - s), Pow2(s);
    var q, r := hi as int / m, hi as int % m;
    ShiftSplit(hi, m, p, q, r);
    MulBound(r, m - 1, p, p);
    assert (m - 1) * p == m * p - p;
    DivModUnique(hi as int * p, B, q, r * p);
    OrDisjoint(r, x, s);
    FullMask(x + r * p);
  }

  lemma ShiftSplit(hi: int, m: int, p: int, q: int, r: int)
    requires hi == q * m + r
    ensures hi * p == q * (m * p) + r * p
  {
    assert (q * m + r) * p == q * (m * p) + r * p;
  }

  /* Repacks 26-bit limbs into 32-bit words, dropping bit 128 and above. */
  method Repack(h0: word, h1: word, h2: word, h3: word, h4: word) returns (w0: word, w1: word, w2: word, w3: word)
    requires h0 < LIMB && h1 < LIMB && h2 < LIMB && h3 < LIMB && h4 < LIMB
    ensures Num4(w0, w1, w2, w3) == Num(L5(h0, h1, h2, h3, h4)) % TWO128
  {
    Pow2Values();
    assert Pow2(14) == 0x4000 by { Pow2Add(8, 6); }
    hide Pow2;
    w0 := Join(h0, h1, 26);
    w1 := Join(h1 / 0x40, h2, 20);
    w2 := Join(h2 / 0x1000, h3, 14);
    w3 := Join(h3 / 0x4_0000, h4, 8);
    RepackArith(h0, h1, h2, h3, h4);
  }

  lemma RepackArith(h0: nat, h1: nat, h2: nat, h3: nat, h4: nat)
    requires h0 < LIMB && h1 < LIMB && h2 < LIMB && h3 < LIMB && h4 < LIMB
    ensures Num4(h0 + h1 % 0x40 * 0x400_0000, h1 / 0x40 + h2 % 0x1000 * 0x10_0000,
                 h2 / 0x1000 + h3 % 0x4_0000 * 0x4000, h3 / 0x4_0000 + h4 % 0x100_0000 * 0x100)
            == Num(L5(h0, h1, h2, h3, h4)) % TWO128
  {
    assert h1 == 0x40 * (h1 / 0x40) + h1 % 0x40;
    assert h2 == 0x1000 * (h2 / 0x1000) + h2 % 0x1000;
    assert h3 == 0x4_0000 * (h3 / 0x4_0000) + h3 % 0x4_0000;
    assert h4 == 0x100_0000 * (h4 / 0x100_0000) + h4 % 0x100_0000;
    DivModUnique(Num(L5(h0, h1, h2, h3, h4)), TWO128, h4 / 0x100_0000,
                 Num4(h0 + h1 % 0x40 * 0x400_0000, h1 / 0x40 + h2 % 0x1000 * 0x10_0000,
                      h2 / 0x1000 + h3 % 0x4_0000 * 0x4000, h3 / 0x4_0000 + h4 % 0x100_0000 * 0x100));
  }

  /* Adds the pad modulo 2^128 with a 64-bit running sum. */
  method AddPad(h0: word, h1: word, h2: word, h3: word, p0: word, p1: word, p2: word, p3: word)
    returns (w0: word, w1: word, w2: word, w3: word)
    ensures Num4(w0, w1, w2, w3) == (Num4(h0, h1, h2, h3) + Num4(p0, p1, p2, p3)) % TWO128
  {
    var f: dword := h0 as int + p0 as int;
    w0 := f % B;
    ghost var f0: int := f;
    f := h1 as int + p1 as int + f as int / B;
    w1 := f % B;
    ghost var f1: int := f;
    f := h2 as int + p2 as int + f as int / B;
    w2 := f % B;
    ghost var f2: int := f;
    f := h3 as int + p3 as int + f as int / B;
    w3 := f % B;
    PadArith(Num4(h0, h1, h2, h3) + Num4(p0, p1, p2, p3), f0, f1, f2, f);
  }

  lemma PadArith(s: nat, f0: nat, f1: nat, f2: nat, f3: nat)
    requires f0 < 2 * B && f1 < 2 * B && f2 < 2 * B && f3 < 2 * B
    requires s == Num4(f0, f1 - f0 / B, f2 - f1 / B, f3 - f2 / B)
    ensures Num4(f0 % B, f1 % B, f2 % B, f3 % B) == s % TWO128
  {
    assert f0 == f0 / B * B + f0 % B && f1 == f1 / B * B + f1 % B && f2 == f2 / B * B + f2 % B
      && f3 == f3 / B * B + f3 % B;
    DivModUnique(s, TWO128, f3 / B, Num4(f0 % B, f1 % B, f2 % B, f3 % B));
  }
}
