/**
 Arithmetic modulo p = 2^255 - 19 on arrays of eight 32-bit limbs (x25519.c).
 Results are only lazily reduced: every operation leaves a value below
 2^255 + 2^32.  Output arrays may be the same array as an input.
 */
module FieldOps {
  import opened Words
  import opened Limbs

  const P: int := 0x7fffffff_ffffffff_ffffffff_ffffffff_ffffffff_ffffffff_ffffffff_ffffffed
  const TWO255: int := 0x80000000_00000000_00000000_00000000_00000000_00000000_00000000_00000000
  const TWO256: int := 0x1_00000000_00000000_00000000_00000000_00000000_00000000_00000000_00000000

  /* The number in a limb array. */
  ghost function Num(x: array<word>): (r: nat)
    reads x
  {
    Val(x[..])
  }

  /* Below 2^255 plus one word: what every operation leaves behind. */
  ghost predicate Reduced(x: array<word>)
    reads x
  {
    Num(x) < TWO255 + B
  }

  /* The least residue modulo p. */
  function ModP(x: int): (r: nat)
    ensures r < P
  {
    x % 0x7fffffff_ffffffff_ffffffff_ffffffff_ffffffff_ffffffff_ffffffff_ffffffed
  }

  function Low255(t: nat): (r: nat)
    ensures r < TWO255
  {
    t % 0x80000000_00000000_00000000_00000000_00000000_00000000_00000000_00000000
  }

  function High255(t: nat): (r: nat)
    ensures t == r * TWO255 + Low255(t)
  {
    t / 0x80000000_00000000_00000000_00000000_00000000_00000000_00000000_00000000
  }

  /* Folding a number at bit 255: 2^255 is congruent to 19. */
  function Fold(t: nat): (r: nat)
  {
    Low255(t) + 19 * High255(t)
  }

  lemma FoldCongruent(t: nat)
    ensures ModP(Fold(t)) == ModP(t)
  {
    assert t == Fold(t) + High255(t) * P;
    AddMultiple(Fold(t), High255(t));
  }

  lemma AddMultiple(x: int, q: int)
    ensures ModP(x + q * P) == ModP(x)
  {
  }

  function Quotient(x: int): (q: int)
    ensures x == q * P + ModP(x)
  {
    x / 0x7fffffff_ffffffff_ffffffff_ffffffff_ffffffff_ffffffff_ffffffff_ffffffed
  }

  lemma ModPSmall(x: int, q: int, r: nat)
    requires x == q * P + r && r < P
    ensures ModP(x) == r
  {
  }

  /* The adc0 loop shared by propagate and canon: add a word to a number in place. */
  method AddWordInPlace(x: array<word>, c0: word) returns (carry: word)
    requires x.Length == 8
    modifies x
    ensures Num(x) + carry as int * TWO256 == old(Num(x)) + c0 as int
  {
    hide Val, W;
    ghost var s := x[..];
    ValInit(s);
    carry := c0;
    var i := 0;
    while i < 8
      invariant 0 <= i <= 8
      invariant Val(x[..][..i]) + carry as int * W(i) == Val(s[..i]) + c0 as int
      invariant forall j :: i <= j < 8 ==> x[j] == s[j]
    {
      ghost var before, c := x[..], carry;
      var lo, hi := Adc0(carry, x[i]);
      x[i], carry := lo, hi;
      DigitStep(before, x[..], i, lo, hi, c, s[i], Val(s[..i]) + c0 as int);
      ValSnoc(s, i);
      i := i + 1;
    }
    assert x[..][..8] == x[..] && s[..8] == s;
    WValues();
  }

  /* What propagate leaves: the low 255 bits, plus 19 times the bits above them as a 32-bit word. */
  function Carried(v: nat, over: word): (r: nat)
    ensures r < TWO255 + B
  {
    Low255(v) + (2 * over as int + High255(v)) % 0x1_0000_0000 * 19 % 0x1_0000_0000
  }

  /* For every overflow word; a small one is folded without loss. */
  method Propagate(x: array<word>, over: word)
    requires x.Length == 8
    modifies x
    ensures Num(x) == Carried(old(Num(x)), over)
    ensures (2 * over as int + 1) * 19 < B ==> Num(x) == Fold(old(Num(x)) + over as int * TWO256)
    ensures Reduced(x)
  {
    hide Val, W, Fold, Low255, High255, Carried, And, Or;
    ghost var s0 := x[..];
    TopWord(x[7], over);
    var over' := Or(x[7] / 0x8000_0000, over as int * 2 % B);
    x[7] := And(x[7], 0x7fff_ffff);
    TopBit(s0, x[..]);
    var carry := AddWordInPlace(x, over' as int * 19 % B);
    CarriedSum(Val(s0), over, over', Num(x), carry);
    SmallCarried(Val(s0), over);
  }

  lemma CarriedSum(v: nat, over: word, over': word, n: nat, carry: word)
    requires over' == (2 * over as int + High255(v)) % B
    requires n + carry as int * TWO256 == Low255(v) + over' as int * 19 % B
    ensures n == Carried(v, over)
  {
    hide Low255, High255;
  }

  lemma SmallCarried(v: nat, over: word)
    ensures (2 * over as int + 1) * 19 < B && v < TWO256 ==> Carried(v, over) == Fold(v + over as int * TWO256)
  {
    if (2 * over as int + 1) * 19 < B && v < TWO256 {
      HighBit(v);
      Split255(v + over as int * TWO256, High255(v) + 2 * over, Low255(v));
      hide Low255, High255;
      SmallWord(2 * over as int + High255(v));
    }
  }

  lemma HighBit(v: nat)
    requires v < TWO256
    ensures High255(v) <= 1
  {
    hide Low255;
  }

  lemma SmallWord(x: nat)
    requires x * 19 < B
    ensures x % 0x1_0000_0000 * 19 % 0x1_0000_0000 == 19 * x
  {
  }

  lemma TopWord(w: word, over: word)
    ensures Or(w / 0x8000_0000, over as int * 2 % B) == (2 * over as int + w as int / 0x8000_0000) % B
    ensures And(w, 0x7fff_ffff) == w % 0x8000_0000
  {
    hide And, Or;
    Pow2Values();
    AndMask(w, 31);
    var low := over as int % 0x8000_0000;
    assert over as int * 2 % B == 2 * low;
    OrDisjoint(low, w / 0x8000_0000, 1);
  }

  /* Moving the bits from 2^255 up out of the limbs. */
  lemma TopBit(s0: seq<word>, s1: seq<word>)
    requires |s0| == |s1| == 8 && s1[..7] == s0[..7]
    requires s1[7] == s0[7] % 0x8000_0000
    ensures Val(s1) == Low255(Val(s0)) && s0[7] / 0x8000_0000 == High255(Val(s0)) && Val(s0) < TWO256
  {
    hide Val, W, Low255, High255;
    WValues();
    ValSnoc(s0, 7);
    ValSnoc(s1, 7);
    assert s0[..8] == s0 && s1[..8] == s1;
    ValBound(s0[..7]);
    ValBound(s0);
    TopBitArith(Val(s0[..7]), s0[7] % 0x8000_0000, s0[7] / 0x8000_0000);
  }

  lemma TopBitArith(v: nat, lo: nat, hi: nat)
    requires v < 0x1_00000000_00000000_00000000_00000000_00000000_00000000_00000000 && lo < 0x8000_0000
    ensures
      var w7 := 0x1_00000000_00000000_00000000_00000000_00000000_00000000_00000000;
      var t := v + (hi * 0x8000_0000 + lo) * w7;
      Low255(t) == v + lo * w7 && High255(t) == hi
  {
    var w7 := 0x1_00000000_00000000_00000000_00000000_00000000_00000000_00000000;
    Split255(v + (hi * 0x8000_0000 + lo) * w7, hi, v + lo * w7);
  }

  lemma Split255(t: nat, q: nat, lo: nat)
    requires t == q * TWO255 + lo && lo < TWO255
    ensures Low255(t) == lo && High255(t) == q
  {
    hide Low255;
    var d := High255(t) - q;
    assert d * TWO255 == lo - Low255(t);
  }

  // ---------- the field ----------

  function FAdd(x: int, y: int): (r: nat)
    ensures r < P
  {
    ModP(x + y)
  }

  function FSub(x: int, y: int): (r: nat)
    ensures r < P
  {
    ModP(x - y)
  }

  function FMul(x: int, y: int): (r: nat)
    ensures r < P
  {
    ModP(x * y)
  }

  lemma FAddReduce(x: int, y: int)
    ensures FAdd(ModP(x), ModP(y)) == ModP(x + y)
  {
    hide ModP, Quotient;
    var d, e := Quotient(x), Quotient(y);
    AddMultiple(ModP(x) + ModP(y), d + e);
  }

  lemma FSubReduce(x: int, y: int)
    ensures FSub(ModP(x), ModP(y)) == ModP(x - y)
  {
    hide ModP, Quotient;
    var d, e := Quotient(x), Quotient(y);
    AddMultiple(ModP(x) - ModP(y), d - e);
  }

  lemma FMulReduce(x: int, y: int)
    ensures FMul(ModP(x), ModP(y)) == ModP(x * y)
  {
    hide ModP, Quotient;
    var d, e, r, s := Quotient(x), Quotient(y), ModP(x), ModP(y);
    assert x * y == (d * P + r) * (e * P + s);
    ProductSplit(d, r, e, s, P);
    AddMultiple(r * s, d * e * P + d * s + r * e);
  }

  lemma ProductSplit(d: int, r: int, e: int, s: int, p: int)
    ensures (d * p + r) * (e * p + s) == r * s + (d * e * p + d * s + r * e) * p
  {
  }

  /* The field element in a limb array. */
  ghost function Elem(x: array<word>): (r: nat)
    reads x
    ensures r < P
  {
    ModP(Num(x))
  }

  method Add(out: array<word>, a: array<word>, b: array<word>)
    requires out.Length == a.Length == b.Length == 8
    modifies out
    ensures Elem(out) == FAdd(old(Elem(a)), old(Elem(b)))
    ensures Reduced(out)
  {
    hide Val, W, FAdd, Fold, ModP, Carried;
    ghost var a0, b0 := a[..], b[..];
    ValInit(a0);
    ValInit(b0);
    ValInit(out[..]);
    var carry: word := 0;
    var i := 0;
    while i < 8
      invariant 0 <= i <= 8
      invariant Val(out[..][..i]) + carry as int * W(i) == Val(a0[..i]) + Val(b0[..i])
      invariant forall j :: i <= j < 8 ==> a[j] == a0[j] && b[j] == b0[j]
    {
      ghost var before, c := out[..], carry;
      var lo, hi := Adc(carry, a[i], b[i]);
      out[i], carry := lo, hi;
      AddStep(before, out[..], i, lo, hi, c, a0, b0);
      i := i + 1;
    }
    AddCarry(out[..], carry, a0, b0);
    Propagate(out, carry);
    AddCongruent(Val(a0), Val(b0));
  }

  lemma AddStep(before: seq<word>, after: seq<word>, i: nat, lo: word, hi: word, c: word, a: seq<word>, b: seq<word>)
    requires i < |before| == |a| == |b| && after == before[i := lo]
    requires Val(before[..i]) + c as int * W(i) == Val(a[..i]) + Val(b[..i])
    requires lo as int + hi as int * B == c as int + a[i] as int + b[i] as int
    ensures Val(after[..i + 1]) + hi as int * W(i + 1) == Val(a[..i + 1]) + Val(b[..i + 1])
  {
    DigitStep(before, after, i, lo, hi, c, a[i] as int + b[i] as int, Val(a[..i]) + Val(b[..i]));
    SumStep(a, b, i);
  }

  lemma AddCarry(s: seq<word>, carry: int, a: seq<word>, b: seq<word>)
    requires |s| == |a| == |b| == 8 && 0 <= carry
    requires Val(s[..8]) + carry * W(8) == Val(a[..8]) + Val(b[..8])
    ensures carry <= 1 && Val(s) + carry * TWO256 == Val(a) + Val(b)
  {
    hide Val, W;
    assert s[..8] == s && a[..8] == a && b[..8] == b;
    WValues();
    ValBound(a);
    ValBound(b);
  }

  lemma AddCongruent(a: nat, b: nat)
    ensures ModP(Fold(a + b)) == FAdd(ModP(a), ModP(b))
  {
    FoldCongruent(a + b);
    FAddReduce(a, b);
  }

  lemma SumStep(a: seq<word>, b: seq<word>, i: nat)
    requires i < |a| == |b|
    ensures Val(a[..i + 1]) + Val(b[..i + 1]) == Val(a[..i]) + Val(b[..i]) + (a[i] as int + b[i] as int) * W(i)
    ensures Val(a[..i + 1]) - Val(b[..i + 1]) == Val(a[..i]) - Val(b[..i]) + (a[i] as int - b[i] as int) * W(i)
  {
    hide Val, W;
    ValSnoc(a, i);
    ValSnoc(b, i);
    var x: int, y: int := a[i], b[i];
    assert (x + y) * W(i) == x * W(i) + y * W(i);
    assert (x - y) * W(i) == x * W(i) - y * W(i);
  }

  /* Whether the borrow of a subtraction can be given back. */
  predicate Subtractable(a: nat, b: nat)
  {
    b <= a + 2 * P
  }

  /* The borrow loop: the difference less 38, with the borrow that is left over. */
  method SubLimbs(out: array<word>, a: array<word>, b: array<word>) returns (carry: int)
    requires out.Length == a.Length == b.Length == 8
    modifies out
    ensures -38 <= carry <= 0
    ensures Val(out[..]) + carry * W(8) == Val(old(a[..])) - Val(old(b[..])) - 38
  {
    hide Val, W;
    ghost var a0, b0 := a[..], b[..];
    ValInit(a0);
    ValInit(b0);
    ValInit(out[..]);
    carry := -38;
    var i := 0;
    while i < 8
      invariant 0 <= i <= 8
      invariant -38 <= carry <= 0
      invariant Val(out[..][..i]) + carry * W(i) == Val(a0[..i]) - Val(b0[..i]) - 38
      invariant forall j :: i <= j < 8 ==> a[j] == a0[j] && b[j] == b0[j]
    {
      ghost var before, c := out[..], carry;
      var lo, hi := SubLimb(carry, a[i], b[i]);
      out[i], carry := lo, hi;
      DigitStep(before, out[..], i, lo, hi, c, a0[i] as int - b0[i] as int, Val(a0[..i]) - Val(b0[..i]) - 38);
      SumStep(a0, b0, i);
      i := i + 1;
    }
    assert out[..][..8] == out[..] && a0[..8] == a0 && b0[..8] == b0;
  }

  /* 2^256 - 38 is twice p: starting from -38 and adding back the borrow subtracts modulo p.  When the
     second operand is larger than that allows, the result is wrong by one word. */
  method Sub(out: array<word>, a: array<word>, b: array<word>)
    requires out.Length == a.Length == b.Length == 8
    modifies out
    ensures Elem(out) == if old(Subtractable(Num(a), Num(b))) then FSub(old(Elem(a)), old(Elem(b)))
                         else FAdd(FSub(old(Elem(a)), old(Elem(b))), B)
    ensures Reduced(out)
  {
    hide Val, W, FAdd, FSub, Fold, Carried, ModP;
    ghost var a0, b0 := a[..], b[..];
    var carry := SubLimbs(out, a, b);
    ValBound(a0);
    ValBound(b0);
    ValBound(out[..]);
    WValues();
    ghost var v := Val(out[..]);
    Borrow(v, carry, Val(a0), Val(b0));
    Propagate(out, (1 + carry) % B);
    if Subtractable(Val(a0), Val(b0)) {
      SubCongruent(Val(a0), Val(b0));
    } else {
      SubWraps(v, Val(a0), Val(b0));
    }
  }

  /* The final borrow is 0 or -1 exactly when giving it back leaves a - b + 2p; otherwise it is -2. */
  lemma Borrow(v: int, carry: int, a: int, b: int)
    requires v + carry * TWO256 == a - b - 38
    requires 0 <= v < TWO256 && 0 <= a < TWO256 && 0 <= b < TWO256
    ensures Subtractable(a, b) ==> -1 <= carry <= 0 && v + (1 + carry) * TWO256 == a - b + 2 * P
    ensures !Subtractable(a, b) ==> carry == -2 && v == a - b - 38 + 2 * TWO256
  {
  }

  lemma SubCongruent(a: nat, b: nat)
    requires Subtractable(a, b)
    ensures ModP(Fold(a - b + 2 * P)) == FSub(ModP(a), ModP(b))
  {
    FoldCongruent(a - b + 2 * P);
    AddMultiple(a - b, 2);
    FSubReduce(a, b);
  }

  /* The overflow word -1 wraps: the result is 2^32 too large. */
  lemma SubWraps(v: nat, a: nat, b: nat)
    requires !Subtractable(a, b) && b < TWO256 && v == a - b - 38 + 2 * TWO256
    ensures ModP(Carried(v, 0xffff_ffff)) == FAdd(FSub(ModP(a), ModP(b)), B)
  {
    Split255(v, 1, v - TWO255);
    assert Carried(v, 0xffff_ffff) == v - TWO255 + B - 19;
    hide ModP, Low255, High255, Carried;
    AddMultiple(a - b + B, 3);
    FSubReduce(a, b);
    FAddWord(a - b);
  }

  lemma FAddWord(x: int)
    ensures FAdd(ModP(x), B) == ModP(x + B)
  {
    hide ModP, Quotient;
    AddMultiple(ModP(x) + B, Quotient(x));
  }

  /* So subtraction is right exactly when the second operand is at most the first plus 2p. */
  lemma WordMatters(x: nat)
    requires x < P
    ensures FAdd(x, B) != x
  {
    if x + B < P {
      ModPSmall(x + B, 0, x + B);
    } else {
      ModPSmall(x + B, 1, x + B - P);
    }
  }

  /* One step of the borrow loop: the signed accumulator split into a limb and the next borrow. */
  method SubLimb(carry: int, x: word, y: word) returns (lo: word, carry': int)
    requires -38 <= carry <= 0
    ensures lo as int + carry' * B == carry + x as int - y as int
    ensures -2 <= carry' <= 0
  {
    var t := carry + x as int - y as int;
    lo, carry' := t % B, t / B;
  }

  /* One row of the schoolbook product: accum += mand * a * 2^(32 i). */
  method MulRow(accum: array<word>, i: nat, a: array<word>, mand: word)
    requires accum.Length == 16 && a.Length == 8 && i < 8 && a != accum
    modifies accum
    ensures Val(accum[..][..i + 9]) == Val(old(accum[..])[..i + 8]) + (mand as int * Num(a)) * W(i)
    ensures forall k :: i + 9 <= k < 16 ==> accum[k] == old(accum[k])
  {
    hide Val, W;
    ghost var s, a0 := accum[..], a[..];
    ValInit(a0);
    var carry2: word := 0;
    var j := 0;
    while j < 8
      invariant 0 <= j <= 8
      invariant Val(accum[..][..i + j]) + carry2 as int * W(i + j) ==
        Val(s[..i + j]) + (mand as int * Val(a0[..j])) * W(i)
      invariant forall k :: i + j <= k < 16 ==> accum[k] == s[k]
    {
      ghost var before, c := accum[..], carry2;
      var lo, hi := Umaal(carry2, accum[i + j], mand, a[j]);
      accum[i + j], carry2 := lo, hi;
      RowStep(before, accum[..], s, a0, i, j, lo, hi, c, mand);
      j := j + 1;
    }
    ghost var before := accum[..];
    accum[i + 8] := carry2;
    ValSnoc(accum[..], i + 8);
    assert accum[..][..i + 8] == before[..i + 8] && a0[..8] == a0;
  }

  lemma RowStep(before: seq<word>, after: seq<word>, s: seq<word>, a: seq<word>, i: nat, j: nat,
                lo: word, hi: word, c: word, mand: word)
    requires |before| == |s| == 16 && |a| == 8 && i < 8 && j < 8 && after == before[i + j := lo]
    requires Val(before[..i + j]) + c as int * W(i + j) == Val(s[..i + j]) + (mand as int * Val(a[..j])) * W(i)
    requires lo as int + hi as int * B == mand as int * a[j] as int + s[i + j] as int + c as int
    ensures Val(after[..i + j + 1]) + hi as int * W(i + j + 1)
            == Val(s[..i + j + 1]) + (mand as int * Val(a[..j + 1])) * W(i)
  {
    hide Val, W;
    var x: int, m: int, y: int := a[j], mand, s[i + j];
    DigitStep(before, after, i + j, lo, hi, c, m * x + y, Val(s[..i + j]) + (m * Val(a[..j])) * W(i));
    ValSnoc(s, i + j);
    ValSnoc(a, j);
    WAdd(j, i);
    RowAlgebra(m, x, y, Val(a[..j]), W(i), W(j), W(i + j));
  }

  lemma RowAlgebra(m: int, x: int, y: int, v: int, wi: int, wj: int, wij: int)
    requires wij == wj * wi
    ensures (m * (v + x * wj)) * wi + y * wij == (m * v) * wi + (m * x + y) * wij
  {
    assert m * (v + x * wj) == m * v + m * x * wj;
    assert (m * v + m * x * wj) * wi == m * v * wi + m * x * wj * wi;
    assert m * x * wj * wi == m * x * (wj * wi);
    assert (m * x + y) * wij == m * x * wij + y * wij;
  }

  method Mul(out: array<word>, a: array<word>, b: array<word>, nb: nat)
    requires out.Length == a.Length == 8 && nb <= 8 && nb <= b.Length
    modifies out
    ensures Elem(out) == FMul(old(Elem(a)), ModP(old(Val(b[..nb]))))
    ensures Reduced(out)
  {
    hide Val, W, FMul, ModP;
    ghost var va, b0 := Num(a), b[..];
    ValInit(b0);
    var accum := new word[16](_ => 0);
    var i := 0;
    ZeroPrefix(accum[..]);
    while i < nb
      invariant 0 <= i <= nb
      invariant Num(a) == va && b[..] == b0
      invariant Val(accum[..][..i + 8]) == va * Val(b0[..i])
      invariant forall k :: i + 8 <= k < 16 ==> accum[k] == 0
    {
      MulRow(accum, i, a, b[i]);
      ValSnoc(b0, i);
      ProductStep(va, Val(b0[..i]), b0[i], W(i));
      i := i + 1;
    }
    ghost var acc := accum[..];
    ZeroTail(acc, nb + 8);
    FoldHalves(out, accum);
    FMulReduce(va, Val(b0[..nb]));
  }

  lemma ProductStep(v: int, w: int, x: int, p: int)
    ensures v * w + (x * v) * p == v * (w + x * p)
  {
    assert (x * v) * p == v * (x * p);
  }

  lemma ZeroPrefix(s: seq<word>)
    requires |s| == 16 && forall k :: 0 <= k < 16 ==> s[k] == 0
    ensures Val(s[..8]) == 0 && Val([]) == 0
  {
    ValZero(s[..8]);
  }

  lemma ZeroTail(s: seq<word>, n: nat)
    requires n <= |s| && forall k :: n <= k < |s| ==> s[k] == 0
    ensures Val(s) == Val(s[..n])
  {
    ValSplit(s, n);
    ValZero(s[n..]);
  }

  /* Reduction of a 512-bit product: 2^256 is congruent to 38. */
  method FoldHalves(out: array<word>, accum: array<word>)
    requires out.Length == 8 && accum.Length == 16 && out != accum
    modifies out
    ensures Elem(out) == ModP(Num(accum))
    ensures Reduced(out)
  {
    hide Val, W, ModP, Fold, Carried;
    ghost var acc := accum[..];
    ValInit(acc);
    ValInit(acc[8..]);
    ValInit(out[..]);
    var carry2: word := 0;
    var j := 0;
    while j < 8
      invariant 0 <= j <= 8
      invariant Val(out[..][..j]) + carry2 as int * W(j) == Val(acc[..j]) + 38 * Val(acc[8..][..j])
    {
      ghost var before, c := out[..], carry2;
      var lo, hi := Umaal(carry2, accum[j], 38, accum[j + 8]);
      out[j], carry2 := lo, hi;
      HalvesStep(before, out[..], j, lo, hi, c, acc);
      j := j + 1;
    }
    Halves(out[..], carry2, acc);
    Propagate(out, carry2);
  }

  lemma HalvesStep(before: seq<word>, after: seq<word>, j: nat, lo: word, hi: word, c: word, acc: seq<word>)
    requires j < |before| == 8 && |acc| == 16 && after == before[j := lo]
    requires Val(before[..j]) + c as int * W(j) == Val(acc[..j]) + 38 * Val(acc[8..][..j])
    requires lo as int + hi as int * B == 38 * acc[j + 8] as int + acc[j] as int + c as int
    ensures Val(after[..j + 1]) + hi as int * W(j + 1) == Val(acc[..j + 1]) + 38 * Val(acc[8..][..j + 1])
  {
    var x: int, y: int := acc[j], acc[j + 8];
    DigitStep(before, after, j, lo, hi, c, 38 * y + x, Val(acc[..j]) + 38 * Val(acc[8..][..j]));
    ValSnoc(acc, j);
    ValSnoc(acc[8..], j);
    HalvesAlgebra(x, y, W(j));
  }

  lemma HalvesAlgebra(x: int, y: int, w: int)
    ensures (38 * y + x) * w == 38 * (y * w) + x * w
  {
  }

  lemma Halves(s: seq<word>, carry2: word, acc: seq<word>)
    requires |s| == 8 && |acc| == 16
    requires Val(s[..8]) + carry2 as int * W(8) == Val(acc[..8]) + 38 * Val(acc[8..][..8])
    ensures carry2 <= 38
    ensures ModP(Fold(Val(s) + carry2 as int * TWO256)) == ModP(Val(acc))
  {
    hide Val, W, Fold, ModP, Carried;
    assert s[..8] == s && acc[8..][..8] == acc[8..];
    WValues();
    ValBound(acc[..8]);
    ValBound(acc[8..]);
    ValSplit(acc, 8);
    FoldCongruent(Val(s) + carry2 as int * TWO256);
    AddMultiple(Val(acc[..8]) + 38 * Val(acc[8..]), 2 * Val(acc[8..]));
  }

  method Sqr(out: array<word>, a: array<word>)
    requires out.Length == a.Length == 8
    modifies out
    ensures Elem(out) == FMul(old(Elem(a)), old(Elem(a))) && Reduced(out)
  {
    assert a[..8] == a[..];
    Mul(out, a, a, 8);
  }

  method Mul1(out: array<word>, a: array<word>)
    requires out.Length == a.Length == 8
    modifies out
    ensures Elem(out) == FMul(old(Elem(a)), old(Elem(out))) && Reduced(out)
  {
    assert out[..8] == out[..];
    Mul(out, a, out, 8);
  }

  method Sqr1(a: array<word>)
    requires a.Length == 8
    modifies a
    ensures Elem(a) == FMul(old(Elem(a)), old(Elem(a))) && Reduced(a)
  {
    Mul1(a, a);
  }

  // ---------- conditional swap ----------

  const ONES: word := 0xffff_ffff

  /* Exchanges two arrays under an all-ones mask and keeps them under a zero mask. */
  method CondSwap(a: array<word>, b: array<word>, doswap: word)
    requires a.Length == b.Length == 8 && a != b
    requires doswap == 0 || doswap == ONES
    modifies a, b
    ensures a[..] == old(if doswap == 0 then a[..] else b[..])
    ensures b[..] == old(if doswap == 0 then b[..] else a[..])
  {
    for i := 0 to 8
      invariant forall j :: 0 <= j < i ==> a[j] == old(if doswap == 0 then a[j] else b[j])
      invariant forall j :: 0 <= j < i ==> b[j] == old(if doswap == 0 then b[j] else a[j])
      invariant forall j :: i <= j < 8 ==> a[j] == old(a[j]) && b[j] == old(b[j])
    {
      hide Xor, And;
      MaskedXor(a[i], b[i], doswap);
      var xor: word := And(XorWord(a[i], b[i]), doswap);
      a[i], b[i] := XorWord(a[i], xor), XorWord(b[i], xor);
    }
  }

  lemma MaskedXor(x: word, y: word, mask: word)
    requires mask == 0 || mask == ONES
    ensures And(Xor(x, y), mask) < B
    ensures Xor(x, And(Xor(x, y), mask)) == if mask == 0 then x else y
    ensures Xor(y, And(Xor(x, y), mask)) == if mask == 0 then y else x
  {
    hide Xor, And;
    AndZero(Xor(x, y));
    Pow2Values();
    XorBound(x, y, 32);
    AndMask(Xor(x, y), 32);
    XorInvolutive(x, y);
    XorInvolutive(y, x);
    XorComm(x, y);
    XorComm(x, Xor(x, y));
    XorComm(y, Xor(x, y));
    XorZero(x);
    XorZero(y);
  }

  // ---------- canonical form ----------

  /* Subtracts 19 in place and ors all limbs together. */
  method SubNineteen(x: array<word>) returns (res: word)
    requires x.Length == 8 && Num(x) >= 19
    modifies x
    ensures Num(x) == old(Num(x)) - 19
    ensures res == 0 <==> Num(x) == 0
  {
    hide Val, W, Or;
    ghost var s := x[..];
    ValInit(s);
    var carry: int := -19;
    res := 0;
    var i := 0;
    while i < 8
      invariant 0 <= i <= 8
      invariant -19 <= carry <= 0
      invariant Val(x[..][..i]) + carry * W(i) == Val(s[..i]) - 19
      invariant res == 0 <==> Val(x[..][..i]) == 0
      invariant forall j :: i <= j < 8 ==> x[j] == s[j]
    {
      ghost var before, c := x[..], carry;
      var lo, hi := SubLimb(carry, x[i], 0);
      x[i], carry := lo, hi;
      OrWord(res, lo);
      res := Or(res, lo);
      DigitStep(before, x[..], i, lo, hi, c, s[i], Val(s[..i]) - 19);
      ValSnoc(s, i);
      ZeroSnoc(before, x[..], i, lo);
      i := i + 1;
    }
    assert x[..][..8] == x[..] && s[..8] == s;
    NoBorrow(x[..], carry, Val(s));
  }

  lemma ZeroSnoc(before: seq<word>, after: seq<word>, i: nat, lo: word)
    requires i < |before| && after == before[i := lo]
    ensures Val(after[..i + 1]) == 0 <==> Val(before[..i]) == 0 && lo == 0
  {
    ValSnoc(after, i);
    assert after[..i] == before[..i];
    if lo != 0 {
      MulMono(1, lo, W(i));
    }
  }

  lemma NoBorrow(s: seq<word>, carry: int, v: int)
    requires |s| == 8 && v >= 19 && -19 <= carry <= 0
    requires Val(s) + carry * W(8) == v - 19
    ensures carry == 0 && Val(s) == v - 19
  {
    ValBound(s);
    WValues();
    assert Val(s) + carry * TWO256 == v - 19;
  }

  lemma OrWord(x: word, y: word)
    ensures Or(x, y) < B
    ensures Or(x, y) == 0 <==> x == 0 && y == 0
  {
    Pow2Values();
    OrBound(x, y, 32);
    OrZero(x, y);
  }

  /* The least residue, and an all-ones word exactly when it is zero. */
  method Canon(x: array<word>) returns (ret: word)
    requires x.Length == 8 && Reduced(x)
    modifies x
    ensures Num(x) == old(Elem(x))
    ensures ret == if Num(x) == 0 then ONES else 0
  {
    hide Val, Fold, ModP, Carried;
    ghost var v := Num(x);
    var carry0 := AddWordInPlace(x, 19);
    CanonArith(v, Num(x), carry0);
    Propagate(x, carry0);
    var res := SubNineteen(x);
    ret := (res as int - 1) % 0x1_0000_0000_0000_0000 / B % B;
  }

  lemma CanonArith(v: nat, n: nat, c: nat)
    requires v < TWO255 + B && n + c * TWO256 == v + 19
    ensures c == 0
    ensures Fold(n) == ModP(v) + 19
  {
  }
}
