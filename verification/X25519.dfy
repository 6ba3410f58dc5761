/**
 Curve25519 scalar multiplication (x25519.c): the Montgomery ladder of
 section 5 of RFC 7748 on lazily reduced limb arrays, with the conditional
 swaps of consecutive iterations merged, the power chain for the inverse, and
 the final canonical encoding.
 */
module X25519 {
  import opened Words
  import opened Limbs
  import opened FieldOps

  // ---------- the ladder on field elements ----------

  datatype Ladder = Ladder(x2: nat, z2: nat, x3: nat, z3: nat)

  const A24: int := 121665

  /* One doubling and one differential addition, RFC 7748 section 5. */
  function Double(x1: nat, s: Ladder): Ladder
  {
    var a, b := FAdd(s.x2, s.z2), FSub(s.x2, s.z2);
    var c, d := FAdd(s.x3, s.z3), FSub(s.x3, s.z3);
    var aa, bb := FMul(a, a), FMul(b, b);
    var da, cb := FMul(d, a), FMul(c, b);
    var e := FSub(aa, bb);
    Ladder(FMul(aa, bb),
           FMul(e, FAdd(aa, FMul(A24, e))),
           FMul(FAdd(da, cb), FAdd(da, cb)),
           FMul(x1, FMul(FSub(da, cb), FSub(da, cb))))
  }

  function Swap(swap: bool, s: Ladder): Ladder
  {
    if swap then Ladder(s.x3, s.z3, s.x2, s.z2) else s
  }

  function Start(x1: nat): Ladder
  {
    Ladder(1, 0, ModP(x1), 1)
  }

  /* The ladder over bits n-1 .. 0 of k above bit m: every bit swaps before and after its step. */
  function Run(k: nat, x1: nat, n: nat, m: nat): Ladder
    requires m <= n
    decreases n - m
  {
    if m == n then Start(x1)
    else
      var bit := Bit(k, m);
      Swap(bit, Double(ModP(x1), Swap(bit, Run(k, x1, n, m + 1))))
  }

  function FPow(x: nat, e: nat): (r: nat)
    ensures r < P
  {
    if e == 0 then 1 else FMul(x, FPow(x, e - 1))
  }

  /* The u-coordinate after 256 ladder steps: x2 / z2 as x2 z2^(p-2). */
  function ScalarMult(k: nat, x1: nat): nat
  {
    var s := Run(k, x1, 256, 0);
    FMul(s.x2, FPow(s.z2, P - 2))
  }

  /* Clamping of a scalar, RFC 7748 section 5. */
  function Clamp(s: seq<byte>): (r: seq<byte>)
    requires |s| == 32
    ensures |r| == 32
  {
    ClampRange(s[0], s[31]);
    s[0 := And(s[0], 0xf8)][31 := Or(And(s[31], 0x7f), 0x40)]
  }

  lemma ClampRange(x: byte, y: byte)
    ensures And(x, 0xf8) < 0x100 && And(y, 0x7f) < 0x100
    ensures Or(And(y, 0x7f), 0x40) < 0x100
  {
    hide Or, And;
    AndBelow(x, 0xf8);
    AndBelow(y, 0x7f);
    Pow2Values();
    OrBound(And(y, 0x7f), 0x40, 8);
  }

  lemma FMulComm(x: int, y: int)
    ensures FMul(x, y) == FMul(y, x)
  {
  }

  // ---------- the ladder on limb arrays ----------

  ghost predicate Distinct(x2: array<word>, z2: array<word>, x3: array<word>, z3: array<word>, t1: array<word>)
  {
    && x2.Length == z2.Length == x3.Length == z3.Length == t1.Length == 8
    && x2 != z2 && x2 != x3 && x2 != z3 && x2 != t1 && z2 != x3 && z2 != z3 && z2 != t1
    && x3 != z3 && x3 != t1 && z3 != t1
  }

  lemma OneLimb(w: word)
    ensures Val([w]) == w && ModP(w) == w
  {
    assert [w][..0] == [] && W(0) == 1;
    ModPSmall(w, 0, w);
  }

  /* The product with the one-limb constant of the curve. */
  method MulA24(out: array<word>, a: array<word>)
    requires out.Length == a.Length == 8 && out != a
    modifies out
    ensures Elem(out) == FMul(Elem(a), A24) && Reduced(out)
  {
    hide FMul;
    var a24 := new word[1](_ => 121665);
    assert a24[..1] == [121665];
    OneLimb(121665);
    Mul(out, a, a24, 1);
  }

  /* t1 = AA, x2 = E, z2 = E a24 + AA, x3 = DA + CB, z3 = DA - CB. */
  method LadderPart1(x2: array<word>, z2: array<word>, x3: array<word>, z3: array<word>, t1: array<word>)
    requires Distinct(x2, z2, x3, z3, t1)
    requires Reduced(z2) && Reduced(z3)
    modifies x2, z2, x3, z3, t1
    ensures
      var a, b := FAdd(old(Elem(x2)), old(Elem(z2))), FSub(old(Elem(x2)), old(Elem(z2)));
      var c, d := FAdd(old(Elem(x3)), old(Elem(z3))), FSub(old(Elem(x3)), old(Elem(z3)));
      var aa, e := FMul(a, a), FSub(FMul(a, a), FMul(b, b));
      && Elem(t1) == aa && Elem(x2) == e
      && Elem(z2) == FAdd(FMul(e, A24), aa)
      && Elem(x3) == FAdd(FMul(a, d), FMul(b, c))
      && Elem(z3) == FSub(FMul(a, d), FMul(b, c))
    ensures Reduced(x2) && Reduced(z2) && Reduced(x3) && Reduced(z3) && Reduced(t1)
  {
    hide FMul, FSub, FAdd, Elem;
    Add(t1, x2, z2);
    Sub(z2, x2, z2);
    Add(x2, x3, z3);
    Sub(z3, x3, z3);
    Mul1(z3, t1);
    Mul1(x2, z2);
    Add(x3, z3, x2);
    Sub(z3, z3, x2);
    Sqr1(t1);
    Sqr1(z2);
    Sub(x2, t1, z2);
    MulA24(z2, x2);
    Add(z2, z2, t1);
  }

  /* The ladder state in the limb arrays. */
  ghost function State(x2: array<word>, z2: array<word>, x3: array<word>, z3: array<word>): Ladder
    reads x2, z2, x3, z3
  {
    Ladder(Elem(x2), Elem(z2), Elem(x3), Elem(z3))
  }

  method LadderPart2(x2: array<word>, z2: array<word>, x3: array<word>, z3: array<word>, t1: array<word>,
                     x1: array<word>)
    requires Distinct(x2, z2, x3, z3, t1) && x1.Length == 8
    requires x1 != x2 && x1 != z2 && x1 != x3 && x1 != z3
    requires Reduced(x2)
    modifies x2, z2, x3, z3
    ensures Elem(x2) == FMul(old(Elem(t1)), FSub(old(Elem(t1)), old(Elem(x2))))
    ensures Elem(z2) == FMul(old(Elem(x2)), old(Elem(z2)))
    ensures Elem(x3) == FMul(old(Elem(x3)), old(Elem(x3)))
    ensures Elem(z3) == FMul(Elem(x1), FMul(old(Elem(z3)), old(Elem(z3))))
    ensures Reduced(x2) && Reduced(z2) && Reduced(x3) && Reduced(z3)
  {
    hide FMul, FSub, FAdd, Elem;
    Sqr1(z3);
    Mul1(z3, x1);
    Sqr1(x3);
    Mul1(z2, x2);
    Sub(x2, t1, x2);
    Mul1(x2, t1);
  }

  /* AA - (AA - BB) is BB again. */
  lemma SubSub(a: nat, b: nat)
    requires b < P
    ensures FSub(a, FSub(a, b)) == b
  {
    hide ModP;
    ModPSmall(b, 0, b);
    var q := Quotient(a - b);
    AddMultiple(b, q);
  }

  /* The two halves of one iteration compute the step of the RFC. */
  method LadderStep(x2: array<word>, z2: array<word>, x3: array<word>, z3: array<word>, t1: array<word>,
                    x1: array<word>)
    requires Distinct(x2, z2, x3, z3, t1) && x1.Length == 8
    requires x1 != x2 && x1 != z2 && x1 != x3 && x1 != z3 && x1 != t1
    requires Reduced(z2) && Reduced(z3)
    modifies x2, z2, x3, z3, t1
    ensures State(x2, z2, x3, z3) == Double(Elem(x1), old(State(x2, z2, x3, z3)))
    ensures Reduced(x2) && Reduced(z2) && Reduced(x3) && Reduced(z3)
  {
    hide FMul, FSub, FAdd, Elem;
    ghost var s := State(x2, z2, x3, z3);
    LadderPart1(x2, z2, x3, z3, t1);
    LadderPart2(x2, z2, x3, z3, t1, x1);
    StepAlgebra(s);
  }

  /* The products of the program, with their operands in its order, are those of the RFC. */
  lemma StepAlgebra(s: Ladder)
    ensures
      var a, b := FAdd(s.x2, s.z2), FSub(s.x2, s.z2);
      var c, d := FAdd(s.x3, s.z3), FSub(s.x3, s.z3);
      var aa, bb := FMul(a, a), FMul(b, b);
      var e := FSub(aa, bb);
      && FMul(a, d) == FMul(d, a) && FMul(b, c) == FMul(c, b)
      && FAdd(FMul(e, A24), aa) == FAdd(aa, FMul(A24, e))
      && FMul(aa, FSub(aa, e)) == FMul(aa, bb)
  {
    var a, b := FAdd(s.x2, s.z2), FSub(s.x2, s.z2);
    SubSub(FMul(a, a), FMul(b, b));
    hide FMul;
    FMulComm(a, FSub(s.x3, s.z3));
    FMulComm(b, FAdd(s.x3, s.z3));
    FMulComm(FSub(FMul(a, a), FMul(b, b)), A24);
  }

  // ---------- bytes and limbs ----------

  lemma {:induction false} WeightPow2(i: nat)
    ensures W(i) == Pow2(32 * i)
  {
    if i > 0 {
      WeightPow2(i - 1);
      Pow2Values();
      Pow2Add(32, 32 * i - 32);
    }
  }

  lemma LimbBytes(b: seq<byte>, s: seq<word>, i: nat)
    requires i < |s| && 4 * i + 4 <= |b|
    requires s[i] == LE(b[4 * i..4 * i + 4]) && Val(s[..i]) == LE(b[..4 * i])
    ensures Val(s[..i + 1]) == LE(b[..4 * i + 4])
  {
    hide Val, W, LE, Pow2;
    ValSnoc(s, i);
    WeightPow2(i);
    LEConcat(b[..4 * i], b[4 * i..4 * i + 4]);
    assert b[..4 * i] + b[4 * i..4 * i + 4] == b[..4 * i + 4];
    var x: int := s[i];
    assert x * W(i) == Pow2(32 * i) * x;
  }

  lemma EmptyBytes(b: seq<byte>)
    ensures LE(b[..0]) == 0
  {
  }

  method SwapIn(x: array<word>, bytes: array<byte>)
    requires x.Length == 8 && bytes.Length == 32
    modifies x
    ensures Num(x) == LE(bytes[..])
  {
    hide Val, W, LE, Load32;
    ValInit(x[..]);
    EmptyBytes(bytes[..]);
    for i := 0 to 8
      invariant Val(x[..][..i]) == LE(bytes[..][..4 * i])
    {
      ghost var before := x[..];
      x[i] := Load32(bytes[..], 4 * i);
      assert x[..][..i] == before[..i];
      LimbBytes(bytes[..], x[..], i);
    }
    assert x[..][..8] == x[..] && bytes[..][..32] == bytes[..];
  }

  method SwapOut(out: array<byte>, x: array<word>)
    requires x.Length == 8 && out.Length == 32
    modifies out
    ensures LE(out[..]) == Num(x)
  {
    hide Val, W, LE, LEBytes, Pow2;
    ValInit(x[..]);
    EmptyBytes(out[..]);
    for i := 0 to 8
      invariant Val(x[..][..i]) == LE(out[..][..4 * i])
    {
      ghost var before := out[..];
      var w := LEBytes(x[i], 4);
      WordBytes(x[i]);
      out[4 * i], out[4 * i + 1], out[4 * i + 2], out[4 * i + 3] := w[0], w[1], w[2], w[3];
      assert out[..][..4 * i] == before[..4 * i];
      assert out[..][4 * i..4 * i + 4] == w;
      LimbBytes(out[..], x[..], i);
    }
    assert x[..][..8] == x[..] && out[..][..32] == out[..];
  }

  // ---------- the scalar ----------

  ghost function Scalar(s: seq<byte>, clamp: bool): nat
    requires |s| == 32
  {
    LE(if clamp then Clamp(s) else s)
  }

  /* All ones exactly when bit i of the (clamped) scalar is set. */
  method ScalarBit(scalar: array<byte>, i: nat, clamp: bool) returns (doswap: word)
    requires scalar.Length == 32 && i < 256
    ensures doswap == if Bit(Scalar(scalar[..], clamp), i) then ONES else 0
  {
    hide And, Or, Bit, LE;
    ghost var s := if clamp then Clamp(scalar[..]) else scalar[..];
    ClampRange(scalar[0], scalar[31]);
    var bytei: byte := scalar[i / 8];
    if clamp {
      if i / 8 == 0 {
        bytei := And(bytei, 0xf8);
      } else if i / 8 == 31 {
        bytei := And(bytei, 0x7f);
        bytei := Or(bytei, 0x40);
      }
    }
    assert bytei == s[i / 8];
    BitOfLE(s, i);
    LowBit(bytei, i % 8);
    doswap := (0 - And(bytei / Pow2(i % 8), 1)) % B;
  }

  lemma LowBit(x: byte, i: nat)
    ensures x / Pow2(i) >= 0
    ensures And(x / Pow2(i), 1) == if Bit(x, i) then 1 else 0
  {
    Pow2Values();
    hide And;
    HighNonneg(x, Pow2(i));
    AndMask(x / Pow2(i), 1);
  }

  // ---------- the ladder loop ----------

  ghost predicate Slots(xs: seq<array<word>>)
  {
    && |xs| == 5
    && (forall k :: 0 <= k < 5 ==> xs[k].Length == 8)
    && (forall k, l :: 0 <= k < l < 5 ==> xs[k] != xs[l])
  }

  /* Zeroes an element and sets its low limb. */
  method SetSmall(x: array<word>, w: word)
    requires x.Length == 8
    modifies x
    ensures Num(x) == w && Elem(x) == w && Reduced(x)
  {
    hide Val, ModP;
    for i := 0 to 8
      invariant forall j :: 0 <= j < i ==> x[j] == 0
    {
      x[i] := 0;
    }
    x[0] := w;
    SmallVal(x[..], w);
    ModPSmall(w, 0, w);
  }

  lemma SmallVal(s: seq<word>, w: word)
    requires |s| == 8 && s[0] == w && forall j :: 1 <= j < 8 ==> s[j] == 0
    ensures Val(s) == w
  {
    ValSplit(s, 1);
    ValZero(s[1..]);
    OneLimb(w);
    assert s[..1] == [w];
  }

  lemma XorMasks(x: word, y: word)
    requires (x == 0 || x == ONES) && (y == 0 || y == ONES)
    ensures Xor(x, y) == if x == y then 0 else ONES
  {
    hide Xor;
    XorSelf(x);
    XorZero(x);
    XorZero(y);
    XorComm(x, y);
  }

  /* The base point in limbs and the starting values of the ladder. */
  method Prepare(x2: array<word>, z2: array<word>, x3: array<word>, z3: array<word>,
                 x1: array<byte>) returns (x1i: array<word>)
    requires x2.Length == z2.Length == x3.Length == z3.Length == 8 && x1.Length == 32
    requires x2 != z2 && x2 != x3 && x2 != z3 && z2 != x3 && z2 != z3 && x3 != z3
    modifies x2, z2, x3, z3
    ensures fresh(x1i) && x1i.Length == 8 && Elem(x1i) == ModP(LE(x1[..]))
    ensures State(x2, z2, x3, z3) == Start(LE(x1[..])) && Reduced(z2) && Reduced(z3)
  {
    hide Elem, Reduced, LE, ModP;
    x1i := new word[8];
    SwapIn(x1i, x1);
    ElemNum(x1i);
    SetSmall(x2, 1);
    SetSmall(z2, 0);
    SetSmall(z3, 1);
    SwapIn(x3, x1);
    ElemNum(x3);
  }

  /* The loop of x25519_core leaves the ladder over all 256 bits of the scalar. */
  method Core(xs: seq<array<word>>, scalar: array<byte>, x1: array<byte>, clamp: bool)
    requires Slots(xs) && scalar.Length == 32 && x1.Length == 32
    modifies xs[0], xs[1], xs[2], xs[3], xs[4]
    ensures State(xs[0], xs[1], xs[2], xs[3]) == Run(Scalar(scalar[..], clamp), LE(x1[..]), 256, 0)
    ensures Reduced(xs[1])
  {
    hide Double, Elem, Reduced, Bit, LE, Xor, Scalar, ModP;
    ghost var k, u := Scalar(scalar[..], clamp), LE(x1[..]);
    var x2, z2, x3, z3, t1 := xs[0], xs[1], xs[2], xs[3], xs[4];
    var x1i := Prepare(x2, z2, x3, z3, x1);
    var swap: word := 0;
    var i := 256;
    while i > 0
      invariant 0 <= i <= 256
      invariant swap == 0 || swap == ONES
      invariant Elem(x1i) == ModP(u)
      invariant State(x2, z2, x3, z3) == Swap(swap == ONES, Run(k, u, 256, i))
      invariant Reduced(z2) && Reduced(z3)
    {
      i := i - 1;
      var doswap := ScalarBit(scalar, i, clamp);
      XorMasks(swap, doswap);
      SwapPoints(x2, z2, x3, z3, XorWord(swap, doswap));
      swap := doswap;
      LadderStep(x2, z2, x3, z3, t1, x1i);
    }
    SwapPoints(x2, z2, x3, z3, swap);
  }

  lemma ElemNum(x: array<word>)
    ensures Elem(x) == ModP(Num(x))
  {
  }

  /* condswap on the adjacent pairs (x2, z2) and (x3, z3). */
  method SwapPoints(x2: array<word>, z2: array<word>, x3: array<word>, z3: array<word>, mask: word)
    requires x2.Length == z2.Length == x3.Length == z3.Length == 8
    requires x2 != z2 && x2 != x3 && x2 != z3 && z2 != x3 && z2 != z3 && x3 != z3
    requires mask == 0 || mask == ONES
    modifies x2, z2, x3, z3
    ensures State(x2, z2, x3, z3) == Swap(mask == ONES, old(State(x2, z2, x3, z3)))
    ensures old(Reduced(z2) && Reduced(z3)) ==> Reduced(z2) && Reduced(z3)
  {
    hide Val, ModP;
    CondSwap(x2, x3, mask);
    CondSwap(z2, z3, mask);
  }

  // ---------- the power chain ----------

  /* (target, multiplier, squarings) of the thirteen steps. */
  const STEPS: seq<(nat, nat, nat)> := [
    (2, 1, 1), (2, 1, 1), (4, 2, 3), (2, 4, 6), (3, 1, 1), (3, 2, 12), (4, 3, 25),
    (2, 3, 25), (2, 4, 50), (3, 2, 125), (3, 1, 2), (3, 1, 2), (3, 1, 1)]

  /* The exponents of z2 in the five slots before each step; -1 where a slot holds no power. */
  const EXPONENTS: seq<seq<int>> := [
    [-1, 1, -1, -1, -1],
    [-1, 1, 3, -1, -1],
    [-1, 1, 7, -1, -1],
    [-1, 1, 7, -1, 63],
    [-1, 1, 0xfff, -1, 63],
    [-1, 1, 0xfff, 0x1fff, 63],
    [-1, 1, 0xfff, 0x1ffffff, 63],
    [-1, 1, 0xfff, 0x1ffffff, 0x3ffffffffffff],
    [-1, 1, 0x7ffffffffffffffffff, 0x1ffffff, 0x3ffffffffffff],
    [-1, 1, 0x1fffffffffffffffffffffffffffffff, 0x1ffffff, 0x3ffffffffffff],
    [-1, 1, 0x1fffffffffffffffffffffffffffffff, 0x3ffffffffffffffffffffffffffffffffffffffffffffffffffffffffffffff,
        0x3ffffffffffff],
    [-1, 1, 0x1fffffffffffffffffffffffffffffff, 0xffffffffffffffffffffffffffffffffffffffffffffffffffffffffffffffd,
        0x3ffffffffffff],
    [-1, 1, 0x1fffffffffffffffffffffffffffffff, 0x3ffffffffffffffffffffffffffffffffffffffffffffffffffffffffffffff5,
        0x3ffffffffffff],
    [-1, 1, 0x1fffffffffffffffffffffffffffffff, 0x7fffffffffffffffffffffffffffffffffffffffffffffffffffffffffffffeb,
        0x3ffffffffffff]]

  function Prev(i: nat): nat
    requires i <= 13
  {
    if i == 0 then 1 else STEPS[i - 1].0
  }

  lemma ChainPow2()
    ensures Pow2(1) == 2 && Pow2(2) == 4 && Pow2(3) == 8 && Pow2(6) == 0x40 && Pow2(12) == 0x1000
    ensures Pow2(25) == 0x200_0000 && Pow2(50) == 0x4_0000_0000_0000
    ensures Pow2(125) == 0x20000000000000000000000000000000
  {
    hide Pow2;
    Pow2Values();
    Pow2Add(24, 1);
    Pow2Add(25, 25);
    Pow2Add(50, 50);
    Pow2Add(100, 25);
  }

  lemma ChainStep(i: nat)
    requires i < 13
    ensures
      var e, (a, c, n) := EXPONENTS[i], STEPS[i];
      && |e| == |EXPONENTS[i + 1]| == 5 && 2 <= a < 5 && 1 <= c < 5 && c != a && n > 0 && 1 <= Prev(i) < 5
      && e[c] >= 0 && e[Prev(i)] >= 0
      && EXPONENTS[i + 1] == e[a := e[Prev(i)] * Pow2(n) + e[c]]
  {
    hide Pow2;
    ChainPow2();
  }

  lemma FMulAssoc(x: nat, y: nat, z: nat)
    ensures FMul(x, FMul(y, z)) == FMul(FMul(x, y), z)
  {
    FMulResidue(x, y * z);
    FMulResidue(z, x * y);
    FMulComm(FMul(x, y), z);
    assert x * (y * z) == z * (x * y);
  }

  /* Reducing a factor first does not change the product. */
  lemma FMulResidue(x: int, w: int)
    ensures FMul(x, ModP(w)) == ModP(x * w)
  {
    hide ModP, Quotient;
    var q := Quotient(w);
    assert w == q * P + ModP(w);
    assert x * w == x * ModP(w) + (x * q) * P;
    AddMultiple(x * ModP(w), x * q);
  }

  lemma {:induction false} FPowAdd(x: nat, a: nat, b: nat)
    ensures FPow(x, a + b) == FMul(FPow(x, a), FPow(x, b))
  {
    hide FMul;
    if a == 0 {
      FMulOne(FPow(x, b));
    } else {
      FPowAdd(x, a - 1, b);
      FMulAssoc(x, FPow(x, a - 1), FPow(x, b));
    }
  }

  lemma FMulOne(x: nat)
    requires x < P
    ensures FMul(1, x) == x && FMul(x, 1) == x
  {
    hide ModP;
    ModPSmall(x, 0, x);
  }

  /* One squaring doubles the exponent. */
  lemma FPowSquare(x: nat, e: nat, n: nat)
    ensures FMul(FPow(x, e * Pow2(n)), FPow(x, e * Pow2(n))) == FPow(x, e * Pow2(n + 1))
  {
    TwiceExponent(e, n);
    hide FPow, FMul, Pow2;
    FPowAdd(x, e * Pow2(n), e * Pow2(n));
  }

  lemma TwiceExponent(e: nat, n: nat)
    ensures e * Pow2(n + 1) == e * Pow2(n) + e * Pow2(n)
  {
    var p := Pow2(n);
    assert Pow2(n + 1) == 2 * p;
    assert e * (2 * p) == e * p + e * p;
  }

  /* The slots hold z to the listed exponents. */
  ghost predicate Holds(xs: seq<array<word>>, z: nat, e: seq<int>)
    requires |xs| == 5 && |e| == 5
    reads xs
  {
    forall k :: 1 <= k < 5 && e[k] >= 0 ==> Elem(xs[k]) == FPow(z, e[k])
  }

  /* The inner loop: n squarings, the first from slot prev into slot a, the rest in place. */
  method SquareTimes(xs: seq<array<word>>, a: nat, prev: nat, n: nat, ghost z: nat, ghost e: seq<int>)
    requires Slots(xs) && |e| == 5 && 1 <= a < 5 && 1 <= prev < 5 && n > 0
    requires e[prev] >= 0 && Elem(xs[prev]) == FPow(z, e[prev])
    modifies xs[a]
    ensures Elem(xs[a]) == FPow(z, e[prev] * Pow2(n))
  {
    hide FMul, FPow, Elem, Reduced;
    var from := prev;
    var j := n;
    while j > 0
      invariant 0 <= j <= n && (from == a || (j == n && from == prev))
      invariant j < n ==> from == a
      invariant Elem(xs[from]) == FPow(z, e[prev] * Pow2(n - j))
    {
      Sqr(xs[a], xs[from]);
      FPowSquare(z, e[prev], n - j);
      from := a;
      j := j - 1;
    }
  }

  /* Raises slot 1 to the power p - 2 into slot 3. */
  method PowerChain(xs: seq<array<word>>)
    requires Slots(xs)
    modifies xs[2], xs[3], xs[4]
    ensures Elem(xs[3]) == FPow(old(Elem(xs[1])), P - 2)
    ensures Reduced(xs[3])
  {
    hide FMul, FPow, Elem, Reduced, Pow2;
    ghost var z := Elem(xs[1]);
    FPowFirst(z);
    var i, prev := 0, 1;
    while i < 13
      invariant 0 <= i <= 13 && prev == Prev(i)
      invariant |EXPONENTS[i]| == 5 && Holds(xs, z, EXPONENTS[i])
      invariant i > 0 ==> Reduced(xs[prev])
    {
      ChainStep(i);
      var (a, c, n) := STEPS[i];
      ChainLink(xs, a, prev, n, c, z, EXPONENTS[i]);
      prev := a;
      i := i + 1;
    }
  }

  /* One step of the chain: n squarings of slot prev into slot a, then a multiplication by slot c. */
  method ChainLink(xs: seq<array<word>>, a: nat, prev: nat, n: nat, c: nat, ghost z: nat, ghost e: seq<int>)
    requires Slots(xs) && |e| == 5 && 2 <= a < 5 && 1 <= prev < 5 && 1 <= c < 5 && c != a && n > 0
    requires e[prev] >= 0 && e[c] >= 0 && Holds(xs, z, e)
    modifies xs[a]
    ensures Holds(xs, z, e[a := e[prev] * Pow2(n) + e[c]]) && Reduced(xs[a])
  {
    hide FMul, FPow, Elem, Reduced, Pow2;
    SquareTimes(xs, a, prev, n, z, e);
    Mul1(xs[a], xs[c]);
    FPowCombine(z, e[prev] * Pow2(n), e[c]);
  }

  lemma FPowFirst(z: nat)
    requires z < P
    ensures FPow(z, 1) == z
  {
    hide FMul;
    FMulOne(z);
    assert FPow(z, 0) == 1;
  }

  lemma FPowCombine(z: nat, a: nat, b: nat)
    ensures FMul(FPow(z, b), FPow(z, a)) == FPow(z, a + b)
  {
    FPowAdd(z, b, a);
  }

  // ---------- scalar multiplication ----------

  /* The output is the canonical encoding of x2 / z2; with clamping, -1 signals the zero result. */
  method ScalarMultiply(out: array<byte>, scalar: array<byte>, x1: array<byte>, clamp: bool) returns (ret: int)
    requires out.Length == 32 && scalar.Length == 32 && x1.Length == 32
    modifies out
    ensures LE(out[..]) == ScalarMult(old(Scalar(scalar[..], clamp)), old(LE(x1[..])))
    ensures ret == if clamp && LE(out[..]) == 0 then -1 else 0
  {
    hide FMul, FPow, Reduced, Scalar, LE, Run, ModP;
    var x2, z2, x3, z3, t1 := new word[8], new word[8], new word[8], new word[8], new word[8];
    var xs := [x2, z2, x3, z3, t1];
    Core(xs, scalar, x1, clamp);
    PowerChain(xs);
    FMulComm(Elem(xs[3]), Elem(xs[0]));
    Mul1(xs[0], xs[3]);
    var r := Canon(xs[0]);
    SwapOut(out, xs[0]);
    if clamp {
      ret := if r >= 0x8000_0000 then r as int - B else r;
    } else {
      ret := 0;
    }
  }
}
