/**
 The program runs 256 ladder steps where section 5 of RFC 7748 runs 255.  For a
 clamped scalar the extra step meets a zero bit and only rescales the second
 point, by 4u.  Every later rescaling is by a power of 4u, which the final
 division cancels, so that both ladders give the same output.
 */
module Rfc7748 {
  import opened Words
  import opened FieldOps
  import opened X25519

  // ---------- field laws ----------

  lemma AddScale(a: nat, x: nat, y: nat)
    ensures FAdd(FMul(a, x), FMul(a, y)) == FMul(a, FAdd(x, y))
  {
    hide ModP;
    FAddReduce(a * x, a * y);
    FMulResidue(a, x + y);
    assert a * (x + y) == a * x + a * y;
  }

  lemma SubScale(a: nat, x: nat, y: nat)
    ensures FSub(FMul(a, x), FMul(a, y)) == FMul(a, FSub(x, y))
  {
    hide ModP;
    FSubReduce(a * x, a * y);
    FMulResidue(a, x - y);
    assert a * (x - y) == a * x - a * y;
  }

  lemma MulScale(a: nat, x: nat, b: nat, y: nat)
    ensures FMul(FMul(a, x), FMul(b, y)) == FMul(FMul(a, b), FMul(x, y))
  {
    hide FMul;
    FMulAssoc(a, x, FMul(b, y));
    FMulAssoc(x, b, y);
    FMulComm(x, b);
    FMulAssoc(b, x, y);
    FMulAssoc(a, b, FMul(x, y));
  }

  lemma MulScaleRight(c: nat, a: nat, x: nat)
    ensures FMul(c, FMul(a, x)) == FMul(a, FMul(c, x))
  {
    hide FMul;
    FMulAssoc(c, a, x);
    FMulComm(c, a);
    FMulAssoc(a, c, x);
  }

  // ---------- rescaled ladder states ----------

  /* s is t with its first point scaled by a and its second by b. */
  ghost predicate Scaled(s: Ladder, t: Ladder, a: nat, b: nat)
  {
    && s.x2 == FMul(a, t.x2) && s.z2 == FMul(a, t.z2)
    && s.x3 == FMul(b, t.x3) && s.z3 == FMul(b, t.z3)
  }

  /* A ladder step is homogeneous: scaling by (a, b) becomes scaling by (a^4, (a b)^2). */
  lemma DoubleScales(u: nat, s: Ladder, t: Ladder, a: nat, b: nat)
    requires Scaled(s, t, a, b)
    ensures
      var a2, ab := FMul(a, a), FMul(b, a);
      Scaled(Double(u, s), Double(u, t), FMul(a2, a2), FMul(ab, ab))
  {
    hide FMul, FAdd, FSub;
    var p, q := FAdd(t.x2, t.z2), FSub(t.x2, t.z2);
    var c, d := FAdd(t.x3, t.z3), FSub(t.x3, t.z3);
    AddScale(a, t.x2, t.z2);
    SubScale(a, t.x2, t.z2);
    AddScale(b, t.x3, t.z3);
    SubScale(b, t.x3, t.z3);
    var a2, ab := FMul(a, a), FMul(b, a);
    var pp, qq, dp, cq := FMul(p, p), FMul(q, q), FMul(d, p), FMul(c, q);
    MulScale(a, p, a, p);
    MulScale(a, q, a, q);
    MulScale(b, d, a, p);
    MulScale(b, c, a, q);
    SubScale(a2, pp, qq);
    var e := FSub(pp, qq);
    MulScaleRight(A24, a2, e);
    AddScale(a2, pp, FMul(A24, e));
    MulScale(a2, pp, a2, qq);
    MulScale(a2, e, a2, FAdd(pp, FMul(A24, e)));
    AddScale(ab, dp, cq);
    SubScale(ab, dp, cq);
    MulScale(ab, FAdd(dp, cq), ab, FAdd(dp, cq));
    MulScale(ab, FSub(dp, cq), ab, FSub(dp, cq));
    MulScaleRight(u, FMul(ab, ab), FMul(FSub(dp, cq), FSub(dp, cq)));
  }

  /* On a zero bit the start state only has its second point scaled, by 4 u. */
  lemma FirstStep(u: nat)
    requires u < P
    ensures Scaled(Double(u, Ladder(1, 0, u, 1)), Ladder(1, 0, u, 1), 1, FMul(4, u))
  {
    FirstA(u);
    FirstB(u);
  }

  lemma FirstA(u: nat)
    requires u < P
    ensures
      var s := Double(u, Ladder(1, 0, u, 1));
      && s.x2 == FMul(1, 1) && s.z2 == FMul(1, 0)
  {
    SmallSums();
    hide FMul, FAdd, FSub;
    FMulOne(1);
    ZeroProduct(FAdd(1, FMul(A24, 0)));
    ZeroProduct(1);
  }

  lemma SmallSums()
    ensures FAdd(1, 0) == 1 && FSub(1, 0) == 1 && FSub(1, 1) == 0
  {
  }

  lemma SmallProducts()
    ensures FMul(P - 2, P - 2) == 4 && FMul(2, 2) == 4
  {
  }

  lemma ZeroProduct(x: nat)
    ensures FMul(0, x) == 0 && FMul(x, 0) == 0
  {
  }

  lemma FirstB(u: nat)
    requires u < P
    ensures
      var s := Double(u, Ladder(1, 0, u, 1));
      && s.x3 == FMul(FMul(4, u), u) && s.z3 == FMul(FMul(4, u), 1)
  {
    var c, d := FAdd(u, 1), FSub(u, 1);
    SmallSums();
    hide FMul, FAdd, FSub;
    FMulOne(d);
    FMulOne(c);
    SumDifference(u);
    FirstSquares(u);
  }

  lemma FirstSquares(u: nat)
    ensures FMul(FMul(2, u), FMul(2, u)) == FMul(FMul(4, u), u)
    ensures FMul(u, FMul(P - 2, P - 2)) == FMul(FMul(4, u), 1)
  {
    SmallProducts();
    hide FMul;
    MulScale(2, u, 2, u);
    FMulAssoc(4, u, u);
    FMulComm(u, 4);
    FMulOne(FMul(4, u));
  }

  lemma SumDifference(u: nat)
    requires u < P
    ensures
      var c, d := FAdd(u, 1), FSub(u, 1);
      FAdd(d, c) == FMul(2, u) && FSub(d, c) == P - 2
  {
    hide ModP;
    FAddReduce(u - 1, u + 1);
    FSubReduce(u - 1, u + 1);
    ModPSmall(-2, -1, P - 2);
  }

  // ---------- powers ----------

  lemma {:induction false} FPowMul(x: nat, y: nat, n: nat)
    ensures FPow(FMul(x, y), n) == FMul(FPow(x, n), FPow(y, n))
  {
    if n == 0 {
      FMulOne(1);
    } else {
      hide FMul;
      FPowMul(x, y, n - 1);
      MulScale(x, FPow(x, n - 1), y, FPow(y, n - 1));
    }
  }

  lemma {:induction false} FPowPow(x: nat, m: nat, n: nat)
    ensures FPow(FPow(x, m), n) == FPow(x, m * n)
  {
    if n > 0 {
      hide FMul;
      FPowPow(x, m, n - 1);
      FPowAdd(x, m, m * (n - 1));
      assert m * n == m + m * (n - 1);
    }
  }

  lemma {:induction false} FPowOne(n: nat)
    ensures FPow(1, n) == 1
  {
    if n > 0 {
      FPowOne(n - 1);
      FMulOne(1);
    }
  }

  /* The factors after a step are powers again. */
  lemma PowerFactors(c: nat, i: nat, j: nat)
    ensures FMul(FMul(FPow(c, i), FPow(c, i)), FMul(FPow(c, i), FPow(c, i))) == FPow(c, 4 * i)
    ensures FMul(FMul(FPow(c, j), FPow(c, i)), FMul(FPow(c, j), FPow(c, i))) == FPow(c, 2 * (j + i))
  {
    hide FMul, FPow;
    FPowAdd(c, i, i);
    FPowAdd(c, 2 * i, 2 * i);
    FPowAdd(c, j, i);
    FPowAdd(c, j + i, j + i);
  }

  // ---------- the extra step ----------

  /* For a scalar without bit 255 the 256-step ladder is the 255-step ladder with its points scaled by
     powers of 4u. */
  lemma {:induction false} ExtraStepRescales(k: nat, x1: nat, m: nat) returns (i: nat, j: nat)
    requires m <= 255 && !Bit(k, 255)
    ensures
      var c := FMul(4, ModP(x1));
      Scaled(Run(k, x1, 256, m), Run(k, x1, 255, m), FPow(c, i), FPow(c, j))
    decreases 255 - m
  {
    hide FMul, Double, Bit, FPow;
    var u := ModP(x1);
    var c := FMul(4, u);
    if m == 255 {
      FirstStep(u);
      assert Run(k, x1, 256, 256) == Start(x1);
      i, j := 0, 1;
      FirstPowers(c);
    } else {
      i, j := ExtraStepRescales(k, x1, m + 1);
      if Bit(k, m) {
        i, j := j, i;
      }
      var s, t := Swap(Bit(k, m), Run(k, x1, 256, m + 1)), Swap(Bit(k, m), Run(k, x1, 255, m + 1));
      DoubleScales(u, s, t, FPow(c, i), FPow(c, j));
      PowerFactors(c, i, j);
      i, j := 4 * i, 2 * (j + i);
      if Bit(k, m) {
        i, j := j, i;
      }
    }
  }

  lemma FirstPowers(c: nat)
    requires c < P
    ensures FPow(c, 0) == 1 && FPow(c, 1) == c
  {
    hide FMul;
    FMulOne(c);
    assert FPow(c, 0) == 1;
  }

  // ---------- the output ----------

  /* The output of section 5 of RFC 7748: 255 steps, then x2 z2^(p-2). */
  function RfcScalarMult(k: nat, x1: nat): nat
  {
    var t := Run(k, x1, 255, 0);
    FMul(t.x2, FPow(t.z2, P - 2))
  }

  /* A scaling of x and z by a unit's power cancels in x z^(p-2). */
  lemma ScalingCancels(a: nat, x: nat, z: nat)
    requires FPow(a, P - 1) == 1 && FMul(x, FPow(z, P - 2)) < P
    ensures FMul(FMul(a, x), FPow(FMul(a, z), P - 2)) == FMul(x, FPow(z, P - 2))
  {
    hide FMul;
    FPowMul(a, z, P - 2);
    MulScale(a, x, FPow(a, P - 2), FPow(z, P - 2));
    assert FMul(a, FPow(a, P - 2)) == FPow(a, P - 1);
    FMulOne(FMul(x, FPow(z, P - 2)));
  }

  /* Where 4u is a unit with the order that Fermat's theorem gives, both ladders have the same output. */
  lemma UnitOutput(k: nat, x1: nat)
    requires !Bit(k, 255) && FPow(FMul(4, ModP(x1)), P - 1) == 1
    ensures ScalarMult(k, x1) == RfcScalarMult(k, x1)
  {
    hide FMul, Run, Bit, FPow;
    var c := FMul(4, ModP(x1));
    var i, j := ExtraStepRescales(k, x1, 0);
    FPowPow(c, i, P - 1);
    FPowPow(c, P - 1, i);
    assert i * (P - 1) == (P - 1) * i;
    FPowOne(i);
    var t := Run(k, x1, 255, 0);
    ScalingCancels(FPow(c, i), t.x2, t.z2);
  }

  /* At u = 0 both denominators are zero from the first step on, so both outputs are zero. */
  lemma {:induction false} ZeroLadder(k: nat, x1: nat, n: nat, m: nat)
    requires m < n && ModP(x1) == 0
    ensures Run(k, x1, n, m).z2 == 0 && Run(k, x1, n, m).z3 == 0
    decreases n - m
  {
    hide Double, Bit;
    if m == n - 1 {
      assert Run(k, x1, n, n) == Start(x1);
      ZeroStart();
    } else {
      ZeroLadder(k, x1, n, m + 1);
      ZeroStep(Swap(Bit(k, m), Run(k, x1, n, m + 1)));
    }
  }

  lemma ZeroStart()
    ensures Double(0, Ladder(1, 0, 0, 1)).z2 == 0 && Double(0, Ladder(1, 0, 0, 1)).z3 == 0
    ensures Double(0, Ladder(0, 1, 1, 0)).z2 == 0 && Double(0, Ladder(0, 1, 1, 0)).z3 == 0
  {
    hide FMul, FAdd, FSub;
    SmallSums();
    MinusOne();
    MinusOneSquared();
    ZeroProducts(Ladder(1, 0, 0, 1));
    ZeroProducts(Ladder(0, 1, 1, 0));
  }

  lemma MinusOne()
    ensures FAdd(0, 1) == 1 && FSub(0, 1) == P - 1
  {
  }

  lemma MinusOneSquared()
    ensures FMul(1, 1) == 1 && FMul(P - 1, P - 1) == 1
  {
  }

  lemma ZeroStep(s: Ladder)
    requires s.z2 == 0
    ensures Double(0, s).z2 == 0 && Double(0, s).z3 == 0
  {
    SameFactors(s.x2);
    hide FMul, FAdd, FSub;
    ZeroProducts(s);
  }

  lemma SameFactors(x: nat)
    ensures FAdd(x, 0) == FSub(x, 0)
  {
  }

  /* With u = 0 and equal squares a step has zero denominators. */
  lemma ZeroProducts(s: Ladder)
    requires FMul(FAdd(s.x2, s.z2), FAdd(s.x2, s.z2)) == FMul(FSub(s.x2, s.z2), FSub(s.x2, s.z2))
    ensures Double(0, s).z2 == 0 && Double(0, s).z3 == 0
  {
    hide FMul, FAdd;
    var aa := FMul(FAdd(s.x2, s.z2), FAdd(s.x2, s.z2));
    assert FSub(aa, aa) == 0;
    hide FSub;
    ZeroProduct(FAdd(aa, FMul(A24, 0)));
    var d := FSub(FMul(FSub(s.x3, s.z3), FAdd(s.x2, s.z2)), FMul(FAdd(s.x3, s.z3), FSub(s.x2, s.z2)));
    ZeroProduct(FMul(d, d));
  }

  lemma ZeroOutput(k: nat, x1: nat)
    requires ModP(x1) == 0
    ensures ScalarMult(k, x1) == 0 == RfcScalarMult(k, x1)
  {
    hide FMul, Run, Bit;
    ZeroLadder(k, x1, 256, 0);
    ZeroLadder(k, x1, 255, 0);
    ZeroPower();
    hide FPow;
    ZeroProduct(Run(k, x1, 256, 0).x2);
    ZeroProduct(Run(k, x1, 255, 0).x2);
  }

  lemma ZeroPower()
    ensures FPow(0, P - 2) == 0
  {
    hide FMul;
    ZeroProduct(FPow(0, P - 3));
  }

  // ---------- clamped scalars ----------

  /* Clamping clears bits 0, 1, 2 and 255 and sets bit 254. */
  lemma ClampBits(s: seq<byte>)
    requires |s| == 32
    ensures var k := LE(Clamp(s)); !Bit(k, 0) && !Bit(k, 1) && !Bit(k, 2) && Bit(k, 254) && !Bit(k, 255)
  {
    hide And, Or, LE, Bit;
    var c := Clamp(s);
    BitOfLE(c, 0);
    BitOfLE(c, 1);
    BitOfLE(c, 2);
    BitOfLE(c, 254);
    BitOfLE(c, 255);
    LowClamp(s[0]);
    HighClamp(s[31]);
  }

  lemma LowClamp(x: nat)
    ensures !Bit(And(x, 0xf8), 0) && !Bit(And(x, 0xf8), 1) && !Bit(And(x, 0xf8), 2)
  {
    hide And;
    AndBit(x, 0xf8, 0);
    AndBit(x, 0xf8, 1);
    AndBit(x, 0xf8, 2);
    assert !Bit(0xf8, 0) && !Bit(0xf8, 1) && !Bit(0xf8, 2);
  }

  lemma HighClamp(y: nat)
    ensures var w := Or(And(y, 0x7f), 0x40); Bit(w, 6) && !Bit(w, 7)
  {
    hide And, Or;
    Pow2Values();
    assert Pow2(7) == 0x80;
    AndBelow(y, 0x7f);
    OrBound(And(y, 0x7f), 0x40, 7);
    OrBit(And(y, 0x7f), 0x40, 6);
    DivModUnique(Or(And(y, 0x7f), 0x40), 0x80, 0, Or(And(y, 0x7f), 0x40));
    assert Bit(0x40, 6) by { assert Pow2(6) == 0x40; }
  }

  /* For every clamped scalar and every base the program's output is the standard's.  The hypothesis is
     Fermat's theorem for the one number 4u, which holds as 2^255 - 19 is prime. */
  lemma ClampedOutputIsRfc(scalar: seq<byte>, x1: nat)
    requires |scalar| == 32 && (ModP(x1) != 0 ==> FPow(FMul(4, ModP(x1)), P - 1) == 1)
    ensures ScalarMult(LE(Clamp(scalar)), x1) == RfcScalarMult(LE(Clamp(scalar)), x1)
  {
    hide *;
    ClampBits(scalar);
    if ModP(x1) == 0 {
      ZeroOutput(LE(Clamp(scalar)), x1);
    } else {
      UnitOutput(LE(Clamp(scalar)), x1);
    }
  }
}
