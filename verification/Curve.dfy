/**
 What the ladder computes on the curve y^2 = x^3 + 486662 x^2 + x over the
 integers modulo 2^255 - 19: every step is the doubling and the differential
 addition of that curve in projective x-coordinates, the 256 steps are
 double-and-add over the bits of the scalar, and the output is a quotient.
 */
module Curve {
  import opened Words
  import opened FieldOps
  import opened X25519
  import R = Rfc7748

  /* x / z, or the point at infinity when z is zero. */
  datatype Point = Point(x: nat, z: nat)

  /* x(2P) = (x^2 - 1)^2 / (4 x (x^2 + 486662 x + 1)), with x / z for x. */
  function Twice(p: Point): Point
  {
    var e, f := p.x * p.x - p.z * p.z, p.x * p.z;
    Point(ModP(e * e), ModP(4 * f * (p.x * p.x + 486662 * f + p.z * p.z)))
  }

  /* x(P + Q) = (x x' - 1)^2 / (u (x - x')^2), where u is x(P - Q); both parts are multiplied by 4. */
  function Sum(u: nat, p: Point, q: Point): Point
  {
    var g, h := 2 * (p.x * q.x - p.z * q.z), 2 * (p.z * q.x - p.x * q.z);
    Point(ModP(g * g), ModP(u * (h * h)))
  }

  // ---------- one step ----------

  lemma SquareOf(x: int)
    ensures FMul(ModP(x), ModP(x)) == ModP(x * x)
  {
    FMulReduce(x, x);
  }

  lemma DoublingAlgebra(x: int, z: int)
    ensures
      var aa, bb, f := (x + z) * (x + z), (x - z) * (x - z), x * z;
      && aa - bb == 4 * f
      && aa * bb == (x * x - z * z) * (x * x - z * z)
      && (aa - bb) * (aa + 121665 * (aa - bb)) == 4 * f * (x * x + 486662 * f + z * z)
  {
    var f := x * z;
    Squares(x, z);
    assert (x + z) * (x + z) == x * x + 2 * f + z * z;
    assert (x - z) * (x - z) == x * x - 2 * f + z * z;
    calc {
      ((x + z) * (x + z)) * ((x - z) * (x - z));
    ==  { Fourfold(x + z, x - z); }
      ((x + z) * (x - z)) * ((x + z) * (x - z));
    ==
      (x * x - z * z) * (x * x - z * z);
    }
  }

  lemma Squares(x: int, z: int)
    ensures (x + z) * (x + z) == x * x + 2 * (x * z) + z * z
    ensures (x - z) * (x - z) == x * x - 2 * (x * z) + z * z
    ensures (x + z) * (x - z) == x * x - z * z
  {
  }

  lemma Fourfold(a: int, b: int)
    ensures (a * a) * (b * b) == (a * b) * (a * b)
  {
    var c := a * b;
    assert (a * a) * (b * b) == a * (a * (b * b)) == a * (c * b) == c * c;
  }

  lemma AddingAlgebra(x: int, z: int, v: int, w: int)
    ensures (v - w) * (x + z) + (v + w) * (x - z) == 2 * (x * v - z * w)
    ensures (v - w) * (x + z) - (v + w) * (x - z) == 2 * (z * v - x * w)
  {
  }

  /* The first pair of a step is the doubled point. */
  lemma DoublingLaw(u: nat, s: Ladder)
    ensures
      var d, e, f := Double(u, s), s.x2 * s.x2 - s.z2 * s.z2, s.x2 * s.z2;
      && d.x2 == ModP(e * e)
      && d.z2 == ModP(4 * f * (s.x2 * s.x2 + 486662 * f + s.z2 * s.z2))
  {
    hide ModP;
    var a, b := s.x2 + s.z2, s.x2 - s.z2;
    var aa, bb := a * a, b * b;
    SquareOf(a);
    SquareOf(b);
    FMulReduce(aa, bb);
    FSubReduce(aa, bb);
    FMulResidue(121665, aa - bb);
    FAddReduce(aa, 121665 * (aa - bb));
    FMulReduce(aa - bb, aa + 121665 * (aa - bb));
    DoublingAlgebra(s.x2, s.z2);
  }

  /* The second pair is the sum of two points whose difference has the x-coordinate u. */
  lemma AdditionLaw(u: nat, s: Ladder)
    ensures
      var d := Double(u, s);
      var g, h := 2 * (s.x2 * s.x3 - s.z2 * s.z3), 2 * (s.z2 * s.x3 - s.x2 * s.z3);
      d.x3 == ModP(g * g) && d.z3 == ModP(u * (h * h))
  {
    hide ModP;
    var a, b, c, d := s.x2 + s.z2, s.x2 - s.z2, s.x3 + s.z3, s.x3 - s.z3;
    FMulReduce(d, a);
    FMulReduce(c, b);
    FAddReduce(d * a, c * b);
    FSubReduce(d * a, c * b);
    SquareOf(d * a + c * b);
    SquareOf(d * a - c * b);
    AddingAlgebra(s.x2, s.z2, s.x3, s.z3);
    FMulResidue(u, (d * a - c * b) * (d * a - c * b));
  }

  lemma SumComm(u: nat, p: Point, q: Point)
    ensures Sum(u, p, q) == Sum(u, q, p)
  {
    hide ModP;
    var h := 2 * (p.z * q.x - p.x * q.z);
    assert 2 * (q.z * p.x - q.x * p.z) == -h;
    assert (-h) * (-h) == h * h;
  }

  // ---------- all steps ----------

  /* The multiples e and e + 1 of the point u, over the low n bits of e from the highest. */
  function Multiples(u: nat, n: nat, e: nat): (Point, Point)
  {
    if n == 0 then (Point(1, 0), Point(u, 1))
    else
      var (p, q) := Multiples(u, n - 1, e / 2);
      if e % 2 == 0 then (Twice(p), Sum(u, p, q)) else (Sum(u, p, q), Twice(q))
  }

  lemma StepIsMultiple(u: nat, bit: bool, s: Ladder)
    ensures
      var t := Swap(bit, Double(u, Swap(bit, s)));
      var p, q := Point(s.x2, s.z2), Point(s.x3, s.z3);
      (Point(t.x2, t.z2), Point(t.x3, t.z3)) == if bit then (Sum(u, p, q), Twice(q)) else (Twice(p), Sum(u, p, q))
  {
    hide ModP, Double;
    DoublingLaw(u, Swap(bit, s));
    AdditionLaw(u, Swap(bit, s));
    SumComm(u, Point(s.x2, s.z2), Point(s.x3, s.z3));
  }

  /* The ladder is double-and-add. */
  lemma {:induction false} LadderIsMultiples(k: nat, x1: nat, n: nat, m: nat)
    requires m <= n
    ensures
      var s := Run(k, x1, n, m);
      k / Pow2(m) >= 0 && (Point(s.x2, s.z2), Point(s.x3, s.z3)) == Multiples(ModP(x1), n - m, k / Pow2(m))
    decreases n - m
  {
    hide ModP, Double, Twice, Sum, Pow2;
    HighNonneg(k, Pow2(m));
    if m < n {
      LadderIsMultiples(k, x1, n, m + 1);
      StepIsMultiple(ModP(x1), Bit(k, m), Run(k, x1, n, m + 1));
      HalfDown(k, m);
    }
  }

  lemma HalfDown(k: nat, m: nat)
    ensures k / Pow2(m + 1) == k / Pow2(m) / 2
  {
    var p := Pow2(m);
    var q, r := k / p, k % p;
    DivModUnique(k, 2 * p, q / 2, q % 2 * p + r);
  }

  /* For every 256-bit scalar and every base: the output times the denominator of the scalar's multiple is
     its numerator, given Fermat's theorem for the denominator; the point at infinity gives zero. */
  lemma OutputIsQuotient(k: nat, x1: nat)
    ensures
      var p := Multiples(ModP(x1), 256, k).0;
      && (p.z == 0 ==> ScalarMult(k, x1) == 0)
      && (FPow(p.z, P - 1) == 1 ==> FMul(ScalarMult(k, x1), p.z) == ModP(p.x))
  {
    hide ModP, Run, Multiples, FPow, FMul;
    LadderIsMultiples(k, x1, 256, 0);
    assert Pow2(0) == 1;
    var p := Multiples(ModP(x1), 256, k).0;
    Divides(p.x, p.z);
  }

  lemma Divides(x: nat, z: nat)
    ensures z == 0 ==> FMul(x, FPow(z, P - 2)) == 0
    ensures FPow(z, P - 1) == 1 ==> FMul(FMul(x, FPow(z, P - 2)), z) == ModP(x)
  {
    hide ModP, FMul;
    var w := FPow(z, P - 2);
    if z == 0 {
      R.ZeroPower();
      R.ZeroProduct(x);
    }
    if FPow(z, P - 1) == 1 {
      FMulComm(FMul(x, w), z);
      FMulAssoc(z, x, w);
      FMulComm(z, x);
      FMulAssoc(x, z, w);
      assert FMul(z, w) == 1;
      TimesOne(x);
    }
  }

  lemma TimesOne(x: nat)
    ensures FMul(x, 1) == ModP(x)
  {
  }

  // ---------- clamping ----------

  /* The clamped scalar is 2^254 plus the bits 3 to 253 of the given one. */
  lemma ClampNumber(s: seq<byte>)
    requires |s| == 32
    ensures LE(Clamp(s)) == Pow2(254) + (LE(s) % Pow2(254) - LE(s) % 8)
  {
    hide LE, Pow2, And, Or;
    var lo, mid, hi := s[0] as int, LE(s[1..31]), s[31] as int;
    Ends(s);
    Ends(Clamp(s));
    assert Clamp(s)[1..31] == s[1..31];
    LowByte(s[0]);
    HighByte(s[31]);
    Powers();
    LEBound(s[1..31]);
    ClampArithmetic(lo, mid, hi, Pow2(240));
  }

  lemma Powers()
    ensures Pow2(248) == 256 * Pow2(240) && Pow2(254) == 64 * (256 * Pow2(240)) && Pow2(240) > 0
  {
    hide Pow2;
    Pow2Values();
    Pow2Add(240, 8);
    Pow2Add(248, 6);
    assert Pow2(6) == 64 by { Pow2Add(3, 3); assert Pow2(3) == 8; }
  }

  lemma Ends(s: seq<byte>)
    requires |s| == 32
    ensures LE(s) == s[0] as int + 256 * LE(s[1..31]) + Pow2(248) * s[31] as int
  {
    hide LE, Pow2;
    LEConcat(s[..1], s[1..31]);
    LEConcat(s[..31], s[31..]);
    assert s[..1] + s[1..31] == s[..31] && s[..31] + s[31..] == s;
    assert s[..1] == [s[0]] && s[31..] == [s[31]];
    OneByte(s[0]);
    OneByte(s[31]);
    Pow2Values();
  }

  lemma OneByte(x: byte)
    ensures LE([x]) == x
  {
    assert [x][..0] == [] && [x][1..] == [];
  }

  lemma LowByte(x: byte)
    ensures And(x, 0xf8) == x as int - x as int % 8
  {
    hide And, Pow2;
    Pow2Values();
    assert Pow2(3) == 8 by { Small3(); }
    AndSplit(x, 0xf8, 3);
    AndZero(x % 8);
    assert Pow2(5) == 32 by { Small3(); Pow2Add(3, 2); }
    AndMask(x / 8, 5);
  }

  lemma Small3()
    ensures Pow2(3) == 8 && Pow2(2) == 4
  {
  }

  lemma HighByte(y: byte)
    ensures Or(And(y, 0x7f), 0x40) == 64 + y as int % 64
  {
    hide And, Or, Pow2;
    SevenBits();
    AndMask(y, 7);
    var w := y as int % 128;
    OrBitSix(w);
  }

  lemma SevenBits()
    ensures Pow2(7) == 128 && Pow2(6) == 64
  {
  }

  lemma OrBitSix(w: nat)
    requires w < 128
    ensures Or(w, 0x40) == 64 + w % 64
  {
    hide And, Or, Pow2;
    SevenBits();
    OrPlusAnd(w, 0x40);
    AndSplit(w, 0x40, 6);
    AndZero(w % 64);
    OneBit(w / 64);
  }

  lemma {:induction false} OrPlusAnd(x: nat, y: nat)
    ensures Or(x, y) + And(x, y) == x + y
  {
    if x != 0 && y != 0 {
      OrPlusAnd(x / 2, y / 2);
    }
  }

  lemma OneBit(x: nat)
    requires x < 2
    ensures And(x, 1) == x
  {
  }

  lemma ClampArithmetic(lo: int, mid: int, hi: int, t: int)
    requires 0 <= lo < 256 && 0 <= mid < t && 0 <= hi < 256
    ensures
      var k := lo + 256 * mid + 256 * t * hi;
      (lo - lo % 8) + 256 * mid + 256 * t * (64 + hi % 64) == 64 * (256 * t) + (k % (64 * (256 * t)) - k % 8)
  {
    var q, d, e := hi / 64, hi % 64, 64 * (256 * t);
    var r := lo + 256 * mid + 256 * t * d;
    Regroup(t, hi, q, d);
    TopBelow(mid, t, d);
    DivModUnique(lo + 256 * mid + 256 * t * hi, e, q, r);
    LowBits(lo, mid, t, hi);
    Added(t, d);
  }

  lemma Regroup(t: int, hi: int, q: int, d: int)
    requires hi == 64 * q + d
    ensures 256 * t * hi == q * (64 * (256 * t)) + 256 * t * d
  {
  }

  lemma TopBelow(mid: int, t: int, d: int)
    requires 0 <= mid < t && 0 <= d < 64
    ensures 0 <= 256 * mid + 256 * t * d && 256 * mid + 256 + 256 * t * d <= 64 * (256 * t)
  {
    assert t * d <= t * 63 && 0 <= t * d;
    assert 256 * t * d == 256 * (t * d);
  }

  lemma LowBits(lo: int, mid: int, t: int, hi: int)
    requires 0 <= lo < 256
    ensures (lo + 256 * mid + 256 * t * hi) % 8 == lo % 8
  {
    assert 256 * t * hi == 256 * (t * hi);
    DivModUnique(lo + 256 * mid + 256 * t * hi, 8, lo / 8 + 32 * mid + 32 * (t * hi), lo % 8);
  }

  lemma Added(t: int, d: int)
    ensures 256 * t * (64 + d) == 64 * (256 * t) + 256 * t * d
  {
  }
}
