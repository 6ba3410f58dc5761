/**
 Machine words as bounded integers, the bitwise operators of C on them, and
 little-endian byte strings.  Bitwise operators are defined bit by bit on the
 natural numbers, so that every mask, shift and exclusive-or of the program is
 written with its C meaning and related to arithmetic by the lemmas below.
 */
module Words {
  const B: int := 0x1_0000_0000
  const TWO64: int := 0x1_0000_0000_0000_0000

  type byte = x: int | 0 <= x < 0x100
  type word = x: int | 0 <= x < 0x1_0000_0000
  type dword = x: int | 0 <= x < 0x1_0000_0000_0000_0000

  function Pow2(n: nat): (r: nat)
    ensures r > 0
  {
    if n == 0 then 1 else 2 * Pow2(n - 1)
  }

  lemma {:induction false} Pow2Add(m: nat, n: nat)
    ensures Pow2(m + n) == Pow2(m) * Pow2(n)
  {
    if m > 0 {
      Pow2Add(m - 1, n);
      assert Pow2(m) * Pow2(n) == 2 * (Pow2(m - 1) * Pow2(n));
    }
  }

  /* The powers that occur as masks and shifts. */
  lemma Pow2Values()
    ensures Pow2(0) == 1 && Pow2(1) == 2 && Pow2(2) == 4 && Pow2(3) == 8
    ensures Pow2(6) == 0x40 && Pow2(8) == 0x100 && Pow2(12) == 0x1000 && Pow2(16) == 0x1_0000
    ensures Pow2(18) == 0x4_0000 && Pow2(20) == 0x10_0000 && Pow2(24) == 0x100_0000
    ensures Pow2(26) == 0x400_0000 && Pow2(31) == 0x8000_0000 && Pow2(32) == B
  {
    assert Pow2(8) == 0x100;
    Pow2Add(8, 8);
    Pow2Add(16, 8);
    Pow2Add(16, 16);
    Pow2Add(8, 4);
    Pow2Add(24, 2);
    Pow2Add(16, 2);
    Pow2Add(16, 4);
    assert Pow2(32) == 2 * Pow2(31);
  }

  // ---------- bitwise operators ----------

  function And(x: nat, y: nat): nat
  {
    if x == 0 || y == 0 then 0 else 2 * And(x / 2, y / 2) + (x % 2) * (y % 2)
  }

  function Or(x: nat, y: nat): nat
    decreases x + y
  {
    if x == 0 then y
    else if y == 0 then x
    else 2 * Or(x / 2, y / 2) + (if x % 2 == 1 || y % 2 == 1 then 1 else 0)
  }

  function Xor(x: nat, y: nat): nat
    decreases x + y
  {
    if x == 0 then y
    else if y == 0 then x
    else 2 * Xor(x / 2, y / 2) + (if x % 2 == y % 2 then 0 else 1)
  }

  predicate Bit(x: nat, i: nat)
  {
    x / Pow2(i) % 2 == 1
  }

  lemma HalfMod(x: nat, m: nat)
    requires m > 0
    ensures x % (2 * m) == 2 * (x / 2 % m) + x % 2
    ensures x / (2 * m) == x / 2 / m
  {
    var q, r := x / 2 / m, x / 2 % m;
    assert x / 2 == q * m + r;
    assert x == q * (2 * m) + (2 * r + x % 2);
    DivModUnique(x, 2 * m, q, 2 * r + x % 2);
  }

  lemma MulGap(k: int, m: int)
    requires m > 0
    ensures k >= 1 ==> k * m >= m
    ensures k <= -1 ==> k * m <= -m
  {
    if k >= 1 {
      assert (k - 1) * m >= 0;
    } else if k <= -1 {
      assert (-1 - k) * m >= 0;
    }
  }

  lemma DivModUnique(x: int, m: int, q: int, r: int)
    requires m > 0 && 0 <= r < m && x == q * m + r
    ensures x / m == q && x % m == r
  {
    var q', r' := x / m, x % m;
    assert (q - q') * m == r' - r;
    MulGap(q - q', m);
  }

  lemma BitHalf(x: nat, i: nat)
    ensures Bit(x, 0) <==> x % 2 == 1
    ensures i > 0 ==> (Bit(x, i) <==> Bit(x / 2, i - 1))
  {
    if i > 0 {
      HalfMod(x, Pow2(i - 1));
    }
  }

  /* Masking with the k low ones is reduction modulo 2^k. */
  lemma {:induction false} AndMask(x: nat, k: nat)
    ensures And(x, Pow2(k) - 1) == x % Pow2(k)
  {
    hide And;
    if k == 0 {
      AndZero(x);
    } else {
      AndMask(x / 2, k - 1);
      AndMaskStep(x, k);
    }
  }

  lemma AndMaskStep(x: nat, k: nat)
    requires k > 0 && And(x / 2, Pow2(k - 1) - 1) == x / 2 % Pow2(k - 1)
    ensures And(x, Pow2(k) - 1) == x % Pow2(k)
  {
    hide And;
    HalfMod(x, Pow2(k - 1));
    MaskHalf(k);
    AndHalf(x / 2, Pow2(k - 1) - 1, x % 2, 1);
  }

  lemma MaskHalf(k: nat)
    requires k > 0
    ensures Pow2(k) - 1 == 2 * (Pow2(k - 1) - 1) + 1
  {
  }

  function Low(x: nat, k: nat): (r: nat)
    ensures r < Pow2(k)
  {
    x % Pow2(k)
  }

  function High(x: nat, k: nat): nat
  {
    HighNonneg(x, Pow2(k));
    x / Pow2(k)
  }

  lemma HighNonneg(x: nat, m: nat)
    requires m > 0
    ensures x / m >= 0
  {
  }

  lemma QuotientBelow(x: nat, d: nat)
    requires d > 0
    ensures x / d <= x
  {
    HighNonneg(x, d);
    DivisorBound(x, d, x / d, x % d);
  }

  lemma DivisorBound(x: nat, d: nat, q: nat, r: nat)
    requires d > 0 && x == q * d + r
    ensures q <= x
  {
    assert q * (d - 1) >= 0;
    assert q * d == q * (d - 1) + q;
  }

  lemma SplitStep(x: nat, k: nat)
    requires k > 0
    ensures Low(x, k) == 2 * Low(x / 2, k - 1) + x % 2
    ensures High(x, k) == High(x / 2, k - 1)
  {
    HalfMod(x, Pow2(k - 1));
  }

  /* Masking distributes over the split of both operands at bit k. */
  lemma {:induction false} AndSplit(x: nat, y: nat, k: nat)
    ensures And(x, y) == And(Low(x, k), Low(y, k)) + Pow2(k) * And(High(x, k), High(y, k))
  {
    hide And, Low, High, Pow2;
    if k == 0 {
      AndUnsplit(x, y);
    } else {
      AndSplit(x / 2, y / 2, k - 1);
      AndSplitStep(x, y, k);
    }
  }

  lemma AndUnsplit(x: nat, y: nat)
    ensures And(x, y) == And(Low(x, 0), Low(y, 0)) + Pow2(0) * And(High(x, 0), High(y, 0))
  {
  }

  lemma AndSplitStep(x: nat, y: nat, k: nat)
    requires k > 0
    requires
      And(x / 2, y / 2) ==
      And(Low(x / 2, k - 1), Low(y / 2, k - 1)) + Pow2(k - 1) * And(High(x / 2, k - 1), High(y / 2, k - 1))
    ensures And(x, y) == And(Low(x, k), Low(y, k)) + Pow2(k) * And(High(x, k), High(y, k))
  {
    hide And, Low, High;
    var hi := And(High(x, k), High(y, k));
    var low := And(Low(x / 2, k - 1), Low(y / 2, k - 1));
    SplitStep(x, k);
    SplitStep(y, k);
    AndHalf(x / 2, y / 2, x % 2, y % 2);
    AndHalf(Low(x / 2, k - 1), Low(y / 2, k - 1), x % 2, y % 2);
    Assoc2(Pow2(k - 1), hi);
    calc {
      And(x, y);
    ==
      2 * (low + Pow2(k - 1) * hi) + (x % 2) * (y % 2);
    ==
      And(Low(x, k), Low(y, k)) + Pow2(k) * hi;
    }
  }

  lemma Assoc2(m: int, h: int)
    ensures 2 * (m * h) == 2 * m * h
  {
  }

  lemma AndHalf(x: nat, y: nat, p: nat, q: nat)
    requires p < 2 && q < 2
    ensures And(2 * x + p, 2 * y + q) == 2 * And(x, y) + p * q
  {
  }

  lemma AndSmall(x: nat, y: nat, k: nat)
    requires y < Pow2(k)
    ensures And(x, y) == And(Low(x, k), y)
    ensures And(x, y) <= y
  {
    AndSplit(x, y, k);
    DivModUnique(y, Pow2(k), 0, y);
    AndBelow(x, y);
  }

  lemma {:induction false} AndBelow(x: nat, y: nat)
    ensures And(x, y) <= y
  {
    if x != 0 && y != 0 {
      AndBelow(x / 2, y / 2);
    }
  }

  /* Or of operands that share no bit is their sum. */
  lemma {:induction false} OrDisjoint(x: nat, y: nat, k: nat)
    requires y < Pow2(k)
    ensures Or(x * Pow2(k), y) == x * Pow2(k) + y
    ensures Or(y, x * Pow2(k)) == x * Pow2(k) + y
  {
    if k > 0 && x > 0 {
      assert x * Pow2(k) == 2 * (x * Pow2(k - 1));
      OrDisjoint(x, y / 2, k - 1);
      assert x * Pow2(k) > 0;
    }
  }

  lemma {:induction false} OrBit(x: nat, y: nat, i: nat)
    ensures Bit(Or(x, y), i) <==> Bit(x, i) || Bit(y, i)
  {
    hide Bit, Or;
    BitHalf(x, i);
    BitHalf(y, i);
    BitHalf(Or(x, y), i);
    OrDigit(x, y);
    if i > 0 {
      OrBit(x / 2, y / 2, i - 1);
    }
  }

  lemma OrDigit(x: nat, y: nat)
    ensures Or(x, y) / 2 == Or(x / 2, y / 2)
    ensures Or(x, y) % 2 == 1 <==> x % 2 == 1 || y % 2 == 1
  {
  }

  lemma ZeroBit(i: nat)
    ensures !Bit(0, i)
  {
    DivModUnique(0, Pow2(i), 0, 0);
  }

  /* Bits below n are unaffected by adding a multiple of 2^n. */
  lemma {:induction false} BitLow(x: nat, y: nat, n: nat, i: nat)
    requires i < n
    ensures Bit(x + Pow2(n) * y, i) == Bit(x, i)
  {
    hide Bit;
    BitHalf(x, i);
    BitHalf(x + Pow2(n) * y, i);
    Doubling(x, y, Pow2(n - 1));
    if i > 0 {
      BitLow(x / 2, y, n - 1, i - 1);
    }
  }

  lemma Doubling(x: nat, y: nat, m: nat)
    ensures (x + 2 * m * y) / 2 == x / 2 + m * y && (x + 2 * m * y) % 2 == x % 2
  {
    assert 2 * m * y == 2 * (m * y);
  }

  /* Bits from n up are those of the quotient by 2^n. */
  lemma {:induction false} BitHigh(x: nat, y: nat, n: nat, i: nat)
    requires x < Pow2(n)
    ensures Bit(x + Pow2(n) * y, n + i) == Bit(y, i)
  {
    hide Bit;
    if n > 0 {
      BitHalf(x + Pow2(n) * y, n + i);
      Doubling(x, y, Pow2(n - 1));
      BitHigh(x / 2, y, n - 1, i);
    }
  }

  lemma {:induction false} AndPow2(x: nat, i: nat)
    ensures And(x, Pow2(i)) != 0 <==> Bit(x, i)
  {
    hide Bit;
    BitHalf(x, i);
    if x == 0 {
      ZeroBit(i);
    } else if i > 0 {
      AndPow2(x / 2, i - 1);
      assert Pow2(i) / 2 == Pow2(i - 1) && Pow2(i) % 2 == 0;
    } else {
      AndHalf(x / 2, 0, x % 2, 1);
    }
  }

  lemma {:induction false} AndBit(x: nat, y: nat, i: nat)
    ensures Bit(And(x, y), i) <==> Bit(x, i) && Bit(y, i)
  {
    hide Bit, And;
    BitHalf(x, i);
    BitHalf(y, i);
    BitHalf(And(x, y), i);
    AndDigit(x, y);
    if i > 0 {
      AndBit(x / 2, y / 2, i - 1);
    }
  }

  lemma AndDigit(x: nat, y: nat)
    ensures And(x, y) / 2 == And(x / 2, y / 2)
    ensures And(x, y) % 2 == 1 <==> x % 2 == 1 && y % 2 == 1
  {
  }

  lemma {:induction false} OrBound(x: nat, y: nat, k: nat)
    requires x < Pow2(k) && y < Pow2(k)
    ensures Or(x, y) < Pow2(k)
  {
    if k > 0 && x != 0 && y != 0 {
      OrBound(x / 2, y / 2, k - 1);
    }
  }

  lemma {:induction false} OrZero(x: nat, y: nat)
    ensures Or(x, y) == 0 <==> x == 0 && y == 0
  {
    if x != 0 && y != 0 {
      OrZero(x / 2, y / 2);
    }
  }

  lemma {:induction false} XorBound(x: nat, y: nat, k: nat)
    requires x < Pow2(k) && y < Pow2(k)
    ensures Xor(x, y) < Pow2(k)
  {
    if k > 0 && x != 0 && y != 0 {
      XorBound(x / 2, y / 2, k - 1);
    }
  }

  lemma XorZero(x: nat)
    ensures Xor(x, 0) == x
  {
  }

  /* Half and last bit of an exclusive or. */
  lemma XorStep(x: nat, y: nat)
    ensures Xor(x, y) / 2 == Xor(x / 2, y / 2)
    ensures Xor(x, y) % 2 == if x % 2 == y % 2 then 0 else 1
    ensures Xor(x, y) == 2 * Xor(x / 2, y / 2) + (if x % 2 == y % 2 then 0 else 1)
  {
  }

  lemma {:induction false} XorInvolutive(x: nat, y: nat)
    ensures Xor(Xor(x, y), y) == x
    decreases x + y
  {
    if x == 0 {
      XorSelf(y);
    } else if y != 0 {
      XorStep(x, y);
      XorInvolutive(x / 2, y / 2);
      XorStep(Xor(x, y), y);
    }
  }

  lemma {:induction false} XorSelf(x: nat)
    ensures Xor(x, x) == 0
  {
    if x != 0 {
      XorSelf(x / 2);
    }
  }

  lemma {:induction false} XorComm(x: nat, y: nat)
    ensures Xor(x, y) == Xor(y, x)
    decreases x + y
  {
    if x != 0 && y != 0 {
      XorComm(x / 2, y / 2);
    }
  }

  function XorByte(x: byte, y: byte): (r: byte)
    ensures Xor(r, y) == x
  {
    Pow2Values();
    XorBound(x, y, 8);
    XorInvolutive(x, y);
    Xor(x, y)
  }

  function XorWord(x: word, y: word): (r: word)
    ensures Xor(r, y) == x
  {
    Pow2Values();
    XorBound(x, y, 32);
    XorInvolutive(x, y);
    Xor(x, y)
  }

  function AddWord(x: word, y: word): word
  {
    (x + y) % B
  }

  // ---------- little-endian byte strings ----------

  function Ascii(s: string): (b: seq<byte>)
  {
    seq(|s|, i requires 0 <= i < |s| => s[i] as int % 0x100)
  }

  function Zeros(n: nat): (s: seq<byte>)
    ensures |s| == n
  {
    seq(n, _ => 0)
  }

  /* The number a byte string denotes, least significant byte first. */
  function LE(s: seq<byte>): nat
  {
    if s == [] then 0 else s[0] + 0x100 * LE(s[1..])
  }

  function LEBytes(v: nat, n: nat): (s: seq<byte>)
    ensures |s| == n
    decreases n
  {
    if n == 0 then [] else [v % 0x100] + LEBytes(v / 0x100, n - 1)
  }

  lemma {:induction false} LEZeros(n: nat)
    ensures LE(Zeros(n)) == 0
  {
    if n > 0 {
      LEZeros(n - 1);
      assert Zeros(n)[1..] == Zeros(n - 1);
    }
  }

  lemma {:induction false} LEBound(s: seq<byte>)
    ensures LE(s) < Pow2(8 * |s|)
  {
    if s != [] {
      LEBound(s[1..]);
      Pow2Values();
      Pow2Add(8, 8 * |s| - 8);
    }
  }

  lemma NextByteWeight(n: nat, v: nat)
    requires n > 0
    ensures Pow2(8 * n) * v == 0x100 * (Pow2(8 * (n - 1)) * v)
  {
    hide Pow2;
    Pow2Values();
    Pow2Add(8, 8 * (n - 1));
    MulAssoc(0x100, Pow2(8 * (n - 1)), v);
  }

  lemma MulAssoc(x: int, y: int, z: int)
    ensures x * y * z == x * (y * z)
  {
  }

  lemma {:induction false} LEConcat(s: seq<byte>, t: seq<byte>)
    ensures LE(s + t) == LE(s) + Pow2(8 * |s|) * LE(t)
  {
    if s == [] {
      assert s + t == t;
    } else {
      LEConcat(s[1..], t);
      assert (s + t)[1..] == s[1..] + t;
      LEConcatStep(s, t);
    }
  }

  lemma LEConcatStep(s: seq<byte>, t: seq<byte>)
    requires s != [] && (s + t)[1..] == s[1..] + t
    requires LE(s[1..] + t) == LE(s[1..]) + Pow2(8 * (|s| - 1)) * LE(t)
    ensures LE(s + t) == LE(s) + Pow2(8 * |s|) * LE(t)
  {
    hide Pow2;
    NextByteWeight(|s|, LE(t));
    assert LE(s + t) == s[0] + 0x100 * LE(s[1..] + t);
  }

  /* Bit i of a byte string is bit i mod 8 of byte i / 8. */
  lemma {:induction false} BitOfLE(s: seq<byte>, i: nat)
    requires i / 8 < |s|
    ensures Bit(LE(s), i) == Bit(s[i / 8], i % 8)
  {
    hide Bit;
    Pow2Values();
    if i < 8 {
      BitLow(s[0], LE(s[1..]), 8, i);
    } else {
      BitHigh(s[0], LE(s[1..]), 8, i - 8);
      BitOfLE(s[1..], i - 8);
    }
  }

  /* Storing a number and reading it back keeps its low bytes. */
  lemma {:induction false} LEofLEBytes(v: nat, n: nat)
    ensures LE(LEBytes(v, n)) == v % Pow2(8 * n)
    decreases n
  {
    if n > 0 {
      LEofLEBytes(v / 0x100, n - 1);
      Pow2Values();
      var m := Pow2(8 * n - 8);
      Pow2Add(8, 8 * n - 8);
      ByteMod(v, m);
      assert LEBytes(v, n)[1..] == LEBytes(v / 0x100, n - 1);
    }
  }

  lemma FourBytes(w: word)
    ensures LEBytes(w, 4) == [w % 0x100, w / 0x100 % 0x100, w / 0x1_0000 % 0x100, w / 0x100_0000 % 0x100]
  {
    var x: int := w;
    assert LEBytes(x, 4) == [x % 0x100] + LEBytes(x / 0x100, 3);
    assert LEBytes(x / 0x100, 3) == [x / 0x100 % 0x100] + LEBytes(x / 0x100 / 0x100, 2);
    assert LEBytes(x / 0x100 / 0x100, 2) == [x / 0x100 / 0x100 % 0x100] + LEBytes(x / 0x100 / 0x100 / 0x100, 1);
    assert LEBytes(x / 0x100 / 0x100 / 0x100, 1) ==
      [x / 0x100 / 0x100 / 0x100 % 0x100] + LEBytes(x / 0x100 / 0x100 / 0x100 / 0x100, 0);
  }

  lemma WordBytes(w: word)
    ensures LE(LEBytes(w, 4)) == w
  {
    hide LE, LEBytes;
    Pow2Values();
    LEofLEBytes(w, 4);
  }

  lemma ByteMod(v: nat, m: nat)
    requires m > 0
    ensures v % (0x100 * m) == 0x100 * (v / 0x100 % m) + v % 0x100
  {
    var q, r := v / 0x100 / m, v / 0x100 % m;
    assert v / 0x100 == q * m + r;
    assert 0x100 * (q * m) == q * (0x100 * m);
    DivModUnique(v, 0x100 * m, q, 0x100 * r + v % 0x100);
  }

  lemma Pow2At64()
    ensures Pow2(64) == 0x1_0000_0000_0000_0000
  {
    hide Pow2;
    Pow2Values();
    Pow2Add(32, 32);
  }

  /* A byte string is the encoding of its own value. */
  lemma {:induction false} LEBytesOfLE(s: seq<byte>)
    ensures LEBytes(LE(s), |s|) == s
  {
    if s != [] {
      LEBytesOfLE(s[1..]);
      DivModUnique(LE(s), 0x100, LE(s[1..]), s[0]);
    }
  }

  /* Four bytes at an offset, combined with shifts and ors as U8TO32 does. */
  function Load32(s: seq<byte>, i: nat): (w: word)
    requires i + 4 <= |s|
    ensures w == LE(s[i..i + 4])
  {
    Load32Value(s, i);
    Or(Or(Or(s[i], s[i + 1] as int * 0x100), s[i + 2] as int * 0x1_0000), s[i + 3] as int * 0x100_0000)
  }

  lemma Load32Value(s: seq<byte>, i: nat)
    requires i + 4 <= |s|
    ensures Or(Or(Or(s[i], s[i + 1] as int * 0x100), s[i + 2] as int * 0x1_0000), s[i + 3] as int * 0x100_0000)
            == LE(s[i..i + 4]) < B
  {
    hide Or, LE;
    Pow2Values();
    OrDisjoint(s[i + 1], s[i], 8);
    OrDisjoint(s[i + 2], s[i] as int + 0x100 * s[i + 1] as int, 16);
    OrDisjoint(s[i + 3], s[i] as int + 0x100 * s[i + 1] as int + 0x1_0000 * s[i + 2] as int, 24);
    LE4(s[i..i + 4]);
  }

  lemma LE4(s: seq<byte>)
    requires |s| == 4
    ensures LE(s) == s[0] as int + 0x100 * s[1] as int + 0x1_0000 * s[2] as int + 0x100_0000 * s[3] as int
  {
    assert LE(s[1..]) == s[1] + 0x100 * LE(s[1..][1..]);
    assert LE(s[1..][1..]) == s[2] + 0x100 * LE(s[1..][1..][1..]);
    assert LE(s[1..][1..][1..]) == s[3];
  }

  /* Clearing the low four bits of a 32-bit size rounds it down to a multiple of 16. */
  lemma RoundDown16(n: word)
    ensures And(n, 0xffff_fff0) == n / 16 * 16 == n - n % 16
  {
    hide And, Pow2;
    Pow2Values();
    assert Pow2(4) == 16 && Pow2(28) == 0x1000_0000 by {
      Pow2Add(2, 2);
      Pow2Add(26, 2);
    }
    AndSplit(n, 0xffff_fff0, 4);
    AndZero(n % 16);
    AndMask(n / 16, 28);
  }

  lemma AndZero(x: nat)
    ensures And(x, 0) == 0
  {
  }

  /* Appending adjacent pieces of a buffer one after the other appends their union. */
  lemma AppendSlices<T>(a: seq<T>, m: seq<T>, p: nat, q: nat, e: nat)
    requires p <= q <= e <= |m|
    ensures (a + m[p..q]) + m[q..e] == a + m[p..e]
  {
    assert m[p..q] + m[q..e] == m[p..e];
  }

  lemma SliceSlice<T>(m: seq<T>, a: nat, b: nat, c: nat, d: nat)
    requires a <= b <= |m| && c <= d <= b - a
    ensures m[a..b][c..d] == m[a + c..a + d]
  {
    var s, t := m[a..b][c..d], m[a + c..a + d];
    forall i | 0 <= i < d - c
      ensures s[i] == t[i]
    {
      assert s[i] == m[a..b][c + i] == m[a + (c + i)];
      assert t[i] == m[a + c + i];
    }
  }
}
