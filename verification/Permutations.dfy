/**
 The two permutations behind ChaCha20 and BLAKE2s, described apart from the
 programs: rotations as arithmetic, the word functions with their inverses,
 rounds as columns and turned columns, and whole runs of rounds as traces.
 The tables of BLAKE2s are pinned by how they were chosen.
 */
module Permutations {
  import opened Words
  import C = ChaCha20
  import H = Blake2s

  // ---------- rotations ----------

  /* The high n bits of a word come below the others. */
  function Rotated(v: word, n: nat): nat
    requires 0 < n < 32
  {
    HighNonneg(v, Pow2(32 - n));
    v as int % Pow2(32 - n) * Pow2(n) + v / Pow2(32 - n)
  }

  lemma Halves(v: word, n: nat)
    requires 0 < n < 32
    ensures Pow2(n) * Pow2(32 - n) == B && 0 <= v / Pow2(32 - n) < Pow2(n)
    ensures v as int * Pow2(n) % B == v as int % Pow2(32 - n) * Pow2(n)
  {
    hide Pow2;
    Pow2Values();
    Pow2Add(n, 32 - n);
    var p, q := Pow2(n), Pow2(32 - n);
    var h, l := v / q, v as int % q;
    HighNonneg(v, q);
    QuotientUnder(v, p, q, h, l);
    assert v as int * p == h * B + l * p by { Spread(h, q, l, p); }
    ProductUnder(l, q, p);
    DivModUnique(v as int * p, B, h, l * p);
  }

  lemma Spread(h: int, q: int, l: int, p: int)
    ensures (h * q + l) * p == h * (p * q) + l * p
  {
  }

  lemma QuotientUnder(v: int, p: int, q: int, h: int, l: int)
    requires 0 <= v < p * q && v == h * q + l && 0 <= l < q && 0 < p
    ensures h < p
  {
    assert (h - p) * q == h * q - p * q;
    MulGap(h - p, q);
  }

  lemma ProductUnder(l: int, q: int, p: int)
    requires 0 <= l < q && 0 < p
    ensures 0 <= l * p < p * q
  {
    assert l * p <= (q - 1) * p;
  }

  lemma RotLValue(v: word, n: nat)
    requires 0 < n < 32
    ensures C.RotL(v, n) == Rotated(v, n)
  {
    hide Pow2, Or;
    Halves(v, n);
    OrDisjoint(v as int % Pow2(32 - n), v / Pow2(32 - n), n);
  }

  lemma RotRValue(v: word, n: nat)
    requires 0 < n < 32
    ensures H.RotR(v, n) == Rotated(v, 32 - n)
  {
    hide Pow2, Xor, And;
    Halves(v, 32 - n);
    var h, l, k := v / Pow2(n), v as int % Pow2(n), 32 - n;
    XorPlusAnd(h, l * Pow2(k));
    AndSplit(h, l * Pow2(k), k);
    DivModUnique(l * Pow2(k), Pow2(k), l, 0);
    DivModUnique(h, Pow2(k), 0, h);
    AndZero(h);
    AndNothing(l);
  }

  lemma AndNothing(x: nat)
    ensures And(0, x) == 0
  {
  }

  lemma {:induction false} XorPlusAnd(x: nat, y: nat)
    ensures Xor(x, y) + 2 * And(x, y) == x + y
    decreases x + y
  {
    if x != 0 && y != 0 {
      XorPlusAnd(x / 2, y / 2);
    }
  }

  /* Rotating by n and then by 32 - n gives the word back. */
  lemma RotatedBack(v: word, n: nat)
    requires 0 < n < 32
    ensures Rotated(v, n) < B && Rotated(Rotated(v, n), 32 - n) == v
  {
    hide Pow2;
    Halves(v, n);
    var p, q := Pow2(n), Pow2(32 - n);
    var h, l := v / q, v as int % q;
    RotatedUnder(l, q, h, p);
    DivModUnique(l * p + h, p, l, h);
  }

  lemma RotatedUnder(l: int, q: int, h: int, p: int)
    requires 0 <= l < q && 0 <= h < p
    ensures 0 <= l * p + h < p * q
  {
    assert l * p <= (q - 1) * p && 0 <= l * p;
    assert (q - 1) * p == p * q - p;
  }

  function SubWord(x: word, y: word): word
  {
    (x as int - y as int) % B
  }

  lemma SubAdd(x: word, y: word)
    ensures SubWord(AddWord(x, y), y) == x
  {
  }

  lemma XorBack(x: word, y: word)
    ensures XorWord(XorWord(x, y), y) == x
  {
  }

  // ---------- the quarter round of ChaCha20 ----------

  function RotLeft(v: word, n: nat): (r: word)
    requires 0 < n < 32
    ensures r == Rotated(v, n)
  {
    RotatedBack(v, n);
    Rotated(v, n)
  }

  /* The eight operations taken back in reverse. */
  function Unquarter(a2: word, b2: word, c2: word, d2: word): (word, word, word, word)
  {
    var b1 := XorWord(RotLeft(b2, 25), c2);
    var c1 := SubWord(c2, d2);
    var d1 := XorWord(RotLeft(d2, 24), a2);
    var a1 := SubWord(a2, b1);
    var b0 := XorWord(RotLeft(b1, 20), c1);
    var c0 := SubWord(c1, d1);
    var d0 := XorWord(RotLeft(d1, 16), a1);
    (SubWord(a1, b0), b0, c0, d0)
  }

  lemma TakenBack(x: word, y: word, n: nat)
    requires 0 < n < 32
    ensures XorWord(RotLeft(C.RotL(XorWord(x, y), n), 32 - n), y) == x
  {
    hide Rotated, Xor;
    RotLValue(XorWord(x, y), n);
    RotatedBack(XorWord(x, y), n);
    XorBack(x, y);
  }

  lemma QuarterInverse(a: word, b: word, c: word, d: word)
    ensures var q := C.Quarter(a, b, c, d); Unquarter(q.0, q.1, q.2, q.3) == (a, b, c, d)
  {
    hide C.RotL, RotLeft, XorWord, AddWord, SubWord;
    var a1 := AddWord(a, b);
    var d1 := C.RotL(XorWord(d, a1), 16);
    var c1 := AddWord(c, d1);
    var b1 := C.RotL(XorWord(b, c1), 12);
    var a2 := AddWord(a1, b1);
    var d2 := C.RotL(XorWord(d1, a2), 8);
    var c2 := AddWord(c1, d2);
    TakenBack(b1, c2, 7);
    TakenBack(d1, a2, 8);
    TakenBack(b, c1, 12);
    TakenBack(d, a1, 16);
    SubAdd(c1, d2);
    SubAdd(a1, b1);
    SubAdd(c, d1);
    SubAdd(a, b);
  }

  // ---------- columns and diagonals ----------

  function Pick(q: (word, word, word, word), row: nat): word
  {
    match row case 0 => q.0 case 1 => q.1 case 2 => q.2 case _ => q.3
  }

  /* Row r of the four rows turned left by r places, so that diagonals become columns. */
  function Turn(s: seq<word>): (r: seq<word>)
    requires |s| == 16
    ensures |r| == 16
  {
    seq(16, i requires 0 <= i < 16 => s[i / 4 * 4 + (i % 4 + i / 4) % 4])
  }

  /* The same to the right. */
  function Unturn(s: seq<word>): (r: seq<word>)
    requires |s| == 16
    ensures |r| == 16
  {
    seq(16, i requires 0 <= i < 16 => s[i / 4 * 4 + (i % 4 + 3 * (i / 4)) % 4])
  }

  /* The quarter round on all four columns at once. */
  function Columns(s: seq<word>): (r: seq<word>)
    requires |s| == 16
    ensures |r| == 16
  {
    hide *;
    seq(16, i requires 0 <= i < 16 => Pick(C.Quarter(s[i % 4], s[4 + i % 4], s[8 + i % 4], s[12 + i % 4]), i / 4))
  }

  lemma EachColumn(s: seq<word>)
    requires |s| == 16
    ensures C.QuarterAt(C.QuarterAt(C.QuarterAt(C.QuarterAt(s, 0, 4, 8, 12), 1, 5, 9, 13), 2, 6, 10, 14), 3, 7, 11, 15)
         == Columns(s)
  {
    hide C.Quarter;
  }

  lemma TurnDisplay(s: seq<word>)
    requires |s| == 16
    ensures Turn(s) == [s[0], s[1], s[2], s[3], s[5], s[6], s[7], s[4],
                        s[10], s[11], s[8], s[9], s[15], s[12], s[13], s[14]]
    ensures Unturn(s) == [s[0], s[1], s[2], s[3], s[7], s[4], s[5], s[6],
                          s[10], s[11], s[8], s[9], s[13], s[14], s[15], s[12]]
  {
  }

  lemma EachDiagonal(s: seq<word>)
    requires |s| == 16
    ensures C.QuarterAt(C.QuarterAt(C.QuarterAt(C.QuarterAt(s, 0, 5, 10, 15), 1, 6, 11, 12), 2, 7, 8, 13), 3, 4, 9, 14)
         == Unturn(Columns(Turn(s)))
  {
    hide C.Quarter, Turn, Unturn;
    var q0, q1 := C.Quarter(s[0], s[5], s[10], s[15]), C.Quarter(s[1], s[6], s[11], s[12]);
    var q2, q3 := C.Quarter(s[2], s[7], s[8], s[13]), C.Quarter(s[3], s[4], s[9], s[14]);
    TurnDisplay(s);
    assert Columns(Turn(s)) == [q0.0, q1.0, q2.0, q3.0, q0.1, q1.1, q2.1, q3.1,
                                q0.2, q1.2, q2.2, q3.2, q0.3, q1.3, q2.3, q3.3];
    hide Columns;
    TurnDisplay(Columns(Turn(s)));
  }

  /* A double round works on the columns, and then on the diagonals. */
  lemma DoubleRoundShape(s: seq<word>)
    requires |s| == 16
    ensures C.DoubleRound(s) == Unturn(Columns(Turn(Columns(s))))
  {
    hide C.QuarterAt, Columns, Turn, Unturn;
    EachColumn(s);
    EachDiagonal(Columns(s));
  }

  // ---------- the block function of ChaCha20 ----------

  type state = s: seq<word> | |s| == 16 witness seq(16, _ => 0)

  /* Column rounds and diagonal rounds in turn, beginning with columns. */
  predicate Alternates(t: seq<state>)
  {
    forall i :: 0 <= i < |t| - 1 ==> t[i + 1] == if i % 2 == 0 then Columns(t[i]) else Unturn(Columns(Turn(t[i])))
  }

  lemma {:induction false} RoundsTrace(s: state, n: nat) returns (t: seq<state>)
    ensures |t| == 2 * n + 1 && t[0] == s && t[2 * n] == C.Rounds(s, n) && Alternates(t)
  {
    hide C.DoubleRound, Columns, Turn, Unturn;
    if n == 0 {
      t := [s];
    } else {
      t := RoundsTrace(s, n - 1);
      var a: state := Columns(t[2 * n - 2]);
      var b: state := Unturn(Columns(Turn(a)));
      DoubleRoundShape(t[2 * n - 2]);
      t := t + [a, b];
    }
  }

  lemma {:induction false} SerializeAt(s: seq<word>, i: nat)
    requires i < |s|
    ensures C.Serialize(s)[4 * i..4 * i + 4] == LEBytes(s[i], 4)
    decreases |s|
  {
    hide LEBytes;
    var n := |s| - 1;
    var head := C.Serialize(s[..n]);
    if i < n {
      SerializeAt(s[..n], i);
      assert C.Serialize(s)[4 * i..4 * i + 4] == head[4 * i..4 * i + 4];
    }
  }

  /* A block is the state after twenty rounds plus the state before them, word by word. */
  lemma BlockTrace(s: state) returns (t: seq<state>)
    ensures |t| == 21 && t[0] == s && Alternates(t)
    ensures forall i :: 0 <= i < 16 ==>
      LE(C.Block(s)[4 * i..4 * i + 4]) == (t[20][i] as int + s[i] as int) % 0x1_0000_0000
  {
    hide C.Rounds, C.Serialize, LE, LEBytes, Alternates, Pow2;
    t := RoundsTrace(s, 10);
    var sums := C.Sums(t[20], s);
    forall i | 0 <= i < 16
      ensures LE(C.Block(s)[4 * i..4 * i + 4]) == (t[20][i] as int + s[i] as int) % 0x1_0000_0000
    {
      SerializeAt(sums, i);
      WordBytes(sums[i]);
    }
  }

  /* HChaCha20 runs the same twenty rounds. */
  lemma OuterTrace(s: state) returns (t: seq<state>)
    ensures |t| == 21 && t[0] == s && Alternates(t) && t[20] == C.Rounds(s, 10)
  {
    hide C.Rounds, Alternates;
    t := RoundsTrace(s, 10);
  }

  // ---------- the mixing function of BLAKE2s ----------

  /* The eight operations taken back in reverse. */
  function Unmix(a2: word, b2: word, c2: word, d2: word, x: word, y: word): (word, word, word, word)
  {
    var b1 := XorWord(RotLeft(b2, 7), c2);
    var c1 := SubWord(c2, d2);
    var d1 := XorWord(RotLeft(d2, 8), a2);
    var a1 := SubWord(SubWord(a2, y), b1);
    var b0 := XorWord(RotLeft(b1, 12), c1);
    var c0 := SubWord(c1, d1);
    var d0 := XorWord(RotLeft(d1, 16), a1);
    (SubWord(SubWord(a1, x), b0), b0, c0, d0)
  }

  lemma TurnedBack(x: word, y: word, n: nat)
    requires 0 < n < 32
    ensures XorWord(RotLeft(H.RotR(XorWord(x, y), n), n), y) == x
  {
    hide Rotated, Xor;
    RotRValue(XorWord(x, y), n);
    RotatedBack(XorWord(x, y), 32 - n);
    XorBack(x, y);
  }

  lemma MixInverse(a: word, b: word, c: word, d: word, x: word, y: word)
    ensures var q := H.G(a, b, c, d, x, y); Unmix(q.0, q.1, q.2, q.3, x, y) == (a, b, c, d)
  {
    hide H.RotR, RotLeft, XorWord, AddWord, SubWord;
    var a1 := AddWord(AddWord(a, b), x);
    var d1 := H.RotR(XorWord(d, a1), 16);
    var c1 := AddWord(c, d1);
    var b1 := H.RotR(XorWord(b, c1), 12);
    var a2 := AddWord(AddWord(a1, b1), y);
    var d2 := H.RotR(XorWord(d1, a2), 8);
    var c2 := AddWord(c1, d2);
    TurnedBack(b1, c2, 7);
    TurnedBack(d1, a2, 8);
    TurnedBack(b, c1, 12);
    TurnedBack(d, a1, 16);
    SubAdd(c1, d2);
    SubAdd(AddWord(a1, b1), y);
    SubAdd(a1, b1);
    SubAdd(c, d1);
    SubAdd(AddWord(a, b), x);
    SubAdd(a, b);
  }

  /* The mixing function on all four columns, with two message words for each. */
  function MixColumns(v: seq<word>, m: seq<word>): (r: seq<word>)
    requires |v| == 16 && |m| == 8
    ensures |r| == 16
  {
    hide *;
    seq(16, i requires 0 <= i < 16 =>
          Pick(H.G(v[i % 4], v[4 + i % 4], v[8 + i % 4], v[12 + i % 4], m[2 * (i % 4)], m[2 * (i % 4) + 1]), i / 4))
  }

  /* The message words in the order of a table row. */
  function Ordered(m: seq<word>, row: seq<H.index>): (r: seq<word>)
    requires |m| == 16
    ensures |r| == |row|
  {
    seq(|row|, i requires 0 <= i < |row| => m[row[i]])
  }

  lemma EachMixedColumn(v: seq<word>, m: seq<word>)
    requires |v| == 16 && |m| == 8
    ensures
      H.Mix(H.Mix(H.Mix(H.Mix(v, 0, 4, 8, 12, m[0], m[1]), 1, 5, 9, 13, m[2], m[3]), 2, 6, 10, 14, m[4], m[5]),
            3, 7, 11, 15, m[6], m[7]) == MixColumns(v, m)
  {
    hide H.G;
  }

  lemma EachMixedDiagonal(v: seq<word>, m: seq<word>)
    requires |v| == 16 && |m| == 8
    ensures
      H.Mix(H.Mix(H.Mix(H.Mix(v, 0, 5, 10, 15, m[0], m[1]), 1, 6, 11, 12, m[2], m[3]), 2, 7, 8, 13, m[4], m[5]),
            3, 4, 9, 14, m[6], m[7]) == Unturn(MixColumns(Turn(v), m))
  {
    hide H.G, Turn, Unturn;
    var q0, q1 := H.G(v[0], v[5], v[10], v[15], m[0], m[1]), H.G(v[1], v[6], v[11], v[12], m[2], m[3]);
    var q2, q3 := H.G(v[2], v[7], v[8], v[13], m[4], m[5]), H.G(v[3], v[4], v[9], v[14], m[6], m[7]);
    TurnDisplay(v);
    assert MixColumns(Turn(v), m) == [q0.0, q1.0, q2.0, q3.0, q0.1, q1.1, q2.1, q3.1,
                                      q0.2, q1.2, q2.2, q3.2, q0.3, q1.3, q2.3, q3.3];
    hide MixColumns;
    TurnDisplay(MixColumns(Turn(v), m));
  }

  /* A round mixes the first eight message words of its row into the columns, the others into the diagonals. */
  lemma RoundShape(v: seq<word>, m: seq<word>, row: seq<H.index>)
    requires |v| == |m| == |row| == 16
    ensures
      var w := Ordered(m, row);
      H.Round(v, m, row) == Unturn(MixColumns(Turn(MixColumns(v, w[..8])), w[8..]))
  {
    hide H.Mix, MixColumns, Turn, Unturn;
    var w := Ordered(m, row);
    EachMixedColumn(v, w[..8]);
    EachMixedDiagonal(MixColumns(v, w[..8]), w[8..]);
  }
}
