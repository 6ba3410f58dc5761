/**
 Little-endian numbers in 32-bit limbs, and the three carry primitives of
 x25519.c (umaal, adc, adc0).
 */
module Limbs {
  import opened Words

  /* The weight 2^(32 i) of limb i. */
  function W(i: nat): (r: nat)
    ensures r > 0
  {
    if i == 0 then 1 else B * W(i - 1)
  }

  /* The number denoted by a limb sequence. */
  function Val(s: seq<word>): (r: nat)
  {
    if s == [] then 0 else Val(s[..|s| - 1]) + s[|s| - 1] * W(|s| - 1)
  }

  lemma {:induction false} WAdd(i: nat, j: nat)
    ensures W(i + j) == W(i) * W(j)
  {
    if i > 0 {
      WAdd(i - 1, j);
      assert B * (W(i - 1) * W(j)) == (B * W(i - 1)) * W(j);
    }
  }

  lemma WValues()
    ensures W(1) == B && W(8) == 0x1_00000000_00000000_00000000_00000000_00000000_00000000_00000000_00000000
    ensures W(7) == 0x1_00000000_00000000_00000000_00000000_00000000_00000000_00000000
  {
    assert W(2) == B * B;
    WAdd(2, 2);
    WAdd(4, 2);
    assert W(7) == B * W(6) && W(8) == B * W(7);
  }

  /* Before the first limb there is nothing. */
  lemma ValInit(s: seq<word>)
    ensures Val(s[..0]) == 0 && W(0) == 1
  {
  }

  lemma ValSnoc(s: seq<word>, i: nat)
    requires i < |s|
    ensures Val(s[..i + 1]) == Val(s[..i]) + s[i] * W(i)
  {
    assert s[..i + 1][..i] == s[..i];
  }

  lemma {:induction false} ValBound(s: seq<word>)
    ensures Val(s) < W(|s|)
  {
    if s != [] {
      var n := |s| - 1;
      ValBound(s[..n]);
      MulMono(s[n], B - 1, W(n));
    }
  }

  lemma MulMono(x: int, m: int, w: int)
    requires 0 <= x <= m && 0 <= w
    ensures 0 <= x * w <= m * w
  {
    assert (m - x) * w >= 0;
    assert (m - x) * w == m * w - x * w;
  }

  /* Cutting a number at limb k. */
  lemma {:induction false} ValSplit(s: seq<word>, k: nat)
    requires k <= |s|
    ensures Val(s) == Val(s[..k]) + Val(s[k..]) * W(k)
  {
    if k == |s| {
      assert s[..k] == s;
    } else {
      var n := |s| - 1;
      ValSplit(s[..n], k);
      assert s[..n][..k] == s[..k];
      assert s[..n][k..] == s[k..][..n - k];
      WAdd(n - k, k);
      var x: int := s[n];
      assert s[k..][n - k] == x;
      Distribute(Val(s[..n][k..]), x, W(n - k), W(k));
    }
  }

  lemma Distribute(a: int, x: int, u: int, w: int)
    ensures (a + x * u) * w == a * w + x * (u * w)
  {
  }

  lemma {:induction false} ValZero(s: seq<word>)
    ensures Val(s) == 0 <==> forall i :: 0 <= i < |s| ==> s[i] == 0
  {
    if s != [] {
      var n := |s| - 1;
      ValZero(s[..n]);
      var x: int := s[n];
      if x != 0 {
        assert x * W(n) > 0;
      } else {
        assert forall i :: 0 <= i < n ==> s[..n][i] == s[i];
      }
    }
  }

  /* Writing one digit of a running sum: lo is stored at limb i, hi carried on. */
  lemma DigitStep(before: seq<word>, after: seq<word>, i: nat, lo: word, hi: int, c: int, d: int, v: int)
    requires i < |before| && after == before[i := lo]
    requires Val(before[..i]) + c * W(i) == v
    requires lo as int + hi * B == d + c
    ensures Val(after[..i + 1]) + hi * W(i + 1) == v + d * W(i)
  {
    ValSnoc(after, i);
    assert after[..i] == before[..i];
    CarryStep(W(i), lo, hi, d, c);
  }

  lemma CarryStep(w: int, lo: int, hi: int, d: int, c: int)
    requires lo + hi * B == d + c
    ensures lo * w + hi * (B * w) == d * w + c * w
  {
    assert (lo + hi * B) * w == (d + c) * w;
    assert (lo + hi * B) * w == lo * w + hi * (B * w);
  }

  lemma MulWords(x: word, y: word)
    ensures 0 <= x as int * y as int <= (B - 1) * (B - 1)
  {
    MulMono(x, B - 1, y);
  }

  method Umaal(carry: word, acc: word, mand: word, mier: word) returns (lo: word, carry': word)
    ensures lo as int + carry' as int * B == mand as int * mier as int + acc as int + carry as int
  {
    MulWords(mand, mier);
    var tmp: dword := mand as int * mier as int + acc as int + carry as int;
    carry' := tmp / B;
    lo := tmp % B;
  }

  method Adc(carry: word, acc: word, mand: word) returns (lo: word, carry': word)
    ensures lo as int + carry' as int * B == carry as int + acc as int + mand as int
  {
    var total: dword := carry as int + acc as int + mand as int;
    carry' := total / B;
    lo := total % B;
  }

  method Adc0(carry: word, acc: word) returns (lo: word, carry': word)
    ensures lo as int + carry' as int * B == carry as int + acc as int
  {
    var total: dword := carry as int + acc as int;
    carry' := total / B;
    lo := total % B;
  }
}
