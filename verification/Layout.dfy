/**
 Where every byte goes in AEAD_CHACHA20_POLY1305: the initial state of the
 cipher as a byte string, the block at which the text starts, the layout of
 the authenticated text, the clamped key, and the authenticator as one
 polynomial.
 */
module Layout {
  import opened Words
  import F = PolyField
  import P = Poly1305
  import C = ChaCha20
  import A = Aead

  // ---------- the cipher's state ----------

  lemma {:induction false} SerializeConcat(s: seq<word>, t: seq<word>)
    ensures C.Serialize(s + t) == C.Serialize(s) + C.Serialize(t)
    decreases |t|
  {
    hide LEBytes;
    if t == [] {
      assert s + t == s;
    } else {
      var n := |t| - 1;
      SerializeConcat(s, t[..n]);
      assert (s + t)[..|s + t| - 1] == s + t[..n];
    }
  }

  lemma SerializeOne(w: word)
    ensures C.Serialize([w]) == LEBytes(w, 4)
  {
    hide LEBytes;
    assert [w][..0] == [];
  }

  lemma {:induction false} LoadedBytes(b: seq<byte>, s: seq<word>)
    requires |b| == 4 * |s| && forall i :: 0 <= i < |s| ==> s[i] == Load32(b, 4 * i)
    ensures C.Serialize(s) == b
    decreases |s|
  {
    hide Load32, LEBytes;
    if s != [] {
      var n := |s| - 1;
      forall i | 0 <= i < n
        ensures s[i] == Load32(b[..4 * n], 4 * i)
      {
        assert b[..4 * n][4 * i..4 * i + 4] == b[4 * i..4 * i + 4];
      }
      LoadedBytes(b[..4 * n], s[..n]);
      LEBytesOfLE(b[4 * n..4 * n + 4]);
      assert b == b[..4 * n] + b[4 * n..4 * n + 4];
    }
  }

  const EXPAND: string := "expand 32-byte k"

  lemma ConstantBytes()
    ensures C.Serialize(C.CONSTANTS) == Ascii(EXPAND)
  {
    hide LEBytes;
    var t := Ascii(EXPAND);
    assert t == [101, 120, 112, 97, 110, 100, 32, 51, 50, 45, 98, 121, 116, 101, 32, 107];
    forall i | 0 <= i < 4
      ensures C.CONSTANTS[i] == Load32(t, 4 * i)
    {
      hide Load32;
      LE4(t[4 * i..4 * i + 4]);
    }
    LoadedBytes(t, C.CONSTANTS);
  }

  lemma KeyBytes(key: seq<byte>)
    requires |key| == 32
    ensures C.Serialize(C.KeyWords(key)) == key
  {
    hide Load32;
    LoadedBytes(key, C.KeyWords(key));
  }

  /* The state is a constant text, the key, eight zero bytes for the block counter, and the nonce. */
  lemma StateBytes(key: seq<byte>, nonce: dword)
    requires |key| == 32
    ensures C.Serialize(C.InitState(key, nonce)) == Ascii("expand 32-byte k") + key + Zeros(8) + LEBytes(nonce, 8)
  {
    hide Load32, C.Serialize, C.KeyWords, Zeros, LEBytes, Ascii;
    ConstantBytes();
    KeyBytes(key);
    var tail := [0, 0, nonce % B, nonce / B];
    SerializeConcat(C.CONSTANTS + C.KeyWords(key), tail);
    SerializeConcat(C.CONSTANTS, C.KeyWords(key));
    TailBytes(nonce);
    assert C.InitState(key, nonce) == C.CONSTANTS + C.KeyWords(key) + tail;
    assert Ascii(EXPAND) + key + (Zeros(8) + LEBytes(nonce, 8)) == Ascii(EXPAND) + key + Zeros(8) + LEBytes(nonce, 8);
  }

  lemma TailBytes(nonce: dword)
    ensures C.Serialize([0, 0, nonce % B, nonce / B]) == Zeros(8) + LEBytes(nonce, 8)
  {
    hide Zeros, LEBytes, C.Serialize;
    var n := LEBytes(nonce, 8);
    SerializeConcat([0, 0], [nonce % B, nonce / B]);
    assert [0, 0] + [nonce % B, nonce / B] == [0, 0, nonce % B, nonce / B];
    NonceParts(nonce);
    ZeroWords();
    LoadedBytes(n, [nonce % B, nonce / B]);
  }

  lemma ZeroWords()
    ensures C.Serialize([0, 0]) == Zeros(8)
  {
    hide Load32;
    LE4(Zeros(8)[0..4]);
    LE4(Zeros(8)[4..8]);
    LoadedBytes(Zeros(8), [0, 0]);
  }

  lemma NonceParts(nonce: dword)
    ensures LE(LEBytes(nonce, 8)[0..4]) == nonce % B && LE(LEBytes(nonce, 8)[4..8]) == nonce / B
  {
    hide LE, Pow2;
    var t := LEBytes(nonce, 8);
    hide LEBytes;
    Pow2Values();
    LEofLEBytes(nonce, 8);
    LEConcat(t[0..4], t[4..8]);
    assert t[0..4] + t[4..8] == t;
    LEBound(t[0..4]);
    Pow2Add(32, 32);
    DivModUnique(nonce, B, LE(t[4..8]), LE(t[0..4]));
  }

  // ---------- the blocks of the key stream ----------

  /* The one-time key is the first half of block zero. */
  lemma OneTimeKeyBlock(key: seq<byte>, nonce: dword)
    requires |key| == 32
    ensures A.OneTimeKey(key, nonce) == C.Block(C.InitState(key, nonce))[..32]
  {
    hide C.Block, XorByte;
    var s: seq<word> := C.InitState(key, nonce);
    assert s[12] == 0 && s[12 := 0] == s;
    forall i | 0 <= i < 32
      ensures A.OneTimeKey(key, nonce)[i] == C.Block(s)[i]
    {
      ZeroXor(C.Block(s)[i]);
    }
  }

  lemma ZeroXor(x: byte)
    ensures XorByte(0, x) == x
  {
  }

  /* Block n of the key stream. */
  function BlockAt(key: seq<byte>, nonce: dword, n: nat): (b: seq<byte>)
    requires |key| == 32
    ensures |b| == 64
  {
    hide *;
    C.Block(C.InitState(key, nonce)[12 := Mod32(n)])
  }

  function Mod32(n: nat): word
  {
    n % 0x1_0000_0000
  }

  /* Byte i of the text meets byte i % 64 of block 1 + i / 64. */
  lemma TextBlocks(key: seq<byte>, nonce: dword, ad: seq<byte>, plain: seq<byte>, i: nat)
    requires |key| == 32 && i < |plain|
    ensures A.Seal(key, nonce, ad, plain)[i] == XorByte(plain[i], BlockAt(key, nonce, 1 + i / 64)[i % 64])
  {
    hide C.Block, XorByte, C.InitState, A.Tag, A.Seal, A.Crypt, C.KeyByte, C.XorStream, BlockAt;
    SealCrypt(key, nonce, ad, plain);
    CryptByte(key, nonce, plain, i);
    TextKeyByte(key, nonce, i);
  }

  lemma SealCrypt(key: seq<byte>, nonce: dword, ad: seq<byte>, plain: seq<byte>)
    requires |key| == 32
    ensures A.Seal(key, nonce, ad, plain)[..|plain|] == A.Crypt(key, nonce, plain)
  {
    hide A.Crypt, A.Tag;
  }

  lemma CryptByte(key: seq<byte>, nonce: dword, plain: seq<byte>, i: nat)
    requires |key| == 32 && i < |plain|
    ensures A.Crypt(key, nonce, plain)[i] == XorByte(plain[i], C.KeyByte(C.InitState(key, nonce)[12 := 1], i))
  {
    hide C.KeyByte, XorByte, C.InitState;
  }

  lemma TextKeyByte(key: seq<byte>, nonce: dword, i: nat)
    requires |key| == 32
    ensures C.KeyByte(C.InitState(key, nonce)[12 := 1], i) == BlockAt(key, nonce, 1 + i / 64)[i % 64]
  {
    hide C.Block, C.InitState;
    var s: seq<word> := C.InitState(key, nonce);
    assert s[12 := 1][12 := Mod32(1 + i / 64)] == s[12 := Mod32(1 + i / 64)];
  }

  /* The last sixteen bytes are the authenticator of the authenticated text under that key. */
  lemma SealTag(key: seq<byte>, nonce: dword, ad: seq<byte>, plain: seq<byte>)
    requires |key| == 32
    ensures
      var box, n := A.Seal(key, nonce, ad, plain), |plain|;
      |box| == n + 16 && box[n..] == P.Mac(A.OneTimeKey(key, nonce), A.MacText(ad, box[..n], n))
  {
    hide P.Mac, A.OneTimeKey, A.MacText, A.Crypt;
    var ct := A.Crypt(key, nonce, plain);
    assert A.Seal(key, nonce, ad, plain)[..|plain|] == ct;
  }

  // ---------- the authenticated text ----------

  /* The next multiple of 16. */
  function Round16(n: nat): (r: nat)
    ensures n <= r < n + 16 && r % 16 == 0
  {
    (n + 15) / 16 * 16
  }

  /* Data and ciphertext begin at multiples of 16, zeros fill the gaps, and the two lengths end the text. */
  lemma MacTextLayout(ad: seq<byte>, ct: seq<byte>, ctLen: nat)
    ensures
      var m, p, q := A.MacText(ad, ct, ctLen), Round16(|ad|), Round16(|ad|) + Round16(|ct|);
      && |m| == q + 16
      && m[..|ad|] == ad && m[|ad|..p] == Zeros(p - |ad|)
      && m[p..p + |ct|] == ct && m[p + |ct|..q] == Zeros(q - p - |ct|)
      && LE(m[q..q + 8]) == |ad| % 0x1_0000_0000_0000_0000 && LE(m[q + 8..q + 16]) == ctLen % 0x1_0000_0000_0000_0000
  {
    hide *;
    MacTextPieces(ad, ct, ctLen);
    MacTextLengths(ad, ct, ctLen);
  }

  lemma MacTextPieces(ad: seq<byte>, ct: seq<byte>, ctLen: nat)
    ensures
      var m, p, q := A.MacText(ad, ct, ctLen), Round16(|ad|), Round16(|ad|) + Round16(|ct|);
      && |m| == q + 16
      && m[..|ad|] == ad && m[|ad|..p] == Zeros(p - |ad|)
      && m[p..p + |ct|] == ct && m[p + |ct|..q] == Zeros(q - p - |ct|)
      && m[q..q + 8] == LEBytes(|ad|, 8) && m[q + 8..q + 16] == LEBytes(ctLen, 8)
  {
    hide LEBytes, Zeros, A.PadLen, Round16;
    PadTo16(|ad|);
    PadTo16(|ct|);
    Pieces6(ad, Zeros(A.PadLen(|ad|)), ct, Zeros(A.PadLen(|ct|)), LEBytes(|ad|, 8), LEBytes(ctLen, 8));
    var m := A.MacText(ad, ct, ctLen);
    hide A.MacText;
    assert m[|m| - 8..|m|] == m[|m| - 8..];
  }

  lemma MacTextLengths(ad: seq<byte>, ct: seq<byte>, ctLen: nat)
    ensures LE(LEBytes(|ad|, 8)) == |ad| % 0x1_0000_0000_0000_0000
    ensures LE(LEBytes(ctLen, 8)) == ctLen % 0x1_0000_0000_0000_0000
  {
    hide LE, LEBytes, Pow2;
    LEofLEBytes(|ad|, 8);
    LEofLEBytes(ctLen, 8);
    Pow2At64();
  }

  lemma PadTo16(n: nat)
    ensures n + A.PadLen(n) == Round16(n)
  {
    if n % 16 == 0 {
      DivModUnique(n + 15, 16, n / 16, 15);
    } else {
      DivModUnique(n + 15, 16, n / 16 + 1, n % 16 - 1);
    }
  }

  lemma Pieces6<T>(a: seq<T>, b: seq<T>, c: seq<T>, d: seq<T>, e: seq<T>, f: seq<T>)
    ensures
      var m, p, q, r, s := a + b + c + d + e + f, |a| + |b|, |a| + |b| + |c|, |a| + |b| + |c| + |d|,
                           |a| + |b| + |c| + |d| + |e|;
      && m[..|a|] == a && m[|a|..p] == b && m[p..q] == c && m[q..r] == d && m[r..s] == e && m[s..] == f
      && |m| == s + |f|
  {
    var m := a + b + c + d + e + f;
    assert m[..|a|] == a;
  }

  /* So the text determines data and ciphertext: no two pairs are authenticated by the same text. */
  lemma MacTextInjective(ad: seq<byte>, ct: seq<byte>, ad': seq<byte>, ct': seq<byte>)
    requires A.MacText(ad, ct, |ct|) == A.MacText(ad', ct', |ct'|)
    requires |ad| < TWO64 && |ct| < TWO64 && |ad'| < TWO64 && |ct'| < TWO64
    ensures ad == ad' && ct == ct'
  {
    hide A.MacText, LE;
    MacTextLayout(ad, ct, |ct|);
    MacTextLayout(ad', ct', |ct'|);
    var m := A.MacText(ad, ct, |ct|);
    assert m[|m| - 16..|m| - 16 + 8] == m[|m| - 16..|m| - 8];
    SmallMod64(|ad|);
    SmallMod64(|ct|);
    SmallMod64(|ad'|);
    SmallMod64(|ct'|);
  }

  lemma SmallMod64(n: nat)
    requires n < 0x1_0000_0000_0000_0000
    ensures n % 0x1_0000_0000_0000_0000 == n
  {
  }

  // ---------- the authenticator ----------

  /* The polynomial of section 2.5 of RFC 7539: every block, with a byte 1 behind it, is a coefficient. */
  function Polynomial(r: nat, m: seq<byte>): nat
    decreases |m|
  {
    if m == [] then 0
    else if |m| <= 16 then LE(m + [1]) * r
    else LE(m[..16] + [1]) * Power(r, (|m| + 15) / 16) + Polynomial(r, m[16..])
  }

  function Power(x: nat, n: nat): nat
  {
    if n == 0 then 1 else x * Power(x, n - 1)
  }

  /* A further block: every power rises by one. */
  lemma {:induction false} PolynomialSnoc(r: nat, x: seq<byte>, b: seq<byte>)
    requires |x| % 16 == 0 && 0 < |b| <= 16
    ensures Polynomial(r, x + b) == (Polynomial(r, x) + LE(b + [1])) * r
    decreases |x|
  {
    hide LE;
    if x == [] {
      assert x + b == b;
    } else {
      assert (x + b)[..16] == x[..16] && (x + b)[16..] == x[16..] + b;
      PolynomialSnoc(r, x[16..], b);
      var n, c := (|x| + 15) / 16, LE(x[..16] + [1]);
      BlockCount(|x|, |b|);
      assert Power(r, n + 1) == r * Power(r, n);
      PolynomialFull(r, x);
      Distribute(c, Power(r, n), r, Polynomial(r, x[16..]), LE(b + [1]));
    }
  }

  lemma BlockCount(x: nat, b: nat)
    requires x % 16 == 0 && 0 < b <= 16
    ensures (x + b + 15) / 16 == (x + 15) / 16 + 1
  {
    DivModUnique(x + b + 15, 16, x / 16 + 1, b - 1);
    DivModUnique(x + 15, 16, x / 16, 15);
  }

  lemma PolynomialFull(r: nat, x: seq<byte>)
    requires 0 < |x| && |x| % 16 == 0
    ensures Polynomial(r, x) == LE(x[..16] + [1]) * Power(r, (|x| + 15) / 16) + Polynomial(r, x[16..])
  {
    hide LE;
    if |x| == 16 {
      assert x[..16] == x && x[16..] == [];
      assert Power(r, 1) == r * Power(r, 0) == r;
    }
  }

  lemma Distribute(c: int, w: int, r: int, p: int, l: int)
    ensures c * (r * w) + (p + l) * r == (c * w + p + l) * r
  {
  }

  /* A block with a one bit appended is the block with a byte 1 behind it. */
  lemma AppendedOne(b: seq<byte>)
    ensures P.BlockNum(b) == LE(b + [1])
  {
    hide Pow2;
    LEConcat(b, [1]);
    assert [1][1..] == [];
  }

  lemma {:induction false} AccIsPolynomial(r: nat, m: seq<byte>)
    ensures P.Acc(r, m) == F.ModQ(Polynomial(r, m))
  {
    hide F.ModQ, Polynomial, LE, P.BlockNum;
    if m == [] {
      EmptyPolynomial(r);
    } else {
      var n := |m| - P.LastBlock(m);
      AccIsPolynomial(r, m[..n]);
      PolynomialSnoc(r, m[..n], m[n..]);
      AppendedOne(m[n..]);
      assert m[..n] + m[n..] == m;
      Reduce(Polynomial(r, m[..n]), LE(m[n..] + [1]), r);
    }
  }

  lemma EmptyPolynomial(r: nat)
    ensures F.ModQ(Polynomial(r, [])) == 0
  {
  }

  lemma Reduce(x: nat, b: nat, r: nat)
    ensures F.ModQ((F.ModQ(x) + b) * r) == F.ModQ((x + b) * r)
  {
    hide F.ModQ, F.QuotientQ;
    var q := F.QuotientQ(x);
    assert (x + b) * r == (F.ModQ(x) + b) * r + (q * r) * F.Q;
    F.AddMultipleQ((F.ModQ(x) + b) * r, q * r);
  }

  /* For every key and every text: the tag is the polynomial modulo 2^130 - 5 plus the second half of the
     key, modulo 2^128. */
  lemma TagNumber(key: seq<byte>, m: seq<byte>)
    requires |key| == 32
    ensures LE(P.Mac(key, m))
         == (Polynomial(P.KeyR(key), m) % 0x3_ffffffff_ffffffff_ffffffff_fffffffb + LE(key[16..]))
            % 0x1_00000000_00000000_00000000_00000000
  {
    hide P.Acc, P.KeyR, LE, LEBytes, Polynomial, Pow2;
    AccIsPolynomial(P.KeyR(key), m);
    P.Pow2At128();
    LEofLEBytes((P.Acc(P.KeyR(key), m) + P.KeyS(key)) % F.TWO128, 16);
  }

  // ---------- the clamped key ----------

  /* Section 2.5 of RFC 7539: the top four bits of bytes 3, 7, 11, 15 and the low two bits of bytes 4, 8, 12
     are cleared. */
  function ClampedByte(i: nat, x: byte): byte
  {
    if i % 4 == 3 then x as int % 16 else if i == 4 || i == 8 || i == 12 then x as int - x as int % 4 else x
  }

  function ClampedBytes(b: seq<byte>): (r: seq<byte>)
    ensures |r| == |b|
  {
    seq(|b|, i requires 0 <= i < |b| => ClampedByte(i, b[i]))
  }

  lemma ClampedKey(key: seq<byte>)
    requires |key| == 32
    ensures P.KeyR(key) == LE(ClampedBytes(key[..16]))
  {
    hide And, LE;
    var b := key[..16];
    MaskNumber();
    AndBytes(b, MASK);
    forall i | 0 <= i < 16
      ensures And(b[i], MASK[i]) == ClampedByte(i, b[i])
    {
      MaskByte(b[i]);
    }
    assert AndEach(b, MASK) == ClampedBytes(b);
  }

  const MASK: seq<byte> := [255, 255, 255, 15, 252, 255, 255, 15, 252, 255, 255, 15, 252, 255, 255, 15]

  lemma MaskNumber()
    ensures LE(MASK) == P.CLAMP
  {
    hide LE;
    P.LE16(MASK);
    LE4(MASK[0..4]);
    LE4(MASK[4..8]);
    LE4(MASK[8..12]);
    LE4(MASK[12..16]);
  }

  function AndEach(s: seq<byte>, t: seq<byte>): (r: seq<byte>)
    requires |s| == |t|
    ensures |r| == |s|
  {
    seq(|s|, i requires 0 <= i < |s| => AndByte(s[i], t[i]))
  }

  function AndByte(x: byte, y: byte): (r: byte)
    ensures r == And(x, y)
  {
    AndBelow(x, y);
    And(x, y)
  }

  lemma {:induction false} AndBytes(s: seq<byte>, t: seq<byte>)
    requires |s| == |t|
    ensures And(LE(s), LE(t)) == LE(AndEach(s, t))
  {
    hide And;
    if s == [] {
      AndZero(0);
    } else {
      AndBytes(s[1..], t[1..]);
      assert AndEach(s, t)[1..] == AndEach(s[1..], t[1..]);
      AndDigit(s[0], LE(s[1..]), t[0], LE(t[1..]));
    }
  }

  lemma AndDigit(x: byte, u: nat, y: byte, v: nat)
    ensures And(x as int + 0x100 * u, y as int + 0x100 * v) == And(x, y) + 0x100 * And(u, v)
  {
    hide And, Pow2;
    Pow2Values();
    AndSplit(x as int + 0x100 * u, y as int + 0x100 * v, 8);
  }

  lemma MaskByte(x: byte)
    ensures And(x, 255) == x && And(x, 15) == x as int % 16 && And(x, 252) == x as int - x as int % 4
  {
    hide And, Pow2;
    SmallPowers();
    AndMask(x, 8);
    AndMask(x, 4);
    AndSplit(x, 252, 2);
    AndZero(x as int % 4);
    AndMask(x as int / 4, 6);
  }

  lemma SmallPowers()
    ensures Pow2(2) == 4 && Pow2(4) == 16 && Pow2(6) == 64 && Pow2(8) == 256
  {
  }

  // ---------- the long nonce ----------

  /* The state of HChaCha20 is the constant text, the key and the first sixteen nonce bytes. */
  function HState(nonce: seq<byte>, key: seq<byte>): (s: seq<word>)
    requires |nonce| == 16 && |key| == 32
    ensures |s| == 16
  {
    C.CONSTANTS + C.KeyWords(key)
    + [Load32(nonce, 0), Load32(nonce, 4), Load32(nonce, 8), Load32(nonce, 12)]
  }

  lemma HStateBytes(nonce: seq<byte>, key: seq<byte>)
    requires |nonce| == 16 && |key| == 32
    ensures C.Serialize(HState(nonce, key)) == Ascii("expand 32-byte k") + key + nonce
  {
    hide Load32, C.Serialize, C.KeyWords, LEBytes, Ascii;
    var tail: seq<word> := [Load32(nonce, 0), Load32(nonce, 4), Load32(nonce, 8), Load32(nonce, 12)];
    ConstantBytes();
    KeyBytes(key);
    LoadedBytes(nonce, tail);
    SerializeConcat(C.CONSTANTS + C.KeyWords(key), tail);
    SerializeConcat(C.CONSTANTS, C.KeyWords(key));
  }

  /* The derived key is the outer half of that state after the rounds, which is not added in again. */
  lemma HChaChaOuter(nonce: seq<byte>, key: seq<byte>)
    requires |nonce| == 16 && |key| == 32
    ensures
      var w := C.Serialize(C.Rounds(HState(nonce, key), 10));
      C.HChaCha(nonce, key) == w[..16] + w[48..]
  {
    hide Load32, C.Rounds, C.KeyWords, LEBytes, C.Serialize;
    var s := C.Rounds(HState(nonce, key), 10);
    SerializeConcat(s[..4], s[4..]);
    SerializeConcat(s[..12], s[12..]);
    assert s[..4] + s[4..] == s && s[..12] + s[12..] == s;
  }

  /* The remaining eight nonce bytes are the nonce of the inner cipher. */
  lemma LongNonceNumber(nonce: seq<byte>)
    requires |nonce| == 24
    ensures A.LongNonce(nonce) == LE(nonce[16..])
  {
    hide LE, Pow2;
    Pow2Values();
    LEConcat(nonce[16..20], nonce[20..24]);
    assert nonce[16..20] + nonce[20..24] == nonce[16..];
  }

  /* The extended form derives a key from the first sixteen nonce bytes and goes on with the last eight. */
  lemma XSealLayout(key: seq<byte>, nonce: seq<byte>, ad: seq<byte>, plain: seq<byte>)
    requires |key| == 32 && |nonce| == 24
    ensures LE(nonce[16..]) < TWO64
    ensures A.XSeal(key, nonce, ad, plain) == A.Seal(C.HChaCha(nonce[..16], key), LE(nonce[16..]), ad, plain)
  {
    hide A.Seal, C.HChaCha, A.LongNonce, LE;
    LongNonceNumber(nonce);
  }
}
