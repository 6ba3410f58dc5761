/**
 What the length kept in an int does to decryption: from 2^31 bytes on the tag
 is computed over a sign-extended length, and the text is refused unless the
 clamped r is one of four numbers.
 */
module AeadLengths {
  import opened Words
  import F = PolyField
  import P = Poly1305
  import C = ChaCha20
  import A = Aead

  /* What sign extension adds to the last authenticated block: 2^64 (2^64 - 2^32). */
  const LEAP: nat := 0xffff_ffff_0000_0000_0000_0000_0000_0000

  /* The accumulator over the authenticated text with its true length. */
  function Accumulator(key: seq<byte>, nonce: dword, ad: seq<byte>, ct: seq<byte>): nat
    requires |key| == 32
  {
    P.Acc(P.KeyR(A.OneTimeKey(key, nonce)), A.MacText(ad, ct, |ct|))
  }

  /* How far the wrong length moves the accumulator, from the clamped r alone. */
  function Drift(r: nat): nat
  {
    F.ModQ(LEAP * r)
  }

  /* Moving by the drift modulo 2^130 - 5 changes nothing modulo 2^128. */
  predicate Harmless(acc: nat, drift: nat)
  {
    Mod128(if acc + drift < F.Q then drift else F.Q - drift) == 0
  }

  function Mod128(x: int): (r: nat)
    ensures r < F.TWO128
  {
    x % 0x1_0000_0000_0000_0000_0000_0000_0000_0000
  }

  // ---------- the last block ----------

  /* Data and ciphertext, each padded to whole blocks. */
  function Head(ad: seq<byte>, ct: seq<byte>): seq<byte>
  {
    ad + Zeros(A.PadLen(|ad|)) + ct + Zeros(A.PadLen(|ct|))
  }

  function Lengths(adLen: nat, ctLen: nat): (b: seq<byte>)
    ensures |b| == 16
  {
    LEBytes(adLen, 8) + LEBytes(ctLen, 8)
  }

  lemma Padded(n: nat) returns (k: nat)
    ensures n + A.PadLen(n) == 16 * k
  {
    k := (n + A.PadLen(n)) / 16;
  }

  lemma HeadFull(ad: seq<byte>, ct: seq<byte>)
    ensures |Head(ad, ct)| % 16 == 0
  {
    hide A.PadLen;
    var i := Padded(|ad|);
    var j := Padded(|ct|);
    assert |Head(ad, ct)| == 16 * (i + j);
  }

  lemma TextParts(ad: seq<byte>, ct: seq<byte>, ctLen: nat)
    ensures A.MacText(ad, ct, ctLen) == Head(ad, ct) + Lengths(|ad|, ctLen)
  {
    hide A.PadLen, LEBytes, Zeros;
  }

  lemma TextSplit(r: nat, ad: seq<byte>, ct: seq<byte>, ctLen: nat)
    ensures P.Acc(r, A.MacText(ad, ct, ctLen))
         == F.ModQ((P.Acc(r, Head(ad, ct)) + P.BlockNum(Lengths(|ad|, ctLen))) * r)
  {
    hide P.Acc, F.ModQ, P.BlockNum, Head, Lengths, A.MacText;
    TextParts(ad, ct, ctLen);
    HeadFull(ad, ct);
    P.AccSnoc(r, Head(ad, ct), Lengths(|ad|, ctLen));
  }

  lemma LastNumber(adLen: nat, n: dword)
    ensures P.BlockNum(Lengths(adLen, n))
         == LE(LEBytes(adLen, 8)) + 0x1_0000_0000_0000_0000 * n + Pow2(128)
  {
    hide LE, LEBytes, Pow2;
    LEConcat(LEBytes(adLen, 8), LEBytes(n, 8));
    LEofLEBytes(n, 8);
    Pow2At64();
  }

  // ---------- when the two tags agree ----------

  /* The accumulator over the wrong length is the right one moved by the drift. */
  lemma WrongAccumulator(r: nat, ad: seq<byte>, ct: seq<byte>)
    requires 0x8000_0000 <= |ct| < B
    ensures
      var acc := P.Acc(r, A.MacText(ad, ct, |ct|));
      P.Acc(r, A.MacText(ad, ct, A.SignExtend(|ct|))) == F.ModQ(acc + Drift(r))
  {
    hide P.Acc, F.ModQ, P.BlockNum, A.MacText, Head, Lengths, LE, LEBytes, Pow2;
    var n, m := |ct|, A.SignExtend(|ct|);
    TextSplit(r, ad, ct, n);
    TextSplit(r, ad, ct, m);
    LastNumber(|ad|, n);
    LastNumber(|ad|, m);
    var x := P.Acc(r, Head(ad, ct)) + P.BlockNum(Lengths(|ad|, n));
    Spread(x, LEAP, r);
    MoveModQ(x * r, LEAP * r);
  }

  lemma Spread(x: int, y: int, r: int)
    ensures (x + y) * r == x * r + y * r
  {
  }

  lemma MoveModQ(x: nat, y: nat)
    ensures F.ModQ(x + y) == F.ModQ(F.ModQ(x) + F.ModQ(y))
  {
    hide F.ModQ, F.QuotientQ;
    var j, k := F.QuotientQ(x), F.QuotientQ(y);
    assert x + y == F.ModQ(x) + F.ModQ(y) + (j + k) * F.Q;
    F.AddMultipleQ(F.ModQ(x) + F.ModQ(y), j + k);
  }

  lemma SameBytes(u: nat, v: nat)
    requires u < F.TWO128 && v < F.TWO128
    ensures LEBytes(u, 16) == LEBytes(v, 16) <==> u == v
  {
    hide LEBytes, LE, Pow2;
    P.Pow2At128();
    LEofLEBytes(u, 16);
    LEofLEBytes(v, 16);
  }

  lemma MoveMod128(acc: nat, drift: nat, s: nat)
    requires acc < F.Q && drift < F.Q
    ensures Mod128(acc + s) == Mod128(F.ModQ(acc + drift) + s) <==> Harmless(acc, drift)
  {
    hide Mod128;
    var u := F.ModQ(acc + drift);
    if acc + drift < F.Q {
      F.ModQSmall(acc + drift, 0, acc + drift);
      SameMod(acc + s, drift);
    } else {
      F.ModQSmall(acc + drift, 1, acc + drift - F.Q);
      SameMod(u + s, F.Q - drift);
    }
  }

  /* Adding d changes nothing modulo 2^128 exactly when 2^128 divides it. */
  lemma SameMod(x: nat, d: nat)
    ensures Mod128(x + d) == Mod128(x) <==> Mod128(d) == 0
  {
  }

  /* For every key, nonce, data and ciphertext of 2^31 bytes or more: the tags over the true and the
     sign-extended length agree exactly when the drift of the clamped r is harmless. */
  lemma TagsAgreeExactly(key: seq<byte>, nonce: dword, ad: seq<byte>, ct: seq<byte>)
    requires |key| == 32 && 0x8000_0000 <= |ct| < B
    ensures A.Tag(key, nonce, ad, ct, |ct|) == A.Tag(key, nonce, ad, ct, A.SignExtend(|ct|))
       <==> Harmless(Accumulator(key, nonce, ad, ct), Drift(P.KeyR(A.OneTimeKey(key, nonce))))
  {
    hide P.Acc, P.KeyR, P.KeyS, P.Mac, A.OneTimeKey, A.MacText, Harmless, Drift, LEBytes, Mod128, F.ModQ;
    var otk := A.OneTimeKey(key, nonce);
    var r, s := P.KeyR(otk), P.KeyS(otk);
    var acc := Accumulator(key, nonce, ad, ct);
    WrongAccumulator(r, ad, ct);
    AccBelow(r, A.MacText(ad, ct, |ct|));
    DriftBelow(r);
    MoveMod128(acc, Drift(r), s);
    MacForm(otk, A.MacText(ad, ct, |ct|));
    MacForm(otk, A.MacText(ad, ct, A.SignExtend(|ct|)));
    SameBytes(Mod128(acc + s), Mod128(F.ModQ(acc + Drift(r)) + s));
  }

  lemma MacForm(key: seq<byte>, m: seq<byte>)
    requires |key| == 32
    ensures P.Mac(key, m) == LEBytes(Mod128(P.Acc(P.KeyR(key), m) + P.KeyS(key)), 16)
  {
    hide P.Acc, P.KeyR, P.KeyS, LEBytes;
  }

  lemma AccBelow(r: nat, m: seq<byte>)
    ensures P.Acc(r, m) < F.Q
  {
  }

  lemma DriftBelow(r: nat)
    ensures Drift(r) < F.Q
  {
  }

  // ---------- which r are harmless ----------

  /* 2^128 divided by the leap, modulo 2^130 - 5. */
  const STEP: nat := 0x4_00000004_00000004_00000005

  /* A clamped r lies below it. */
  const TWO124: nat := 0x1000_0000_0000_0000_0000_0000_0000_0000

  /* The inverse of the leap modulo 2^130 - 5. */
  const INVERSE: nat := 0x2_66666669_9999999c_ccccccd0_00000001

  /* The clamped r is zero, or one of three multiples of the step and the accumulator is not too large. */
  predicate Spared(acc: nat, r: nat)
  {
    || r == 0
    || (r == STEP && acc + F.TWO128 < F.Q)
    || (r == 2 * STEP && acc + 2 * F.TWO128 < F.Q)
    || (r == 3 * STEP && acc + 3 * F.TWO128 < F.Q)
  }

  lemma Inverses()
    ensures LEAP * INVERSE == 0x99999999_cccccccc_cccccccc_cccccccd * F.Q + 1
    ensures F.TWO128 * INVERSE == 0x9999999a_66666667_33333334_00000001 * F.Q + STEP
    ensures LEAP * STEP == 0x1_00000000_00000000_00000000 * F.Q + F.TWO128
  {
  }

  /* r can be computed back from its drift. */
  lemma DriftTurnsBack(r: nat, d: int, k: int)
    requires d == F.ModQ(LEAP * r) + k * F.Q
    ensures F.ModQ(d * INVERSE) == F.ModQ(r)
  {
    hide F.ModQ, F.QuotientQ;
    var j, m := F.QuotientQ(LEAP * r), 0x99999999_cccccccc_cccccccc_cccccccd;
    Inverses();
    assert d == LEAP * r + (k - j) * F.Q;
    Regroup(LEAP, r, k - j, F.Q, INVERSE, m);
    F.AddMultipleQ(r, r * m + (k - j) * INVERSE);
  }

  lemma Regroup(l: int, r: int, i: int, q: int, v: int, m: int)
    requires l * v == m * q + 1
    ensures (l * r + i * q) * v == r + (r * m + i * v) * q
  {
    calc {
      (l * r + i * q) * v;
    ==
      r * (l * v) + i * v * q;
    ==
      r + (r * m + i * v) * q;
    }
  }

  lemma MultipleTurnsBack(k: int)
    requires -3 <= k <= 3
    ensures F.ModQ(k * F.TWO128 * INVERSE) == F.ModQ(k * STEP)
  {
    hide F.ModQ;
    Inverses();
    var m := 0x9999999a_66666667_33333334_00000001;
    assert k * F.TWO128 * INVERSE == k * STEP + (k * m) * F.Q;
    F.AddMultipleQ(k * STEP, k * m);
  }

  /* A drift of k 2^128, up to the modulus, comes from k steps. */
  lemma StepsOf(r: nat, k: int)
    requires r < TWO124 && -3 <= k <= 3 && Drift(r) == F.ModQ(k * F.TWO128)
    ensures 0 <= k && r == k * STEP
  {
    hide F.ModQ, F.QuotientQ;
    DriftTurnsBack(r, k * F.TWO128, F.QuotientQ(k * F.TWO128));
    MultipleTurnsBack(k);
    F.ModQSmall(r, 0, r);
    F.ModQSmall(k * STEP, if k < 0 then -1 else 0, if k < 0 then F.Q + k * STEP else k * STEP);
  }

  lemma DriftOfSteps(k: nat)
    requires k <= 3
    ensures Drift(k * STEP) == k * F.TWO128
  {
    Inverses();
    F.ModQSmall(LEAP * (k * STEP), k * 0x1_00000000_00000000_00000000, k * F.TWO128);
  }

  /* For every accumulator and every clamped r. */
  lemma HarmlessExactly(acc: nat, r: nat)
    requires acc < F.Q && r < TWO124
    ensures Harmless(acc, Drift(r)) <==> Spared(acc, r)
  {
    hide Drift, F.ModQ;
    DriftBelow(r);
    DriftOfSteps(0);
    DriftOfSteps(1);
    DriftOfSteps(2);
    DriftOfSteps(3);
    var d := Drift(r);
    if Harmless(acc, d) {
      var k := WholeTurns(acc, d);
      StepsOf(r, k);
    }
  }

  /* A harmless drift is a small multiple of 2^128, up or down. */
  lemma WholeTurns(acc: nat, d: nat) returns (k: int)
    requires acc < F.Q && d < F.Q && Harmless(acc, d)
    ensures -3 <= k <= 3 && d == F.ModQ(k * F.TWO128) && (0 <= k ==> acc + k * F.TWO128 < F.Q)
  {
    hide F.ModQ;
    if acc + d < F.Q {
      k := d / 0x1_0000_0000_0000_0000_0000_0000_0000_0000;
      F.ModQSmall(d, 0, d);
    } else {
      k := -((F.Q - d) / 0x1_0000_0000_0000_0000_0000_0000_0000_0000);
      F.ModQSmall(k * F.TWO128, -1, d);
    }
  }

  lemma ClampedBelow(key: seq<byte>)
    requires |key| == 32
    ensures P.KeyR(key) < TWO124
  {
    hide And, LE;
    AndBelow(LE(key[..16]), P.CLAMP);
  }

  // ---------- long texts ----------

  /* Decryption of an honest encryption, for every text length the interface has. */
  lemma LongRoundTrip(key: seq<byte>, nonce: dword, ad: seq<byte>, plain: seq<byte>)
    requires |key| == 32 && |plain| < B
    ensures
      var acc := Accumulator(key, nonce, ad, A.Crypt(key, nonce, plain));
      var fine := |plain| < 0x8000_0000 || Spared(acc, P.KeyR(A.OneTimeKey(key, nonce)));
      A.Open(key, nonce, ad, A.Seal(key, nonce, ad, plain)) == if fine then A.Plain(plain) else A.Rejected
  {
    hide A.Open, A.Seal, A.Tag, A.Crypt, A.OneTimeKey, A.MacText, Harmless, Drift, Spared, P.KeyR, P.Acc;
    A.RoundTripExact(key, nonce, ad, plain);
    if |plain| >= 0x8000_0000 {
      var ct, otk := A.Crypt(key, nonce, plain), A.OneTimeKey(key, nonce);
      TagsAgreeExactly(key, nonce, ad, ct);
      AccBelow(P.KeyR(otk), A.MacText(ad, ct, |ct|));
      ClampedBelow(otk);
      HarmlessExactly(Accumulator(key, nonce, ad, ct), P.KeyR(otk));
    }
  }

  /* Under every key and nonce but those of four values of r, every text of 2^31 bytes or more is refused. */
  lemma LongRefused(key: seq<byte>, nonce: dword, ad: seq<byte>, plain: seq<byte>)
    requires |key| == 32 && 0x8000_0000 <= |plain| < B
    ensures
      var r := P.KeyR(A.OneTimeKey(key, nonce));
      r != 0 && r != STEP && r != 2 * STEP && r != 3 * STEP ==>
        A.Open(key, nonce, ad, A.Seal(key, nonce, ad, plain)) == A.Rejected
  {
    hide A.Open, A.Seal, A.Crypt, A.OneTimeKey, Accumulator, P.KeyR;
    LongRoundTrip(key, nonce, ad, plain);
  }

  /* The same with 24-byte nonces. */
  lemma XLongRoundTrip(key: seq<byte>, nonce: seq<byte>, ad: seq<byte>, plain: seq<byte>)
    requires |key| == 32 && |nonce| == 24 && |plain| < B
    ensures
      var subkey, last := C.HChaCha(nonce[..16], key), A.LongNonce(nonce);
      var acc := Accumulator(subkey, last, ad, A.Crypt(subkey, last, plain));
      var fine := |plain| < 0x8000_0000 || Spared(acc, P.KeyR(A.OneTimeKey(subkey, last)));
      A.XOpen(key, nonce, ad, A.XSeal(key, nonce, ad, plain)) == if fine then A.Plain(plain) else A.Rejected
  {
    hide A.Open, A.Seal, A.Crypt, A.OneTimeKey, A.LongNonce, Accumulator, Spared, P.KeyR, C.HChaCha;
    LongRoundTrip(C.HChaCha(nonce[..16], key), A.LongNonce(nonce), ad, plain);
  }
}
