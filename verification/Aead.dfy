/**
 AEAD_CHACHA20_POLY1305 of section 2.8 of RFC 7539 and its extended-nonce form
 (chacha20poly1305.c), with sizes of 32 bits.  Encryption and decryption may
 run in place.
 */
module Aead {
  import opened Words
  import P = Poly1305
  import C = ChaCha20

  // ---------- the construction on byte strings ----------

  function PadLen(n: nat): nat
  {
    (16 - n % 16) % 16
  }

  /* The authenticated text: data, ciphertext, both zero-padded, and two 64-bit lengths. */
  function MacText(ad: seq<byte>, ct: seq<byte>, ctLen: nat): seq<byte>
  {
    ad + Zeros(PadLen(|ad|)) + ct + Zeros(PadLen(|ct|)) + LEBytes(|ad|, 8) + LEBytes(ctLen, 8)
  }

  /* The one-time key: the first half of the key-stream block with counter zero. */
  function OneTimeKey(key: seq<byte>, nonce: dword): (r: seq<byte>)
    requires |key| == 32
    ensures |r| == 32
  {
    C.XorStream(C.InitState(key, nonce), Zeros(32))
  }

  /* The key stream of the text starts at block counter one. */
  function Crypt(key: seq<byte>, nonce: dword, data: seq<byte>): (r: seq<byte>)
    requires |key| == 32
    ensures |r| == |data|
  {
    C.XorStream(C.InitState(key, nonce)[12 := 1], data)
  }

  function Tag(key: seq<byte>, nonce: dword, ad: seq<byte>, ct: seq<byte>, ctLen: nat): (t: seq<byte>)
    requires |key| == 32
    ensures |t| == 16
  {
    P.Mac(OneTimeKey(key, nonce), MacText(ad, ct, ctLen))
  }

  function Seal(key: seq<byte>, nonce: dword, ad: seq<byte>, plain: seq<byte>): (r: seq<byte>)
    requires |key| == 32
    ensures |r| == |plain| + 16
  {
    var ct := Crypt(key, nonce, plain);
    ct + Tag(key, nonce, ad, ct, |ct|)
  }

  datatype Opened = Rejected | Plain(text: seq<byte>)

  /* A 32-bit int widened to 64 bits: lengths from 2^31 up are sign-extended. */
  function SignExtend(n: nat): nat
  {
    if n < 0x8000_0000 then n else n + 0xffff_ffff_0000_0000
  }

  /* Decryption authenticates with the length held in an int. */
  function Open(key: seq<byte>, nonce: dword, ad: seq<byte>, box: seq<byte>): Opened
    requires |key| == 32
  {
    if |box| < 16 then Rejected
    else
      var n := |box| - 16;
      if Tag(key, nonce, ad, box[..n], SignExtend(n)) == box[n..] then Plain(Crypt(key, nonce, box[..n])) else Rejected
  }

  // ---------- what opening a sealed text gives ----------

  /* Decryption undoes encryption exactly when the two length encodings get the same tag. */
  lemma RoundTripExact(key: seq<byte>, nonce: dword, ad: seq<byte>, plain: seq<byte>)
    requires |key| == 32
    ensures
      var ct := Crypt(key, nonce, plain);
      var same := Tag(key, nonce, ad, ct, |plain|) == Tag(key, nonce, ad, ct, SignExtend(|plain|));
      Open(key, nonce, ad, Seal(key, nonce, ad, plain)) == if same then Plain(plain) else Rejected
  {
    hide Tag, C.XorStream, C.InitState;
    var ct, box := Crypt(key, nonce, plain), Seal(key, nonce, ad, plain);
    assert box[..|plain|] == ct && box[|plain|..] == Tag(key, nonce, ad, ct, |plain|);
    C.XorStreamInvolutive(C.InitState(key, nonce)[12 := 1], plain);
  }

  /* Every text below 2^31 bytes comes back. */
  lemma RoundTrip(key: seq<byte>, nonce: dword, ad: seq<byte>, plain: seq<byte>)
    requires |key| == 32 && |plain| < 0x8000_0000
    ensures Open(key, nonce, ad, Seal(key, nonce, ad, plain)) == Plain(plain)
  {
    hide Tag, Crypt, Open, Seal;
    RoundTripExact(key, nonce, ad, plain);
  }

  /* The box that decryption expects: the tag is over the length as an int holds it. */
  function SealSigned(key: seq<byte>, nonce: dword, ad: seq<byte>, plain: seq<byte>): (r: seq<byte>)
    requires |key| == 32
    ensures |r| == |plain| + 16
  {
    var ct := Crypt(key, nonce, plain);
    ct + Tag(key, nonce, ad, ct, SignExtend(|ct|))
  }

  /* A box of any length opens to a text exactly when it is the box expected for that text. */
  lemma OpenedExactly(key: seq<byte>, nonce: dword, ad: seq<byte>, box: seq<byte>, plain: seq<byte>)
    requires |key| == 32
    ensures Open(key, nonce, ad, box) == Plain(plain) <==> box == SealSigned(key, nonce, ad, plain)
  {
    hide Tag, C.XorStream, C.InitState;
    var s := C.InitState(key, nonce)[12 := 1];
    if Open(key, nonce, ad, box) == Plain(plain) {
      var n := |box| - 16;
      C.XorStreamInvolutive(s, box[..n]);
      assert box == box[..n] + box[n..];
    }
    if box == SealSigned(key, nonce, ad, plain) {
      var ct := Crypt(key, nonce, plain);
      assert box[..|plain|] == ct && box[|plain|..] == Tag(key, nonce, ad, ct, SignExtend(|ct|));
      C.XorStreamInvolutive(s, plain);
    }
  }

  /* Below 2^31 bytes of text a box is accepted exactly when it is the sealing of the text it opens to. */
  lemma OpenedIsSealed(key: seq<byte>, nonce: dword, ad: seq<byte>, box: seq<byte>)
    requires |key| == 32 && |box| < 0x8000_0010
    ensures Open(key, nonce, ad, box).Plain?
            <==> exists plain :: box == Seal(key, nonce, ad, plain)
    ensures Open(key, nonce, ad, box).Plain? ==> box == Seal(key, nonce, ad, Open(key, nonce, ad, box).text)
  {
    hide Tag, Crypt, Open;
    if Open(key, nonce, ad, box).Plain? {
      var plain := Open(key, nonce, ad, box).text;
      OpenedExactly(key, nonce, ad, box, plain);
      assert box == Seal(key, nonce, ad, plain);
    }
    forall plain | box == Seal(key, nonce, ad, plain)
      ensures Open(key, nonce, ad, box).Plain?
    {
      RoundTrip(key, nonce, ad, plain);
    }
  }

  // ---------- in place ----------

  /* (n + 15) & 0xFFFFFFF0, minus n, on 32 bits: correct even where the addition wraps. */
  method Padding(n: word) returns (r: word)
    ensures r == PadLen(n)
  {
    hide And, PadLen;
    var up: word := (n as int + 15) % B;
    RoundDown16(up);
    var padded: word := And(up, 0xffff_fff0);
    r := (padded as int - n as int) % B;
    PadWord(n, up, padded);
  }

  lemma PadSplit(n: nat)
    ensures (n + 15) / 16 * 16 - n == PadLen(n)
  {
    if n % 16 == 0 {
      DivModUnique(n + 15, 16, n / 16, 15);
    } else {
      DivModUnique(n + 15, 16, n / 16 + 1, n % 16 - 1);
    }
  }

  lemma PadWord(n: word, up: word, padded: int)
    requires up == (n as int + 15) % 0x1_0000_0000 && padded == up as int / 16 * 16
    ensures (padded - n as int) % 0x1_0000_0000 == PadLen(n)
  {
    hide PadLen;
    if n as int + 15 < B {
      PadSplit(n);
      PadSmall(n);
    } else {
      PadTop(n, B - n as int);
    }
  }

  lemma PadTop(n: word, k: nat)
    requires n as int + k == B && 0 < k <= 15
    ensures (n as int + 15) % 0x1_0000_0000 / 16 == 0 && -(n as int) % 0x1_0000_0000 == k == PadLen(n)
  {
    assert n as int == 16 * 0xfff_ffff + (16 - k);
  }

  method GenerateKey(poly: P.Authenticator, ctx: array<word>, key: array<byte>, nonce: dword)
    requires poly.Shape() && ctx.Length == 16 && key.Length == 32
    requires ctx != poly.r && ctx != poly.h && ctx != poly.pad && ctx as object != poly.buffer
    requires key as object != ctx
    modifies poly, poly.r, poly.h, poly.pad, ctx
    ensures poly.Valid() && poly.key == OneTimeKey(key[..], nonce) && poly.absorbed == []
    ensures ctx[..] == C.InitState(key[..], nonce)[12 := 1]
  {
    hide C.XorStream, poly.Holding, C.KeyWords;
    var block := new byte[32](_ => 0);
    C.Init(ctx, key, nonce);
    ghost var s := ctx[..];
    assert block[..][0..32] == Zeros(32);
    C.Chacha20(ctx, block, 0, block, 0, 32);
    assert block[0..32] == block[..];
    poly.Init(block);
  }

  /* A text followed by zeros up to a whole block. */
  method AbsorbPadded(poly: P.Authenticator, data: array<byte>, p: nat, len: word)
    requires poly.Valid() && p + len <= data.Length && data != poly.buffer && data as object != poly.h
    modifies poly`leftover, poly`absorbed, poly.h, poly.buffer
    ensures poly.Valid() && poly.absorbed == old(poly.absorbed) + data[p..p + len] + Zeros(PadLen(len))
  {
    hide poly.Valid, PadLen;
    ghost var before, text := poly.absorbed, data[p..p + len];
    PadSmall(len);
    var zero := new byte[64](_ => 0);
    poly.Update(data, p, len);
    var pad := Padding(len);
    assert zero[0..pad] == Zeros(PadLen(len));
    poly.Update(zero, 0, pad);
  }

  lemma PadSmall(n: nat)
    ensures PadLen(n) < 16
  {
  }

  /* Both lengths in eight bytes each. */
  method AbsorbLengths(poly: P.Authenticator, adLen: dword, len64: dword)
    requires poly.Valid()
    modifies poly`leftover, poly`absorbed, poly.h, poly.buffer
    ensures poly.Valid() && poly.absorbed == old(poly.absorbed) + LEBytes(adLen, 8) + LEBytes(len64, 8)
  {
    hide poly.Valid, LEBytes;
    var block := new byte[8];
    Store64(block, adLen);
    poly.Update(block, 0, 8);
    Store64(block, len64);
    poly.Update(block, 0, 8);
  }

  /* The six updates that feed the authenticated text. */
  method Authenticate(poly: P.Authenticator, ad: array<byte>, adLen: word, ct: array<byte>, cp: nat, ctLen: word,
                      len64: dword)
    requires poly.Valid() && poly.absorbed == []
    requires adLen <= ad.Length && cp + ctLen <= ct.Length
    requires ad != poly.buffer && ct != poly.buffer && ad as object != poly.h && ct as object != poly.h
    modifies poly`leftover, poly`absorbed, poly.h, poly.buffer
    ensures poly.Valid() && poly.absorbed == MacText(ad[..adLen], ct[cp..cp + ctLen], len64)
  {
    hide poly.Valid, LEBytes, PadLen, Zeros;
    ghost var a, c := ad[..adLen], ct[cp..cp + ctLen];
    AbsorbPadded(poly, ad, 0, adLen);
    assert [] + ad[0..adLen] == a;
    AbsorbPadded(poly, ct, cp, ctLen);
    AbsorbLengths(poly, adLen, len64);
    TextAssoc(a, Zeros(PadLen(|a|)), c, Zeros(PadLen(|c|)));
  }

  lemma TextAssoc(a: seq<byte>, p: seq<byte>, c: seq<byte>, q: seq<byte>)
    ensures [] + a + p + c + q == a + p + c + q
  {
    assert [] + a == a;
  }

  /* U64TO8_LITTLE */
  method Store64(block: array<byte>, v: dword)
    requires block.Length == 8
    modifies block
    ensures block[0..8] == LEBytes(v, 8)
  {
    hide LEBytes;
    ghost var w := LEBytes(v, 8);
    var x: nat := v;
    for i := 0 to 8
      invariant block[..i] + LEBytes(x, 8 - i) == w
    {
      NextByte(x, 8 - i);
      block[i] := x % 0x100;
      x := x / 0x100;
      assert block[..i + 1] == block[..i] + [block[i]];
    }
    assert LEBytes(x, 0) == [] && block[..8] == block[0..8];
  }

  lemma NextByte(v: nat, n: nat)
    ensures n > 0 ==> LEBytes(v, n) == [v % 0x100] + LEBytes(v / 0x100, n - 1)
  {
  }

  /* The authenticator of the text, written behind it or into a buffer of its own. */
  method WriteTag(poly: P.Authenticator, ad: array<byte>, adLen: word, ct: array<byte>, cp: nat, ctLen: word,
                  len64: dword,
                  mac: array<byte>, mp: nat)
    requires |poly.key| == 32 && poly.Valid() && poly.absorbed == []
    requires adLen <= ad.Length && cp + ctLen <= ct.Length && mp + 16 <= mac.Length
    requires ad != poly.buffer && ct != poly.buffer && mac != poly.buffer && ad as object != poly.h
      && ct as object != poly.h
    requires mac as object != poly.h && mac as object != poly.r && mac as object != poly.pad
    modifies poly, poly.h, poly.r, poly.pad, poly.buffer, mac
    ensures mac[mp..mp + 16] == P.Mac(old(poly.key), MacText(old(ad[..adLen]), old(ct[cp..cp + ctLen]), len64))
    ensures forall k :: 0 <= k < mac.Length && !(mp <= k < mp + 16) ==> mac[k] == old(mac[k])
  {
    hide poly.Holding, P.Mac, MacText;
    Authenticate(poly, ad, adLen, ct, cp, ctLen, len64);
    poly.Finish(mac, mp);
  }

  /* chacha20poly1305_encrypt */
  method Encrypt(dst: array<byte>, dp: nat, src: array<byte>, sp: nat, srcLen: word,
                 ad: array<byte>, adLen: word, nonce: dword, key: array<byte>)
    requires key.Length == 32 && adLen <= ad.Length && dp + srcLen + 16 <= dst.Length
    requires C.ReadAhead(dst, dp, src, sp, srcLen) && ad != dst
    modifies dst
    ensures dst[dp..dp + srcLen + 16] == Seal(old(key[..]), nonce, ad[..adLen], old(src[sp..sp + srcLen]))
    ensures forall k :: 0 <= k < dst.Length && !(dp <= k < dp + srcLen + 16) ==> dst[k] == old(dst[k])
  {
    hide C.XorStream, C.InitState, P.Mac, MacText, OneTimeKey, P.Authenticator.Holding, P.Authenticator.Shape;
    var poly := new P.Authenticator();
    var ctx := new word[16];
    GenerateKey(poly, ctx, key, nonce);
    C.Chacha20(ctx, dst, dp, src, sp, srcLen);
    ghost var ct := dst[dp..dp + srcLen];
    WriteTag(poly, ad, adLen, dst, dp, srcLen, srcLen, dst, dp + srcLen);
    assert dst[dp..dp + srcLen] == ct;
    assert dst[dp..dp + srcLen + 16] == dst[dp..dp + srcLen] + dst[dp + srcLen..dp + srcLen + 16];
  }

  /* crypto_equal */
  method CryptoEqual(a: array<byte>, ap: nat, b: array<byte>, bp: nat, size: nat) returns (equal: bool)
    requires ap + size <= a.Length && bp + size <= b.Length
    ensures equal <==> a[ap..ap + size] == b[bp..bp + size]
  {
    var neq: byte := 0;
    for i := 0 to size
      invariant neq == 0 <==> a[ap..ap + i] == b[bp..bp + i]
    {
      hide Or, Xor;
      Difference(neq, a[ap + i], b[bp + i]);
      neq := Or(neq, XorByte(a[ap + i], b[bp + i]));
      assert a[ap..ap + i + 1] == a[ap..ap + i] + [a[ap + i]];
      assert b[bp..bp + i + 1] == b[bp..bp + i] + [b[bp + i]];
    }
    equal := neq == 0;
  }

  lemma Difference(neq: byte, x: byte, y: byte)
    ensures Or(neq, XorByte(x, y)) < 0x100
    ensures Or(neq, XorByte(x, y)) == 0 <==> neq == 0 && x == y
  {
    hide Or, Xor;
    Pow2Values();
    OrBound(neq, XorByte(x, y), 8);
    OrZero(neq, XorByte(x, y));
    XorSelf(y);
    assert XorByte(x, y) == 0 ==> Xor(0, y) == x;
    XorComm(0, y);
    XorZero(y);
  }

  /* chacha20poly1305_decrypt; a rejected box leaves the destination untouched. */
  method Decrypt(dst: array<byte>, dp: nat, src: array<byte>, sp: nat, srcLen: word,
                 ad: array<byte>, adLen: word, nonce: dword, key: array<byte>) returns (ok: bool)
    requires key.Length == 32 && adLen <= ad.Length && sp + srcLen <= src.Length
    requires srcLen >= 16 ==> C.ReadAhead(dst, dp, src, sp, srcLen - 16)
    modifies dst
    ensures var r := Open(old(key[..]), nonce, old(ad[..adLen]), old(src[sp..sp + srcLen]));
            if ok then srcLen >= 16 && r == Plain(dst[dp..dp + srcLen - 16])
            else r == Rejected && dst[..] == old(dst[..])
    ensures forall k :: 0 <= k < dst.Length && !(dp <= k < dp + srcLen - 16) ==> dst[k] == old(dst[k])
  {
    hide C.XorStream, C.InitState, P.Mac, MacText, OneTimeKey, P.Authenticator.Holding, P.Authenticator.Shape;
    ok := false;
    if srcLen >= 16 {
      var n: word := srcLen - 16;
      ghost var box := src[sp..sp + srcLen];
      assert box[..n] == src[sp..sp + n] && box[n..] == src[sp + n..sp + n + 16];
      var poly := new P.Authenticator();
      var ctx, mac := new word[16], new byte[16];
      GenerateKey(poly, ctx, key, nonce);
      WriteTag(poly, ad, adLen, src, sp, n, SignExtend(n), mac, 0);
      var equal := CryptoEqual(mac, 0, src, sp + n, 16);
      if equal {
        C.Chacha20(ctx, dst, dp, src, sp, n);
        ok := true;
      }
    }
  }

  // ---------- extended nonces ----------

  function LongNonce(nonce: seq<byte>): dword
    requires |nonce| == 24
  {
    Load32(nonce, 16) as int + B * Load32(nonce, 20) as int
  }

  function XSeal(key: seq<byte>, nonce: seq<byte>, ad: seq<byte>, plain: seq<byte>): seq<byte>
    requires |key| == 32 && |nonce| == 24
  {
    Seal(C.HChaCha(nonce[..16], key), LongNonce(nonce), ad, plain)
  }

  function XOpen(key: seq<byte>, nonce: seq<byte>, ad: seq<byte>, box: seq<byte>): Opened
    requires |key| == 32 && |nonce| == 24
  {
    Open(C.HChaCha(nonce[..16], key), LongNonce(nonce), ad, box)
  }

  lemma XRoundTrip(key: seq<byte>, nonce: seq<byte>, ad: seq<byte>, plain: seq<byte>)
    requires |key| == 32 && |nonce| == 24 && |plain| < 0x8000_0000
    ensures XOpen(key, nonce, ad, XSeal(key, nonce, ad, plain)) == Plain(plain)
  {
    hide Open, Seal;
    RoundTrip(C.HChaCha(nonce[..16], key), LongNonce(nonce), ad, plain);
  }

  /* xchacha20poly1305_encrypt */
  method XEncrypt(dst: array<byte>, dp: nat, src: array<byte>, sp: nat, srcLen: word,
                  ad: array<byte>, adLen: word, nonce: array<byte>, key: array<byte>)
    requires key.Length == 32 && nonce.Length == 24 && adLen <= ad.Length && dp + srcLen + 16 <= dst.Length
    requires C.ReadAhead(dst, dp, src, sp, srcLen) && ad != dst
    modifies dst
    ensures dst[dp..dp + srcLen + 16]
            == XSeal(old(key[..]), old(nonce[..]), ad[..adLen], old(src[sp..sp + srcLen]))
    ensures forall k :: 0 <= k < dst.Length && !(dp <= k < dp + srcLen + 16) ==> dst[k] == old(dst[k])
  {
    hide Seal, C.HChaCha, Load32;
    var subkey := new byte[32];
    var newNonce: dword := Load32(nonce[..], 16) as int + B * Load32(nonce[..], 20) as int;
    C.Hchacha20(subkey, nonce, key);
    assert nonce[..][..16] == nonce[..16];
    Encrypt(dst, dp, src, sp, srcLen, ad, adLen, newNonce, subkey);
  }

  /* xchacha20poly1305_decrypt */
  method XDecrypt(dst: array<byte>, dp: nat, src: array<byte>, sp: nat, srcLen: word,
                  ad: array<byte>, adLen: word, nonce: array<byte>, key: array<byte>) returns (ok: bool)
    requires key.Length == 32 && nonce.Length == 24 && adLen <= ad.Length && sp + srcLen <= src.Length
    requires srcLen >= 16 ==> C.ReadAhead(dst, dp, src, sp, srcLen - 16)
    modifies dst
    ensures var r := XOpen(old(key[..]), old(nonce[..]), old(ad[..adLen]), old(src[sp..sp + srcLen]));
            if ok then srcLen >= 16 && r == Plain(dst[dp..dp + srcLen - 16])
            else r == Rejected && dst[..] == old(dst[..])
    ensures forall k :: 0 <= k < dst.Length && !(dp <= k < dp + srcLen - 16) ==> dst[k] == old(dst[k])
  {
    hide Open, C.HChaCha, Load32;
    var subkey := new byte[32];
    var newNonce: dword := Load32(nonce[..], 16) as int + B * Load32(nonce[..], 20) as int;
    C.Hchacha20(subkey, nonce, key);
    assert nonce[..][..16] == nonce[..16];
    ok := Decrypt(dst, dp, src, sp, srcLen, ad, adLen, newNonce, subkey);
  }
}
