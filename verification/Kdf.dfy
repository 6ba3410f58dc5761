/**
 HMAC (RFC 2104) over BLAKE2s and the key derivation of the Noise protocol, as
 wireguard.c computes them in shared buffers: the digest may overwrite the text,
 and a derived key may overwrite the chaining key.
 */
module Kdf {
  import opened Words
  import H = Blake2s

  // ---------- pure definitions ----------

  function Digest32(m: seq<byte>): (r: seq<byte>)
    ensures |r| == 32
  {
    hide *;
    H.Hash(32, [], m)
  }

  /* A key of one block: long keys are hashed, short ones padded with zeros. */
  function BlockKey(key: seq<byte>): (r: seq<byte>)
    ensures |r| == 64
  {
    hide *;
    if |key| > 64 then Digest32(key) + Zeros(32) else key + Zeros(64 - |key|)
  }

  function XorEach(s: seq<byte>, x: byte): (r: seq<byte>)
    ensures |r| == |s|
  {
    seq(|s|, i requires 0 <= i < |s| => XorByte(s[i], x))
  }

  /* Section 2 of RFC 2104. */
  function Hmac(key: seq<byte>, text: seq<byte>): (r: seq<byte>)
    ensures |r| == 32
  {
    hide *;
    var k := BlockKey(key);
    Digest32(XorEach(k, 0x5c) + Digest32(XorEach(k, 0x36) + text))
  }

  /* tau_n of the chain: tau_1 = Hmac(tau_0, 1), tau_n = Hmac(tau_0, tau_(n-1) || n). */
  function Tau(tau0: seq<byte>, n: nat): (r: seq<byte>)
    requires 1 <= n < 256
    ensures |r| == 32
  {
    hide *;
    if n == 1 then Hmac(tau0, [1]) else Hmac(tau0, Tau(tau0, n - 1) + [n])
  }

  /* The n-th key derived from a chaining key and an input. */
  function Derive(ck: seq<byte>, input: seq<byte>, n: nat): (r: seq<byte>)
    requires 1 <= n < 256
    ensures |r| == 32
  {
    hide *;
    Tau(Hmac(ck, input), n)
  }

  function MixHash(hash: seq<byte>, data: seq<byte>): (r: seq<byte>)
    ensures |r| == 32
  {
    hide *;
    Digest32(hash + data)
  }

  // ---------- in place ----------

  /* Hashes two pieces; the result may overwrite either of them. */
  method HashTwo(out: array<byte>, a: array<byte>, aLen: nat, b: array<byte>, bLen: nat)
    requires out.Length >= 32 && aLen <= a.Length && bLen <= b.Length
    modifies out
    ensures out[..32] == Digest32(old(a[..aLen]) + old(b[..bLen]))
    ensures forall k :: 32 <= k < out.Length ==> out[k] == old(out[k])
  {
    hide H.Digest, H.Last, H.Start, H.Chain, Zeros, H.Context.Counter, H.Context.Holding;
    var none := new byte[0];
    var ctx := new H.Context();
    ghost var x, y := a[..aLen], b[..bLen];
    var ok := ctx.Init(32, none, 0);
    ctx.Update(a, 0, aLen);
    ctx.Update(b, 0, bLen);
    assert none[..0] == [] && a[0..aLen] == x && b[0..bLen] == y && ([] + x) + y == x + y;
    ctx.Final(out);
  }

  /* wireguard_mix_hash */
  method MixHashInPlace(hash: array<byte>, src: array<byte>, srcLen: nat)
    requires hash.Length == 32 && srcLen <= src.Length
    modifies hash
    ensures hash[..] == MixHash(old(hash[..]), old(src[..srcLen]))
  {
    hide H.Hash;
    assert hash[..32] == hash[..];
    HashTwo(hash, hash, 32, src, srcLen);
    assert hash[..32] == hash[..];
  }

  method PadWith(pad: array<byte>, key: array<byte>, keyLen: nat, x: byte)
    requires pad.Length == 64 && keyLen <= 64 && keyLen <= key.Length && pad != key
    modifies pad
    ensures pad[..] == XorEach(key[..keyLen] + Zeros(64 - keyLen), x)
  {
    hide Xor;
    for i := 0 to 64
      invariant forall k :: 0 <= k < i ==> pad[k] == XorByte(if k < keyLen then key[k] else 0, x)
    {
      pad[i] := if i < keyLen then key[i] else 0;
      pad[i] := XorByte(pad[i], x);
    }
  }

  /* wireguard_hmac */
  method HmacInPlace(digest: array<byte>, key: array<byte>, keyLen: nat, text: array<byte>, textLen: nat)
    requires digest.Length >= 32 && keyLen <= key.Length && textLen <= text.Length
    modifies digest
    ensures digest[..32] == Hmac(old(key[..keyLen]), old(text[..textLen]))
    ensures forall k :: 32 <= k < digest.Length ==> digest[k] == old(digest[k])
  {
    hide Digest32, XorEach;
    var k, kLen := key, keyLen;
    if keyLen > 64 {
      var tk, none := new byte[32], new byte[0];
      HashTwo(tk, key, keyLen, none, 0);
      assert key[..keyLen] + none[..0] == key[..keyLen] && tk[..32] == tk[..];
      k, kLen := tk, 32;
    }
    ghost var kb := BlockKey(key[..keyLen]);
    assert kb == k[..kLen] + Zeros(64 - kLen);
    var ipad, opad := new byte[64], new byte[64];
    PadWith(ipad, k, kLen, 0x36);
    PadWith(opad, k, kLen, 0x5c);
    assert ipad[..64] == ipad[..] && opad[..64] == opad[..];
    HashTwo(digest, ipad, 64, text, textLen);
    HashTwo(digest, opad, 64, digest, 32);
  }

  /* The first derived key left in the output buffer, and the extraction key. */
  method Expand1(tau0: array<byte>, output: array<byte>, ck: array<byte>, data: array<byte>, dataLen: nat)
    requires tau0.Length == 32 && output.Length == 33 && ck.Length == 32 && dataLen <= data.Length
    requires tau0 != output && tau0 != ck && tau0 != data && output != ck && output != data
    modifies tau0, output
    ensures tau0[..] == Hmac(ck[..], data[..dataLen])
    ensures output[..32] == Derive(ck[..], data[..dataLen], 1)
  {
    hide Hmac;
    assert ck[..32] == ck[..];
    HmacInPlace(tau0, ck, 32, data, dataLen);
    assert tau0[..32] == tau0[..];
    output[0] := 1;
    assert output[..1] == [1];
    HmacInPlace(output, tau0, 32, output, 1);
  }

  /* tau_n := Hmac(tau_0, tau_(n-1) || n), overwriting tau_(n-1). */
  method ExpandNext(tau0: array<byte>, output: array<byte>, n: byte)
    requires tau0.Length == 32 && output.Length == 33 && tau0 != output && n >= 2
    requires output[..32] == Tau(tau0[..], n - 1)
    modifies output
    ensures output[..32] == Tau(tau0[..], n)
  {
    hide Hmac;
    output[32] := n;
    assert output[..33] == output[..32] + [n] && tau0[..32] == tau0[..];
    HmacInPlace(output, tau0, 32, output, 33);
  }

  method CopyOut(dst: array<byte>, src: array<byte>)
    requires dst.Length == 32 && src.Length >= 32 && dst != src
    modifies dst
    ensures dst[..] == src[..32]
  {
    for i := 0 to 32
      invariant forall k :: 0 <= k < i ==> dst[k] == src[k]
    {
      dst[i] := src[i];
    }
  }

  /* wireguard_kdf1: tau1 may be the chaining key. */
  method Kdf1(tau1: array<byte>, ck: array<byte>, data: array<byte>, dataLen: nat)
    requires tau1.Length == 32 && ck.Length == 32 && dataLen <= data.Length
    modifies tau1
    ensures tau1[..] == Derive(old(ck[..]), old(data[..dataLen]), 1)
  {
    hide Hmac, Tau;
    var tau0, output := new byte[32], new byte[33];
    Expand1(tau0, output, ck, data, dataLen);
    CopyOut(tau1, output);
  }

  /* The first two derived keys. */
  ghost predicate Derived2(ck: seq<byte>, input: seq<byte>, tau1: seq<byte>, tau2: seq<byte>)
  {
    hide *;
    tau1 == Derive(ck, input, 1) && tau2 == Derive(ck, input, 2)
  }

  /* wireguard_kdf2 */
  method Kdf2(tau1: array<byte>, tau2: array<byte>, ck: array<byte>, data: array<byte>, dataLen: nat)
    requires tau1.Length == tau2.Length == 32 && tau1 != tau2 && ck.Length == 32 && dataLen <= data.Length
    modifies tau1, tau2
    ensures Derived2(old(ck[..]), old(data[..dataLen]), tau1[..], tau2[..])
  {
    hide Hmac, Tau;
    var tau0, output := new byte[32], new byte[33];
    Expand1(tau0, output, ck, data, dataLen);
    CopyOut(tau1, output);
    ExpandNext(tau0, output, 2);
    CopyOut(tau2, output);
  }

  /* The first three derived keys. */
  ghost predicate Derived3(ck: seq<byte>, input: seq<byte>, tau1: seq<byte>, tau2: seq<byte>, tau3: seq<byte>)
  {
    hide *;
    tau1 == Derive(ck, input, 1) && tau2 == Derive(ck, input, 2) && tau3 == Derive(ck, input, 3)
  }

  /* wireguard_kdf3 */
  method Kdf3(tau1: array<byte>, tau2: array<byte>, tau3: array<byte>, ck: array<byte>, data: array<byte>, dataLen: nat)
    requires tau1.Length == tau2.Length == tau3.Length == 32 && tau1 != tau2 && tau1 != tau3 && tau2 != tau3
    requires ck.Length == 32 && dataLen <= data.Length
    modifies tau1, tau2, tau3
    ensures Derived3(old(ck[..]), old(data[..dataLen]), tau1[..], tau2[..], tau3[..])
  {
    hide Hmac, Tau;
    var tau0, output := new byte[32], new byte[33];
    Expand1(tau0, output, ck, data, dataLen);
    CopyOut(tau1, output);
    ExpandNext(tau0, output, 2);
    CopyOut(tau2, output);
    ExpandNext(tau0, output, 3);
    CopyOut(tau3, output);
  }
}
