/**
 The four handshake message functions and the session key derivation of
 wireguard.c on the buffers of struct wireguard_handshake: hash and chaining key
 are overwritten in place, message by message.  Each is proved to compute the
 function of module Noise with the same name.
 */
module NoiseMachine {
  import opened Words
  import N = Noise
  import K = Kdf
  import H = Blake2s
  import A = Aead
  import X = X25519
  import T = Tai64n

  // ---------- buffers ----------

  method Buffer(s: seq<byte>) returns (a: array<byte>)
    ensures fresh(a) && a[..] == s
  {
    a := new byte[|s|];
    for i := 0 to |s|
      invariant forall k :: 0 <= k < i ==> a[k] == s[k]
    {
      a[i] := s[i];
    }
  }

  /* memcpy over a whole buffer */
  method Fill(a: array<byte>, s: seq<byte>)
    requires a.Length == |s|
    modifies a
    ensures a[..] == s
  {
    for i := 0 to |s|
      invariant forall k :: 0 <= k < i ==> a[k] == s[k]
    {
      a[i] := s[i];
    }
  }

  // ---------- Curve25519 ----------

  lemma {:induction false} ZeroBytes(s: seq<byte>)
    ensures LE(s) == 0 <==> s == Zeros(|s|)
  {
    if s != [] {
      ZeroBytes(s[1..]);
      assert Zeros(|s|)[1..] == Zeros(|s| - 1);
      assert s == [s[0]] + s[1..];
    }
  }

  /* wireguard_x25519; false stands for -1. */
  method X25519(out: array<byte>, private: array<byte>, public: array<byte>) returns (ok: bool)
    requires out.Length == private.Length == public.Length == 32
    modifies out
    ensures out[..] == N.Dh(old(private[..]), old(public[..]))
    ensures ok <==> out[..] != Zeros(32)
  {
    hide X.ScalarMult, X.Clamp, LE, LEBytes;
    var ret := X.ScalarMultiply(out, private, public, true);
    ok := ret == 0;
    LEBytesOfLE(out[..]);
    ZeroBytes(out[..]);
  }

  /* wireguard_clamp_private_key */
  method ClampPrivateKey(k: array<byte>)
    requires k.Length == 32
    modifies k
    ensures k[..] == N.Clamped(old(k[..]))
  {
    hide And, Or;
    X.ClampRange(k[0], k[31]);
    k[0] := And(k[0], 248);
    k[31] := Or(And(k[31], 127), 64);
  }

  /* wireguard_generate_public_key */
  method GeneratePublicKey(public: array<byte>, private: array<byte>) returns (result: bool)
    requires public.Length == private.Length == 32 && public != private
    modifies public
    ensures result <==> private[..] != Zeros(32) && N.Public(private[..]) != Zeros(32)
    ensures public[..] == if private[..] == Zeros(32) then old(public[..]) else N.Public(private[..])
  {
    hide N.Dh;
    var zero := Buffer(Zeros(32));
    var base := Buffer(N.BasePoint());
    result := false;
    var equal := A.CryptoEqual(private, 0, zero, 0, 32);
    assert private[0..32] == private[..] && zero[0..32] == zero[..];
    if !equal {
      result := X25519(public, private, base);
    }
  }

  /* A shared secret and the test against the zero key. */
  method SharedSecret(private: array<byte>, public: array<byte>) returns (dh: array<byte>, nonzero: bool)
    requires private.Length == public.Length == 32
    ensures fresh(dh) && dh[..] == N.Dh(private[..], public[..]) && (nonzero <==> dh[..] != Zeros(32))
  {
    hide N.Dh;
    dh := new byte[32];
    var ok := X25519(dh, private, public);
    var zero := Buffer(Zeros(32));
    var equal := A.CryptoEqual(dh, 0, zero, 0, 32);
    assert dh[0..32] == dh[..] && zero[0..32] == zero[..];
    nonzero := !equal;
  }

  // ---------- hash and chaining key ----------

  ghost function Sym(hash: array<byte>, ck: array<byte>): N.Symmetric
    requires hash.Length == ck.Length == 32
    reads hash, ck
  {
    N.Symmetric(hash[..], ck[..])
  }

  method MixHash(hash: array<byte>, ghost ck: array<byte>, data: array<byte>)
    requires hash.Length == ck.Length == 32 && hash != ck
    modifies hash
    ensures Sym(hash, ck) == N.Absorb(old(Sym(hash, ck)), old(data[..]))
  {
    hide K.MixHash;
    assert data[..data.Length] == data[..];
    K.MixHashInPlace(hash, data, data.Length);
  }

  method MixKey(ghost hash: array<byte>, ck: array<byte>, data: array<byte>)
    requires hash.Length == ck.Length == 32 && hash != ck
    modifies ck
    ensures Sym(hash, ck) == N.MixKey(old(Sym(hash, ck)), old(data[..]))
  {
    hide K.Derive;
    assert data[..data.Length] == data[..];
    K.Kdf1(ck, ck, data, data.Length);
  }

  /* One step of the key schedule that also yields the n-th key. */
  ghost predicate Derived(s: N.Symmetric, input: seq<byte>, n: byte, s': N.Symmetric, key: seq<byte>)
    requires n >= 1
  {
    hide *;
    s' == N.MixKey(s, input) && key == N.KeyFor(s, input, n)
  }

  ghost predicate DerivedPreshared(s: N.Symmetric, q: N.key, s': N.Symmetric, key: seq<byte>)
  {
    hide *;
    s' == N.MixPreshared(s, q) && key == N.KeyFor(s, q, 3)
  }

  method MixKeyOut(ghost hash: array<byte>, ck: array<byte>, data: array<byte>) returns (key: array<byte>)
    requires hash.Length == ck.Length == 32 && hash != ck
    modifies ck
    ensures fresh(key) && key.Length == 32
    ensures Derived(old(Sym(hash, ck)), old(data[..]), 2, Sym(hash, ck), key[..])
  {
    hide K.Derive;
    key := new byte[32];
    assert data[..data.Length] == data[..];
    K.Kdf2(ck, key, ck, data, data.Length);
  }

  /* wireguard_kdf3 with the preshared key, then the mixing of its second output. */
  method MixPreshared(hash: array<byte>, ck: array<byte>, q: N.key) returns (key: array<byte>)
    requires hash.Length == ck.Length == 32 && hash != ck
    modifies hash, ck
    ensures fresh(key) && key.Length == 32
    ensures DerivedPreshared(old(Sym(hash, ck)), q, Sym(hash, ck), key[..])
  {
    hide K.Derive, K.MixHash;
    key := new byte[32];
    var tau := new byte[32];
    var preshared := Buffer(q);
    assert preshared[..32] == preshared[..];
    K.Kdf3(ck, tau, key, ck, preshared, 32);
    MixHash(hash, ck, tau);
  }

  /* wireguard_aead_encrypt with nonce zero and the hash as associated data */
  method Seal(plain: array<byte>, hash: array<byte>, key: array<byte>) returns (box: array<byte>)
    requires hash.Length == key.Length == 32 && plain.Length < 0x100
    ensures fresh(box) && box[..] == A.Seal(key[..], 0, hash[..], plain[..])
  {
    hide A.Seal;
    box := new byte[plain.Length + 16];
    A.Encrypt(box, 0, plain, 0, plain.Length, hash, 32, 0, key);
    assert box[0..0 + plain.Length + 16] == box[..] && hash[..32] == hash[..]
      && plain[0..0 + plain.Length] == plain[..];
  }

  /* wireguard_aead_decrypt with nonce zero and the hash as associated data */
  method Open(box: array<byte>, hash: array<byte>, key: array<byte>) returns (plain: array<byte>, ok: bool)
    requires hash.Length == key.Length == 32 && 16 <= box.Length < 0x100
    ensures fresh(plain) && plain.Length == box.Length - 16
    ensures A.Open(key[..], 0, hash[..], box[..]) == if ok then A.Plain(plain[..]) else A.Rejected
  {
    hide A.Open;
    plain := new byte[box.Length - 16];
    ok := A.Decrypt(plain, 0, box, 0, box.Length, hash, 32, 0, key);
    assert box[0..0 + box.Length] == box[..] && hash[..32] == hash[..] && plain[0..0 + (box.Length - 16)] == plain[..];
  }

  ghost predicate Unsealed(s: N.Symmetric, secret: seq<byte>, box: seq<byte>, s': N.Symmetric, text: seq<byte>,
                           ok: bool)
  {
    hide *;
    var s1 := N.MixKey(s, secret);
    && A.Open(N.KeyFor(s, secret, 2), 0, s1.hash, box) == (if ok then A.Plain(text) else A.Rejected)
    && (ok ==> s' == N.Absorb(s1, box))
  }

  /* (C, k) := Kdf2(C, secret), then the box opened under k and mixed into the hash. */
  method Unseal(hash: array<byte>, ck: array<byte>, secret: array<byte>, box: seq<byte>) returns (text: seq<byte>,
                ok: bool)
    requires hash.Length == ck.Length == 32 && hash != ck && secret != ck && secret != hash && 16 <= |box| < 0x100
    modifies hash, ck
    ensures |text| == |box| - 16 && Unsealed(old(Sym(hash, ck)), secret[..], box, Sym(hash, ck), text, ok)
  {
    hide N.KeyFor, N.MixKey, N.Absorb, A.Open;
    var key := MixKeyOut(hash, ck, secret);
    var sealed := Buffer(box);
    var plain;
    plain, ok := Open(sealed, hash, key);
    text := plain[..];
    if ok {
      MixHash(hash, ck, sealed);
    }
  }

  /* wireguard_mac */
  method Mac(key: seq<byte>, message: seq<byte>) returns (m: N.mac)
    requires |key| <= 32
    ensures m == N.Mac(key, message)
  {
    hide H.Hash;
    var dst := new byte[16];
    var data := Buffer(message);
    var k := Buffer(key);
    var ok := H.Compute(dst, 16, k, k.Length, data, 0, data.Length);
    assert k[..k.Length] == k[..] && data[0..0 + data.Length] == data[..] && dst[..16] == dst[..];
    m := dst[..];
  }

  /* The second MAC of a message, cleared when no cookie has come or the last one has expired. */
  method Mac2(cookie: N.mac, cookieMillis: word, now: word, message: seq<byte>, mac1: N.mac) returns (m: N.mac)
    ensures m == N.Mac2(N.FreshCookie(cookie, cookieMillis, now), message, mac1)
  {
    hide N.Mac;
    if cookieMillis == 0 || (now as int - cookieMillis as int) % B >= N.COOKIE_SECRET_MAX_AGE * 1000 {
      m := Zeros(16);
    } else {
      m := Mac(cookie, message + mac1);
    }
  }

  /* wireguard_check_mac1 */
  method CheckMac1(key: N.key, message: seq<byte>, mac1: N.mac) returns (ok: bool)
    ensures ok <==> N.Mac(key, message) == mac1
  {
    hide N.Mac;
    var m := Mac(key, message);
    var calculated := Buffer(m);
    var given := Buffer(mac1);
    ok := A.CryptoEqual(calculated, 0, given, 0, 16);
    assert calculated[0..0 + 16] == calculated[..] && given[0..0 + 16] == given[..];
  }

  // ---------- struct wireguard_handshake ----------

  /* The whole structure; Device.WireguardHandshake has only the four fields that the slots and timers
     depend on. */
  class HandshakeBuffers {
    var valid: bool
    var initiator: bool
    var localIndex: word
    var remoteIndex: word
    const ephemeralPrivate: array<byte>
    const remoteEphemeral: array<byte>
    const hash: array<byte>
    const chainingKey: array<byte>

    ghost predicate Shape()
    {
      && ephemeralPrivate.Length == remoteEphemeral.Length == hash.Length == chainingKey.Length == 32
      && ephemeralPrivate != remoteEphemeral && ephemeralPrivate != hash && ephemeralPrivate != chainingKey
      && remoteEphemeral != hash && remoteEphemeral != chainingKey && hash != chainingKey
    }

    ghost function Value(): N.State
      requires Shape()
      reads this, ephemeralPrivate, remoteEphemeral, hash, chainingKey
    {
      N.State(valid, initiator, localIndex, remoteIndex, ephemeralPrivate[..], remoteEphemeral[..],
          Sym(hash, chainingKey))
    }

    constructor ()
      ensures Shape() && fresh(ephemeralPrivate) && fresh(remoteEphemeral) && fresh(hash) && fresh(chainingKey)
      ensures !valid && !initiator && localIndex == remoteIndex == 0
    {
      valid, initiator, localIndex, remoteIndex := false, false, 0, 0;
      ephemeralPrivate, remoteEphemeral := new byte[32], new byte[32];
      hash, chainingKey := new byte[32], new byte[32];
    }

    /* The two fields an initiation carries encrypted, and their effect on hash and chaining key. */
    ghost predicate Encrypted(s1: N.Symmetric, dh: seq<byte>, d: N.DeviceKeys, r: N.PeerKeys, t: T.stamp,
                              encStatic: seq<byte>, encTimestamp: seq<byte>, s5: N.Symmetric)
    {
      hide *;
      var s2 := N.MixKey(s1, dh);
      var s3 := N.Absorb(s2, encStatic);
      var s4 := N.MixKey(s3, r.staticDh);
      && encStatic == A.Seal(N.KeyFor(s1, dh, 2), 0, s2.hash, d.public)
      && encTimestamp == A.Seal(N.KeyFor(s3, r.staticDh, 2), 0, s4.hash, t)
      && s5 == N.Absorb(s4, encTimestamp)
    }

    method EncryptInitiation(d: N.DeviceKeys, r: N.PeerKeys, dh: array<byte>,
                             t: T.stamp) returns (encStatic: array<byte>, encTimestamp: array<byte>)
      requires Shape() && dh != hash && dh != chainingKey
      modifies hash, chainingKey
      ensures fresh(encStatic) && fresh(encTimestamp) && encStatic.Length == 48 && encTimestamp.Length == 28
      ensures
        Encrypted(old(Sym(hash, chainingKey)), dh[..], d, r, t, encStatic[..], encTimestamp[..], Sym(hash, chainingKey))
    {
      hide N.KeyFor, N.MixKey, N.Absorb, A.Seal;
      var key := MixKeyOut(hash, chainingKey, dh);
      var public := Buffer(d.public);
      encStatic := Seal(public, hash, key);
      MixHash(hash, chainingKey, encStatic);
      var secret := Buffer(r.staticDh);
      key := MixKeyOut(hash, chainingKey, secret);
      var timestamp := Buffer(t);
      encTimestamp := Seal(timestamp, hash, key);
      MixHash(hash, chainingKey, encTimestamp);
    }

    ghost predicate Begun(peer: N.key, private: N.key, ephemeral: seq<byte>, ok: bool, s: N.Symmetric)
    {
      hide *;
      && (ok <==> private != Zeros(32) && N.Public(private) != Zeros(32))
      && (ok ==> ephemeral == N.Public(private))
      && s == if ok then N.Opening(peer, N.Public(private)) else N.Absorb(N.Initial(), peer)
    }

    /* Hash and chaining key for a responder's public key, and a new ephemeral key. */
    method Begin(peer: array<byte>, random: N.key) returns (ephemeral: array<byte>, ok: bool)
      requires Shape() && peer.Length == 32 && peer != hash && peer != chainingKey && peer != ephemeralPrivate
      modifies ephemeralPrivate, hash, chainingKey
      ensures fresh(ephemeral) && ephemeral.Length == 32 && ephemeralPrivate[..] == N.Clamped(random)
      ensures Begun(peer[..], ephemeralPrivate[..], ephemeral[..], ok, Sym(hash, chainingKey))
    {
      hide N.MixKey, N.Absorb, N.Initial, N.Clamped, N.Public;
      Fill(chainingKey, N.Initial().ck);
      Fill(hash, N.Initial().hash);
      MixHash(hash, chainingKey, peer);
      Fill(ephemeralPrivate, random);
      ClampPrivateKey(ephemeralPrivate);
      ephemeral := Buffer(Zeros(32));
      ok := GeneratePublicKey(ephemeral, ephemeralPrivate);
      if ok {
        MixKey(hash, chainingKey, ephemeral);
        MixHash(hash, chainingKey, ephemeral);
      }
    }

    /* wireguard_create_handshake_initiation; cookie and cookieMillis are what the peer has sent last. */
    method CreateInitiation(d: N.DeviceKeys, r: N.PeerKeys, cookie: N.mac, cookieMillis: word, now: word,
                            random: N.key, millis: dword, index: word)
      returns (msg: N.Option<N.Initiation>)
      requires Shape()
      modifies this, ephemeralPrivate, hash, chainingKey
      ensures
        var r' := r.(cookie := N.FreshCookie(cookie, cookieMillis, now));
        (Value(), msg) == N.CreateInitiation(d, r', old(Value()), random, T.Stamp(millis), index)
    {
      hide N.KeyFor, N.MixKey, N.Absorb, N.Initial, N.Opening, N.Clamped, N.Dh, N.Public, N.Mac, N.Mac2,
           N.FreshCookie, N.InitiationBytes, A.Seal, T.Stamp;
      msg := N.None;
      var peer := Buffer(r.public);
      var ephemeral, ok := Begin(peer, random);
      if ok {
        var dh, nonzero := SharedSecret(ephemeralPrivate, peer);
        if nonzero {
          var timestamp := new byte[12];
          T.Now(timestamp, millis);
          var encStatic, encTimestamp := EncryptInitiation(d, r, dh, timestamp[..]);
          valid := true;
          initiator := true;
          localIndex := index;
          var message := N.InitiationBytes(index, ephemeral[..], encStatic[..], encTimestamp[..]);
          var mac1 := Mac(r.mac1Key, message);
          var mac2 := Mac2(cookie, cookieMillis, now, message, mac1);
          msg := N.Some(N.Initiation(index, ephemeral[..], encStatic[..], encTimestamp[..], mac1, mac2));
        }
      }
    }

    /* The part of wireguard_process_initiation_message that authenticates, on buffers of its own. */
    static method ReadInitiation(d: N.DeviceKeys, r: N.PeerKeys, m: N.Initiation)
      returns (ok: bool, h: array<byte>, ck: array<byte>, t: T.stamp)
      ensures h.Length == ck.Length == 32 && fresh(h) && fresh(ck) && h != ck
      ensures (if ok then N.Some((Sym(h, ck), t)) else N.None) == N.ReadInitiation(d, r, m)
    {
      hide N.KeyFor, N.MixKey, N.Absorb, N.Initial, N.Dh, A.Open;
      ok, t := false, Zeros(12);
      ck := Buffer(N.Initial().ck);
      h := Buffer(N.Initial().hash);
      var public := Buffer(d.public);
      MixHash(h, ck, public);
      var e := Buffer(m.ephemeral);
      MixKey(h, ck, e);
      MixHash(h, ck, e);
      var private := Buffer(d.private);
      var dh, nonzero := SharedSecret(private, e);
      if nonzero {
        var s, known := Unseal(h, ck, dh, m.encStatic);
        if known && s == r.public {
          var secret := Buffer(r.staticDh);
          var text;
          text, ok := Unseal(h, ck, secret, m.encTimestamp);
          if ok {
            t := text;
          }
        }
      }
    }

    /* wireguard_process_initiation_message */
    method ProcessInitiation(d: N.DeviceKeys, r: N.PeerKeys, greatest: T.stamp, lastRx: word, now: word,
                             m: N.Initiation)
      returns (accepted: bool, greatest': T.stamp, lastRx': word)
      requires Shape()
      modifies this, remoteEphemeral, hash, chainingKey
      ensures N.Reception(accepted, Value(), greatest', lastRx')
           == N.ProcessInitiation(d, r, old(Value()), greatest, lastRx, now, m)
    {
      hide N.ReadInitiation, T.Memcmp;
      accepted, greatest', lastRx' := false, greatest, lastRx;
      var ok, h, ck, t := ReadInitiation(d, r, m);
      if ok {
        var replay := T.Memcmp(t, greatest) <= 0;
        var rateLimit := (lastRx as int - now as int) % B < 500;
        if !replay && !rateLimit {
          lastRx' := now;
          greatest' := t;
          Fill(remoteEphemeral, m.ephemeral);
          Fill(hash, h[..]);
          Fill(chainingKey, ck[..]);
          remoteIndex := m.sender;
          valid := true;
          initiator := false;
          accepted := true;
        }
      }
    }

    /* The tag of the empty payload, mixed into the hash. */
    method SealEmpty(q: N.key) returns (encEmpty: array<byte>)
      requires Shape()
      modifies hash, chainingKey
      ensures fresh(encEmpty) && encEmpty[..] == N.EmptyTag(old(Sym(hash, chainingKey)), q)
      ensures Sym(hash, chainingKey) == N.Absorb(N.MixPreshared(old(Sym(hash, chainingKey)), q), encEmpty[..])
    {
      hide N.KeyFor, N.Absorb, N.MixPreshared, A.Seal;
      var key := MixPreshared(hash, chainingKey, q);
      var nothing := Buffer([]);
      encEmpty := Seal(nothing, hash, key);
      MixHash(hash, chainingKey, encEmpty);
    }

    /* wireguard_create_handshake_response */
    method CreateResponse(r: N.PeerKeys, cookie: N.mac, cookieMillis: word, now: word, random: N.key, index: word)
      returns (msg: N.Option<N.Response>)
      requires Shape()
      modifies this, ephemeralPrivate, hash, chainingKey
      ensures
        var r' := r.(cookie := N.FreshCookie(cookie, cookieMillis, now));
        (Value(), msg) == N.CreateResponse(r', old(Value()), random, index)
    {
      hide N.MixKey, N.Absorb, N.MixPreshared, N.EmptyTag, N.Clamped, N.Dh, N.Public, N.Mac, N.Mac2, N.FreshCookie,
           N.ResponseBytes;
      msg := N.None;
      if valid && !initiator {
        Fill(ephemeralPrivate, random);
        ClampPrivateKey(ephemeralPrivate);
        var ephemeral := Buffer(Zeros(32));
        var ok := GeneratePublicKey(ephemeral, ephemeralPrivate);
        if ok {
          MixKey(hash, chainingKey, ephemeral);
          MixHash(hash, chainingKey, ephemeral);
          var dh, nonzero := SharedSecret(ephemeralPrivate, remoteEphemeral);
          if nonzero {
            MixKey(hash, chainingKey, dh);
            var peer := Buffer(r.public);
            dh, nonzero := SharedSecret(ephemeralPrivate, peer);
            if nonzero {
              MixKey(hash, chainingKey, dh);
              var encEmpty := SealEmpty(r.preshared);
              localIndex := index;
              var message := N.ResponseBytes(index, remoteIndex, ephemeral[..], encEmpty[..]);
              var mac1 := Mac(r.mac1Key, message);
              var mac2 := Mac2(cookie, cookieMillis, now, message, mac1);
              msg := N.Some(N.Response(index, remoteIndex, ephemeral[..], encEmpty[..], mac1, mac2));
            }
          }
        }
      }
    }

    /* The part of wireguard_process_handshake_response before the tag is checked, on copies. */
    method MixSecrets(d: N.DeviceKeys, ephemeral: N.key) returns (ok: bool, h: array<byte>, ck: array<byte>)
      requires Shape()
      ensures h.Length == ck.Length == 32 && fresh(h) && fresh(ck) && h != ck
      ensures
        var dh1, dh2 := N.Dh(ephemeralPrivate[..], ephemeral), N.Dh(d.private, ephemeral);
        && (ok <==> dh1 != Zeros(32) && dh2 != Zeros(32))
        && (ok ==> Sym(h, ck) == N.MixReply(Sym(hash, chainingKey), ephemeral, dh1, dh2))
    {
      hide N.MixKey, N.Absorb, N.Dh;
      h := Buffer(hash[..]);
      ck := Buffer(chainingKey[..]);
      var e := Buffer(ephemeral);
      MixKey(h, ck, e);
      MixHash(h, ck, e);
      var dh;
      dh, ok := SharedSecret(ephemeralPrivate, e);
      if ok {
        MixKey(h, ck, dh);
        var private := Buffer(d.private);
        dh, ok := SharedSecret(private, e);
        if ok {
          MixKey(h, ck, dh);
        }
      }
    }

    /* wireguard_process_handshake_response */
    method ReadResponse(d: N.DeviceKeys, r: N.PeerKeys, m: N.Response) returns (result: bool)
      requires Shape()
      modifies this, remoteEphemeral, hash, chainingKey
      ensures !result ==> Value() == old(Value())
      ensures (if result then N.Some(Value()) else N.None) == N.ReadResponse(d, r, old(Value()), m)
    {
      hide N.KeyFor, N.MixReply, N.MixPreshared, N.Dh, A.Open;
      result := false;
      if valid && initiator {
        var ok, h, ck := MixSecrets(d, m.ephemeral);
        if ok {
          var key := MixPreshared(h, ck, r.preshared);
          var encEmpty := Buffer(m.encEmpty);
          var nothing, known := Open(encEmpty, h, key);
          if known {
            Fill(remoteEphemeral, m.ephemeral);
            Fill(hash, h[..]);
            Fill(chainingKey, ck[..]);
            remoteIndex := m.sender;
            result := true;
          }
        }
      }
    }

    /* The key derivation of wireguard_start_session; the handshake forgets its secrets. */
    method DeriveTransport(byUs: bool) returns (t: N.Transport)
      requires Shape()
      modifies this, ephemeralPrivate, remoteEphemeral, hash, chainingKey
      ensures Value() == N.Forgotten(old(initiator))
      ensures t == N.Transported(old(Value()), byUs)
    {
      hide K.Derive;
      var k1, k2 := new byte[32], new byte[32];
      var nothing := Buffer([]);
      assert nothing[..0] == [];
      K.Kdf2(k1, k2, chainingKey, nothing, 0);
      t := if byUs then N.Transport(k1[..], k2[..], localIndex, remoteIndex)
           else N.Transport(k2[..], k1[..], localIndex, remoteIndex);
      Fill(ephemeralPrivate, Zeros(32));
      Fill(remoteEphemeral, Zeros(32));
      Fill(hash, Zeros(32));
      Fill(chainingKey, Zeros(32));
      remoteIndex, localIndex, valid := 0, 0, false;
    }
  }
}
