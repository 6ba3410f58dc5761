/**
 The Noise_IKpsk2 handshake of wireguard.c as functions of the two devices'
 keys, over the Curve25519, BLAKE2s, HMAC and ChaCha20-Poly1305 functions proved
 elsewhere in this project, and what both sides share when it is done.
 */
module Noise {
  import opened Words
  import K = Kdf
  import H = Blake2s
  import A = Aead
  import X = X25519
  import R = Rfc7748
  import T = Tai64n

  datatype Option<+T> = None | Some(value: T)

  type key = s: seq<byte> | |s| == 32 witness seq(32, _ => 0)
  type mac = s: seq<byte> | |s| == 16 witness seq(16, _ => 0)
  type box48 = s: seq<byte> | |s| == 48 witness seq(48, _ => 0)
  type box28 = s: seq<byte> | |s| == 28 witness seq(28, _ => 0)

  // ---------- primitives ----------

  function Clamped(private: key): (r: key)
  {
    hide *;
    X.Clamp(private)
  }

  /* wireguard_x25519 always clamps. */
  function Dh(private: key, public: key): (r: key)
  {
    hide *;
    LEBytes(X.ScalarMult(LE(Clamped(private)), LE(public)), 32)
  }

  function BasePoint(): (r: key)
  {
    [9] + Zeros(31)
  }

  function Public(private: key): (r: key)
  {
    Dh(private, BasePoint())
  }

  function Mac(k: seq<byte>, m: seq<byte>): (r: mac)
    requires |k| <= 32
  {
    hide *;
    H.Hash(16, k, m)
  }

  function Mac1Key(public: key): (r: key)
  {
    hide *;
    K.Digest32(Ascii("mac1----") + public)
  }

  // ---------- the running hash and chaining key ----------

  datatype Symmetric = Symmetric(hash: key, ck: key)

  function MixKey(s: Symmetric, input: seq<byte>): Symmetric
  {
    hide *;
    s.(ck := K.Derive(s.ck, input, 1))
  }

  function KeyFor(s: Symmetric, input: seq<byte>, n: nat): (k: key)
    requires 1 <= n < 256
  {
    hide *;
    K.Derive(s.ck, input, n)
  }

  function Absorb(s: Symmetric, data: seq<byte>): Symmetric
  {
    hide *;
    s.(hash := K.MixHash(s.hash, data))
  }

  /* wireguard_init */
  function Initial(): Symmetric
  {
    hide *;
    var construction := K.Digest32(Ascii("Noise_IKpsk2_25519_ChaChaPoly_BLAKE2s"));
    Symmetric(K.MixHash(construction, Ascii("WireGuard v1 zx2c4 Jason@zx2c4.com")), construction)
  }

  // ---------- devices, peers, messages ----------

  datatype DeviceKeys = DeviceKeys(private: key, public: key, mac1Key: key)

  /* cookie is the last one received from the peer, while it is fresh (FreshCookie). */
  datatype PeerKeys = PeerKeys(public: key, preshared: key, staticDh: key, mac1Key: key, cookie: Option<mac>)

  /* struct wireguard_handshake */
  datatype State = State(valid: bool, initiator: bool, localIndex: word, remoteIndex: word,
                         ephemeralPrivate: key, remoteEphemeral: key, sym: Symmetric)

  datatype Initiation = Initiation(sender: word, ephemeral: key, encStatic: box48, encTimestamp: box28,
                                   mac1: mac, mac2: mac)

  datatype Response = Response(sender: word, receiver: word, ephemeral: key, encEmpty: mac, mac1: mac, mac2: mac)

  /* The packed message up to its first MAC. */
  function InitiationBytes(sender: word, ephemeral: key, encStatic: seq<byte>, encTimestamp: seq<byte>): seq<byte>
  {
    [1, 0, 0, 0] + LEBytes(sender, 4) + ephemeral + encStatic + encTimestamp
  }

  function ResponseBytes(sender: word, receiver: word, ephemeral: key, encEmpty: mac): seq<byte>
  {
    [2, 0, 0, 0] + LEBytes(sender, 4) + LEBytes(receiver, 4) + ephemeral + encEmpty
  }

  /* The cookie that may be used at a time: the last one received, for two minutes. */
  function FreshCookie(cookie: mac, cookieMillis: word, now: word): Option<mac>
  {
    if cookieMillis == 0 || (now as int - cookieMillis as int) % B >= COOKIE_SECRET_MAX_AGE * 1000 then None
    else Some(cookie)
  }

  const COOKIE_SECRET_MAX_AGE: nat := 120

  /* The second MAC: zero without a fresh cookie, else keyed with it over everything before. */
  function Mac2(cookie: Option<mac>, message: seq<byte>, mac1: mac): (m: mac)
  {
    hide *;
    match cookie
    case None => Zeros(16)
    case Some(value) => Mac(value, message + mac1)
  }

  // ---------- first message ----------

  /* Up to the ephemeral key both sides know the responder's and the ephemeral public key. */
  function Opening(responder: key, ephemeral: key): Symmetric
  {
    hide *;
    Absorb(MixKey(Absorb(Initial(), responder), ephemeral), ephemeral)
  }

  /* wireguard_create_handshake_initiation; the random bytes, the time and the index are inputs. */
  function CreateInitiation(d: DeviceKeys, r: PeerKeys, h: State, random: key, t: T.stamp, index: word): (State,
                            Option<Initiation>)
  {
    hide *;
    var e := Clamped(random);
    var h0 := h.(ephemeralPrivate := e, sym := Absorb(Initial(), r.public));
    if e == Zeros(32) || Public(e) == Zeros(32) then (h0, None)
    else
      var s1 := Opening(r.public, Public(e));
      var dh := Dh(e, r.public);
      if dh == Zeros(32) then (h0.(sym := s1), None)
      else
        var s2 := MixKey(s1, dh);
        var encStatic := A.Seal(KeyFor(s1, dh, 2), 0, s2.hash, d.public);
        var s3 := Absorb(s2, encStatic);
        var s4 := MixKey(s3, r.staticDh);
        var encTimestamp := A.Seal(KeyFor(s3, r.staticDh, 2), 0, s4.hash, t);
        var s5 := Absorb(s4, encTimestamp);
        var message := InitiationBytes(index, Public(e), encStatic, encTimestamp);
        var mac1 := Mac(r.mac1Key, message);
        (h0.(sym := s5, valid := true, initiator := true, localIndex := index),
         Some(Initiation(index, Public(e), encStatic, encTimestamp, mac1, Mac2(r.cookie, message, mac1))))
  }

  /* wireguard_peer_init on a valid device: a public key whose product is zero is not registered. */
  function InitPeer(d: DeviceKeys, public: key, preshared: key): Option<PeerKeys>
  {
    hide *;
    var dh := Dh(d.private, public);
    if dh == Zeros(32) then None else Some(PeerKeys(public, preshared, dh, Mac1Key(public), None))
  }

  /* What is kept of a peer is what registration has put there, but for the cookie. */
  predicate Admitted(d: DeviceKeys, r: PeerKeys)
  {
    hide *;
    InitPeer(d, r.public, r.preshared) == Some(r.(cookie := None))
  }

  predicate CheckInitiation(d: DeviceKeys, m: Initiation)
  {
    hide *;
    Mac(d.mac1Key, InitiationBytes(m.sender, m.ephemeral, m.encStatic, m.encTimestamp)) == m.mac1
  }

  /* The part of wireguard_process_initiation_message that authenticates: hash, chaining key and timestamp. */
  function ReadInitiation(d: DeviceKeys, r: PeerKeys, m: Initiation): Option<(Symmetric, T.stamp)>
  {
    hide *;
    var s1 := Opening(d.public, m.ephemeral);
    var dh := Dh(d.private, m.ephemeral);
    if dh == Zeros(32) then None
    else
      var s2 := MixKey(s1, dh);
      match A.Open(KeyFor(s1, dh, 2), 0, s2.hash, m.encStatic)
      case Rejected => None
      case Plain(s) =>
        if s != r.public then None
        else
          var s3 := Absorb(s2, m.encStatic);
          var s4 := MixKey(s3, r.staticDh);
          match A.Open(KeyFor(s3, r.staticDh, 2), 0, s4.hash, m.encTimestamp)
          case Rejected => None
          case Plain(t) =>
            OpenLength(KeyFor(s3, r.staticDh, 2), s4.hash, m.encTimestamp);
            Some((Absorb(s4, m.encTimestamp), t))
  }

  lemma OpenLength(k: key, ad: seq<byte>, box: seq<byte>)
    requires A.Open(k, 0, ad, box).Plain?
    ensures |A.Open(k, 0, ad, box).text| == |box| - 16
  {
    hide A.Tag, A.Crypt;
  }

  /* What a received initiation leaves behind. */
  datatype Reception = Reception(accepted: bool, state: State, greatest: T.stamp, lastRx: word)

  /* Later than the greatest stamp so far, and past the guard on the last reception. */
  predicate Timely(t: T.stamp, greatest: T.stamp, lastRx: word, now: word)
  {
    T.Memcmp(t, greatest) > 0 && (lastRx as int - now as int) % B >= 500
  }

  /* wireguard_process_initiation_message */
  function ProcessInitiation(d: DeviceKeys, r: PeerKeys, h: State, greatest: T.stamp, lastRx: word, now: word,
                             m: Initiation): Reception
  {
    hide *;
    match ReadInitiation(d, r, m)
    case None => Reception(false, h, greatest, lastRx)
    case Some((s, t)) =>
      if !Timely(t, greatest, lastRx, now) then Reception(false, h, greatest, lastRx)
      else
        Reception(true, h.(valid := true, initiator := false, remoteIndex := m.sender, remoteEphemeral := m.ephemeral,
                           sym := s), t, now)
  }

  // ---------- second message ----------

  /* (C, t, k) := Kdf3(C, Q); H := Hash(H || t) */
  function MixPreshared(s: Symmetric, q: key): Symmetric
  {
    hide *;
    Absorb(MixKey(s, q), KeyFor(s, q, 2))
  }

  /* The tag that authenticates the reply. */
  function EmptyTag(s: Symmetric, q: key): (r: mac)
  {
    hide *;
    A.Seal(KeyFor(s, q, 3), 0, MixPreshared(s, q).hash, [])
  }

  /* After the responder's ephemeral key and the two secrets that involve it. */
  function MixReply(s: Symmetric, ephemeral: key, dh1: key, dh2: key): Symmetric
  {
    hide *;
    MixKey(MixKey(Absorb(MixKey(s, ephemeral), ephemeral), dh1), dh2)
  }

  /* wireguard_create_handshake_response */
  function CreateResponse(r: PeerKeys, h: State, random: key, index: word): (State, Option<Response>)
  {
    hide *;
    if !h.valid || h.initiator then (h, None)
    else
      var e := Clamped(random);
      var h0 := h.(ephemeralPrivate := e);
      if e == Zeros(32) || Public(e) == Zeros(32) then (h0, None)
      else
        var s1 := Absorb(MixKey(h.sym, Public(e)), Public(e));
        var dh1 := Dh(e, h.remoteEphemeral);
        if dh1 == Zeros(32) then (h0.(sym := s1), None)
        else
          var s2 := MixKey(s1, dh1);
          var dh2 := Dh(e, r.public);
          if dh2 == Zeros(32) then (h0.(sym := s2), None)
          else
            var s3 := MixReply(h.sym, Public(e), dh1, dh2);
            var s4 := MixPreshared(s3, r.preshared);
            var encEmpty := EmptyTag(s3, r.preshared);
            var message := ResponseBytes(index, h.remoteIndex, Public(e), encEmpty);
            var mac1 := Mac(r.mac1Key, message);
            (h0.(sym := Absorb(s4, encEmpty), localIndex := index),
             Some(Response(index, h.remoteIndex, Public(e), encEmpty, mac1, Mac2(r.cookie, message, mac1))))
  }

  predicate CheckResponse(d: DeviceKeys, m: Response)
  {
    hide *;
    Mac(d.mac1Key, ResponseBytes(m.sender, m.receiver, m.ephemeral, m.encEmpty)) == m.mac1
  }

  /* wireguard_process_handshake_response */
  function ReadResponse(d: DeviceKeys, r: PeerKeys, h: State, m: Response): Option<State>
  {
    hide *;
    if !h.valid || !h.initiator then None
    else
      var dh1, dh2 := Dh(h.ephemeralPrivate, m.ephemeral), Dh(d.private, m.ephemeral);
      if dh1 == Zeros(32) || dh2 == Zeros(32) then None
      else
        var s3 := MixReply(h.sym, m.ephemeral, dh1, dh2);
        var s4 := MixPreshared(s3, r.preshared);
        if A.Open(KeyFor(s3, r.preshared, 3), 0, s4.hash, m.encEmpty).Rejected? then None
        else Some(h.(remoteEphemeral := m.ephemeral, sym := s4, remoteIndex := m.sender))
  }

  // ---------- transport keys ----------

  /* The handshake once its secrets are wiped. */
  function Forgotten(initiator: bool): State
  {
    State(false, initiator, 0, 0, Zeros(32), Zeros(32), Symmetric(Zeros(32), Zeros(32)))
  }

  datatype Transport = Transport(sending: key, receiving: key, localIndex: word, remoteIndex: word)

  /* The key derivation of wireguard_start_session. */
  function Transported(h: State, initiator: bool): Transport
  {
    hide *;
    var k1, k2 := KeyFor(h.sym, [], 1), KeyFor(h.sym, [], 2);
    if initiator then Transport(k1, k2, h.localIndex, h.remoteIndex) else Transport(k2, k1, h.localIndex, h.remoteIndex)
  }

  // ---------- agreement ----------

  /* Two devices registered with each other and a common preshared key. */
  predicate Registered(i: DeviceKeys, iPeer: PeerKeys, r: DeviceKeys, rPeer: PeerKeys)
  {
    && i.public == Public(i.private) && r.public == Public(r.private)
    && iPeer == PeerKeys(r.public, iPeer.preshared, Dh(i.private, r.public), Mac1Key(r.public), iPeer.cookie)
    && rPeer == PeerKeys(i.public, iPeer.preshared, Dh(r.private, i.public), Mac1Key(i.public), rPeer.cookie)
    && i.mac1Key == Mac1Key(i.public) && r.mac1Key == Mac1Key(r.public)
  }

  /* The one property of the curve that the protocol rests on. */
  predicate Commutes(a: key, b: key)
  {
    Dh(a, Public(b)) == Dh(b, Public(a))
  }

  /* Registered devices, with random bytes for both ephemeral keys, whose four key pairs commute. */
  predicate Meeting(i: DeviceKeys, iPeer: PeerKeys, r: DeviceKeys, rPeer: PeerKeys, random: key, random': key)
  {
    hide *;
    && Registered(i, iPeer, r, rPeer)
    && Commutes(Clamped(random), r.private) && Commutes(i.private, r.private)
    && Commutes(Clamped(random), Clamped(random')) && Commutes(i.private, Clamped(random'))
  }

  /* The hypotheses can be met: a device that meets itself commutes with itself. */
  lemma MeetingItself(random: key, preshared: key)
    ensures
      var private := Clamped(random);
      var public := Public(private);
      var d := DeviceKeys(private, public, Mac1Key(public));
      var peer := PeerKeys(public, preshared, Dh(private, public), Mac1Key(public), None);
      Meeting(d, peer, d, peer, random, random)
  {
    hide Clamped, Public, Dh, Mac1Key;
  }

  /* Whatever state the responder is in, it authenticates an unaltered initiation and arrives
     at the initiator's hash and chaining key. */
  lemma InitiationUnderstood(i: DeviceKeys, iPeer: PeerKeys, r: DeviceKeys, rPeer: PeerKeys, h: State, random: key,
                             t: T.stamp, index: word)
    requires Registered(i, iPeer, r, rPeer)
    requires Commutes(Clamped(random), r.private) && Commutes(i.private, r.private)
    ensures
      var (h', m) := CreateInitiation(i, iPeer, h, random, t, index);
      m.Some? ==>
        && CheckInitiation(r, m.value)
        && ReadInitiation(r, rPeer, m.value) == Some((h'.sym, t))
  {
    hide Dh, Public, Opening, Mac, Mac2, Mac1Key, A.Open, A.Seal, KeyFor, MixKey, Absorb, Initial, InitiationBytes,
         Clamped;
    var e := Clamped(random);
    var s1, dh := Opening(r.public, Public(e)), Dh(e, r.public);
    var s2 := MixKey(s1, dh);
    A.RoundTrip(KeyFor(s1, dh, 2), 0, s2.hash, i.public);
    var s3 := Absorb(s2, A.Seal(KeyFor(s1, dh, 2), 0, s2.hash, i.public));
    var s4 := MixKey(s3, iPeer.staticDh);
    A.RoundTrip(KeyFor(s3, iPeer.staticDh, 2), 0, s4.hash, t);
  }

  /* The initiator in state hi takes the reply m of a responder that ended in state hr. */
  predicate Answered(i: DeviceKeys, iPeer: PeerKeys, hi: State, hr: State, m: Response)
  {
    hide *;
    && CheckResponse(i, m) && m.receiver == hr.remoteIndex
    && var hi' := ReadResponse(i, iPeer, hi, m);
       && hi'.Some? && hi'.value.sym.ck == hr.sym.ck
       && hi'.value.localIndex == hi.localIndex && hi'.value.remoteIndex == hr.localIndex
  }

  /* An initiator waiting with the state the responder has answered accepts the unaltered reply. */
  lemma ReplyUnderstood(i: DeviceKeys, iPeer: PeerKeys, r: DeviceKeys, rPeer: PeerKeys, hi: State, hr: State,
                        random: key, index: word)
    requires Registered(i, iPeer, r, rPeer)
    requires hi.valid && hi.initiator && hr.remoteEphemeral == Public(hi.ephemeralPrivate) && hr.sym == hi.sym
    requires Commutes(hi.ephemeralPrivate, Clamped(random)) && Commutes(i.private, Clamped(random))
    ensures
      var (hr', m) := CreateResponse(rPeer, hr, random, index);
      m.Some? ==> Answered(i, iPeer, hi, hr', m.value) && hr'.remoteIndex == hr.remoteIndex && hr'.localIndex == index
  {
    hide Dh, Public, Clamped, Mac, Mac2, Mac1Key, A.Open, EmptyTag, MixReply, MixPreshared, MixKey, KeyFor, Absorb,
         ResponseBytes;
    var e := Clamped(random);
    var s3 := MixReply(hr.sym, Public(e), Dh(e, hr.remoteEphemeral), Dh(e, rPeer.public));
    EmptyBox(s3, rPeer.preshared, EmptyTag(s3, rPeer.preshared));
    AbsorbKeepsKey(MixPreshared(s3, rPeer.preshared), EmptyTag(s3, rPeer.preshared));
  }

  lemma AbsorbKeepsKey(s: Symmetric, data: seq<byte>)
    ensures Absorb(s, data).ck == s.ck
  {
    hide K.MixHash;
  }

  /* The whole exchange.  The responder accepts the first message exactly when its stamp is timely;
     then, if it can make a reply, the initiator takes it, the chaining keys agree, each side sends
     under the other's receiving key and the indices mirror each other. */
  lemma HandshakeAgrees(i: DeviceKeys, iPeer: PeerKeys, r: DeviceKeys, rPeer: PeerKeys, h0: State, g0: State,
                        random: key, t: T.stamp, index: word, greatest: T.stamp, lastRx: word, now: word,
                        random': key, index': word)
    requires Meeting(i, iPeer, r, rPeer, random, random')
    ensures
      var (h1, m) := CreateInitiation(i, iPeer, h0, random, t, index);
      m.Some? ==>
        var got := ProcessInitiation(r, rPeer, g0, greatest, lastRx, now, m.value);
        && CheckInitiation(r, m.value)
        && (got.accepted <==> Timely(t, greatest, lastRx, now))
        && (got.accepted ==> Agreement(i, iPeer, rPeer, h1, got.state, random', index'))
  {
    hide Dh, Public, Opening, Mac, Mac2, CheckInitiation, CheckResponse, ReadInitiation, A.Seal, KeyFor, Mac1Key,
         MixKey, Absorb, MixPreshared, Initial, Commutes, Registered, Clamped, CreateResponse, Answered, Timely,
         Agreement;
    InitiationUnderstood(i, iPeer, r, rPeer, h0, random, t, index);
    var (h1, m) := CreateInitiation(i, iPeer, h0, random, t, index);
    if m.Some? && Timely(t, greatest, lastRx, now) {
      var g1 := ProcessInitiation(r, rPeer, g0, greatest, lastRx, now, m.value).state;
      ReplyUnderstood(i, iPeer, r, rPeer, h1, g1, random', index');
      AgreementOf(i, iPeer, rPeer, h1, g1, random', index');
    }
  }

  /* What holds once the responder, having accepted, has made its reply. */
  predicate Agreement(i: DeviceKeys, iPeer: PeerKeys, rPeer: PeerKeys, h1: State, g1: State, random: key, index: word)
  {
    hide *;
    var (g2, reply) := CreateResponse(rPeer, g1, random, index);
    reply.Some? ==>
      && CheckResponse(i, reply.value) && reply.value.receiver == h1.localIndex
      && var h2 := ReadResponse(i, iPeer, h1, reply.value);
         && h2.Some? && h2.value.sym.ck == g2.sym.ck
         && Mirrored(Transported(h2.value, true), Transported(g2, false))
  }

  lemma AgreementOf(i: DeviceKeys, iPeer: PeerKeys, rPeer: PeerKeys, h1: State, g1: State, random: key, index: word)
    requires g1.remoteIndex == h1.localIndex
    requires
      var (g2, reply) := CreateResponse(rPeer, g1, random, index);
      reply.Some? ==>
        Answered(i, iPeer, h1, g2, reply.value) && g2.remoteIndex == g1.remoteIndex && g2.localIndex == index
    ensures Agreement(i, iPeer, rPeer, h1, g1, random, index)
  {
    hide CreateResponse, ReadResponse, CheckResponse, Transported, Mirrored;
    var (g2, reply) := CreateResponse(rPeer, g1, random, index);
    if reply.Some? {
      SameKeys(ReadResponse(i, iPeer, h1, reply.value).value, g2);
    }
  }

  predicate Mirrored(a: Transport, b: Transport)
  {
    a.sending == b.receiving && a.receiving == b.sending && a.localIndex == b.remoteIndex
    && a.remoteIndex == b.localIndex
  }

  lemma SameKeys(h: State, g: State)
    requires h.sym.ck == g.sym.ck && h.localIndex == g.remoteIndex && h.remoteIndex == g.localIndex
    ensures Mirrored(Transported(h, true), Transported(g, false))
  {
    hide K.Derive;
  }

  // ---------- when the messages can be made ----------

  /* A clamped key has bit 254 set. */
  lemma ClampedNotZero(private: key)
    ensures Clamped(private) != Zeros(32)
  {
    hide X.Clamp, LE, Bit;
    R.ClampBits(private);
    LEZeros(32);
    ZeroBit(254);
  }

  lemma InitiationMadeExactly(d: DeviceKeys, r: PeerKeys, h: State, random: key, t: T.stamp, index: word)
    ensures CreateInitiation(d, r, h, random, t, index).1.Some?
       <==> Public(Clamped(random)) != Zeros(32) && Dh(Clamped(random), r.public) != Zeros(32)
  {
    hide Dh, Public, Clamped, Opening, Mac, Mac2, A.Seal, KeyFor, MixKey, Absorb, Initial, InitiationBytes;
    ClampedNotZero(random);
  }

  lemma ReplyMadeExactly(r: PeerKeys, h: State, random: key, index: word)
    ensures CreateResponse(r, h, random, index).1.Some?
       <==> && h.valid && !h.initiator && Public(Clamped(random)) != Zeros(32)
            && Dh(Clamped(random), h.remoteEphemeral) != Zeros(32) && Dh(Clamped(random), r.public) != Zeros(32)
  {
    hide Dh, Public, Clamped, Mac, Mac2, EmptyTag, MixReply, MixPreshared, MixKey, Absorb, ResponseBytes;
    ClampedNotZero(random);
  }

  /* Both private keys, clamped, send a point to zero, or neither does. */
  predicate ZeroTogether(a: key, b: key, u: key)
  {
    Dh(a, u) == Zeros(32) <==> Dh(b, u) == Zeros(32)
  }

  /* What the curve has to provide for a reply to be made: the ephemeral key has a public key, and
     treats the two points it is used with as the device's own key does. */
  predicate Regular(d: DeviceKeys, r: PeerKeys, ephemeral: key, random: key)
  {
    hide *;
    && Public(Clamped(random)) != Zeros(32)
    && ZeroTogether(d.private, Clamped(random), ephemeral) && ZeroTogether(d.private, Clamped(random), r.public)
  }

  /* A registered peer's initiation that is accepted can be answered. */
  lemma AcceptedIsAnswered(d: DeviceKeys, r: PeerKeys, h: State, greatest: T.stamp, lastRx: word, now: word,
                           m: Initiation, random: key, index: word)
    requires Admitted(d, r) && Regular(d, r, m.ephemeral, random)
    ensures
      var got := ProcessInitiation(d, r, h, greatest, lastRx, now, m);
      got.accepted ==> CreateResponse(r, got.state, random, index).1.Some?
  {
    hide Dh, Public, Clamped, Mac1Key, CreateResponse, A.Open, KeyFor, MixKey, Absorb, Opening, Timely;
    ReplyMadeExactly(r, ProcessInitiation(d, r, h, greatest, lastRx, now, m).state, random, index);
  }

  /* Two devices that have registered each other carry the handshake through: the first message is
     made, it is accepted exactly when its stamp is timely, and then the reply is made, is taken, and
     both sides agree. */
  lemma HandshakeSucceeds(i: DeviceKeys, iPeer: PeerKeys, r: DeviceKeys, rPeer: PeerKeys, h0: State, g0: State,
                          random: key, t: T.stamp, index: word, greatest: T.stamp, lastRx: word, now: word,
                          random': key, index': word)
    requires Meeting(i, iPeer, r, rPeer, random, random') && Admitted(i, iPeer) && Admitted(r, rPeer)
    requires Public(Clamped(random)) != Zeros(32) && ZeroTogether(i.private, Clamped(random), r.public)
    requires Regular(r, rPeer, Public(Clamped(random)), random')
    ensures
      var (h1, m) := CreateInitiation(i, iPeer, h0, random, t, index);
      && m.Some? && CheckInitiation(r, m.value)
      && var got := ProcessInitiation(r, rPeer, g0, greatest, lastRx, now, m.value);
         && (got.accepted <==> Timely(t, greatest, lastRx, now))
         && (got.accepted ==>
               && CreateResponse(rPeer, got.state, random', index').1.Some?
               && Agreement(i, iPeer, rPeer, h1, got.state, random', index'))
  {
    hide Dh, Public, Clamped, Mac1Key, Commutes, CreateInitiation, CreateResponse, CheckInitiation, ProcessInitiation,
         Agreement, Timely, Regular;
    HandshakeAgrees(i, iPeer, r, rPeer, h0, g0, random, t, index, greatest, lastRx, now, random', index');
    InitiationMadeExactly(i, iPeer, h0, random, t, index);
    var m := CreateInitiation(i, iPeer, h0, random, t, index).1;
    InitiationCarries(i, iPeer, h0, random, t, index);
    AcceptedIsAnswered(r, rPeer, g0, greatest, lastRx, now, m.value, random', index');
  }

  lemma InitiationCarries(d: DeviceKeys, r: PeerKeys, h: State, random: key, t: T.stamp, index: word)
    ensures
      var m := CreateInitiation(d, r, h, random, t, index).1;
      m.Some? ==> m.value.ephemeral == Public(Clamped(random))
  {
    hide Dh, Public, Clamped, Opening, Mac, Mac2, A.Seal, KeyFor, MixKey, Absorb, Initial, InitiationBytes;
  }

  // ---------- altered messages ----------

  /* The fields of an initiation that carries the stamp t, for the responder that reads it. */
  predicate Carries(d: DeviceKeys, r: PeerKeys, m: Initiation, t: T.stamp)
  {
    hide *;
    var s1, dh := Opening(d.public, m.ephemeral), Dh(d.private, m.ephemeral);
    var s2 := MixKey(s1, dh);
    var s3 := Absorb(s2, m.encStatic);
    && dh != Zeros(32)
    && m.encStatic == A.Seal(KeyFor(s1, dh, 2), 0, s2.hash, r.public)
    && m.encTimestamp == A.Seal(KeyFor(s3, r.staticDh, 2), 0, MixKey(s3, r.staticDh).hash, t)
  }

  /* An initiation is read, and gives the stamp t, exactly when the secret is not zero and its two boxes
     are the sealings of the peer's public key and of t under the responder's own keys. */
  lemma InitiationReadExactly(d: DeviceKeys, r: PeerKeys, m: Initiation, t: T.stamp)
    ensures
      var read := ReadInitiation(d, r, m);
      read.Some? && read.value.1 == t <==> Carries(d, r, m, t)
  {
    hide Dh, Opening, KeyFor, MixKey, Absorb, A.Open, A.Seal;
    var s1, dh := Opening(d.public, m.ephemeral), Dh(d.private, m.ephemeral);
    var s2 := MixKey(s1, dh);
    var s3 := Absorb(s2, m.encStatic);
    SmallBox(KeyFor(s1, dh, 2), s2.hash, m.encStatic, r.public);
    SmallBox(KeyFor(s3, r.staticDh, 2), MixKey(s3, r.staticDh).hash, m.encTimestamp, t);
  }

  lemma SmallBox(k: key, ad: seq<byte>, box: seq<byte>, text: seq<byte>)
    requires |text| < 0x8000_0000
    ensures A.Open(k, 0, ad, box) == A.Plain(text) <==> box == A.Seal(k, 0, ad, text)
  {
    hide A.Open, A.Tag, A.Crypt;
    A.OpenedExactly(k, 0, ad, box, text);
  }

  /* Another box for the static key, or another MAC, makes a readable initiation refused. */
  lemma AlteredInitiationRefused(d: DeviceKeys, r: PeerKeys, m: Initiation, box: box48, mac1: mac)
    requires CheckInitiation(d, m) && ReadInitiation(d, r, m).Some?
    ensures box != m.encStatic ==> ReadInitiation(d, r, m.(encStatic := box)).None?
    ensures mac1 != m.mac1 ==> !CheckInitiation(d, m.(mac1 := mac1))
  {
    hide ReadInitiation, Opening, Dh, MixKey, Absorb, KeyFor, A.Seal, Mac, InitiationBytes;
    var m' := m.(encStatic := box);
    InitiationReadExactly(d, r, m, ReadInitiation(d, r, m).value.1);
    if ReadInitiation(d, r, m').Some? {
      InitiationReadExactly(d, r, m', ReadInitiation(d, r, m').value.1);
    }
  }

  /* A reply is accepted exactly when both shared secrets are non-zero and its tag is the one tag
     that the initiator's own hash and keys give. */
  lemma ReplyAcceptedExactly(d: DeviceKeys, r: PeerKeys, h: State, m: Response)
    ensures
      var dh1, dh2 := Dh(h.ephemeralPrivate, m.ephemeral), Dh(d.private, m.ephemeral);
      ReadResponse(d, r, h, m).Some?
      <==> && h.valid && h.initiator && dh1 != Zeros(32) && dh2 != Zeros(32)
           && m.encEmpty == EmptyTag(MixReply(h.sym, m.ephemeral, dh1, dh2), r.preshared)
  {
    hide Dh, MixReply, MixPreshared, EmptyTag, KeyFor, A.Open;
    EmptyBox(MixReply(h.sym, m.ephemeral, Dh(h.ephemeralPrivate, m.ephemeral), Dh(d.private, m.ephemeral)),
             r.preshared, m.encEmpty);
  }

  lemma EmptyBox(s: Symmetric, q: key, box: mac)
    ensures A.Open(KeyFor(s, q, 3), 0, MixPreshared(s, q).hash, box).Plain? <==> box == EmptyTag(s, q)
  {
    hide A.Tag, A.Crypt, KeyFor, MixPreshared;
    var k, ad := KeyFor(s, q, 3), MixPreshared(s, q).hash;
    A.OpenedIsSealed(k, 0, ad, box);
    A.RoundTrip(k, 0, ad, []);
    if A.Open(k, 0, ad, box).Plain? {
      assert A.Open(k, 0, ad, box).text == [];
    }
  }

  /* Changing the tag, or the MAC, of a reply that would be accepted makes it refused. */
  lemma AlteredReplyRefused(d: DeviceKeys, r: PeerKeys, h: State, m: Response, tag: mac, mac1: mac)
    requires CheckResponse(d, m) && ReadResponse(d, r, h, m).Some?
    ensures tag != m.encEmpty ==> ReadResponse(d, r, h, m.(encEmpty := tag)).None?
    ensures mac1 != m.mac1 ==> !CheckResponse(d, m.(mac1 := mac1))
  {
    ReplyAcceptedExactly(d, r, h, m);
    ReplyAcceptedExactly(d, r, h, m.(encEmpty := tag));
    hide ReadResponse, EmptyTag, MixReply, Dh, Mac, ResponseBytes;
  }
}
