/**
 What goes into the keys of a handshake, as lists: every chaining key is the
 fold of the key derivation over the secrets mixed in so far, every hash the
 fold of hashing over the bytes absorbed so far, whichever helpers compute
 them.
 */
module Transcript {
  import opened Words
  import K = Kdf
  import H = Blake2s
  import A = Aead
  import X = X25519
  import R = Curve
  import T = Tai64n
  import opened Noise

  // ---------- folds ----------

  /* The chaining key after the inputs: each replaces it by the first key derived with it. */
  function Chain(ck: key, inputs: seq<key>): key
  {
    if inputs == [] then ck else K.Derive(Chain(ck, inputs[..|inputs| - 1]), inputs[|inputs| - 1], 1)
  }

  /* The hash after the parts: each is hashed behind it. */
  function Digests(hash: key, parts: seq<seq<byte>>): key
  {
    if parts == [] then hash else K.Digest32(Digests(hash, parts[..|parts| - 1]) + parts[|parts| - 1])
  }

  lemma ChainNext(ck: key, inputs: seq<key>, x: key)
    ensures Chain(ck, inputs + [x]) == K.Derive(Chain(ck, inputs), x, 1)
  {
    hide K.Derive;
    assert (inputs + [x])[..|inputs|] == inputs;
  }

  lemma DigestsNext(hash: key, parts: seq<seq<byte>>, x: seq<byte>)
    ensures Digests(hash, parts + [x]) == K.Digest32(Digests(hash, parts) + x)
  {
    hide K.Digest32;
    assert (parts + [x])[..|parts|] == parts;
  }

  lemma ChainEmpty(ck: key)
    ensures Chain(ck, []) == ck
  {
  }

  lemma DigestsEmpty(hash: key)
    ensures Digests(hash, []) == hash
  {
  }

  lemma {:induction false} ChainJoin(ck: key, x: seq<key>, y: seq<key>)
    ensures Chain(Chain(ck, x), y) == Chain(ck, x + y)
    decreases |y|
  {
    hide K.Derive;
    if y == [] {
      assert x + y == x;
    } else {
      var n := |y| - 1;
      ChainJoin(ck, x, y[..n]);
      assert (x + y)[..|x + y| - 1] == x + y[..n];
    }
  }

  lemma {:induction false} DigestsJoin(hash: key, x: seq<seq<byte>>, y: seq<seq<byte>>)
    ensures Digests(Digests(hash, x), y) == Digests(hash, x + y)
    decreases |y|
  {
    hide K.Digest32;
    if y == [] {
      assert x + y == x;
    } else {
      var n := |y| - 1;
      DigestsJoin(hash, x, y[..n]);
      assert (x + y)[..|x + y| - 1] == x + y[..n];
    }
  }

  // ---------- the three mixing steps ----------

  /* A symmetric state reached from a first value by these inputs and parts. */
  predicate Reached(s: Symmetric, c: key, inputs: seq<key>, parts: seq<seq<byte>>)
  {
    hide *;
    s.ck == Chain(c, inputs) && s.hash == Digests(c, parts)
  }

  lemma Mixed(s: Symmetric, c: key, inputs: seq<key>, parts: seq<seq<byte>>, x: key)
    requires Reached(s, c, inputs, parts)
    ensures Reached(MixKey(s, x), c, inputs + [x], parts)
  {
    hide K.Derive, Chain, Digests;
    ChainNext(c, inputs, x);
  }

  lemma Absorbed(s: Symmetric, c: key, inputs: seq<key>, parts: seq<seq<byte>>, x: seq<byte>)
    requires Reached(s, c, inputs, parts)
    ensures Reached(Absorb(s, x), c, inputs, parts + [x])
  {
    hide K.Digest32, Chain, Digests;
    DigestsNext(c, parts, x);
  }

  /* The value both chaining key and hash begin with. */
  function Construction(): key
  {
    hide *;
    K.Digest32(Ascii("Noise_IKpsk2_25519_ChaChaPoly_BLAKE2s"))
  }

  function Identifier(): seq<byte>
  {
    hide *;
    Ascii("WireGuard v1 zx2c4 Jason@zx2c4.com")
  }

  lemma Begun()
    ensures Reached(Initial(), Construction(), [], [Identifier()])
  {
    hide K.Digest32, Ascii, Digests, Chain;
    ChainEmpty(Construction());
    DigestsEmpty(Construction());
    DigestsNext(Construction(), [], Identifier());
    assert [] + [Identifier()] == [Identifier()];
  }

  lemma Opened(responder: key, ephemeral: key)
    ensures Reached(Opening(responder, ephemeral), Construction(), [ephemeral], [Identifier(), responder, ephemeral])
  {
    hide Reached, Initial, Absorb, MixKey, Identifier, Construction;
    var c, s0 := Construction(), Initial();
    Begun();
    Absorbed(s0, c, [], [Identifier()], responder);
    var s1 := Absorb(s0, responder);
    assert [Identifier()] + [responder] == [Identifier(), responder];
    Mixed(s1, c, [], [Identifier(), responder], ephemeral);
    assert [] + [ephemeral] == [ephemeral];
    Absorbed(MixKey(s1, ephemeral), c, [ephemeral], [Identifier(), responder], ephemeral);
    assert [Identifier(), responder] + [ephemeral] == [Identifier(), responder, ephemeral];
  }

  // ---------- the first message ----------

  /* What an initiation consists of, for the secrets es between ephemeral and static key and ss between the
     static keys. */
  predicate InitiationFields(responder: key, ephemeral: key, es: key, ss: key, own: key, t: T.stamp,
                             encStatic: seq<byte>, encTimestamp: seq<byte>)
  {
    hide *;
    var c := Construction();
    && encStatic == A.Seal(K.Derive(Chain(c, [ephemeral]), es, 2), 0,
                           Digests(c, [Identifier(), responder, ephemeral]), own)
    && encTimestamp == A.Seal(K.Derive(Chain(c, [ephemeral, es]), ss, 2), 0,
                              Digests(c, [Identifier(), responder, ephemeral, encStatic]), t)
  }

  lemma InitiationTranscript(d: DeviceKeys, r: PeerKeys, h: State, random: key, t: T.stamp, index: word)
    ensures
      var (h', m) := CreateInitiation(d, r, h, random, t, index);
      var e := Clamped(random);
      var E, es := Dh(e, BasePoint()), Dh(e, r.public);
      m.Some? ==>
        && m.value.ephemeral == E && h'.ephemeralPrivate == e
        && InitiationFields(r.public, E, es, r.staticDh, d.public, t, m.value.encStatic, m.value.encTimestamp)
        && Reached(h'.sym, Construction(), [E, es, r.staticDh],
                   [Identifier(), r.public, E, m.value.encStatic, m.value.encTimestamp])
  {
    hide Reached, Dh, Clamped, Mac, Mac2, Opening, Absorb, MixKey, Identifier, Construction, A.Seal, Initial,
         InitiationBytes, BasePoint, K.Derive, Chain, Digests;
    var e := Clamped(random);
    var E, es, ss, c := Dh(e, BasePoint()), Dh(e, r.public), r.staticDh, Construction();
    var s1 := Opening(r.public, E);
    var encStatic := A.Seal(KeyFor(s1, es, 2), 0, MixKey(s1, es).hash, d.public);
    var s3 := Absorb(MixKey(s1, es), encStatic);
    var encTimestamp := A.Seal(KeyFor(s3, ss, 2), 0, MixKey(s3, ss).hash, t);
    FieldsOf(r.public, E, es, ss, d.public, t, encStatic, encTimestamp);
  }

  /* The same two fields in terms of the states both sides run through. */
  predicate FieldsByStates(responder: key, ephemeral: key, es: key, ss: key, own: key, t: T.stamp,
                           encStatic: seq<byte>, encTimestamp: seq<byte>)
  {
    hide *;
    var s1 := Opening(responder, ephemeral);
    var s3 := Absorb(MixKey(s1, es), encStatic);
    && encStatic == A.Seal(KeyFor(s1, es, 2), 0, MixKey(s1, es).hash, own)
    && encTimestamp == A.Seal(KeyFor(s3, ss, 2), 0, MixKey(s3, ss).hash, t)
  }

  function LastState(responder: key, ephemeral: key, es: key, ss: key, encStatic: seq<byte>,
                     encTimestamp: seq<byte>): Symmetric
  {
    hide *;
    Absorb(MixKey(Absorb(MixKey(Opening(responder, ephemeral), es), encStatic), ss), encTimestamp)
  }

  lemma FieldsOf(responder: key, ephemeral: key, es: key, ss: key, own: key, t: T.stamp, encStatic: seq<byte>,
                 encTimestamp: seq<byte>)
    ensures FieldsByStates(responder, ephemeral, es, ss, own, t, encStatic, encTimestamp)
       <==> InitiationFields(responder, ephemeral, es, ss, own, t, encStatic, encTimestamp)
    ensures Reached(LastState(responder, ephemeral, es, ss, encStatic, encTimestamp), Construction(),
                    [ephemeral, es, ss], [Identifier(), responder, ephemeral, encStatic, encTimestamp])
  {
    hide Dh, Opening, Absorb, MixKey, Identifier, Construction, A.Seal, Chain, Digests, K.Derive;
    var c, s1 := Construction(), Opening(responder, ephemeral);
    var p1: seq<seq<byte>> := [Identifier(), responder, ephemeral];
    Opened(responder, ephemeral);
    Mixed(s1, c, [ephemeral], p1, es);
    assert [ephemeral] + [es] == [ephemeral, es];
    var s2 := MixKey(s1, es);
    Absorbed(s2, c, [ephemeral, es], p1, encStatic);
    var p3 := p1 + [encStatic];
    assert p3 == [Identifier(), responder, ephemeral, encStatic];
    var s3 := Absorb(s2, encStatic);
    Mixed(s3, c, [ephemeral, es], p3, ss);
    assert [ephemeral, es] + [ss] == [ephemeral, es, ss];
    Absorbed(MixKey(s3, ss), c, [ephemeral, es, ss], p3, encTimestamp);
    assert p3 + [encTimestamp] == [Identifier(), responder, ephemeral, encStatic, encTimestamp];
  }

  /* The responder reads a stamp exactly from a message with these fields, and is then in that state. */
  lemma ReadTranscript(d: DeviceKeys, r: PeerKeys, m: Initiation, t: T.stamp)
    ensures
      var read, es := ReadInitiation(d, r, m), Dh(d.private, m.ephemeral);
      && (read.Some? && read.value.1 == t
          <==> && es != Zeros(32)
               && InitiationFields(d.public, m.ephemeral, es, r.staticDh, r.public, t, m.encStatic, m.encTimestamp))
      && (read.Some? ==>
            Reached(read.value.0, Construction(), [m.ephemeral, es, r.staticDh],
                    [Identifier(), d.public, m.ephemeral, m.encStatic, m.encTimestamp]))
  {
    hide Reached, Dh, Opening, Absorb, MixKey, Identifier, Construction, A.Seal, A.Open, K.Derive, Chain, Digests,
         KeyFor, InitiationFields;
    InitiationReadExactly(d, r, m, t);
    FieldsOf(d.public, m.ephemeral, Dh(d.private, m.ephemeral), r.staticDh, r.public, t, m.encStatic, m.encTimestamp);
  }

  // ---------- the second message ----------

  /* The part that the preshared key adds to the hash: the second key derived with it. */
  function Tau(c: key, inputs: seq<key>, q: key): key
  {
    hide *;
    K.Derive(Chain(c, inputs), q, 2)
  }

  /* The tag of a reply over inputs and parts so far and the preshared key. */
  predicate ReplyField(c: key, inputs: seq<key>, parts: seq<seq<byte>>, q: key, encEmpty: seq<byte>)
  {
    hide *;
    encEmpty == A.Seal(K.Derive(Chain(c, inputs), q, 3), 0, Digests(c, parts + [Tau(c, inputs, q)]), [])
  }

  lemma ReplyMixed(s: Symmetric, c: key, inputs: seq<key>, parts: seq<seq<byte>>, ephemeral: key, ee: key, se: key)
    requires Reached(s, c, inputs, parts)
    ensures Reached(MixReply(s, ephemeral, ee, se), c, inputs + [ephemeral, ee, se], parts + [ephemeral])
  {
    hide Reached, Absorb, MixKey;
    var s1 := MixKey(s, ephemeral);
    Mixed(s, c, inputs, parts, ephemeral);
    Absorbed(s1, c, inputs + [ephemeral], parts, ephemeral);
    var s2 := Absorb(s1, ephemeral);
    Mixed(s2, c, inputs + [ephemeral], parts + [ephemeral], ee);
    Mixed(MixKey(s2, ee), c, inputs + [ephemeral] + [ee], parts + [ephemeral], se);
    assert inputs + [ephemeral] + [ee] + [se] == inputs + [ephemeral, ee, se];
  }

  lemma PresharedMixed(s: Symmetric, c: key, inputs: seq<key>, parts: seq<seq<byte>>, q: key)
    requires Reached(s, c, inputs, parts)
    ensures Reached(MixPreshared(s, q), c, inputs + [q], parts + [Tau(c, inputs, q)])
  {
    hide Reached, Absorb, MixKey, K.Derive, Chain, Digests;
    TauOf(s, c, inputs, parts, q);
    Mixed(s, c, inputs, parts, q);
    Absorbed(MixKey(s, q), c, inputs + [q], parts, Tau(c, inputs, q));
  }

  lemma TauOf(s: Symmetric, c: key, inputs: seq<key>, parts: seq<seq<byte>>, q: key)
    requires Reached(s, c, inputs, parts)
    ensures KeyFor(s, q, 2) == Tau(c, inputs, q) && KeyFor(s, q, 3) == K.Derive(Chain(c, inputs), q, 3)
  {
    hide K.Derive, Chain, Digests;
  }

  lemma PresharedTag(s: Symmetric, c: key, inputs: seq<key>, parts: seq<seq<byte>>, q: key, box: seq<byte>)
    requires Reached(s, c, inputs, parts)
    ensures box == EmptyTag(s, q) <==> ReplyField(c, inputs, parts, q, box)
  {
    hide Reached, KeyFor, MixPreshared, Tau, A.Seal, K.Derive, Chain, Digests;
    PresharedMixed(s, c, inputs, parts, q);
    TauOf(s, c, inputs, parts, q);
    HashOf(MixPreshared(s, q), c, inputs + [q], parts + [Tau(c, inputs, q)]);
  }

  lemma HashOf(s: Symmetric, c: key, inputs: seq<key>, parts: seq<seq<byte>>)
    requires Reached(s, c, inputs, parts)
    ensures s.hash == Digests(c, parts)
  {
    hide Chain, Digests;
  }

  /* What a responder in a state with this history sends, and the state it ends in. */
  predicate ReplySent(r: PeerKeys, h: State, random: key, index: word, c: key, inputs: seq<key>,
                      parts: seq<seq<byte>>)
  {
    hide *;
    var (h', m) := CreateResponse(r, h, random, index);
    var e := Clamped(random);
    var E, ee, se, q := Dh(e, BasePoint()), Dh(e, h.remoteEphemeral), Dh(e, r.public), r.preshared;
    m.Some? ==>
      var mixed := inputs + [E, ee, se];
      && m.value.ephemeral == E && ReplyField(c, mixed, parts + [E], q, m.value.encEmpty)
      && Reached(h'.sym, c, mixed + [q], parts + [E] + [Tau(c, mixed, q)] + [m.value.encEmpty])
  }

  lemma ReplyTranscript(r: PeerKeys, h: State, random: key, index: word, c: key, inputs: seq<key>,
                        parts: seq<seq<byte>>)
    requires Reached(h.sym, c, inputs, parts)
    ensures ReplySent(r, h, random, index, c, inputs, parts)
  {
    hide Reached, Dh, Clamped, Mac, Mac2, Absorb, MixKey, MixReply, MixPreshared, EmptyTag, BasePoint, ResponseBytes,
         ReplyField, Tau;
    var e := Clamped(random);
    var E, ee, se, q := Dh(e, BasePoint()), Dh(e, h.remoteEphemeral), Dh(e, r.public), r.preshared;
    var s3 := MixReply(h.sym, E, ee, se);
    var mixed := inputs + [E, ee, se];
    ReplyMixed(h.sym, c, inputs, parts, E, ee, se);
    PresharedMixed(s3, c, mixed, parts + [E], q);
    PresharedTag(s3, c, mixed, parts + [E], q, EmptyTag(s3, q));
    Absorbed(MixPreshared(s3, q), c, mixed + [q], parts + [E] + [Tau(c, mixed, q)], EmptyTag(s3, q));
  }

  /* The waiting initiator takes a reply exactly when its tag is that of its own history. */
  predicate ReplyTaken(d: DeviceKeys, r: PeerKeys, h: State, m: Response, c: key, inputs: seq<key>,
                       parts: seq<seq<byte>>)
  {
    hide *;
    var read, E, q := ReadResponse(d, r, h, m), m.ephemeral, r.preshared;
    var ee, se := Dh(h.ephemeralPrivate, E), Dh(d.private, E);
    var mixed := inputs + [E, ee, se];
    && (read.Some? <==> && h.valid && h.initiator && ee != Zeros(32) && se != Zeros(32)
                        && ReplyField(c, mixed, parts + [E], q, m.encEmpty))
    && (read.Some? ==> Reached(read.value.sym, c, mixed + [q], parts + [E] + [Tau(c, mixed, q)]))
  }

  lemma ReadReplyTranscript(d: DeviceKeys, r: PeerKeys, h: State, m: Response, c: key, inputs: seq<key>,
                            parts: seq<seq<byte>>)
    requires Reached(h.sym, c, inputs, parts)
    ensures ReplyTaken(d, r, h, m, c, inputs, parts)
  {
    hide Reached, Dh, MixReply, MixPreshared, EmptyTag, ReplyField, Tau, A.Open, KeyFor;
    var E, ee, se := m.ephemeral, Dh(h.ephemeralPrivate, m.ephemeral), Dh(d.private, m.ephemeral);
    ReplyAcceptedExactly(d, r, h, m);
    ReplyMixed(h.sym, c, inputs, parts, E, ee, se);
    PresharedMixed(MixReply(h.sym, E, ee, se), c, inputs + [E, ee, se], parts + [E], r.preshared);
    PresharedTag(MixReply(h.sym, E, ee, se), c, inputs + [E, ee, se], parts + [E], r.preshared, m.encEmpty);
  }

  // ---------- the whole exchange ----------

  /* What both sides end with when both messages went through: the fold over both ephemeral public keys,
     the four secrets and the preshared key, and the two keys derived from it, one for each direction. */
  predicate KeysAre(h: State, g: State, inputs: seq<key>)
  {
    hide *;
    var ck := Chain(Construction(), inputs);
    && h.sym.ck == ck && g.sym.ck == ck
    && Transported(h, true).sending == K.Derive(ck, [], 1) == Transported(g, false).receiving
    && Transported(g, false).sending == K.Derive(ck, [], 2) == Transported(h, true).receiving
  }

  lemma KeysFollow(h: State, g: State, inputs: seq<key>)
    requires h.sym.ck == g.sym.ck == Chain(Construction(), inputs)
    ensures KeysAre(h, g, inputs)
  {
    hide K.Derive, Chain, Construction;
  }

  /* For every unaltered exchange, from whatever states both sides begin. */
  ghost predicate Exchanged(i: DeviceKeys, iPeer: PeerKeys, r: DeviceKeys, rPeer: PeerKeys, h0: State, g0: State,
                            random: key, t: T.stamp, index: word, greatest: T.stamp, lastRx: word, now: word,
                            random': key, index': word)
  {
    hide *;
    var (h1, m) := CreateInitiation(i, iPeer, h0, random, t, index);
    m.Some? ==>
      var got := ProcessInitiation(r, rPeer, g0, greatest, lastRx, now, m.value);
      var (g2, reply) := CreateResponse(rPeer, got.state, random', index');
      got.accepted && reply.Some? ==>
        var h2 := ReadResponse(i, iPeer, h1, reply.value);
        var (a, b) := (Clamped(random), Clamped(random'));
        var E, F := Dh(a, BasePoint()), Dh(b, BasePoint());
        h2.Some? && KeysAre(h2.value, g2, [E, Dh(a, r.public), Dh(i.private, r.public)]
                                          + [F, Dh(a, F), Dh(i.private, F)] + [iPeer.preshared])
  }

  lemma ExchangeTranscript(i: DeviceKeys, iPeer: PeerKeys, r: DeviceKeys, rPeer: PeerKeys, h0: State, g0: State,
                           random: key, t: T.stamp, index: word, greatest: T.stamp, lastRx: word, now: word,
                           random': key, index': word)
    requires Meeting(i, iPeer, r, rPeer, random, random')
    ensures Exchanged(i, iPeer, r, rPeer, h0, g0, random, t, index, greatest, lastRx, now, random', index')
  {
    hide Dh, Clamped, BasePoint, CreateInitiation, ProcessInitiation, CreateResponse, ReadResponse, CheckInitiation,
         CheckResponse, Commutes, Mac1Key, Timely, Identifier, Construction, KeysAre, Transported, Mirrored, Chain,
         K.Derive;
    HandshakeAgrees(i, iPeer, r, rPeer, h0, g0, random, t, index, greatest, lastRx, now, random', index');
    var (h1, m) := CreateInitiation(i, iPeer, h0, random, t, index);
    if m.Some? {
      InitiationTranscript(i, iPeer, h0, random, t, index);
      var got := ProcessInitiation(r, rPeer, g0, greatest, lastRx, now, m.value);
      var (g2, reply) := CreateResponse(rPeer, got.state, random', index');
      if got.accepted && reply.Some? {
        var E, es := Dh(Clamped(random), BasePoint()), Dh(Clamped(random), r.public);
        var inputs := [E, es, Dh(i.private, r.public)];
        var parts: seq<seq<byte>> := [Identifier(), r.public, E, m.value.encStatic, m.value.encTimestamp];
        ReplyCarries(rPeer, got.state, random', index');
        ReadReplyTranscript(i, iPeer, h1, reply.value, Construction(), inputs, parts);
        var F := Dh(Clamped(random'), BasePoint());
        KeysFollow(ReadResponse(i, iPeer, h1, reply.value).value, g2,
                   inputs + [F, Dh(Clamped(random), F), Dh(i.private, F)] + [iPeer.preshared]);
      }
    }
  }

  lemma ReplyCarries(r: PeerKeys, h: State, random: key, index: word)
    ensures
      var m := CreateResponse(r, h, random, index).1;
      m.Some? ==> m.value.ephemeral == Dh(Clamped(random), BasePoint())
  {
    hide Dh, Clamped, Mac, Mac2, Absorb, MixKey, MixReply, MixPreshared, EmptyTag, BasePoint, ResponseBytes;
  }

  // ---------- secrets, derivations and bytes ----------

  /* A secret is the ladder's output for the clamped private key, little-endian. */
  lemma DhNumber(private: key, public: key)
    ensures LE(Dh(private, public))
         == X.ScalarMult(Pow2(254) + (LE(private) % Pow2(254) - LE(private) % 8), LE(public))
  {
    hide LE, LEBytes, Pow2, X.ScalarMult, X.Clamp;
    R.ClampNumber(private);
    var v := X.ScalarMult(LE(Clamped(private)), LE(public));
    LEofLEBytes(v, 32);
    OutputSmall(LE(Clamped(private)), LE(public));
    DivModUnique(v, Pow2(256), 0, v);
  }

  lemma OutputSmall(k: nat, x1: nat)
    ensures X.ScalarMult(k, x1) < Pow2(256)
  {
    hide X.Run, X.FPow, Pow2;
    Pow2Values();
    Pow2Add(32, 32);
    Pow2Add(64, 64);
    Pow2Add(128, 128);
  }

  /* The base point is nine. */
  lemma BaseIsNine()
    ensures LE(BasePoint()) == 9
  {
    assert BasePoint()[1..] == Zeros(31);
    LEZeros(31);
  }

  /* The keys derived from a chaining key and an input, as calls of HMAC. */
  predicate DerivedBy(ck: seq<byte>, input: seq<byte>)
  {
    hide *;
    var t0 := K.Hmac(ck, input);
    var t1 := K.Hmac(t0, [1]);
    var t2 := K.Hmac(t0, t1 + [2]);
    K.Derive(ck, input, 1) == t1 && K.Derive(ck, input, 2) == t2 && K.Derive(ck, input, 3) == K.Hmac(t0, t2 + [3])
  }

  lemma DeriveSteps(ck: seq<byte>, input: seq<byte>)
    ensures DerivedBy(ck, input)
  {
    hide K.Hmac;
  }

  /* The hash is BLAKE2s with 32 bytes and no key. */
  lemma DigestIsHash(m: seq<byte>)
    ensures K.Digest32(m) == H.Hash(32, [], m)
  {
    hide H.Hash;
  }

  /* HMAC of section 2 of RFC 2104 with the two paddings byte by byte. */
  lemma HmacParts(k: seq<byte>, text: seq<byte>, inner: seq<byte>, outer: seq<byte>)
    requires |inner| == |outer| == 64
    requires forall i :: 0 <= i < 64 ==> XorByte(inner[i], 0x36) == K.BlockKey(k)[i] == XorByte(outer[i], 0x5c)
    ensures K.Hmac(k, text) == K.Digest32(outer + K.Digest32(inner + text))
  {
    hide K.Digest32, K.BlockKey, XorByte;
    var b := K.BlockKey(k);
    forall i | 0 <= i < 64
      ensures inner[i] == XorByte(b[i], 0x36) && outer[i] == XorByte(b[i], 0x5c)
    {
      XorTwice(inner[i], 0x36);
      XorTwice(outer[i], 0x5c);
    }
    assert inner == K.XorEach(b, 0x36) && outer == K.XorEach(b, 0x5c);
  }

  lemma XorTwice(x: byte, y: byte)
    ensures XorByte(XorByte(x, y), y) == x
  {
  }

  /* The block key is the key with zeros behind it, or the hash of a key longer than a block. */
  lemma BlockKeyShape(k: seq<byte>)
    ensures |k| <= 64 ==> K.BlockKey(k)[..|k|] == k && K.BlockKey(k)[|k|..] == Zeros(64 - |k|)
    ensures |k| > 64 ==> K.BlockKey(k)[..32] == H.Hash(32, [], k) && K.BlockKey(k)[32..] == Zeros(32)
  {
    hide H.Hash, Zeros;
  }

  /* The fields of the two messages in front of their MACs. */
  lemma InitiationLayout(sender: word, ephemeral: key, encStatic: box48, encTimestamp: box28)
    ensures
      var b := InitiationBytes(sender, ephemeral, encStatic, encTimestamp);
      && |b| == 116 && b[..4] == [1, 0, 0, 0] && LE(b[4..8]) == sender
      && b[8..40] == ephemeral && b[40..88] == encStatic && b[88..] == encTimestamp
  {
    hide LE, LEBytes;
    WordBytes(sender);
    var b := InitiationBytes(sender, ephemeral, encStatic, encTimestamp);
    assert b[4..8] == LEBytes(sender, 4);
  }

  lemma ResponseLayout(sender: word, receiver: word, ephemeral: key, encEmpty: mac)
    ensures
      var b := ResponseBytes(sender, receiver, ephemeral, encEmpty);
      && |b| == 60 && b[..4] == [2, 0, 0, 0] && LE(b[4..8]) == sender && LE(b[8..12]) == receiver
      && b[12..44] == ephemeral && b[44..] == encEmpty
  {
    hide LE, LEBytes;
    WordBytes(sender);
    WordBytes(receiver);
    var b := ResponseBytes(sender, receiver, ephemeral, encEmpty);
    assert b[4..8] == LEBytes(sender, 4) && b[8..12] == LEBytes(receiver, 4);
  }

  /* The MACs of both messages: keyed with the receiver's public key hashed behind a label, and, while there
     is a fresh cookie, with the cookie. */
  predicate MacsAre(r: PeerKeys, message: seq<byte>, mac1: mac, mac2: mac)
  {
    hide *;
    && mac1 == H.Hash(16, K.Digest32(Ascii("mac1----") + r.public), message)
    && mac2 == if r.cookie.None? then Zeros(16) else H.Hash(16, r.cookie.value, message + mac1)
  }

  lemma InitiationMacs(d: DeviceKeys, r: PeerKeys, h: State, random: key, t: T.stamp, index: word)
    requires Admitted(d, r)
    ensures
      var m := CreateInitiation(d, r, h, random, t, index).1;
      m.Some? ==>
        && m.value.sender == index
        && MacsAre(r, InitiationBytes(index, m.value.ephemeral, m.value.encStatic, m.value.encTimestamp), m.value.mac1,
                   m.value.mac2)
  {
    hide Dh, Clamped, Opening, Absorb, MixKey, KeyFor, A.Seal, Initial, InitiationBytes, BasePoint, H.Hash, K.Digest32,
         Ascii;
  }

  lemma ReplyMacs(d: DeviceKeys, r: PeerKeys, h: State, random: key, index: word)
    requires Admitted(d, r)
    ensures
      var m := CreateResponse(r, h, random, index).1;
      m.Some? ==>
        && m.value.sender == index && m.value.receiver == h.remoteIndex
        && MacsAre(r, ResponseBytes(index, h.remoteIndex, m.value.ephemeral, m.value.encEmpty), m.value.mac1,
                   m.value.mac2)
  {
    hide Dh, Clamped, Absorb, MixKey, MixReply, MixPreshared, EmptyTag, ResponseBytes, BasePoint, H.Hash, K.Digest32,
         Ascii;
  }

  /* A cookie is used for two minutes after it came. */
  lemma CookieFresh(cookie: mac, cookieMillis: word, now: word)
    ensures FreshCookie(cookie, cookieMillis, now) == Some(cookie)
       <==> cookieMillis != 0 && (now as int - cookieMillis as int) % 0x1_0000_0000 < 120_000
  {
  }
}
