/**
 The cryptographic handshake and the session state machine are two views of the
 same functions: what the first computes is what the second takes as the outcome
 of an event, and what both end with is the same pair of indices.
 */
module Layers {
  import opened Words
  import N = Noise
  import S = Session
  import T = Tai64n
  import I = SessionSafety
  import D = Delivery

  /* The four handshake fields the state machine keeps. */
  function Abstract(h: N.State): S.Handshake
  {
    S.Handshake(h.valid, h.initiator, h.localIndex, h.remoteIndex)
  }

  /* The event that a received initiation is for the state machine. */
  function InitiationEvent(w: S.World, d: N.DeviceKeys, r: N.PeerKeys, h: N.State, now: word, m: N.Initiation,
                           random: N.key, index: word): S.Event
  {
    hide *;
    var read := N.ReadInitiation(d, r, m);
    var t := if read.Some? then read.value.1 else w.peer.greatest;
    var got := N.ProcessInitiation(d, r, h, w.peer.greatest, w.peer.lastInitiationRx, now, m);
    S.EInitiation(now, N.CheckInitiation(d, m) && read.Some?, t, m.sender,
        N.CreateResponse(r, got.state, random, index).1.Some?, index)
  }

  /* Both views after a received initiation: they accept together, and when the reply can be made the
     new session has the indices of the transport keys. */
  ghost predicate InitiationMoves(w: S.World, d: N.DeviceKeys, r: N.PeerKeys, h: N.State, now: word, m: N.Initiation,
                                  random: N.key, index: word)
  {
    hide *;
    var w' := S.Step(w, InitiationEvent(w, d, r, h, now, m, random, index));
    var got := N.ProcessInitiation(d, r, h, w.peer.greatest, w.peer.lastInitiationRx, now, m);
    var (h2, reply) := N.CreateResponse(r, got.state, random, index);
    if !got.accepted then w' == w
    else
      && w'.peer.greatest == got.greatest && w'.peer.lastInitiationRx == got.lastRx
      && if reply.None? then w'.peer.handshake == Abstract(h2)
         else
           var t := N.Transported(h2, false);
           && w'.peer.next.valid && !w'.peer.next.initiator && w'.peer.handshake == Abstract(N.Forgotten(false))
           && w'.peer.next.localIndex == t.localIndex && w'.peer.next.remoteIndex == t.remoteIndex
  }

  lemma InitiationLayers(w: S.World, d: N.DeviceKeys, r: N.PeerKeys, h: N.State, now: word, m: N.Initiation,
                         random: N.key, index: word)
    requires w.peer.valid && w.peer.handshake == Abstract(h) && N.CheckInitiation(d, m)
    ensures InitiationMoves(w, d, r, h, now, m, random, index)
  {
    hide N.ReadInitiation, N.CheckInitiation, N.Dh, N.Public, N.Clamped, N.MixKey, N.Absorb, N.MixReply, N.MixPreshared,
         N.EmptyTag, N.Mac, N.Mac2, N.ResponseBytes, N.KeyFor, T.Memcmp;
  }

  // ---------- every message that is accepted is answered ----------

  /* No initiation of a registered peer takes the pending handshake's index away. */
  lemma NeverUnanswered(w: S.World, d: N.DeviceKeys, r: N.PeerKeys, h: N.State, now: word, m: N.Initiation,
                        random: N.key, index: word)
    requires N.Admitted(d, r) && N.Regular(d, r, m.ephemeral, random)
    ensures !D.Unanswered(w, InitiationEvent(w, d, r, h, now, m, random, index))
  {
    hide N.Admitted, N.Regular, N.ReadInitiation, N.CheckInitiation, N.CreateResponse, T.Memcmp;
    N.AcceptedIsAnswered(d, r, h, w.peer.greatest, w.peer.lastInitiationRx, now, m, random, index);
  }

  /* An initiation of the run, if it is one, is some message of a registered peer. */
  ghost predicate FromMessage(w: S.World, d: N.DeviceKeys, e: S.Event)
  {
    hide *;
    e.EInitiation? ==>
      exists r: N.PeerKeys, h: N.State, m: N.Initiation, random: N.key ::
        && N.Admitted(d, r) && N.Regular(d, r, m.ephemeral, random)
        && e == InitiationEvent(w, d, r, h, e.now, m, random, e.drawn)
  }

  /* In every run whose initiations are messages of registered peers, whichever they are, the pending
     handshake has an index. */
  lemma MessagesKeepIndex(es: seq<S.Event>, d: N.DeviceKeys)
    requires S.Possible(es) && forall n :: 0 <= n < |es| ==> FromMessage(S.Run(es[..n]), d, es[n])
    ensures D.Indexed(S.Run(es).peer)
  {
    hide S.Possible, S.Run, D.Indexed, D.Unanswered, InitiationEvent, N.Admitted, N.Regular;
    forall n | 0 <= n < |es|
      ensures !D.Unanswered(S.Run(es[..n]), es[n])
    {
      OneMessage(S.Run(es[..n]), d, es[n]);
    }
    D.IndexedThroughout(es);
    assert es[..|es|] == es;
  }

  lemma OneMessage(w: S.World, d: N.DeviceKeys, e: S.Event)
    requires FromMessage(w, d, e)
    ensures !D.Unanswered(w, e)
  {
    hide InitiationEvent, N.Admitted, N.Regular;
    if e.EInitiation? {
      var r: N.PeerKeys, h: N.State, m: N.Initiation, random: N.key :|
        && N.Admitted(d, r) && N.Regular(d, r, m.ephemeral, random)
        && e == InitiationEvent(w, d, r, h, e.now, m, random, e.drawn);
      NeverUnanswered(w, d, r, h, e.now, m, random, e.drawn);
    }
  }

  /* The event that a received reply is for the state machine. */
  function ResponseEvent(d: N.DeviceKeys, r: N.PeerKeys, h: N.State, now: word, m: N.Response, alloc: bool,
                         sent: bool): S.Event
  {
    hide *;
    S.EResponse(now, m.receiver, N.CheckResponse(d, m) && N.ReadResponse(d, r, h, m).Some?, m.sender, alloc, sent)
  }

  /* Both views after a received reply: one for the pending handshake that authenticates starts a
     session with the indices of the transport keys, any other changes nothing. */
  ghost predicate ResponseMoves(w: S.World, d: N.DeviceKeys, r: N.PeerKeys, h: N.State, now: word, m: N.Response,
                                alloc: bool, sent: bool)
  {
    hide *;
    var w' := S.Step(w, ResponseEvent(d, r, h, now, m, alloc, sent));
    var read := N.ReadResponse(d, r, h, m);
    if !N.CheckResponse(d, m) || read.None? || m.receiver != h.localIndex then w' == w
    else
      var t := N.Transported(read.value, true);
      && w'.peer.curr.valid && w'.peer.curr.initiator && w'.peer.handshake == Abstract(N.Forgotten(true))
      && w'.peer.curr.localIndex == t.localIndex && w'.peer.curr.remoteIndex == t.remoteIndex
  }

  lemma ResponseLayers(w: S.World, d: N.DeviceKeys, r: N.PeerKeys, h: N.State, now: word, m: N.Response, alloc: bool,
                       sent: bool)
    requires w.peer.valid && w.peer.handshake == Abstract(h)
    ensures ResponseMoves(w, d, r, h, now, m, alloc, sent)
  {
    hide N.CheckResponse, N.Dh, N.MixReply, N.MixPreshared, N.KeyFor, N.A.Open;
  }

  /* End to end: after an unaltered handshake, the initiator's current session and the responder's next
     session name each other, so that a packet of either is looked up as the session of the other, in
     every reachable state of the responder and every state of the waiting initiator. */
  lemma SessionsFindEachOther(es: seq<S.Event>, w: S.World, i: N.DeviceKeys, iPeer: N.PeerKeys, r: N.DeviceKeys,
                              rPeer: N.PeerKeys, h0: N.State, g0: N.State, random: N.key, t: T.stamp, index: word,
                              now: word, random': N.key, index': word, later: word, alloc: bool, sent: bool)
    requires N.Meeting(i, iPeer, r, rPeer, random, random')
    requires S.Possible(es) && S.Run(es).peer.valid && S.Run(es).peer.handshake == Abstract(g0)
      && S.Unused(S.Run(es).peer, index')
    ensures Met(es, w, i, iPeer, r, rPeer, h0, g0, random, t, index, now, random', index', later, alloc, sent)
  {
    hide N.Meeting, N.CreateResponse, N.ReadResponse, N.CheckInitiation, N.CheckResponse, N.ProcessInitiation,
         N.Opening, N.Dh, N.Public, N.MixKey, N.Absorb, N.Initial, N.KeyFor, N.A.Seal, N.Mac, N.Mac2, S.Run, S.Possible,
         S.Step, S.Unused, InitiationEvent, ResponseEvent, N.InitiationBytes;
    var (h1, m) := N.CreateInitiation(i, iPeer, h0, random, t, index);
    var v := S.Run(es);
    if m.Some? && w.peer.valid && w.peer.handshake == Abstract(h1) {
      N.HandshakeAgrees(i, iPeer, r, rPeer, h0, g0, random, t, index, v.peer.greatest, v.peer.lastInitiationRx, now,
          random', index');
      var got := N.ProcessInitiation(r, rPeer, g0, v.peer.greatest, v.peer.lastInitiationRx, now, m.value);
      var (g2, reply) := N.CreateResponse(rPeer, got.state, random', index');
      if got.accepted && reply.Some? {
        InitiationLayers(v, r, rPeer, g0, now, m.value, random', index');
        ResponseLayers(w, i, iPeer, h1, later, reply.value, alloc, sent);
        Reaches(es, v, r, rPeer, g0, now, m.value, random', index');
      }
    }
  }

  /* Both ends after the exchange, when the responder accepted and replied. */
  ghost predicate Met(es: seq<S.Event>, w: S.World, i: N.DeviceKeys, iPeer: N.PeerKeys, r: N.DeviceKeys,
                      rPeer: N.PeerKeys, h0: N.State, g0: N.State, random: N.key, t: T.stamp, index: word,
                      now: word, random': N.key, index': word, later: word, alloc: bool, sent: bool)
  {
    hide *;
    var v, (h1, m) := S.Run(es), N.CreateInitiation(i, iPeer, h0, random, t, index);
    m.Some? && w.peer.valid && w.peer.handshake == Abstract(h1) ==>
      var got := N.ProcessInitiation(r, rPeer, g0, v.peer.greatest, v.peer.lastInitiationRx, now, m.value);
      var reply := N.CreateResponse(rPeer, got.state, random', index').1;
      got.accepted && reply.Some? ==>
        var p := S.Step(v, InitiationEvent(v, r, rPeer, g0, now, m.value, random', index')).peer;
        var q := S.Step(w, ResponseEvent(i, iPeer, h1, later, reply.value, alloc, sent)).peer;
        && q.curr.remoteIndex == p.next.localIndex && p.next.remoteIndex == q.curr.localIndex
        && S.HasKeypair(p, q.curr.remoteIndex) && S.Lookup(p, q.curr.remoteIndex).Next?
        && S.HasKeypair(q, p.next.remoteIndex) && S.Lookup(q, p.next.remoteIndex).Curr?
  }

  /* Under agreed transport keys every packet below 2^31 bytes opens at the other end, in both
     directions and under every counter. */
  lemma PacketsOpen(a: N.Transport, b: N.Transport, counter: dword, text: seq<byte>)
    requires N.Mirrored(a, b) && |text| < 0x8000_0000
    ensures N.A.Open(b.receiving, counter, [], N.A.Seal(a.sending, counter, [], text)) == N.A.Plain(text)
    ensures N.A.Open(a.receiving, counter, [], N.A.Seal(b.sending, counter, [], text)) == N.A.Plain(text)
  {
    hide N.A.Open, N.A.Seal;
    N.A.RoundTrip(a.sending, counter, [], text);
    N.A.RoundTrip(b.sending, counter, [], text);
  }

  /* In the responder's new state the new session's index finds the new session. */
  lemma Reaches(es: seq<S.Event>, v: S.World, r: N.DeviceKeys, rPeer: N.PeerKeys, g0: N.State, now: word,
                m: N.Initiation, random: N.key, index: word)
    requires S.Possible(es) && v == S.Run(es) && S.Unused(v.peer, index)
    ensures
      var p := S.Step(v, InitiationEvent(v, r, rPeer, g0, now, m, random, index)).peer;
      p.next.valid ==> S.HasKeypair(p, p.next.localIndex) && S.Lookup(p, p.next.localIndex).Next?
  {
    hide S.Run, S.Possible, S.Step, I.LogOk, I.KeypairOk;
    var e := InitiationEvent(v, r, rPeer, g0, now, m, random, index);
    assert S.Enabled(v, e);
    I.RunKeeps(es);
    I.StepKeeps(v, e);
  }
}
