/**
 What holds in every reachable state of a peer and for every run: slots,
 indices and sessions stay apart, no counter is encrypted twice under a session
 key, and receipts repeat only as the code lets them.
 */
module SessionSafety {
  import opened Words
  import opened Replay
  import opened Session

  // ---------- the slot invariant ----------

  /* A valid keypair was started, and its session key has encrypted exactly the counters below its own. */
  ghost predicate KeypairOk(log: seq<Entry>, k: Keypair)
  {
    k.valid ==>
      && k.localIndex != 0
      && Started(k.session, k.initiator, k.localIndex) in log
      && forall c: dword :: Encrypted(k.session, c) in log <==> c < k.sendingCounter
  }

  ghost predicate Apart(j: Keypair, k: Keypair)
  {
    j.valid && k.valid ==> j.session != k.session && j.localIndex != k.localIndex
  }

  ghost predicate HandshakeApart(h: Handshake, k: Keypair)
  {
    k.valid ==> h.localIndex != k.localIndex
  }

  /* A next keypair is a responder's that nothing has been received under. */
  ghost predicate Unconfirmed(log: seq<Entry>, k: Keypair)
  {
    k.valid ==>
      && !k.initiator && k.window == FRESH
      && forall c: dword, f: bool, d: bool :: Received(k.session, c, f, d) !in log
  }

  ghost predicate Slots(w: World)
  {
    var p, log := w.peer, w.log;
    && KeypairOk(log, p.curr) && KeypairOk(log, p.prev) && KeypairOk(log, p.next)
    && Apart(p.curr, p.prev) && Apart(p.curr, p.next) && Apart(p.prev, p.next)
    && HandshakeApart(p.handshake, p.curr) && HandshakeApart(p.handshake, p.prev) && HandshakeApart(p.handshake, p.next)
    && (p.handshake.valid && p.handshake.initiator ==> p.handshake.localIndex != 0)
    && Unconfirmed(log, p.next)
    && (p.curr.valid && !p.curr.initiator ==> p.curr.lastRx != 0)
  }

  // ---------- the log invariant ----------

  ghost predicate Concerns(e: Entry, session: nat)
  {
    match e
    case Started(s, _, _) => s == session
    case Encrypted(s, _) => s == session
    case Received(s, _, _, _) => s == session
    case _ => false
  }

  /* Two entries that may stand in the log in this order. */
  ghost predicate Ordered(d: Entry, e: Entry)
  {
    && (d.Encrypted? && e.Encrypted? && d.session == e.session ==> d.counter < e.counter)
    && (d.Started? && e.Started? ==> d.session != e.session)
    && (d.Received? && e.Received? && d.session == e.session ==> !e.confirming)
  }

  /* An encryption below the limit that skipped no counter. */
  ghost predicate Follows(log: seq<Entry>, e: Entry)
    requires e.Encrypted?
  {
    e.counter < REJECT_AFTER_MESSAGES && (e.counter == 0 || Encrypted(e.session, e.counter - 1) in log)
  }

  ghost predicate LogOk(w: World)
  {
    && (forall i, j :: 0 <= i < j < |w.log| ==> Ordered(w.log[i], w.log[j]))
    && (forall e, s: nat :: e in w.log && Concerns(e, s) ==> 1 <= s <= w.peer.sessions)
    && (forall e :: e in w.log && e.Encrypted? ==> Follows(w.log, e))
    && (forall e :: e in w.log && e.Received? && e.confirming ==>
        exists i: word :: Started(e.session, false, i) in w.log)
  }

  ghost predicate Inv(w: World)
  {
    Slots(w) && LogOk(w)
  }

  // ---------- one entry at a time ----------

  lemma AppendLog(w: World, p: Peer, e: Entry)
    requires LogOk(w) && p.sessions >= w.peer.sessions
    requires forall d :: d in w.log ==> Ordered(d, e)
    requires forall s: nat :: Concerns(e, s) ==> 1 <= s <= p.sessions
    requires e.Encrypted? ==> Follows(w.log, e)
    requires e.Received? && e.confirming ==> exists i: word :: Started(e.session, false, i) in w.log
    ensures LogOk(World(p, w.log + [e]))
  {
    hide Ordered, Concerns;
    var log' := w.log + [e];
    forall i, j | 0 <= i < j < |log'|
      ensures Ordered(log'[i], log'[j])
    {
      assert log'[i] in w.log;
    }
    forall d | d in log' && d.Received? && d.confirming
      ensures exists i: word :: Started(d.session, false, i) in log'
    {
      var i: word :| Started(d.session, false, i) in w.log;
      assert Started(d.session, false, i) in log';
    }
  }

  lemma SamePeerLog(w: World, p: Peer)
    requires LogOk(w) && p.sessions == w.peer.sessions
    ensures LogOk(World(p, w.log))
  {
    hide Ordered, Concerns;
  }

  // ---------- the transitions ----------

  lemma DestroyKeeps(w: World, s: Slot)
    requires Inv(w)
    ensures Inv(World(Put(w.peer, s, ZERO), w.log))
  {
    hide LogOk;
    SamePeerLog(w, Put(w.peer, s, ZERO));
  }

  lemma WipeKeeps(w: World)
    requires Inv(w)
    ensures Inv(World(Wipe(w.peer), w.log))
  {
    hide LogOk;
    SamePeerLog(w, Wipe(w.peer));
  }

  /* Changing what the invariant does not mention. */
  ghost predicate SameCore(p: Peer, q: Peer)
  {
    && p.curr == q.curr && p.prev == q.prev && p.next == q.next && p.handshake == q.handshake
    && p.sessions == q.sessions
  }

  lemma CoreKeeps(w: World, q: Peer)
    requires Inv(w) && SameCore(w.peer, q)
    ensures Inv(World(q, w.log))
  {
    hide LogOk;
    SamePeerLog(w, q);
  }

  /* Encrypting under a valid slot other than next. */
  lemma EncryptKeeps(w: World, s: Slot, lastTx: word)
    requires Inv(w) && !s.Next? && Get(w.peer, s).valid
    requires Get(w.peer, s).sendingCounter < REJECT_AFTER_MESSAGES
    ensures
      var k := Get(w.peer, s);
      var k' := k.(sendingCounter := (k.sendingCounter + 1) % 0x1_0000_0000_0000_0000, lastTx := lastTx);
      Inv(World(Put(w.peer, s, k'), w.log + [Encrypted(k.session, k.sendingCounter)]))
  {
    var k := Get(w.peer, s);
    var k' := k.(sendingCounter := (k.sendingCounter + 1) % 0x1_0000_0000_0000_0000, lastTx := lastTx);
    assert k'.sendingCounter == k.sendingCounter + 1;
    var e := Encrypted(k.session, k.sendingCounter);
    assert Concerns(Started(k.session, k.initiator, k.localIndex), k.session);
    AppendLog(w, Put(w.peer, s, k'), e);
    hide LogOk;
    EncryptSlots(w, s, k', e);
  }

  lemma EncryptSlots(w: World, s: Slot, k': Keypair, e: Entry)
    requires Slots(w) && !s.Next? && Get(w.peer, s).valid
    requires e == Encrypted(Get(w.peer, s).session, Get(w.peer, s).sendingCounter)
    requires k' == Get(w.peer, s).(sendingCounter := k'.sendingCounter, lastTx := k'.lastTx)
    requires k'.sendingCounter == Get(w.peer, s).sendingCounter as int + 1
    ensures Slots(World(Put(w.peer, s, k'), w.log + [e]))
  {
  }

  lemma OutputKeeps(w: World, now: word, alloc: bool, sent: bool)
    requires Inv(w)
    ensures Inv(Output(w, now, alloc, sent))
  {
    hide Expired, Inv;
    var s := SendingSlot(w.peer);
    var k := Get(w.peer, s);
    if MaySend(k) {
      if Expired(now, k.millis, REJECT_AFTER_TIME) || k.sendingCounter >= REJECT_AFTER_MESSAGES {
        DestroyKeeps(w, s);
      } else if alloc {
        var lastTx := if sent then now else k.lastTx;
        EncryptKeeps(w, s, lastTx);
        var k' := k.(sendingCounter := (k.sendingCounter + 1) % 0x1_0000_0000_0000_0000, lastTx := lastTx);
        var w1 := World(Put(w.peer, s, k'), w.log + [Encrypted(k.session, k.sendingCounter)]);
        CoreKeeps(w1, Output(w, now, alloc, sent).peer);
      }
    }
  }

  // ---------- receiving ----------

  lemma TouchedSlots(w: World, s: Slot, now: word)
    requires Slots(w) && Get(w.peer, s).valid && now != 0
    ensures Slots(World(Touch(w.peer, s, now), w.log))
    ensures Touch(w.peer, s, now).next.valid ==> Touch(w.peer, s, now).next.session != Get(w.peer, s).session
  {
    TouchedOk(w.log, Get(w.peer, s), now);
    ZeroOk(w.log);
    hide KeypairOk, Unconfirmed;
  }

  lemma TouchedOk(log: seq<Entry>, k: Keypair, now: word)
    ensures KeypairOk(log, k.(lastRx := now)) <==> KeypairOk(log, k)
  {
  }

  /* Logging a receipt, when it is not under the next keypair. */
  lemma ReceiptSlots(w: World, e: Entry)
    requires Slots(w) && e.Received? && (w.peer.next.valid ==> w.peer.next.session != e.session)
    ensures Slots(World(w.peer, w.log + [e]))
  {
    GrowOk(w.log, e, w.peer.curr);
    GrowOk(w.log, e, w.peer.prev);
    GrowOk(w.log, e, w.peer.next);
    hide KeypairOk;
  }

  lemma ReceivedSlots(w: World, s: Slot, now: word, e: Entry)
    requires Slots(w) && Get(w.peer, s).valid && now != 0
    requires e.Received? && e.session == Get(w.peer, s).session
    ensures
      var p := Touch(w.peer, s, now);
      Slots(World(p, w.log)) && Slots(World(p, w.log + [e]))
  {
    hide Slots, Touch;
    TouchedSlots(w, s, now);
    ReceiptSlots(World(Touch(w.peer, s, now), w.log), e);
  }

  lemma WindowSlots(w: World, s: Slot, window: Window)
    requires Slots(w) && (s.Next? ==> !w.peer.next.valid)
    ensures Slots(World(Put(w.peer, s, Get(w.peer, s).(window := window)), w.log))
  {
  }

  lemma ReceivedLog(w: World, s: Slot, p: Peer, counter: dword, routable: bool)
    requires Inv(w) && Get(w.peer, s).valid && p.sessions == w.peer.sessions
    ensures LogOk(World(p, w.log + [Received(Get(w.peer, s).session, counter, s.Next?, routable)]))
  {
    var k := Get(w.peer, s);
    var e := Received(k.session, counter, s.Next?, routable);
    assert Concerns(Started(k.session, k.initiator, k.localIndex), k.session);
    AppendLog(w, p, e);
  }

  lemma WindowKeeps(w: World, s: Slot, window: Window)
    requires Inv(w) && (s.Next? ==> !w.peer.next.valid)
    ensures Inv(World(Put(w.peer, s, Get(w.peer, s).(window := window)), w.log))
  {
    hide LogOk, Slots;
    WindowSlots(w, s, window);
    SamePeerLog(w, Put(w.peer, s, Get(w.peer, s).(window := window)));
  }

  lemma ReceivedKeeps(w: World, s: Slot, now: word, counter: dword, routable: bool, ok: bool)
    requires Inv(w) && Get(w.peer, s).valid && now != 0
    ensures
      var p := Touch(w.peer, s, now);
      var e := Received(Get(w.peer, s).session, counter, s.Next?, routable);
      Inv(World(p, if ok then w.log + [e] else w.log))
  {
    var p := Touch(w.peer, s, now);
    hide LogOk, Slots;
    ReceivedSlots(w, s, now, Received(Get(w.peer, s).session, counter, s.Next?, routable));
    ReceivedLog(w, s, p, counter, routable);
    SamePeerLog(w, p);
  }

  lemma TouchedNext(p: Peer, now: word)
    ensures !Touch(p, Next, now).next.valid
  {
  }

  lemma RekeyKeeps(w: World, rekey: bool)
    requires Inv(w)
    ensures Inv(World(if rekey then w.peer.(sendHandshake := true) else w.peer, w.log))
  {
    hide Inv;
    CoreKeeps(w, w.peer.(sendHandshake := true));
  }

  lemma AcceptKeeps(w: World, s: Slot, now: word, counter: dword, payload: bool, routable: bool)
    requires Inv(w) && Get(w.peer, s).valid && now != 0
    ensures Inv(Accept(w, s, now, counter, payload, routable))
  {
    hide Expired, Check, Inv, Touch, Put;
    var p := Touch(w.peer, s, now);
    var k := Get(p, s);
    var (window, ok) := Check(k.window, counter);
    var rekey := k.initiator && Expired(now, k.millis, REJECT_AFTER_TIME - p.keepalive - REKEY_TIMEOUT);
    var q := if rekey then p.(sendHandshake := true) else p;
    var log := if payload && ok then w.log + [Received(Get(w.peer, s).session, counter, s.Next?, routable)] else w.log;
    ReceivedKeeps(w, s, now, counter, routable, payload && ok);
    TouchedNext(w.peer, now);
    RekeyKeeps(World(p, log), rekey);
    WindowKeeps(World(q, log), s, window);
    assert Get(q, s) == k;
  }

  lemma DataKeeps(w: World, now: word, index: word, counter: dword, alloc: bool, authentic: bool, payload: bool,
                  routable: bool)
    requires Inv(w) && now != 0
    ensures Inv(Data(w, now, index, counter, alloc, authentic, payload, routable))
  {
    hide Expired, Inv, Accept;
    if w.peer.valid && HasKeypair(w.peer, index) {
      var s := Lookup(w.peer, index);
      DestroyKeeps(w, s);
      if alloc && authentic {
        AcceptKeeps(w, s, now, counter, payload, routable);
      }
    }
  }

  // ---------- handshakes ----------

  /* An entry that concerns no session. */
  lemma NeutralKeeps(w: World, e: Entry)
    requires Inv(w) && (e.Registered? || e.Created? || e.Initiation?)
    ensures Inv(World(w.peer, w.log + [e]))
  {
    AppendLog(w, w.peer, e);
    hide LogOk;
  }

  /* What the invariant needs of a new handshake. */
  lemma HandshakeKeeps(w: World, h: Handshake)
    requires Inv(w)
    requires h.localIndex == w.peer.handshake.localIndex || h.localIndex == 0 || Unused(w.peer, h.localIndex)
    requires h.valid && h.initiator ==> h.localIndex != 0
    ensures Inv(World(w.peer.(handshake := h), w.log))
  {
    hide LogOk;
    SamePeerLog(w, w.peer.(handshake := h));
  }

  /* An entry that is not an encryption leaves every keypair in order. */
  lemma GrowOk(log: seq<Entry>, e: Entry, k: Keypair)
    requires KeypairOk(log, k) && !e.Encrypted?
    ensures KeypairOk(log + [e], k)
  {
  }

  lemma NewKeypairOk(w: World, k: Keypair)
    requires LogOk(w) && k.valid && k.session == w.peer.sessions + 1 && k.localIndex != 0 && k.sendingCounter == 0
    ensures KeypairOk(w.log + [Started(k.session, k.initiator, k.localIndex)], k)
    ensures !k.initiator && k.window == FRESH ==>
      Unconfirmed(w.log + [Started(k.session, k.initiator, k.localIndex)], k)
  {
    hide Ordered, Follows;
    forall d | d in w.log
      ensures !Concerns(d, k.session)
    {
    }
    assert forall c: dword :: Concerns(Encrypted(k.session, c), k.session);
    assert forall c: dword, f: bool, d: bool :: Concerns(Received(k.session, c, f, d), k.session);
  }

  lemma OldSession(w: World, e: Entry, k: Keypair)
    requires LogOk(w) && KeypairOk(w.log, k) && !e.Encrypted?
    ensures KeypairOk(w.log + [e], k)
    ensures k.valid ==> k.session <= w.peer.sessions && k.localIndex != 0
  {
    hide Ordered, Follows;
    GrowOk(w.log, e, k);
    if k.valid {
      assert Concerns(Started(k.session, k.initiator, k.localIndex), k.session);
    }
  }

  lemma ZeroOk(log: seq<Entry>)
    ensures KeypairOk(log, ZERO) && Unconfirmed(log, ZERO)
  {
  }

  lemma StartSlots(w: World, initiator: bool, now: word)
    requires Slots(w) && LogOk(w) && w.peer.handshake.localIndex != 0
    ensures Slots(StartSession(w, initiator, now))
  {
    var p, n := w.peer, w.peer.sessions + 1;
    assert p.next.valid ==> !p.next.initiator;
    hide LogOk, KeypairOk, Unconfirmed;
    var k := Keypair(true, initiator, now, 0, true, 0, 0, FRESH, p.handshake.localIndex, p.handshake.remoteIndex, n);
    var e := Started(n, initiator, k.localIndex);
    NewKeypairOk(w, k);
    OldSession(w, e, p.curr);
    OldSession(w, e, p.prev);
    OldSession(w, e, p.next);
    ZeroOk(w.log + [e]);
  }

  lemma StartSessionKeeps(w: World, initiator: bool, now: word)
    requires Inv(w) && w.peer.handshake.localIndex != 0
    ensures Inv(StartSession(w, initiator, now))
  {
    hide Slots, AddKeypair;
    var n := w.peer.sessions + 1;
    var e := Started(n, initiator, w.peer.handshake.localIndex);
    StartSlots(w, initiator, now);
    AddKeypairSessions(w, initiator, now);
    forall d | d in w.log
      ensures Ordered(d, e)
    {
      if d.Started? {
        assert Concerns(d, d.session);
      }
    }
    AppendLog(w, StartSession(w, initiator, now).peer, e);
  }

  lemma AddKeypairSessions(w: World, initiator: bool, now: word)
    ensures StartSession(w, initiator, now).peer.sessions == w.peer.sessions + 1
    ensures StartSession(w, initiator, now).log
         == w.log + [Started(w.peer.sessions + 1, initiator, w.peer.handshake.localIndex)]
  {
  }

  lemma InitiationKeeps(w: World, now: word, authentic: bool, t: T.stamp, sender: word, dhOk: bool, index: word)
    requires Inv(w) && Unused(w.peer, index)
    ensures Inv(InitiationReceived(w, now, authentic, t, sender, dhOk, index))
  {
    hide Inv, Expired, StartSession;
    var p := w.peer;
    var w' := InitiationReceived(w, now, authentic, t, sender, dhOk, index);
    if w' != w {
      var h := Handshake(true, false, p.handshake.localIndex, sender);
      HandshakeKeeps(w, h);
      var q := p.(lastInitiationRx := now, greatest := t, handshake := h);
      CoreKeeps(World(p.(handshake := h), w.log), q);
      NeutralKeeps(World(q, w.log), Initiation(t));
      if dhOk {
        var w1 := World(q, w.log + [Initiation(t)]);
        HandshakeKeeps(w1, h.(localIndex := index));
        var w2 := World(q.(handshake := h.(localIndex := index)), w1.log);
        NeutralKeeps(w2, Created(index));
        StartSessionKeeps(World(w2.peer, w2.log + [Created(index)]), false, now);
      }
    }
  }

  lemma ResponseKeeps(w: World, now: word, receiver: word, authentic: bool, sender: word, alloc: bool, sent: bool)
    requires Inv(w)
    ensures Inv(ResponseReceived(w, now, receiver, authentic, sender, alloc, sent))
  {
    var p := w.peer;
    if p.valid && p.handshake.valid && p.handshake.initiator && p.handshake.localIndex == receiver && authentic {
      assert p.handshake.localIndex != 0;
      hide Inv, StartSession, Output;
      var h := p.handshake.(remoteIndex := sender);
      HandshakeKeeps(w, h);
      var w1 := World(p.(handshake := h), w.log);
      StartSessionKeeps(w1, true, now);
      OutputKeeps(StartSession(w1, true, now), now, alloc, sent);
    }
  }

  lemma StartHandshakeKeeps(w: World, now: word, dhOk: bool, index: word, alloc: bool)
    requires Inv(w) && Unused(w.peer, index)
    ensures Inv(StartHandshake(w, now, dhOk, index, alloc))
  {
    hide Inv;
    if dhOk {
      var h := Handshake(true, true, index, w.peer.handshake.remoteIndex);
      HandshakeKeeps(w, h);
      var w1 := World(w.peer.(handshake := h), w.log);
      NeutralKeeps(w1, Created(index));
      CoreKeeps(World(w1.peer, w1.log + [Created(index)]), StartHandshake(w, now, dhOk, index, alloc).peer);
    }
  }

  // ---------- timer and interface ----------

  lemma BeforeHandshakeKeeps(w: World, now: word, alloc: bool, sent: bool)
    requires Inv(w)
    ensures Inv(BeforeHandshake(w, now, alloc, sent))
  {
    hide Inv, ShouldReset, ShouldDestroyCurrent, ShouldSendKeepalive, Output;
    var p0 := w.peer;
    WipeKeeps(w);
    var h := Handshake(false, p0.handshake.initiator, 0, 0);
    HandshakeKeeps(World(Wipe(p0), w.log), h);
    var p1 := if ShouldReset(p0, now) then Wipe(p0).(handshake := h) else p0;
    DestroyKeeps(World(p1, w.log), Curr);
    var p2 := if ShouldDestroyCurrent(p1, now) then p1.(curr := ZERO) else p1;
    OutputKeeps(World(p2, w.log), now, alloc, sent);
  }

  lemma BlankKeeps(w: World, q: Peer)
    requires Inv(w) && q.curr == q.prev == q.next == ZERO && q.handshake == NO_HANDSHAKE
      && q.sessions == w.peer.sessions
    ensures Inv(World(q, w.log))
  {
    hide LogOk;
    SamePeerLog(w, q);
  }

  // ---------- every run ----------

  lemma StepKeeps(w: World, e: Event)
    requires Inv(w) && Enabled(w, e)
    ensures Inv(Step(w, e))
  {
    hide Inv, Output, Data, InitiationReceived, ResponseReceived, BeforeHandshake, StartHandshake, Unused,
         ShouldSendInitiation;
    var p := w.peer;
    match e
    case EAdd(t, keepalive, usable) =>
      if !p.valid {
        var q := Add(w, t, keepalive, usable).peer;
        BlankKeeps(w, q);
        NeutralKeeps(World(q, w.log), Registered(t));
      }
    case ERemove => BlankKeeps(w, Remove(w).peer);
    case EConnect(_) => CoreKeeps(w, p.(active := true));
    case EDisconnect =>
      CoreKeeps(w, p.(active := false));
      WipeKeeps(World(p.(active := false), w.log));
    case EOutput(now, alloc, sent) => OutputKeeps(w, now, alloc, sent);
    case EData(now, index, counter, alloc, authentic, payload, routable) =>
      DataKeeps(w, now, index, counter, alloc, authentic, payload, routable);
    case EInitiation(now, authentic, t, sender, dhOk, drawn) =>
      InitiationKeeps(w, now, authentic, t, sender, dhOk, drawn);
    case EResponse(now, receiver, authentic, sender, alloc, sent) =>
      ResponseKeeps(w, now, receiver, authentic, sender, alloc, sent);
    case ETick(now, alloc, sent, dhOk, drawn, allocHs) =>
      BeforeHandshakeKeeps(w, now, alloc, sent);
      StartHandshakeKeeps(BeforeHandshake(w, now, alloc, sent), now, dhOk, drawn, allocHs);
  }

  lemma {:induction false} RunKeeps(es: seq<Event>)
    requires Possible(es)
    ensures Inv(Run(es))
  {
    hide Inv, Step, Enabled;
    if es == [] {
      StartInv();
    } else {
      var n := |es| - 1;
      assert forall i :: 0 <= i < n ==> es[..n][..i] == es[..i];
      assert es[..n + 1] == es;
      RunKeeps(es[..n]);
      StepKeeps(Run(es[..n]), es[n]);
    }
  }

  lemma StartInv()
    ensures Inv(START)
  {
  }
}
