/**
 What the peer does, in milliseconds and counters: when a key encrypts, when a
 packet is received, what becomes of the older keys at every event, and what
 the timer does.  All of it for every possible run.
 */
module Conduct {
  import opened Words
  import opened Replay
  import opened Session
  import opened SessionSafety
  import opened Delivery
  import T = Tai64n

  /* Milliseconds since, on the 32-bit clock. */
  function Age(now: word, since: word): (ms: nat)
  {
    (now as int - since as int) % 0x1_0000_0000
  }

  /* Three minutes old, or 2^64 - 1 - 2^13 packets sent. */
  predicate Worn(k: Keypair, now: word)
  {
    Age(now, k.millis) >= 180_000 || k.sendingCounter >= 0xFFFF_FFFF_FFFF_DFFF
  }

  lemma WornIs(k: Keypair, now: word)
    ensures Worn(k, now) <==> Expired(now, k.millis, REJECT_AFTER_TIME) || k.sendingCounter >= REJECT_AFTER_MESSAGES
  {
  }

  // ---------- sending ----------

  /* The current key encrypts one packet exactly when it is valid and not worn and there is memory. */
  lemma SendsExactly(es: seq<Event>, now: word, alloc: bool, sent: bool)
    requires Possible(es)
    ensures
      var w := Run(es);
      var k, q := w.peer.curr, Output(w, now, alloc, sent);
      && (q.log != w.log <==> k.valid && !Worn(k, now) && alloc)
      && (q.log != w.log ==>
            && q.log == w.log + [Encrypted(k.session, k.sendingCounter)]
            && q.peer.curr == k.(sendingCounter := k.sendingCounter + 1, lastTx := if sent then now else k.lastTx)
            && q.peer.lastTx == (if sent then now else w.peer.lastTx)
            && (q.peer.sendHandshake <==>
                  || w.peer.sendHandshake || k.sendingCounter + 1 >= 0x1000_0000_0000_0000
                  || (k.initiator && Age(now, k.millis) >= 120_000)))
      && (k.valid && Worn(k, now) ==> !q.peer.curr.valid)
      && (!k.valid || (!Worn(k, now) && !alloc) ==> q == w)
  {
    hide Run, Possible;
    SlotRoles(es);
  }

  // ---------- receiving ----------

  /* A packet is received exactly when its index names a usable key, it is authentic, carries something, and
     its number is new: not zero, and beyond all received under the key or less than four below the greatest
     and not among them. */
  predicate Usable(w: World, e: Event)
  {
    && e.EData? && w.peer.valid && HasKeypair(w.peer, e.index)
    && var k := Get(w.peer, Lookup(w.peer, e.index));
       k.receivingValid && !Worn(k, e.now) && e.alloc && e.authentic && e.payload
  }

  ghost predicate New(w: World, k: Keypair, counter: dword)
  {
    counter != 0
    && (counter > k.window.counter || (k.window.counter - counter < 4 && counter !in Seen(w.log, k.session)))
  }

  lemma UsableIsTaken(w: World, e: Event)
    ensures Usable(w, e) <==> Taken(w, e)
  {
    if e.EData? && HasKeypair(w.peer, e.index) {
      WornIs(Get(w.peer, Lookup(w.peer, e.index)), e.now);
    }
  }

  /* For every run and packet whose number can be told apart. */
  lemma ReceivesExactly(es: seq<Event>, e: Event)
    requires Possible(es) && e.EData? && RunTruthful(es) && Truthful(Run(es), e)
    ensures
      var w := Run(es);
      var q := Step(w, e);
      && (q.log != w.log <==>
            Usable(w, e)
            && var s := Lookup(w.peer, e.index);
               if s.Next? then e.counter != 0 else New(w, Get(w.peer, s), e.counter))
      && (q.log != w.log ==>
            var s := Lookup(w.peer, e.index);
            q.log == w.log + [Received(Get(w.peer, s).session, e.counter, s.Next?, e.routable)])
  {
    hide Run, Possible, Step, Usable, Taken;
    var w := Run(es);
    RunWindows(es);
    UsableIsTaken(w, e);
    if Taken(w, e) {
      TakenStep(w, e);
      TakenLog(w, e);
    } else {
      StepLog(w, e);
    }
  }

  lemma StepLog(w: World, e: Event)
    requires e.EData? && !Taken(w, e)
    ensures Step(w, e).log == w.log
  {
    hide Expired, Check;
  }

  lemma TakenLog(w: World, e: Event)
    requires e.EData? && HasKeypair(w.peer, e.index) && Get(w.peer, Lookup(w.peer, e.index)).valid && Windows(w)
    requires !Lookup(w.peer, e.index).Next? ==> Faithful(Get(w.peer, Lookup(w.peer, e.index)).window, e.counter)
    ensures
      var s := Lookup(w.peer, e.index);
      var k := Get(w.peer, s);
      var ok := if s.Next? then e.counter != 0 else New(w, k, e.counter);
      Accept(w, s, e.now, e.counter, true, e.routable).log
      == w.log + (if ok then [Received(k.session, e.counter, s.Next?, e.routable)] else [])
  {
    hide Expired, Check, Faithful, Seen, Means;
    var s := Lookup(w.peer, e.index);
    var k := Get(w.peer, s);
    if s.Next? {
      FreshCheck(e.counter);
    } else {
      CheckExactly(k.window, Seen(w.log, k.session), e.counter);
    }
  }

  // ---------- what becomes of the older keys ----------

  /* The keypair is in the slot in which the index of its packets is looked up. */
  predicate Found(q: Peer, k: Keypair)
  {
    k.valid && HasKeypair(q, k.localIndex) && Get(q, Lookup(q, k.localIndex)) == k
  }

  /* An accepted reply opens a session and keeps the newest session there was: the unconfirmed one, or else
     the current one. */
  lemma ReplyKeeps(es: seq<Event>, now: word, sender: word, alloc: bool, sent: bool)
    requires Possible(es) && Run(es).peer.valid
    requires Run(es).peer.handshake.valid && Run(es).peer.handshake.initiator
    ensures
      var p := Run(es).peer;
      var q := Step(Run(es), EResponse(now, p.handshake.localIndex, true, sender, alloc, sent)).peer;
      && q.curr.valid && q.curr.initiator && q.curr.millis == now && q.curr.session == p.sessions + 1
      && q.curr.localIndex == p.handshake.localIndex && q.curr.remoteIndex == sender && Found(q, q.curr)
      && (p.next.valid ==> Found(q, p.next)) && (!p.next.valid && p.curr.valid ==> Found(q, p.curr))
      && !q.next.valid
  {
    hide Run, Possible, LogOk, KeypairOk, Expired;
    RunKeeps(es);
    IndicesOf(es);
    Recent(now);
  }

  lemma Recent(now: word)
    ensures !Expired(now, now, REJECT_AFTER_TIME)
  {
  }

  /* The indices of valid keypairs are apart from each other and from the pending handshake's. */
  lemma IndicesOf(es: seq<Event>)
    requires Possible(es)
    ensures
      var p := Run(es).peer;
      && (p.curr.valid ==> p.curr.localIndex != p.handshake.localIndex)
      && (p.next.valid ==> p.next.localIndex != p.handshake.localIndex)
      && (p.curr.valid && p.next.valid ==> p.curr.localIndex != p.next.localIndex)
      && (p.curr.valid && p.prev.valid ==> p.curr.localIndex != p.prev.localIndex)
      && (p.next.valid && p.prev.valid ==> p.next.localIndex != p.prev.localIndex)
  {
    hide Run, Possible, LogOk, KeypairOk;
    RunKeeps(es);
  }

  /* Answering an initiation keeps the current session beside the new one, which waits for its first packet. */
  lemma AnswerKeeps(es: seq<Event>, e: Event)
    requires Possible(es) && Enabled(Run(es), e) && e.EInitiation? && e.authentic && e.dhOk && Run(es).peer.valid
    requires T.Memcmp(e.stamp, Run(es).peer.greatest) > 0 && Age(Run(es).peer.lastInitiationRx, e.now) >= 500
    ensures
      var p := Run(es).peer;
      var q := Step(Run(es), e).peer;
      && q.next.valid && !q.next.initiator && q.next.millis == e.now && q.next.session == p.sessions + 1
      && q.next.localIndex == e.drawn && q.next.remoteIndex == e.sender && Found(q, q.next)
      && (p.curr.valid ==> Found(q, p.curr)) && q.curr == p.curr && !q.prev.valid
  {
    hide Run, Possible, T.Memcmp;
  }

  /* The packet is authentic under a usable key, whether it carries something or not. */
  predicate Authentic(w: World, e: Event)
  {
    && e.EData? && w.peer.valid && HasKeypair(w.peer, e.index)
    && var k := Get(w.peer, Lookup(w.peer, e.index));
       k.receivingValid && !Worn(k, e.now) && e.alloc && e.authentic
  }

  lemma AuthenticStep(w: World, e: Event)
    requires Authentic(w, e)
    ensures Step(w, e) == Accept(w, Lookup(w.peer, e.index), e.now, e.counter, e.payload, e.routable)
  {
    hide Expired, Accept;
    WornIs(Get(w.peer, Lookup(w.peer, e.index)), e.now);
    hide Worn;
  }

  /* Every authentic packet is noted, and one under an ageing key of this side's asks for a new handshake:
     (180 - keepalive - 5) seconds, computed in 32 bits. */
  lemma AuthenticNoted(es: seq<Event>, e: Event)
    requires Possible(es) && Authentic(Run(es), e)
    ensures
      var p, q := Run(es).peer, Step(Run(es), e).peer;
      var s := Lookup(p, e.index);
      var k, j := Get(p, s), Get(q, if s.Next? then Curr else s);
      && q.lastRx == e.now && j.valid && j.session == k.session && j.lastRx == e.now
      && (q.sendHandshake <==>
            p.sendHandshake
            || (k.initiator && Age(e.now, k.millis) >= (175 - p.keepalive) % 0x1_0000_0000 * 1000 % 0x1_0000_0000))
  {
    hide Run, Possible, Check, Authentic;
    AuthenticStep(Run(es), e);
    AuthenticSlot(Run(es), e);
    SlotRoles(es);
  }

  lemma AuthenticSlot(w: World, e: Event)
    requires Authentic(w, e)
    ensures e.EData? && HasKeypair(w.peer, e.index) && Get(w.peer, Lookup(w.peer, e.index)).valid
  {
    hide Worn;
  }

  /* The first packet under the waiting session makes it current and keeps the old current one. */
  lemma ConfirmKeeps(es: seq<Event>, e: Event)
    requires Possible(es) && Authentic(Run(es), e) && Lookup(Run(es).peer, e.index).Next?
    ensures
      var p := Run(es).peer;
      var q := Step(Run(es), e).peer;
      && q.curr.valid && !q.curr.initiator && q.curr.session == p.next.session && q.curr.localIndex == e.index
      && (p.curr.valid ==> Found(q, p.curr)) && !q.next.valid
  {
    hide Run, Possible, Check, Expired, Authentic;
    IndicesOf(es);
    SlotRoles(es);
    AuthenticSlot(Run(es), e);
    AuthenticStep(Run(es), e);
  }

  /* When a session may disappear from all slots. */
  predicate MayGo(p: Peer, e: Event, s: Slot)
  {
    var k := Get(p, s);
    match e
    case ERemove => true
    case EDisconnect => true
    case EOutput(now, _, _) => s.Curr? && Worn(k, now)
    case EData(now, index, _, _, _, _, _) =>
      HasKeypair(p, index)
      && ((Lookup(p, index) == s && (Worn(k, now) || !k.receivingValid)) || (s.Prev? && Lookup(p, index).Next?))
    case EInitiation(_, _, _, _, dhOk, _) => dhOk && !s.Curr?
    case EResponse(_, _, _, _, _, _) => s.Prev? || (s.Curr? && p.next.valid)
    case ETick(now, _, _, _, _, _) =>
      (s.Curr? && Worn(k, now)) || (p.curr.valid && Age(now, p.curr.millis) >= 540_000)
    case _ => false
  }

  /* Without a registered peer there are no keys. */
  lemma {:induction false} UnregisteredEmpty(es: seq<Event>)
    requires !Run(es).peer.valid
    ensures !Run(es).peer.curr.valid && !Run(es).peer.prev.valid && !Run(es).peer.next.valid
  {
    if es != [] {
      var w, e := Run(es[..|es| - 1]), es[|es| - 1];
      hide Run, Step;
      assert Run(es) == Step(w, e) by { LastStep(es); }
      if w.peer.valid {
        StaysRegistered(w, e);
      } else {
        UnregisteredEmpty(es[..|es| - 1]);
        StaysEmpty(w, e);
      }
    }
  }

  lemma LastStep(es: seq<Event>)
    requires es != []
    ensures Run(es) == Step(Run(es[..|es| - 1]), es[|es| - 1])
  {
    hide Step;
  }

  lemma StaysRegistered(w: World, e: Event)
    requires w.peer.valid
    ensures !Step(w, e).peer.valid ==> var q := Step(w, e).peer; !q.curr.valid && !q.prev.valid && !q.next.valid
  {
    hide Output, Data, InitiationReceived, ResponseReceived, Tick;
    match e
    case EOutput(now, alloc, sent) => OutputRegistered(w, now, alloc, sent);
    case EData(now, index, counter, alloc, authentic, payload, routable) =>
      DataRegistered(w, now, index, counter, alloc, authentic, payload, routable);
    case EInitiation(now, authentic, t, sender, dhOk, drawn) =>
      InitiationRegistered(w, now, authentic, t, sender, dhOk, drawn);
    case EResponse(now, receiver, authentic, sender, alloc, sent) =>
      ResponseRegistered(w, now, receiver, authentic, sender, alloc, sent);
    case ETick(now, alloc, sent, dhOk, drawn, allocHs) => TickRegistered(w, now, alloc, sent, dhOk, drawn, allocHs);
    case _ =>
  }

  lemma OutputRegistered(w: World, now: word, alloc: bool, sent: bool)
    ensures Output(w, now, alloc, sent).peer.valid == w.peer.valid
  {
    hide Expired;
  }

  lemma DataRegistered(w: World, now: word, index: word, counter: dword, alloc: bool, authentic: bool, payload: bool,
                       routable: bool)
    ensures Data(w, now, index, counter, alloc, authentic, payload, routable).peer.valid == w.peer.valid
  {
    hide Expired, Check;
  }

  lemma InitiationRegistered(w: World, now: word, authentic: bool, t: T.stamp, sender: word, dhOk: bool, drawn: word)
    ensures InitiationReceived(w, now, authentic, t, sender, dhOk, drawn).peer.valid == w.peer.valid
  {
    hide T.Memcmp;
  }

  lemma ResponseRegistered(w: World, now: word, receiver: word, authentic: bool, sender: word, alloc: bool, sent: bool)
    ensures ResponseReceived(w, now, receiver, authentic, sender, alloc, sent).peer.valid == w.peer.valid
  {
    hide Output;
    var w1 := World(w.peer.(handshake := w.peer.handshake.(remoteIndex := sender)), w.log);
    OutputRegistered(StartSession(w1, true, now), now, alloc, sent);
  }

  lemma TickRegistered(w: World, now: word, alloc: bool, sent: bool, dhOk: bool, drawn: word, allocHs: bool)
    ensures Tick(w, now, alloc, sent, dhOk, drawn, allocHs).peer.valid == w.peer.valid
  {
    hide Output, ShouldReset, ShouldDestroyCurrent, ShouldSendKeepalive, ShouldSendInitiation;
    var p := w.peer;
    var p1 := if ShouldReset(p, now) then Wipe(p).(handshake := Handshake(false, p.handshake.initiator, 0, 0)) else p;
    var p2 := if ShouldDestroyCurrent(p1, now) then p1.(curr := ZERO) else p1;
    OutputRegistered(World(p2, w.log), now, alloc, sent);
  }

  lemma StaysEmpty(w: World, e: Event)
    requires !w.peer.valid && !w.peer.curr.valid && !w.peer.prev.valid && !w.peer.next.valid
    ensures var q := Step(w, e).peer; !q.curr.valid && !q.prev.valid && !q.next.valid
  {
    hide Output, Accept, StartSession, Expired, T.Memcmp, BeforeHandshake, StartHandshake;
  }

  predicate HasSession(p: Peer, session: nat)
  {
    || (p.curr.valid && p.curr.session == session)
    || (p.prev.valid && p.prev.session == session)
    || (p.next.valid && p.next.session == session)
  }

  /* In every run a session stays in some slot unless the event lets it go. */
  lemma SessionsSurvive(es: seq<Event>, e: Event, s: Slot)
    requires Possible(es) && Get(Run(es).peer, s).valid && !MayGo(Run(es).peer, e, s)
    ensures HasSession(Step(Run(es), e).peer, Get(Run(es).peer, s).session)
  {
    hide Run, Possible, Check, T.Memcmp, Output, Data, Tick, InitiationReceived, ResponseReceived, Worn;
    var w := Run(es);
    SlotRoles(es);
    match e
    case EOutput(now, alloc, sent) => OutputSurvives(w, now, alloc, sent, s);
    case EData(now, index, counter, alloc, authentic, payload, routable) =>
      DataSurvives(w, now, index, counter, alloc, authentic, payload, routable, s);
    case EInitiation(now, authentic, t, sender, dhOk, drawn) =>
      InitiationSurvives(w, now, authentic, t, sender, dhOk, drawn, s);
    case EResponse(now, receiver, authentic, sender, alloc, sent) =>
      ResponseSurvives(w, now, receiver, authentic, sender, alloc, sent, s);
    case ETick(now, alloc, sent, dhOk, drawn, allocHs) => TickSurvives(w, now, alloc, sent, dhOk, drawn, allocHs, s);
    case EAdd(_, _, _) =>
      if !w.peer.valid {
        UnregisteredEmpty(es);
      }
    case _ =>
  }

  lemma OutputSurvives(w: World, now: word, alloc: bool, sent: bool, s: Slot)
    requires Get(w.peer, s).valid && SendingSlot(w.peer).Curr? && !(s.Curr? && Worn(w.peer.curr, now))
    ensures HasSession(Output(w, now, alloc, sent).peer, Get(w.peer, s).session)
  {
    hide Expired;
    WornIs(w.peer.curr, now);
    hide Worn;
  }

  lemma DataSurvives(w: World, now: word, index: word, counter: dword, alloc: bool, authentic: bool, payload: bool,
                     routable: bool, s: Slot)
    requires Get(w.peer, s).valid
    requires !MayGo(w.peer, EData(now, index, counter, alloc, authentic, payload, routable), s)
    ensures HasSession(Data(w, now, index, counter, alloc, authentic, payload, routable).peer, Get(w.peer, s).session)
  {
    hide Expired, Check, Worn, HasSession;
    WornIs(Get(w.peer, s), now);
    SlotKept(w.peer, s);
    if w.peer.valid && HasKeypair(w.peer, index) {
      var t := Lookup(w.peer, index);
      if t != s {
        OtherSlotKept(w.peer, s, t);
      }
      AcceptSurvives(w, t, now, counter, payload, routable, s);
    }
  }

  lemma SlotKept(p: Peer, s: Slot)
    requires Get(p, s).valid
    ensures HasSession(p, Get(p, s).session)
  {
  }

  lemma OtherSlotKept(p: Peer, s: Slot, t: Slot)
    requires Get(p, s).valid && s != t
    ensures HasSession(Put(p, t, ZERO), Get(p, s).session)
  {
  }

  lemma AcceptSurvives(w: World, t: Slot, now: word, counter: dword, payload: bool, routable: bool, s: Slot)
    requires Get(w.peer, s).valid
    ensures !(s.Prev? && t.Next?) ==>
      HasSession(Accept(w, t, now, counter, payload, routable).peer, Get(w.peer, s).session)
  {
    hide Expired, Check;
  }

  lemma InitiationSurvives(w: World, now: word, authentic: bool, t: T.stamp, sender: word, dhOk: bool, drawn: word,
                           s: Slot)
    requires Get(w.peer, s).valid && !(dhOk && !s.Curr?)
    ensures HasSession(InitiationReceived(w, now, authentic, t, sender, dhOk, drawn).peer, Get(w.peer, s).session)
  {
    hide T.Memcmp;
  }

  lemma ResponseSurvives(w: World, now: word, receiver: word, authentic: bool, sender: word, alloc: bool, sent: bool,
                         s: Slot)
    requires Get(w.peer, s).valid && !(s.Prev? || (s.Curr? && w.peer.next.valid))
    ensures HasSession(ResponseReceived(w, now, receiver, authentic, sender, alloc, sent).peer, Get(w.peer, s).session)
  {
    hide Expired;
    Recent(now);
  }

  lemma TickSurvives(w: World, now: word, alloc: bool, sent: bool, dhOk: bool, drawn: word, allocHs: bool, s: Slot)
    requires Get(w.peer, s).valid && SendingSlot(w.peer).Curr?
    requires !MayGo(w.peer, ETick(now, alloc, sent, dhOk, drawn, allocHs), s)
    ensures HasSession(Tick(w, now, alloc, sent, dhOk, drawn, allocHs).peer, Get(w.peer, s).session)
  {
    hide ShouldSendInitiation, ShouldSendKeepalive, Output, Worn;
    DecisionsAre(w.peer, now);
    var p2 := if ShouldDestroyCurrent(w.peer, now) then w.peer.(curr := ZERO) else w.peer;
    OutputSurvives(World(p2, w.log), now, alloc, sent, s);
  }

  lemma DecisionsAre(p: Peer, now: word)
    ensures ShouldReset(p, now) <==> p.curr.valid && Age(now, p.curr.millis) >= 540_000
    ensures ShouldDestroyCurrent(p, now) <==> p.curr.valid && Worn(p.curr, now)
  {
  }

  // ---------- the timer ----------

  /* Nine minutes after the current session began everything goes. */
  predicate Over(p: Peer, now: word)
  {
    p.curr.valid && Age(now, p.curr.millis) >= 540_000
  }

  /* The current session outlives this call of the timer. */
  predicate Alive(p: Peer, now: word)
  {
    p.curr.valid && !Over(p, now) && !Worn(p.curr, now)
  }

  /* Nothing has been sent for the keep-alive interval, in 32-bit milliseconds. */
  predicate Quiet(p: Peer, now: word)
  {
    p.keepalive > 0 && Age(now, p.lastTx) >= p.keepalive % 0x1_0000_0000 * 1000 % 0x1_0000_0000
  }

  /* A packet asks for a new session after 2^60 packets, or after two minutes if this side began. */
  predicate AsksAnew(k: Keypair, now: word)
  {
    k.sendingCounter + 1 >= 0x1000_0000_0000_0000 || (k.initiator && Age(now, k.millis) >= 120_000)
  }

  /* A handshake is due: none was sent for five seconds, and one is asked for, or a responder's session has
     (180 - keepalive) seconds behind it, or an active peer has no session. */
  predicate Due(p: Peer, now: word, alloc: bool)
  {
    && (p.lastInitiationTx == 0 || Age(now, p.lastInitiationTx) >= 5_000)
    && (|| p.sendHandshake
        || (Alive(p, now) && Quiet(p, now) && alloc && AsksAnew(p.curr, now))
        || (Alive(p, now) && !p.curr.initiator
            && Age(now, p.curr.millis) >= (180 - p.keepalive) % 0x1_0000_0000 * 1000 % 0x1_0000_0000)
        || (!Alive(p, now) && p.active))
  }

  /* In every run one call of the timer does exactly this. */
  lemma TimerActs(es: seq<Event>, e: Event)
    requires Possible(es) && Run(es).peer.valid && e.ETick?
    ensures
      var w, p := Run(es), Run(es).peer;
      var q := Step(w, e).peer;
      var sends, starts := Alive(p, e.now) && Quiet(p, e.now) && e.alloc, Due(p, e.now, e.alloc) && e.dhOk;
      && Step(w, e).log == w.log + (if sends then [Encrypted(p.curr.session, p.curr.sendingCounter)] else [])
                           + (if starts then [Created(e.drawn)] else [])
      && (q.curr.valid <==> Alive(p, e.now))
      && (if Over(p, e.now) then !q.prev.valid && !q.next.valid else q.prev == p.prev && q.next == p.next)
      && (starts ==> q.handshake.valid && q.handshake.initiator && q.handshake.localIndex == e.drawn)
      && (starts && e.allocHs ==> !q.sendHandshake && q.lastInitiationTx == e.now)
  {
    hide Run, Possible, BeforeHandshake, ShouldSendInitiation, Alive, Over, Quiet, AsksAnew;
    SlotRoles(es);
    BeforeActs(Run(es), e.now, e.alloc, e.sent);
    InitiationIsDue(BeforeHandshake(Run(es), e.now, e.alloc, e.sent).peer, e.now);
  }

  /* Up to the decision about a handshake. */
  lemma BeforeActs(w: World, now: word, alloc: bool, sent: bool)
    requires SendingSlot(w.peer).Curr? && (w.peer.curr.valid ==> MaySend(w.peer.curr))
    ensures
      var p, v := w.peer, BeforeHandshake(w, now, alloc, sent);
      var sends := Alive(p, now) && Quiet(p, now) && alloc;
      && v.log == w.log + (if sends then [Encrypted(p.curr.session, p.curr.sendingCounter)] else [])
      && (v.peer.curr.valid <==> Alive(p, now))
      && (Alive(p, now) ==> v.peer.curr.millis == p.curr.millis && v.peer.curr.initiator == p.curr.initiator)
      && (if Over(p, now) then !v.peer.prev.valid && !v.peer.next.valid
          else v.peer.prev == p.prev && v.peer.next == p.next)
      && v.peer.valid == p.valid && v.peer.active == p.active && v.peer.keepalive == p.keepalive
      && v.peer.lastInitiationTx == p.lastInitiationTx
      && (v.peer.sendHandshake <==> p.sendHandshake || (sends && AsksAnew(p.curr, now)))
  {
    hide Output, ShouldReset, ShouldDestroyCurrent, ShouldSendKeepalive, Worn, Quiet, AsksAnew;
    var p := w.peer;
    DecisionsAre(p, now);
    var p1 := if ShouldReset(p, now) then Wipe(p).(handshake := Handshake(false, p.handshake.initiator, 0, 0)) else p;
    DecisionsAre(p1, now);
    var p2 := if ShouldDestroyCurrent(p1, now) then p1.(curr := ZERO) else p1;
    assert p2.curr.valid <==> Alive(p, now);
    KeepaliveActs(World(p2, w.log), now, alloc, sent);
    assert Quiet(p2, now) <==> Quiet(p, now) by { SameQuiet(p, p2, now); }
  }

  lemma SameQuiet(p: Peer, q: Peer, now: word)
    requires p.keepalive == q.keepalive && p.lastTx == q.lastTx
    ensures Quiet(p, now) <==> Quiet(q, now)
  {
  }

  lemma KeepaliveActs(w: World, now: word, alloc: bool, sent: bool)
    requires SendingSlot(w.peer).Curr? && (w.peer.curr.valid ==> MaySend(w.peer.curr) && !Worn(w.peer.curr, now))
    requires !w.peer.curr.valid ==> w.peer.curr == ZERO || !MaySend(w.peer.curr)
    ensures
      var p := w.peer;
      var v := if ShouldSendKeepalive(p, now) then Output(w, now, alloc, sent) else w;
      var sends := p.curr.valid && Quiet(p, now) && alloc;
      && v.log == w.log + (if sends then [Encrypted(p.curr.session, p.curr.sendingCounter)] else [])
      && v.peer.prev == p.prev && v.peer.next == p.next && v.peer.curr.valid == p.curr.valid
      && v.peer.curr.millis == p.curr.millis && v.peer.curr.initiator == p.curr.initiator
      && v.peer.valid == p.valid && v.peer.active == p.active && v.peer.keepalive == p.keepalive
      && v.peer.lastInitiationTx == p.lastInitiationTx && v.peer.handshake == p.handshake
      && (v.peer.sendHandshake <==> p.sendHandshake || (sends && AsksAnew(p.curr, now)))
  {
    WornIs(w.peer.curr, now);
  }

  /* The decision to start a handshake, after wiping and keep-alive. */
  lemma InitiationIsDue(p: Peer, now: word)
    ensures ShouldSendInitiation(p, now) <==>
      && (p.lastInitiationTx == 0 || Age(now, p.lastInitiationTx) >= 5_000)
      && (|| p.sendHandshake
          || (p.curr.valid && !p.curr.initiator
              && Age(now, p.curr.millis) >= (180 - p.keepalive) % 0x1_0000_0000 * 1000 % 0x1_0000_0000)
          || (!p.curr.valid && p.active))
  {
  }

  // ---------- registration ----------

  /* A registered peer is active and has keys only once it is connected and a handshake has succeeded. */
  lemma AddsFresh(es: seq<Event>, e: Event)
    requires e.EAdd? && !Run(es).peer.valid
    ensures
      var p, q := Run(es).peer, Step(Run(es), e).peer;
      && q.valid == e.usable && !q.active && !q.sendHandshake && !q.handshake.valid
      && !q.curr.valid && !q.prev.valid && !q.next.valid && q.sessions == p.sessions
      && (e.usable ==>
            q.keepalive == e.keepalive && q.greatest == e.stamp
            && q.lastInitiationRx == q.lastInitiationTx == q.lastTx == q.lastRx == 0)
  {
    hide Run;
  }

  // ---------- sessions and indices ----------

  /* A reply starts a session exactly when it is authentic and names this side's pending initiation. */
  lemma ReplyStartsExactly(w: World, e: Event)
    requires e.EResponse?
    ensures
      var p := w.peer;
      var h := p.handshake;
      Step(w, e).peer.sessions == p.sessions
      + (if p.valid && h.valid && h.initiator && h.localIndex == e.receiver && e.authentic then 1 else 0)
  {
    hide Output;
    var p := w.peer;
    var w1 := World(p.(handshake := p.handshake.(remoteIndex := e.sender)), w.log);
    OutputSessions(StartSession(w1, true, e.now), e.now, e.alloc, e.sent);
  }

  lemma OutputSessions(w: World, now: word, alloc: bool, sent: bool)
    ensures Output(w, now, alloc, sent).peer.sessions == w.peer.sessions
  {
    hide Expired;
  }

  /* No index that is ever generated is zero or has all bits set. */
  lemma {:induction false} IndicesProper(es: seq<Event>, index: word)
    requires Possible(es) && Created(index) in Run(es).log
    ensures 0 < index < 0xFFFF_FFFF
  {
    hide Run, Enabled, Step;
    if es == [] {
      NothingCreated(index);
    } else {
      var n := |es| - 1;
      LastStep(es);
      assert forall i :: 0 <= i < n ==> es[..n][..i] == es[..i];
      assert es[..n + 1] == es;
      if Created(index) in Run(es[..n]).log {
        IndicesProper(es[..n], index);
      } else {
        CreatedNow(Run(es[..n]), es[n], index);
      }
    }
  }

  lemma NothingCreated(index: word)
    ensures Created(index) !in Run([]).log
  {
  }

  lemma CreatedNow(w: World, e: Event, index: word)
    requires Enabled(w, e) && Created(index) in Step(w, e).log && Created(index) !in w.log
    ensures 0 < index < 0xFFFF_FFFF
  {
    hide Output, Accept, StartSession, Expired, T.Memcmp, BeforeHandshake, ShouldSendInitiation;
    match e
    case EOutput(now, alloc, sent) => OutputCreatesNone(w, now, alloc, sent, index);
    case EData(now, i, counter, _, _, payload, routable) =>
      if w.peer.valid && HasKeypair(w.peer, i) {
        AcceptCreatesNone(w, Lookup(w.peer, i), now, counter, payload, routable, index);
      }
    case EInitiation(now, _, t, sender, _, drawn) =>
      var p := w.peer.(lastInitiationRx := now, greatest := t, handshake := Handshake(true, false, drawn, sender));
      StartCreatesNone(World(p, w.log + [Initiation(t)] + [Created(drawn)]), false, now, index);
    case EResponse(now, _, _, sender, alloc, sent) =>
      var w1 := World(w.peer.(handshake := w.peer.handshake.(remoteIndex := sender)), w.log);
      StartCreatesNone(w1, true, now, index);
      OutputCreatesNone(StartSession(w1, true, now), now, alloc, sent, index);
    case ETick(now, alloc, sent, _, _, _) => BeforeCreatesNone(w, now, alloc, sent, index);
    case _ =>
  }

  lemma OutputCreatesNone(w: World, now: word, alloc: bool, sent: bool, index: word)
    ensures Created(index) in Output(w, now, alloc, sent).log ==> Created(index) in w.log
  {
    hide Expired;
  }

  lemma AcceptCreatesNone(w: World, s: Slot, now: word, counter: dword, payload: bool, routable: bool, index: word)
    ensures Created(index) in Accept(w, s, now, counter, payload, routable).log ==> Created(index) in w.log
  {
    hide Expired, Check;
  }

  lemma StartCreatesNone(w: World, initiator: bool, now: word, index: word)
    ensures Created(index) in StartSession(w, initiator, now).log ==> Created(index) in w.log
  {
  }

  lemma BeforeCreatesNone(w: World, now: word, alloc: bool, sent: bool, index: word)
    ensures Created(index) in BeforeHandshake(w, now, alloc, sent).log ==> Created(index) in w.log
  {
    hide Output, ShouldReset, ShouldDestroyCurrent, ShouldSendKeepalive;
    var p := w.peer;
    var p1 := if ShouldReset(p, now) then Wipe(p).(handshake := Handshake(false, p.handshake.initiator, 0, 0)) else p;
    var p2 := if ShouldDestroyCurrent(p1, now) then p1.(curr := ZERO) else p1;
    OutputCreatesNone(World(p2, w.log), now, alloc, sent, index);
  }
}
