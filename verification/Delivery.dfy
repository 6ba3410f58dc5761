/**
 What every run of a peer guarantees: counters under a session key, the three
 slots, and which packets reach the IP layer more than once.
 */
module Delivery {
  import opened Words
  import opened Replay
  import opened Session
  import opened SessionSafety

  // ---------- counters ----------

  /* Under one session key the counters used strictly increase, so none is used twice. */
  lemma CountersIncrease(es: seq<Event>, i: nat, j: nat)
    requires Possible(es) && i < j < |Run(es).log|
    requires Run(es).log[i].Encrypted? && Run(es).log[j].Encrypted? && Run(es).log[i].session == Run(es).log[j].session
    ensures Run(es).log[i].counter < Run(es).log[j].counter
  {
    hide Run, Possible, Slots;
    RunKeeps(es);
    assert Ordered(Run(es).log[i], Run(es).log[j]);
  }

  /* They start at zero, skip nothing and stop before the limit. */
  lemma {:induction false} CountersConsecutive(es: seq<Event>, session: nat, c: dword, b: dword)
    requires Possible(es) && Encrypted(session, c) in Run(es).log && b <= c
    ensures c < REJECT_AFTER_MESSAGES && Encrypted(session, b) in Run(es).log
    decreases c
  {
    hide Run, Possible, LogOk;
    EachFollows(es, Encrypted(session, c));
    if b < c {
      CountersConsecutive(es, session, c - 1, b);
    }
  }

  lemma EachFollows(es: seq<Event>, e: Entry)
    requires Possible(es) && e in Run(es).log && e.Encrypted?
    ensures Follows(Run(es).log, e)
  {
    hide Run, Possible, Slots, Follows;
    RunKeeps(es);
  }

  // ---------- slots ----------

  /* Valid keypairs have distinct non-zero indices, none of them the pending handshake's. */
  lemma IndicesApart(es: seq<Event>, s: Slot, t: Slot)
    requires Possible(es) && Get(Run(es).peer, s).valid
    ensures
      var p := Run(es).peer;
      && Get(p, s).localIndex != 0 && Get(p, s).localIndex != p.handshake.localIndex
      && (Get(p, t).valid && s != t ==>
            Get(p, s).localIndex != Get(p, t).localIndex && Get(p, s).session != Get(p, t).session)
  {
    hide Run, Possible, LogOk;
    RunKeeps(es);
  }

  /* A next keypair is a responder's; a current responder keypair has received something,
     so that the fallback to the previous keypair never happens. */
  lemma SlotRoles(es: seq<Event>)
    requires Possible(es)
    ensures
      var p := Run(es).peer;
      && (p.next.valid ==> !p.next.initiator)
      && (p.curr.valid && !p.curr.initiator ==> p.curr.lastRx != 0)
      && SendingSlot(p) == Curr
  {
    hide Run, Possible, LogOk, KeypairOk;
    RunKeeps(es);
  }

  /* The index in a packet names one keypair. */
  lemma LookupUnique(es: seq<Event>, index: word, s: Slot)
    requires Possible(es) && HasKeypair(Run(es).peer, index)
    ensures
      var p := Run(es).peer;
      Get(p, s).valid && Get(p, s).localIndex == index <==> s == Lookup(p, index)
  {
    hide Run, Possible, LogOk, KeypairOk;
    RunKeeps(es);
  }

  // ---------- the index of the pending handshake ----------

  /* A pending handshake has an index. */
  predicate Indexed(p: Peer)
  {
    p.handshake.valid ==> p.handshake.localIndex != 0
  }

  /* An accepted initiation whose reply cannot be made, while no index is left from before. */
  predicate Unanswered(w: World, e: Event)
  {
    && e.EInitiation? && w.peer.valid && e.authentic
    && T.Memcmp(e.stamp, w.peer.greatest) > 0
    && (w.peer.lastInitiationRx as int - e.now as int) % B >= 500
    && !e.dhOk && w.peer.handshake.localIndex == 0
  }

  lemma OutputHandshake(w: World, now: word, alloc: bool, sent: bool)
    ensures Output(w, now, alloc, sent).peer.handshake == w.peer.handshake
  {
    hide Expired;
  }

  lemma DataHandshake(w: World, now: word, index: word, counter: dword, alloc: bool, authentic: bool, payload: bool,
                      routable: bool)
    ensures Data(w, now, index, counter, alloc, authentic, payload, routable).peer.handshake == w.peer.handshake
  {
    hide Expired, Check;
  }

  lemma TickHandshake(w: World, now: word, alloc: bool, sent: bool, dhOk: bool, drawn: word, allocHs: bool)
    requires Indexed(w.peer) && drawn != 0
    ensures Indexed(Tick(w, now, alloc, sent, dhOk, drawn, allocHs).peer)
  {
    hide Output, ShouldReset, ShouldDestroyCurrent, ShouldSendKeepalive, ShouldSendInitiation;
    var p0 := w.peer;
    var p1 := if ShouldReset(p0, now) then Wipe(p0).(handshake := Handshake(false, p0.handshake.initiator, 0, 0))
        else p0;
    var p2 := if ShouldDestroyCurrent(p1, now) then p1.(curr := ZERO) else p1;
    OutputHandshake(World(p2, w.log), now, alloc, sent);
  }

  lemma ResponseHandshake(w: World, now: word, receiver: word, authentic: bool, sender: word, alloc: bool, sent: bool)
    requires Indexed(w.peer)
    ensures Indexed(ResponseReceived(w, now, receiver, authentic, sender, alloc, sent).peer)
  {
    hide Output, AddKeypair;
    var w1 := World(w.peer.(handshake := w.peer.handshake.(remoteIndex := sender)), w.log);
    StartHandshakeCleared(w1, true, now);
    OutputHandshake(StartSession(w1, true, now), now, alloc, sent);
  }

  lemma StartHandshakeCleared(w: World, initiator: bool, now: word)
    ensures !StartSession(w, initiator, now).peer.handshake.valid
  {
  }

  lemma InitiationHandshake(w: World, now: word, authentic: bool, t: T.stamp, sender: word, dhOk: bool, drawn: word)
    requires Indexed(w.peer)
    ensures !Indexed(InitiationReceived(w, now, authentic, t, sender, dhOk, drawn).peer)
       <==> Unanswered(w, EInitiation(now, authentic, t, sender, dhOk, drawn))
  {
    hide T.Memcmp, StartSession;
    var p := w.peer;
    var p1 := p.(lastInitiationRx := now, greatest := t,
        handshake := Handshake(true, false, p.handshake.localIndex, sender));
    var w2 := World(p1.(handshake := p1.handshake.(localIndex := drawn)), w.log + [Initiation(t)] + [Created(drawn)]);
    StartHandshakeCleared(w2, false, now);
  }

  /* Exactly that event takes a pending handshake's index away. */
  lemma IndexLostExactly(w: World, e: Event)
    requires Enabled(w, e) && Indexed(w.peer)
    ensures !Indexed(Step(w, e).peer) <==> Unanswered(w, e)
  {
    hide Output, Data, InitiationReceived, ResponseReceived, Tick, BeforeHandshake, T.Memcmp;
    match e
    case EOutput(now, alloc, sent) => OutputHandshake(w, now, alloc, sent);
    case EData(now, index, counter, alloc, authentic, payload, routable) =>
      DataHandshake(w, now, index, counter, alloc, authentic, payload, routable);
    case EInitiation(now, authentic, t, sender, dhOk, drawn) =>
      InitiationHandshake(w, now, authentic, t, sender, dhOk, drawn);
    case EResponse(now, receiver, authentic, sender, alloc, sent) =>
      ResponseHandshake(w, now, receiver, authentic, sender, alloc, sent);
    case ETick(now, alloc, sent, dhOk, drawn, allocHs) => TickHandshake(w, now, alloc, sent, dhOk, drawn, allocHs);
    case _ =>
  }

  /* The pending handshake has an index throughout a run exactly when no step of it is such an event. */
  lemma {:induction false} IndexedThroughout(es: seq<Event>)
    requires Possible(es)
    ensures (forall n :: 0 <= n <= |es| ==> Indexed(Run(es[..n]).peer))
       <==> (forall n :: 0 <= n < |es| ==> !Unanswered(Run(es[..n]), es[n]))
  {
    hide Indexed, Unanswered, Step, Enabled, Run;
    RunNothing();
    if forall n :: 0 <= n < |es| ==> !Unanswered(Run(es[..n]), es[n]) {
      var i := 0;
      while i < |es|
        invariant 0 <= i <= |es| && forall n :: 0 <= n <= i ==> Indexed(Run(es[..n]).peer)
      {
        RunNext(es, i);
        IndexLostExactly(Run(es[..i]), es[i]);
        i := i + 1;
      }
    } else if forall n :: 0 <= n <= |es| ==> Indexed(Run(es[..n]).peer) {
      var n :| 0 <= n < |es| && Unanswered(Run(es[..n]), es[n]);
      RunNext(es, n);
      IndexLostExactly(Run(es[..n]), es[n]);
    }
  }

  lemma RunNothing()
    ensures forall es: seq<Event> {:trigger es[..0]} :: Run(es[..0]) == START && Indexed(START.peer)
  {
  }

  lemma RunNext(es: seq<Event>, n: nat)
    requires n < |es|
    ensures Run(es[..n + 1]) == Step(Run(es[..n]), es[n])
  {
    hide Step;
    assert es[..n + 1][..n] == es[..n];
  }

  /* If every initiation can be answered, the pending handshake always has an index. */
  lemma AnsweredMeansIndexed(es: seq<Event>)
    requires Possible(es) && forall n :: 0 <= n < |es| && es[n].EInitiation? ==> es[n].dhOk
    ensures Indexed(Run(es).peer)
  {
    hide Run, Possible, Indexed;
    IndexedThroughout(es);
    assert es[..|es|] == es;
  }

  /* In any case an index-less pending handshake is a responder's, so it is never looked up. */
  lemma PendingIndex(es: seq<Event>)
    requires Possible(es)
    ensures !Indexed(Run(es).peer) ==> !Run(es).peer.handshake.initiator
  {
    hide Run, Possible, LogOk, KeypairOk;
    RunKeeps(es);
  }

  const ONE_STAMP: T.stamp := [0, 0, 0, 0, 0, 0, 0, 0, 0, 0, 0, 1]
  const NO_STAMP: T.stamp := [0, 0, 0, 0, 0, 0, 0, 0, 0, 0, 0, 0]

  const FAILED_REPLY: seq<Event> := [EAdd(NO_STAMP, 0, true), EInitiation(0xFFFF_0000, true, ONE_STAMP, 7, false, 1)]

  lemma FirstStamp()
    ensures T.Memcmp(ONE_STAMP, NO_STAMP) > 0
  {
  }

  lemma FailedReply(w: World)
    requires w.peer.valid && w.peer.greatest == NO_STAMP && w.peer.lastInitiationRx == 0
      && w.peer.handshake.localIndex == 0
    ensures Step(w, FAILED_REPLY[1]).peer.handshake == Handshake(true, false, 0, 7)
  {
    hide T.Memcmp, StartSession;
    FirstStamp();
  }

  lemma TwoSteps(d: Event, e: Event)
    requires Enabled(START, d) && Enabled(Step(START, d), e)
    ensures Possible([d, e]) && Run([d, e]) == Step(Step(START, d), e)
  {
    hide Step, Enabled;
    assert Run([]) == START;
    Extend([], d);
    Extend([d], e);
    assert [] + [d] == [d] && [d] + [e] == [d, e];
  }

  /* As far as this state machine goes, which leaves the outcome of a reply open, such a handshake can
     arise: valid, with index zero.  Layers shows when no actual message gives it. */
  lemma PendingWithoutIndex()
    ensures Possible(FAILED_REPLY) && Run(FAILED_REPLY).peer.handshake == Handshake(true, false, 0, 7)
    ensures !Indexed(Run(FAILED_REPLY).peer)
  {
    hide Run, Possible;
    FailedReply(Step(START, FAILED_REPLY[0]));
    TwoSteps(FAILED_REPLY[0], FAILED_REPLY[1]);
  }

  // ---------- what the windows remember ----------

  /* The counters received under a session, leaving out the packet that confirmed it. */
  ghost function Seen(log: seq<Entry>, session: nat): set<dword>
  {
    set e | e in log && e.Received? && e.session == session && !e.confirming :: e.counter
  }

  ghost predicate WindowOk(log: seq<Entry>, k: Keypair)
  {
    k.valid ==> Means(k.window, Seen(log, k.session))
  }

  /* Two entries of which neither repeats the other's receipt. */
  ghost predicate Distinct(d: Entry, e: Entry)
  {
    d.Received? && e.Received? && d.session == e.session && !d.confirming && !e.confirming ==> d.counter != e.counter
  }

  ghost predicate Windows(w: World)
  {
    && WindowOk(w.log, w.peer.curr) && WindowOk(w.log, w.peer.prev) && WindowOk(w.log, w.peer.next)
    && forall i, j :: 0 <= i < j < |w.log| ==> Distinct(w.log[i], w.log[j])
  }

  // ---------- transitions that receive nothing ----------

  /* The keypair continues one of the peer's, or is new. */
  ghost predicate Continues(p: Peer, k: Keypair)
  {
    k.valid ==>
      || Same(p.curr, k) || Same(p.prev, k) || Same(p.next, k)
      || (k.window == FRESH && k.session > p.sessions)
  }

  ghost predicate Same(j: Keypair, k: Keypair)
  {
    j.valid && j.session == k.session && j.window == k.window
  }

  ghost predicate Quiet(w: World, w': World)
  {
    var p, q := w.peer, w'.peer;
    && Continues(p, q.curr) && Continues(p, q.prev) && Continues(p, q.next) && p.sessions <= q.sessions
    && w.log <= w'.log && forall i :: |w.log| <= i < |w'.log| ==> !w'.log[i].Received?
  }

  lemma QuietTrans(w0: World, w1: World, w2: World)
    requires Quiet(w0, w1) && Quiet(w1, w2)
    ensures Quiet(w0, w2)
  {
  }

  lemma QuietSeen(w: World, w': World, session: nat)
    requires Quiet(w, w')
    ensures Seen(w'.log, session) == Seen(w.log, session)
  {
    forall e | e in w'.log && e.Received?
      ensures e in w.log
    {
      var i :| 0 <= i < |w'.log| && w'.log[i] == e;
    }
  }

  lemma QuietWindow(w: World, w': World, k: Keypair)
    requires Inv(w) && Windows(w) && Quiet(w, w') && Continues(w.peer, k)
    ensures WindowOk(w'.log, k)
  {
    hide Means, Ordered, Follows;
    QuietSeen(w, w', k.session);
    if k.valid && !(Same(w.peer.curr, k) || Same(w.peer.prev, k) || Same(w.peer.next, k)) {
      assert forall e :: e in w.log && e.Received? ==> Concerns(e, e.session);
      assert Seen(w.log, k.session) == {};
      FreshMeans();
    }
  }

  lemma QuietKeeps(w: World, w': World)
    requires Inv(w) && Windows(w) && Quiet(w, w')
    ensures Windows(w')
  {
    QuietWindow(w, w', w'.peer.curr);
    QuietWindow(w, w', w'.peer.prev);
    QuietWindow(w, w', w'.peer.next);
  }

  lemma OutputQuiet(w: World, now: word, alloc: bool, sent: bool)
    ensures Quiet(w, Output(w, now, alloc, sent))
  {
    hide Expired;
  }

  lemma StartQuiet(w: World, initiator: bool, now: word)
    ensures Quiet(w, StartSession(w, initiator, now))
  {
  }

  lemma InitiationQuiet(w: World, now: word, authentic: bool, t: T.stamp, sender: word, dhOk: bool, index: word)
    ensures Quiet(w, InitiationReceived(w, now, authentic, t, sender, dhOk, index))
  {
    hide T.Memcmp;
    var p := w.peer;
    var p1 := p.(lastInitiationRx := now, greatest := t,
        handshake := Handshake(true, false, p.handshake.localIndex, sender));
    var w2 := World(p1.(handshake := p1.handshake.(localIndex := index)), w.log + [Initiation(t)] + [Created(index)]);
    StartQuiet(w2, false, now);
    assert Quiet(w, w2);
    hide StartSession;
    QuietTrans(w, w2, StartSession(w2, false, now));
  }

  lemma ResponseQuiet(w: World, now: word, receiver: word, authentic: bool, sender: word, alloc: bool, sent: bool)
    ensures Quiet(w, ResponseReceived(w, now, receiver, authentic, sender, alloc, sent))
  {
    hide Output, StartSession;
    var p, w' := w.peer, ResponseReceived(w, now, receiver, authentic, sender, alloc, sent);
    if p.valid && p.handshake.valid && p.handshake.initiator && p.handshake.localIndex == receiver && authentic {
      var w1 := World(p.(handshake := p.handshake.(remoteIndex := sender)), w.log);
      assert Quiet(w, w1);
      StartQuiet(w1, true, now);
      QuietTrans(w, w1, StartSession(w1, true, now));
      OutputQuiet(StartSession(w1, true, now), now, alloc, sent);
      QuietTrans(w, StartSession(w1, true, now), w');
    }
  }

  lemma TickQuiet(w: World, now: word, alloc: bool, sent: bool, dhOk: bool, index: word, allocHs: bool)
    ensures Quiet(w, Tick(w, now, alloc, sent, dhOk, index, allocHs))
  {
    hide Output, ShouldReset, ShouldDestroyCurrent, ShouldSendKeepalive, ShouldSendInitiation;
    var p0 := w.peer;
    var p1 := if ShouldReset(p0, now) then Wipe(p0).(handshake := Handshake(false, p0.handshake.initiator, 0, 0))
        else p0;
    var p2 := if ShouldDestroyCurrent(p1, now) then p1.(curr := ZERO) else p1;
    var w2 := World(p2, w.log);
    assert Quiet(w, w2);
    OutputQuiet(w2, now, alloc, sent);
    var w3 := BeforeHandshake(w, now, alloc, sent);
    QuietTrans(w, w2, w3);
    assert Quiet(w3, StartHandshake(w3, now, dhOk, index, allocHs));
    QuietTrans(w, w3, StartHandshake(w3, now, dhOk, index, allocHs));
  }

  // ---------- receiving ----------

  /* A receipt that is new under its keypair; a confirming receipt is never recorded. */
  lemma SeenAppend(log: seq<Entry>, e: Entry, session: nat)
    requires e.Received?
    ensures Seen(log + [e], session)
         == if e.session == session && !e.confirming then Seen(log, session) + {e.counter} else Seen(log, session)
  {
    var grown := Seen(log + [e], session);
    forall c: dword | c in Seen(log, session) || (e.session == session && !e.confirming && c == e.counter)
      ensures c in grown
    {
      if c in Seen(log, session) {
        var d :| d in log && d.Received? && d.session == session && !d.confirming && d.counter == c;
        assert d in log + [e];
      } else {
        assert e in log + [e];
      }
    }
  }

  lemma DistinctAppend(log: seq<Entry>, e: Entry)
    requires forall i, j :: 0 <= i < j < |log| ==> Distinct(log[i], log[j])
    requires e.Received? && (e.confirming || e.counter !in Seen(log, e.session))
    ensures forall i, j :: 0 <= i < j < |log + [e]| ==> Distinct((log + [e])[i], (log + [e])[j])
  {
    var log' := log + [e];
    forall i, j | 0 <= i < j < |log'|
      ensures Distinct(log'[i], log'[j])
    {
      if j == |log| {
        assert log'[i] in log;
      }
    }
  }

  /* The packet that confirms a session changes no window that counts. */
  lemma ConfirmWindows(w: World, now: word, counter: dword, payload: bool, routable: bool)
    requires Inv(w) && Windows(w) && w.peer.next.valid
    ensures Windows(Accept(w, Next, now, counter, payload, routable))
  {
    hide Means, Check, Expired, Seen, Slots, LogOk;
    var n := w.peer.next.session;
    var e := Received(n, counter, true, routable);
    SeenAppend(w.log, e, w.peer.curr.session);
    SeenAppend(w.log, e, n);
    DistinctAppend(w.log, e);
  }

  lemma NotSeen(w: Window, acc: set<dword>, num: dword)
    requires Means(w, acc) && Admissible(acc, w.counter, num)
    ensures num !in acc
  {
  }

  /* A keypair whose session received nothing new keeps its window's meaning. */
  lemma OtherWindow(log: seq<Entry>, e: Entry, k: Keypair)
    requires WindowOk(log, k) && e.Received? && (k.valid ==> e.session != k.session)
    ensures WindowOk(log + [e], k)
  {
    hide Means, Seen;
    SeenAppend(log, e, k.session);
  }

  /* What one received packet does to the log and to the window of its keypair. */
  lemma ReceiptWindow(w: World, k: Keypair, counter: dword, routable: bool)
    requires Windows(w) && k.valid && WindowOk(w.log, k) && Faithful(k.window, counter)
    ensures
      var (window, ok) := Check(k.window, counter);
      var e := Received(k.session, counter, false, routable);
      var log := if ok then w.log + [e] else w.log;
      && WindowOk(log, k.(window := window))
      && forall i, j :: 0 <= i < j < |log| ==> Distinct(log[i], log[j])
  {
    var acc := Seen(w.log, k.session);
    var e := Received(k.session, counter, false, routable);
    CheckExactly(k.window, acc, counter);
    SeenAppend(w.log, e, k.session);
    hide Means, Check, Seen, Admissible, Distinct, Faithful;
    if Check(k.window, counter).1 {
      NotSeen(k.window, acc, counter);
      DistinctAppend(w.log, e);
    }
  }

  lemma ReceiveWindows(w: World, s: Slot, now: word, counter: dword, routable: bool)
    requires Inv(w) && Windows(w) && !s.Next? && Get(w.peer, s).valid && Faithful(Get(w.peer, s).window, counter)
    ensures Windows(Accept(w, s, now, counter, true, routable))
  {
    hide Check, Expired, LogOk, KeypairOk, Unconfirmed, Faithful;
    var p := w.peer;
    var k := Get(p, s);
    var e := Received(k.session, counter, false, routable);
    ReceiptWindow(w, k, counter, routable);
    OtherWindow(w.log, e, p.next);
    if s.Curr? {
      OtherWindow(w.log, e, p.prev);
    } else {
      OtherWindow(w.log, e, p.curr);
    }
    SameWindowOk(if Check(k.window, counter).1 then w.log + [e] else w.log,
                 k.(window := Check(k.window, counter).0), k.(window := Check(k.window, counter).0, lastRx := now));
    hide WindowOk, Distinct;
  }

  lemma SameWindowOk(log: seq<Entry>, j: Keypair, k: Keypair)
    requires WindowOk(log, j) && j.valid == k.valid && j.session == k.session && j.window == k.window
    ensures WindowOk(log, k)
  {
  }

  /* The packet is authentic, under a usable keypair, and carries something. */
  predicate Taken(w: World, e: Event)
  {
    && e.EData? && w.peer.valid && HasKeypair(w.peer, e.index)
    && var k := Get(w.peer, Lookup(w.peer, e.index));
       && k.receivingValid && !Expired(e.now, k.millis, REJECT_AFTER_TIME) && k.sendingCounter < REJECT_AFTER_MESSAGES
       && e.alloc && e.authentic && e.payload
  }

  /* What the window of the receiving keypair must make of a packet: nothing, unless the packet is taken,
     and nothing when the packet confirms a session. */
  predicate Truthful(w: World, e: Event)
  {
    Taken(w, e) && !Lookup(w.peer, e.index).Next? ==> Faithful(Get(w.peer, Lookup(w.peer, e.index)).window, e.counter)
  }

  /* Every packet of a run can be told apart when its turn comes. */
  ghost predicate RunTruthful(es: seq<Event>)
  {
    forall i :: 0 <= i < |es| ==> Truthful(Run(es[..i]), es[i])
  }

  /* An accepted packet without content only moves slots. */
  lemma KeepaliveQuiet(w: World, s: Slot, now: word, counter: dword, routable: bool)
    requires Get(w.peer, s).valid
    ensures Quiet(w, Accept(w, s, now, counter, false, routable))
  {
    hide Expired;
  }

  lemma DestroyQuiet(w: World, s: Slot)
    ensures Quiet(w, World(Put(w.peer, s, ZERO), w.log))
  {
  }

  lemma DataQuiet(w: World, e: Event)
    requires e.EData? && !Taken(w, e)
    ensures Quiet(w, Step(w, e))
  {
    hide Expired, Accept, Put, Quiet;
    SameQuiet(w);
    if w.peer.valid && HasKeypair(w.peer, e.index) {
      var s := Lookup(w.peer, e.index);
      DestroyQuiet(w, s);
      KeepaliveQuiet(w, s, e.now, e.counter, e.routable);
    }
  }

  lemma SameQuiet(w: World)
    ensures Quiet(w, w)
  {
  }

  lemma StepQuiet(w: World, e: Event)
    requires !Taken(w, e)
    ensures Quiet(w, Step(w, e))
  {
    hide Output, Data, InitiationReceived, ResponseReceived, Tick, Taken;
    match e
    case EOutput(now, alloc, sent) => OutputQuiet(w, now, alloc, sent);
    case EData(now, index, counter, alloc, authentic, payload, routable) => DataQuiet(w, e);
    case EInitiation(now, authentic, t, sender, dhOk, drawn) =>
      InitiationQuiet(w, now, authentic, t, sender, dhOk, drawn);
    case EResponse(now, receiver, authentic, sender, alloc, sent) =>
      ResponseQuiet(w, now, receiver, authentic, sender, alloc, sent);
    case ETick(now, alloc, sent, dhOk, drawn, allocHs) => TickQuiet(w, now, alloc, sent, dhOk, drawn, allocHs);
    case _ =>
  }

  lemma TakenStep(w: World, e: Event)
    requires Taken(w, e)
    ensures e.EData? && HasKeypair(w.peer, e.index) && Get(w.peer, Lookup(w.peer, e.index)).valid
    ensures Step(w, e) == Accept(w, Lookup(w.peer, e.index), e.now, e.counter, true, e.routable)
  {
    hide Expired, Accept;
  }

  // ---------- every run ----------

  lemma StepWindows(w: World, e: Event)
    requires Inv(w) && Windows(w) && Truthful(w, e)
    ensures Windows(Step(w, e))
  {
    hide Inv, Windows, Step, Taken, Faithful;
    if !Taken(w, e) {
      StepQuiet(w, e);
      QuietKeeps(w, Step(w, e));
    } else {
      TakenStep(w, e);
      var s := Lookup(w.peer, e.index);
      if s.Next? {
        ConfirmWindows(w, e.now, e.counter, true, e.routable);
      } else {
        ReceiveWindows(w, s, e.now, e.counter, e.routable);
      }
    }
  }

  lemma {:induction false} RunWindows(es: seq<Event>)
    requires Possible(es) && RunTruthful(es)
    ensures Windows(Run(es))
  {
    hide Inv, Windows, Step, Enabled;
    if es == [] {
      StartWindows();
    } else {
      var n := |es| - 1;
      assert forall i :: 0 <= i < n ==> es[..n][..i] == es[..i];
      assert es[..n + 1] == es;
      RunWindows(es[..n]);
      RunKeeps(es[..n]);
      StepWindows(Run(es[..n]), es[n]);
    }
  }

  // ---------- packets with small counters ----------

  /* The receipt of a packet that confirms nothing is decided by the rule and recorded. */
  ghost predicate Judged(w: World, e: Event)
  {
    Taken(w, e) && !Lookup(w.peer, e.index).Next? ==>
      var k := Get(w.peer, Lookup(w.peer, e.index));
      Right(k.window, Seen(w.log, k.session), e.counter)
  }

  lemma JudgedStep(w: World, e: Event)
    requires Windows(w)
    ensures Judged(w, e) <==> Truthful(w, e)
  {
    hide Right, Faithful, Means, Seen;
    if Taken(w, e) && !Lookup(w.peer, e.index).Next? {
      var k := Get(w.peer, Lookup(w.peer, e.index));
      CheckExactly(k.window, Seen(w.log, k.session), e.counter);
    }
  }

  /* In every run all receipts are decided by the rule exactly when all packets can be told apart. */
  lemma JudgedExactly(es: seq<Event>)
    requires Possible(es)
    ensures (forall i :: 0 <= i < |es| ==> Judged(Run(es[..i]), es[i])) <==> RunTruthful(es)
  {
    hide Judged, Truthful, Run, Enabled, Windows;
    var n := 0;
    while n < |es| && Truthful(Run(es[..n]), es[n])
      invariant 0 <= n <= |es|
      invariant forall i :: 0 <= i < n ==> Truthful(Run(es[..i]), es[i]) && Judged(Run(es[..i]), es[i])
    {
      PrefixWindows(es, n);
      JudgedStep(Run(es[..n]), es[n]);
      n := n + 1;
    }
    if n < |es| {
      PrefixWindows(es, n);
      JudgedStep(Run(es[..n]), es[n]);
    }
  }

  lemma PrefixWindows(es: seq<Event>, n: nat)
    requires Possible(es) && n <= |es| && forall i :: 0 <= i < n ==> Truthful(Run(es[..i]), es[i])
    ensures Windows(Run(es[..n]))
  {
    hide Truthful, Run, Enabled, Windows;
    assert forall i :: 0 <= i < n ==> es[..n][..i] == es[..i];
    RunWindows(es[..n]);
  }

  /* No counter of a data packet exceeds m. */
  predicate Bounded(es: seq<Event>, m: dword)
  {
    forall i :: 0 <= i < |es| && es[i].EData? ==> es[i].counter <= m
  }

  predicate LowWindow(k: Keypair)
  {
    k.valid ==> k.window.counter <= LIMIT
  }

  predicate LowWindows(p: Peer)
  {
    LowWindow(p.curr) && LowWindow(p.prev) && LowWindow(p.next)
  }

  lemma QuietLow(w: World, w': World)
    requires Quiet(w, w') && LowWindows(w.peer)
    ensures LowWindows(w'.peer)
  {
  }

  lemma AcceptLow(w: World, s: Slot, now: word, counter: dword, routable: bool)
    requires LowWindows(w.peer) && Get(w.peer, s).valid
    requires !s.Next? ==> Check(Get(w.peer, s).window, counter).0.counter <= LIMIT
    ensures LowWindows(Accept(w, s, now, counter, true, routable).peer)
  {
    hide Check, Expired;
  }

  lemma StepLow(w: World, e: Event)
    requires Inv(w) && Windows(w) && LowWindows(w.peer) && (e.EData? ==> e.counter <= LIMIT)
    ensures Truthful(w, e) && LowWindows(Step(w, e).peer)
  {
    if !Taken(w, e) {
      hide Inv, Windows, Step, Taken, Faithful;
      StepQuiet(w, e);
      QuietLow(w, Step(w, e));
    } else {
      hide Inv, Step, Taken, Faithful, Check, Means, Seen;
      TakenStep(w, e);
      var s := Lookup(w.peer, e.index);
      var k := Get(w.peer, s);
      LowFaithful(k.window, Seen(w.log, k.session), e.counter);
      AcceptLow(w, s, e.now, e.counter, e.routable);
    }
  }

  /* Packets with small counters are always told apart. */
  lemma {:induction false} LowTruthful(es: seq<Event>)
    requires Possible(es) && Bounded(es, LIMIT)
    ensures RunTruthful(es) && LowWindows(Run(es).peer)
  {
    hide Inv, Windows, Step, Enabled, Truthful, LowWindows;
    if es == [] {
      StartLow();
    } else {
      var n := |es| - 1;
      assert forall i :: 0 <= i < n ==> es[..n][..i] == es[..i];
      assert es[..n + 1] == es;
      LowTruthful(es[..n]);
      RunWindows(es[..n]);
      RunKeeps(es[..n]);
      StepLow(Run(es[..n]), es[n]);
    }
  }

  lemma StartLow()
    ensures LowWindows(START.peer)
  {
  }

  lemma StartWindows()
    ensures Windows(START)
  {
  }

  /* A counter is received twice under a session only if its first packet confirmed the session. */
  lemma OnlyConfirmingRepeats(es: seq<Event>, i: nat, j: nat)
    requires Possible(es) && RunTruthful(es) && i < j < |Run(es).log|
    requires Run(es).log[i].Received? && Run(es).log[j].Received?
    requires Run(es).log[i].session == Run(es).log[j].session
    ensures !Run(es).log[j].confirming
    ensures Run(es).log[i].counter == Run(es).log[j].counter ==> Run(es).log[i].confirming
  {
    hide Run, Possible, RunTruthful, Slots, WindowOk;
    RunKeeps(es);
    RunWindows(es);
    assert Ordered(Run(es).log[i], Run(es).log[j]) && Distinct(Run(es).log[i], Run(es).log[j]);
  }

  /* A session is started once, in one role and with one index. */
  lemma StartedOnce(w: World, session: nat, b: bool, x: word, c: bool, y: word)
    requires LogOk(w) && Started(session, b, x) in w.log && Started(session, c, y) in w.log
    ensures b == c && x == y
  {
    var i :| 0 <= i < |w.log| && w.log[i] == Started(session, b, x);
    var j :| 0 <= j < |w.log| && w.log[j] == Started(session, c, y);
  }

  /* Under a session this side initiated every counter is received at most once, whatever
     handshakes and slot moves come between. */
  lemma InitiatedOnce(es: seq<Event>, i: nat, j: nat, index: word)
    requires Possible(es) && RunTruthful(es) && i < j < |Run(es).log|
    requires Run(es).log[i].Received? && Run(es).log[j].Received?
    requires Run(es).log[i].session == Run(es).log[j].session
    requires Started(Run(es).log[i].session, true, index) in Run(es).log
    ensures Run(es).log[i].counter != Run(es).log[j].counter
  {
    hide Run, Possible, RunTruthful, Slots, WindowOk;
    OnlyConfirmingRepeats(es, i, j);
    RunKeeps(es);
    var log := Run(es).log;
    if log[i].confirming {
      assert log[i] in log;
      var x: word :| Started(log[i].session, false, x) in log;
      StartedOnce(Run(es), log[i].session, true, index, false, x);
    }
  }

  // ---------- how far that reaches ----------

  /* No counter is received twice under a session this side initiated. */
  ghost predicate NoneTwice(log: seq<Entry>)
  {
    forall i, j, index: word :: 0 <= i < j < |log| && log[i].Received? && log[j].Received?
      && log[i].session == log[j].session && Started(log[i].session, true, index) in log
      ==> log[i].counter != log[j].counter
  }

  ghost predicate OnceUpTo(m: dword)
  {
    forall es: seq<Event> :: Possible(es) && Bounded(es, m) ==> NoneTwice(Run(es).log)
  }

  /* A peer is added and connected, starts a handshake and gets its reply; then come four packets. */
  const BEGUN: seq<Event> :=
    [EAdd(NO_STAMP, 0, true), EConnect(true), ETick(9, true, true, true, 5, true), EResponse(9, 5, true, 7, true, true)]

  function Packet(counter: dword): Event
  {
    EData(9, 5, counter, true, true, true, true)
  }

  const TWICE: seq<Event> := BEGUN + [Packet(1)] + [Packet(100)] + [Packet(0x1_0000_0002)] + [Packet(1)]

  /* The session that is open when the packets come. */
  predicate Open(w: World, window: Window)
  {
    && w.peer.valid && w.peer.curr.(lastRx := 0) == Keypair(true, true, 9, 1, true, 9, 0, window, 5, 7, 1)
    && Started(1, true, 5) in w.log
  }

  lemma Registers()
    ensures
      var w := Step(Step(START, BEGUN[0]), BEGUN[1]);
      && w.peer == START.peer.(valid := true, active := true) && w.log == [Registered(NO_STAMP)]
  {
  }

  lemma Starts(w: World)
    requires w.peer == START.peer.(valid := true, active := true)
    ensures Enabled(w, BEGUN[2])
    ensures
      var v := Step(w, BEGUN[2]);
      && v.peer == w.peer.(handshake := Handshake(true, true, 5, 0), lastInitiationTx := 9)
  {
  }

  lemma Opens(w: World)
    requires w.peer == START.peer.(valid := true, active := true, handshake := Handshake(true, true, 5, 0),
                                   lastInitiationTx := 9)
    ensures Open(Step(w, BEGUN[3]), FRESH)
  {
  }

  lemma Begins()
    ensures Possible(BEGUN) && Open(Run(BEGUN), FRESH)
  {
    hide Step, Open;
    var one, two := Step(START, BEGUN[0]), Step(Step(START, BEGUN[0]), BEGUN[1]);
    Registers();
    Starts(two);
    Opens(Step(two, BEGUN[2]));
    TwoSteps(BEGUN[0], BEGUN[1]);
    Extend([BEGUN[0], BEGUN[1]], BEGUN[2]);
    Extend([BEGUN[0], BEGUN[1]] + [BEGUN[2]], BEGUN[3]);
    assert [BEGUN[0], BEGUN[1]] + [BEGUN[2]] + [BEGUN[3]] == BEGUN;
  }

  /* A packet that the window accepts is received. */
  lemma Receives(es: seq<Event>, counter: dword, window: Window)
    requires Possible(es) && Open(Run(es), window) && Check(window, counter).1
    ensures Possible(es + [Packet(counter)])
    ensures
      var w := Run(es + [Packet(counter)]);
      Open(w, Check(window, counter).0) && w.log == Run(es).log + [Received(1, counter, false, true)]
  {
    hide Run, Possible, Check;
    Extend(es, Packet(counter));
  }

  /* That run receives the counter 1 twice. */
  lemma WrappedReceivedTwice()
    ensures Possible(TWICE) && Bounded(TWICE, 0x1_0000_0002) && !NoneTwice(Run(TWICE).log)
  {
    hide Run, Possible, Open, Check;
    Begins();
    WrappedCalls();
    var n := |Run(BEGUN).log|;
    Receives(BEGUN, 1, FRESH);
    Receives(BEGUN + [Packet(1)], 100, Window(1, 1));
    Receives(BEGUN + [Packet(1)] + [Packet(100)], 0x1_0000_0002, Window(1, 100));
    Receives(BEGUN + [Packet(1)] + [Packet(100)] + [Packet(0x1_0000_0002)], 1, Window(1, 0x1_0000_0002));
    OpenStarted(Run(TWICE), Check(Window(1, 0x1_0000_0002), 1).0);
    var log := Run(TWICE).log;
    assert log[n] == log[n + 3] == Received(1, 1, false, true);
  }

  lemma OpenStarted(w: World, window: Window)
    requires Open(w, window)
    ensures Started(1, true, 5) in w.log
  {
  }

  /* Counters up to m are received at most once under initiated sessions, in every run, if and only
     if m is at most 2^32 + 1. */
  lemma InitiatedOnceExactly(m: dword)
    ensures OnceUpTo(m) <==> m <= LIMIT
  {
    hide Run, Possible, NoneTwice;
    if m <= LIMIT {
      forall es: seq<Event> | Possible(es) && Bounded(es, m)
        ensures NoneTwice(Run(es).log)
      {
        LowTruthful(es);
        TruthfulOnce(es);
      }
    } else {
      WrappedReceivedTwice();
    }
  }

  lemma TruthfulOnce(es: seq<Event>)
    requires Possible(es) && RunTruthful(es)
    ensures NoneTwice(Run(es).log)
  {
    hide Run, Possible, RunTruthful;
    forall i, j, index: word | 0 <= i < j < |Run(es).log| && Run(es).log[i].Received? && Run(es).log[j].Received?
        && Run(es).log[i].session == Run(es).log[j].session
        && Started(Run(es).log[i].session, true, index) in Run(es).log
      ensures Run(es).log[i].counter != Run(es).log[j].counter
    {
      InitiatedOnce(es, i, j, index);
    }
  }

  // ---------- the packet that confirms a session ----------

  /* The packet that makes a next keypair current, received twice in a row, is received twice
     exactly when its counter is not zero. */
  lemma ConfirmingPacketRepeats(w: World, now: word, index: word, counter: dword, routable: bool)
    requires Inv(w) && w.peer.valid && now != 0 && HasKeypair(w.peer, index) && Lookup(w.peer, index).Next?
    requires
      var k := w.peer.next;
      k.receivingValid && !Expired(now, k.millis, REJECT_AFTER_TIME) && k.sendingCounter < REJECT_AFTER_MESSAGES
    ensures
      var once := Data(w, now, index, counter, true, true, true, routable);
      var twice := Data(once, now, index, counter, true, true, true, routable);
      var n := w.peer.next.session;
      twice.log == w.log + (if counter == 0 then []
                            else [Received(n, counter, true, routable), Received(n, counter, false, routable)])
  {
    hide Expired, LogOk, Check;
    FreshCheck(counter);
    var once := Data(w, now, index, counter, true, true, true, routable);
    assert once.peer.curr == w.peer.next.(lastRx := now) && once.peer.valid;
    assert Lookup(once.peer, index) == Curr;
  }

  lemma FreshCheck(counter: dword)
    ensures Check(FRESH, counter).1 <==> counter != 0
  {
  }

  /* A session answered and then confirmed by a packet that arrives twice. */
  const ANSWERED: Event := EInitiation(0xFFFF_0000, true, ONE_STAMP, 7, true, 5)
  const PACKET: Event := EData(0xFFFF_0001, 5, 1, true, true, true, true)
  const DOUBLE: seq<Event> := [EAdd(NO_STAMP, 0, true), ANSWERED, PACKET, PACKET]

  lemma AnsweredWorld(w: World)
    requires w == Step(Step(START, EAdd(NO_STAMP, 0, true)), ANSWERED)
    ensures Enabled(START, EAdd(NO_STAMP, 0, true)) && Enabled(Step(START, EAdd(NO_STAMP, 0, true)), ANSWERED)
    ensures w.peer.valid && !w.peer.curr.valid && !w.peer.prev.valid
    ensures w.peer.next == Keypair(true, false, 0xFFFF_0000, 0, true, 0, 0, FRESH, 5, 7, 1)
  {
    hide T.Memcmp;
    FirstStamp();
  }

  /* The double receipt happens: this run is possible, and the packet is received twice. */
  lemma DoubleReceipt()
    ensures Possible(DOUBLE)
    ensures Received(1, 1, true, true) in Run(DOUBLE).log && Received(1, 1, false, true) in Run(DOUBLE).log
  {
    hide Run, Step, Data, Inv;
    var two := [EAdd(NO_STAMP, 0, true), ANSWERED];
    var w := Step(Step(START, EAdd(NO_STAMP, 0, true)), ANSWERED);
    AnsweredWorld(w);
    TwoSteps(EAdd(NO_STAMP, 0, true), ANSWERED);
    Extend(two, PACKET);
    Extend(two + [PACKET], PACKET);
    assert two + [PACKET] + [PACKET] == DOUBLE;
    RunKeeps(two);
    assert !Expired(0xFFFF_0001, 0xFFFF_0000, REJECT_AFTER_TIME);
    ConfirmingPacketRepeats(w, 0xFFFF_0001, 5, 1, true);
    PacketStep(w);
    PacketStep(Step(w, PACKET));
  }

  lemma PacketStep(w: World)
    ensures Enabled(w, PACKET) && Step(w, PACKET) == Data(w, 0xFFFF_0001, 5, 1, true, true, true, true)
  {
    hide Data;
  }
}
