/**
 Two accounts kept along every run of a peer: which generated index became a
 session, and which initiation timestamps were accepted.
 */
module Bookkeeping {
  import opened Words
  import opened Replay
  import opened Session
  import T = Tai64n

  // ---------- indices ----------

  function CreatedCount(log: seq<Entry>, index: word): nat
  {
    if log == [] then 0
    else CreatedCount(log[..|log| - 1], index) + (if log[|log| - 1] == Created(index) then 1 else 0)
  }

  function StartedCount(log: seq<Entry>, index: word): nat
  {
    if log == [] then 0
    else
      var e := log[|log| - 1];
      StartedCount(log[..|log| - 1], index) + (if e.Started? && e.index == index then 1 else 0)
  }

  /* Sessions under an index, and a handshake still waiting with it, each used up one generated index. */
  predicate Accounted(w: World, index: word)
  {
    StartedCount(w.log, index) + (if w.peer.handshake.localIndex == index then 1 else 0) <= CreatedCount(w.log, index)
  }

  lemma CountSnoc(log: seq<Entry>, e: Entry, index: word)
    ensures CreatedCount(log + [e], index) == CreatedCount(log, index) + (if e == Created(index) then 1 else 0)
    ensures StartedCount(log + [e], index) ==
      StartedCount(log, index) + (if e.Started? && e.index == index then 1 else 0)
  {
    assert (log + [e])[..|log + [e]| - 1] == log;
  }

  lemma OutputAccount(w: World, now: word, alloc: bool, sent: bool, index: word)
    requires Accounted(w, index)
    ensures Accounted(Output(w, now, alloc, sent), index)
  {
    hide Expired;
    var k := Get(w.peer, SendingSlot(w.peer));
    CountSnoc(w.log, Encrypted(k.session, k.sendingCounter), index);
  }

  lemma StartAccount(w: World, initiator: bool, now: word, index: word)
    requires Accounted(w, index) && index != 0
    ensures Accounted(StartSession(w, initiator, now), index)
  {
    hide CreatedCount, StartedCount;
    CountSnoc(w.log, Started(w.peer.sessions + 1, initiator, w.peer.handshake.localIndex), index);
  }

  ghost predicate SameRest(p: Peer, q: Peer)
  {
    p.greatest == q.greatest && p.valid == q.valid && p.handshake == q.handshake
  }

  lemma PutFrame(p: Peer, s: Slot, k: Keypair, now: word)
    ensures SameRest(Put(p, s, k), p) && SameRest(Touch(p, s, now), p)
  {
  }

  /* What receiving data leaves alone. */
  lemma DataFrame(w: World, now: word, i: word, counter: dword, alloc: bool, authentic: bool, payload: bool,
                  routable: bool)
    ensures
      var w' := Data(w, now, i, counter, alloc, authentic, payload, routable);
      && SameRest(w'.peer, w.peer)
      && (w'.log == w.log || exists e: Entry :: w'.log == w.log + [e] && e.Received?)
  {
    hide Check, Expired, Put, Touch, Get;
    var w' := Data(w, now, i, counter, alloc, authentic, payload, routable);
    if w.peer.valid && HasKeypair(w.peer, i) {
      var s := Lookup(w.peer, i);
      PutFrame(w.peer, s, ZERO, now);
      var p := Touch(w.peer, s, now);
      var k := Get(p, s).(window := Check(Get(p, s).window, counter).0);
      PutFrame(p, s, k, now);
      PutFrame(p.(sendHandshake := true), s, k, now);
    }
    if w'.log != w.log {
      var s := Lookup(w.peer, i);
      assert w'.log == w.log + [Received(Get(w.peer, s).session, counter, s.Next?, routable)];
    }
  }

  lemma DataAccount(w: World, now: word, i: word, counter: dword, alloc: bool, authentic: bool, payload: bool,
                    routable: bool, index: word)
    requires Accounted(w, index)
    ensures Accounted(Data(w, now, i, counter, alloc, authentic, payload, routable), index)
  {
    hide CreatedCount, StartedCount, Data;
    DataFrame(w, now, i, counter, alloc, authentic, payload, routable);
    var w' := Data(w, now, i, counter, alloc, authentic, payload, routable);
    if w'.log != w.log {
      var e: Entry :| w'.log == w.log + [e] && e.Received?;
      CountSnoc(w.log, e, index);
    }
  }

  lemma InitiationAccount(w: World, now: word, authentic: bool, t: T.stamp, sender: word, dhOk: bool, drawn: word,
                          index: word)
    requires Accounted(w, index) && index != 0
    ensures Accounted(InitiationReceived(w, now, authentic, t, sender, dhOk, drawn), index)
  {
    hide CreatedCount, StartedCount, StartSession, T.Memcmp;
    var p := w.peer;
    CountSnoc(w.log, Initiation(t), index);
    CountSnoc(w.log + [Initiation(t)], Created(drawn), index);
    var p1 := p.(lastInitiationRx := now, greatest := t,
        handshake := Handshake(true, false, p.handshake.localIndex, sender));
    var w2 := World(p1.(handshake := p1.handshake.(localIndex := drawn)), w.log + [Initiation(t)] + [Created(drawn)]);
    StartAccount(w2, false, now, index);
  }

  lemma ResponseAccount(w: World, now: word, receiver: word, authentic: bool, sender: word, alloc: bool, sent: bool,
                        index: word)
    requires Accounted(w, index) && index != 0
    ensures Accounted(ResponseReceived(w, now, receiver, authentic, sender, alloc, sent), index)
  {
    hide CreatedCount, StartedCount, StartSession, Output;
    var w1 := World(w.peer.(handshake := w.peer.handshake.(remoteIndex := sender)), w.log);
    StartAccount(w1, true, now, index);
    OutputAccount(StartSession(w1, true, now), now, alloc, sent, index);
  }

  lemma TickAccount(w: World, now: word, alloc: bool, sent: bool, dhOk: bool, drawn: word, allocHs: bool, index: word)
    requires Accounted(w, index) && index != 0
    ensures Accounted(Tick(w, now, alloc, sent, dhOk, drawn, allocHs), index)
  {
    hide CreatedCount, StartedCount, Output, ShouldReset, ShouldDestroyCurrent, ShouldSendKeepalive,
         ShouldSendInitiation;
    var p0 := w.peer;
    var p1 := if ShouldReset(p0, now) then Wipe(p0).(handshake := Handshake(false, p0.handshake.initiator, 0, 0))
        else p0;
    var p2 := if ShouldDestroyCurrent(p1, now) then p1.(curr := ZERO) else p1;
    OutputAccount(World(p2, w.log), now, alloc, sent, index);
    CountSnoc(BeforeHandshake(w, now, alloc, sent).log, Created(drawn), index);
  }

  lemma StepAccount(w: World, e: Event, index: word)
    requires Accounted(w, index) && index != 0
    ensures Accounted(Step(w, e), index)
  {
    hide Output, Data, InitiationReceived, ResponseReceived, Tick, CreatedCount, StartedCount;
    match e
    case EAdd(t, keepalive, usable) => CountSnoc(w.log, Registered(t), index);
    case EOutput(now, alloc, sent) => OutputAccount(w, now, alloc, sent, index);
    case EData(now, i, counter, alloc, authentic, payload, routable) =>
      DataAccount(w, now, i, counter, alloc, authentic, payload, routable, index);
    case EInitiation(now, authentic, t, sender, dhOk, drawn) =>
      InitiationAccount(w, now, authentic, t, sender, dhOk, drawn, index);
    case EResponse(now, receiver, authentic, sender, alloc, sent) =>
      ResponseAccount(w, now, receiver, authentic, sender, alloc, sent, index);
    case ETick(now, alloc, sent, dhOk, drawn, allocHs) =>
      TickAccount(w, now, alloc, sent, dhOk, drawn, allocHs, index);
    case _ =>
  }

  /* In every run, possible or not, each generated index becomes at most one session. */
  lemma IndexSpentOnce(es: seq<Event>, index: word)
    requires index != 0
    ensures StartedCount(Run(es).log, index) <= CreatedCount(Run(es).log, index)
    ensures Run(es).peer.handshake.localIndex == index
            ==> StartedCount(Run(es).log, index) < CreatedCount(Run(es).log, index)
  {
    RunAccount(es, index);
  }

  lemma {:induction false} RunAccount(es: seq<Event>, index: word)
    requires index != 0
    ensures Accounted(Run(es), index)
  {
    hide Step;
    if es != [] {
      hide CreatedCount, StartedCount, Accounted;
      RunAccount(es[..|es| - 1], index);
      StepAccount(Run(es[..|es| - 1]), es[|es| - 1], index);
    }
  }

  // ---------- timestamps ----------

  /* The configured stamp of the latest registration and those accepted since. */
  function Stamps(log: seq<Entry>): seq<T.stamp>
  {
    if log == [] then []
    else
      match log[|log| - 1]
      case Registered(t) => [t]
      case Initiation(t) => Stamps(log[..|log| - 1]) + [t]
      case _ => Stamps(log[..|log| - 1])
  }

  ghost predicate Increasing(s: seq<T.stamp>)
  {
    forall i, j :: 0 <= i < j < |s| ==> T.BE(s[i]) < T.BE(s[j])
  }

  /* The greatest timestamp is the last, and largest, of those. */
  ghost predicate StampOk(w: World)
  {
    && Increasing(Stamps(w.log))
    && (w.peer.valid ==>
          Stamps(w.log) != [] && w.peer.greatest == Stamps(w.log)[|Stamps(w.log)| - 1])
  }

  lemma StampSnoc(log: seq<Entry>, e: Entry)
    ensures Stamps(log + [e]) ==
      if e.Registered? then [e.stamp] else if e.Initiation? then Stamps(log) + [e.stamp] else Stamps(log)
  {
    assert (log + [e])[..|log + [e]| - 1] == log;
  }

  lemma StampQuiet(w: World, w': World)
    requires StampOk(w) && w'.peer.greatest == w.peer.greatest && w'.peer.valid == w.peer.valid
    requires w'.log == w.log || exists e: Entry :: w'.log == w.log + [e] && !e.Registered? && !e.Initiation?
    ensures StampOk(w')
  {
    if w'.log != w.log {
      var e: Entry :| w'.log == w.log + [e] && !e.Registered? && !e.Initiation?;
      StampSnoc(w.log, e);
    }
  }

  lemma OutputStamps(w: World, now: word, alloc: bool, sent: bool)
    requires StampOk(w)
    ensures StampOk(Output(w, now, alloc, sent))
  {
    hide Expired, StampOk;
    var k := Get(w.peer, SendingSlot(w.peer));
    var w' := Output(w, now, alloc, sent);
    assert w'.log == w.log || w'.log == w.log + [Encrypted(k.session, k.sendingCounter)];
    StampQuiet(w, w');
  }

  lemma StartStamps(w: World, initiator: bool, now: word)
    requires StampOk(w)
    ensures StampOk(StartSession(w, initiator, now))
  {
    hide StampOk;
    assert StartSession(w, initiator, now).log ==
      w.log + [Started(w.peer.sessions + 1, initiator, w.peer.handshake.localIndex)];
    StampQuiet(w, StartSession(w, initiator, now));
  }

  lemma DataStamps(w: World, now: word, i: word, counter: dword, alloc: bool, authentic: bool, payload: bool,
                   routable: bool)
    requires StampOk(w)
    ensures StampOk(Data(w, now, i, counter, alloc, authentic, payload, routable))
  {
    hide Data, StampOk;
    DataFrame(w, now, i, counter, alloc, authentic, payload, routable);
    StampQuiet(w, Data(w, now, i, counter, alloc, authentic, payload, routable));
  }

  /* An initiation counts as a replay exactly when an earlier stamp is at least as late. */
  lemma ReplayVerdict(w: World, t: T.stamp)
    requires StampOk(w) && w.peer.valid
    ensures T.Memcmp(t, w.peer.greatest) <= 0
       <==> exists i :: 0 <= i < |Stamps(w.log)| && T.BE(t) <= T.BE(Stamps(w.log)[i])
  {
    hide Stamps, T.Memcmp, T.BE;
    T.MemcmpIsOrder(t, w.peer.greatest);
    var s := Stamps(w.log);
    var last := |s| - 1;
    if i :| 0 <= i < |s| && T.BE(t) <= T.BE(s[i]) {
      assert i < last ==> T.BE(s[i]) < T.BE(s[last]);
    } else {
      assert !(T.BE(t) <= T.BE(s[last]));
    }
  }

  lemma AcceptStamp(w: World, q: Peer, t: T.stamp)
    requires StampOk(w) && w.peer.valid && q.greatest == t && T.Memcmp(t, w.peer.greatest) > 0
    ensures StampOk(World(q, w.log + [Initiation(t)]))
  {
    hide Stamps, T.Memcmp, T.BE;
    StampSnoc(w.log, Initiation(t));
    T.MemcmpIsOrder(t, w.peer.greatest);
  }

  lemma InitiationStamps(w: World, now: word, authentic: bool, t: T.stamp, sender: word, dhOk: bool, drawn: word)
    requires StampOk(w)
    ensures StampOk(InitiationReceived(w, now, authentic, t, sender, dhOk, drawn))
  {
    hide T.Memcmp, StampOk, StartSession;
    var p := w.peer;
    var w' := InitiationReceived(w, now, authentic, t, sender, dhOk, drawn);
    if w' != w {
      var p1 := p.(lastInitiationRx := now, greatest := t,
          handshake := Handshake(true, false, p.handshake.localIndex, sender));
      var w1 := World(p1, w.log + [Initiation(t)]);
      AcceptStamp(w, p1, t);
      var w2 := World(p1.(handshake := p1.handshake.(localIndex := drawn)), w1.log + [Created(drawn)]);
      StampQuiet(w1, w2);
      StartStamps(w2, false, now);
    }
  }

  lemma ResponseStamps(w: World, now: word, receiver: word, authentic: bool, sender: word, alloc: bool, sent: bool)
    requires StampOk(w)
    ensures StampOk(ResponseReceived(w, now, receiver, authentic, sender, alloc, sent))
  {
    hide StampOk, StartSession, Output;
    var w1 := World(w.peer.(handshake := w.peer.handshake.(remoteIndex := sender)), w.log);
    StampQuiet(w, w1);
    StartStamps(w1, true, now);
    OutputStamps(StartSession(w1, true, now), now, alloc, sent);
  }

  lemma BeforeStamps(w: World, now: word, alloc: bool, sent: bool)
    requires StampOk(w)
    ensures StampOk(BeforeHandshake(w, now, alloc, sent))
  {
    hide StampOk, Output, ShouldReset, ShouldDestroyCurrent, ShouldSendKeepalive;
    var p0 := w.peer;
    var p1 := if ShouldReset(p0, now) then Wipe(p0).(handshake := Handshake(false, p0.handshake.initiator, 0, 0))
        else p0;
    var p2 := if ShouldDestroyCurrent(p1, now) then p1.(curr := ZERO) else p1;
    StampQuiet(w, World(p2, w.log));
    OutputStamps(World(p2, w.log), now, alloc, sent);
  }

  lemma TickStamps(w: World, now: word, alloc: bool, sent: bool, dhOk: bool, drawn: word, allocHs: bool)
    requires StampOk(w)
    ensures StampOk(Tick(w, now, alloc, sent, dhOk, drawn, allocHs))
  {
    hide StampOk, BeforeHandshake, ShouldSendInitiation;
    BeforeStamps(w, now, alloc, sent);
    var w1 := BeforeHandshake(w, now, alloc, sent);
    StampQuiet(w1, StartHandshake(w1, now, dhOk, drawn, allocHs));
  }

  lemma StepStamps(w: World, e: Event)
    requires StampOk(w)
    ensures StampOk(Step(w, e))
  {
    hide Output, Data, InitiationReceived, ResponseReceived, Tick, T.BE, Stamps;
    match e
    case EAdd(t, keepalive, usable) => StampSnoc(w.log, Registered(t));
    case EOutput(now, alloc, sent) => OutputStamps(w, now, alloc, sent);
    case EData(now, i, counter, alloc, authentic, payload, routable) =>
      DataStamps(w, now, i, counter, alloc, authentic, payload, routable);
    case EInitiation(now, authentic, t, sender, dhOk, drawn) =>
      InitiationStamps(w, now, authentic, t, sender, dhOk, drawn);
    case EResponse(now, receiver, authentic, sender, alloc, sent) =>
      ResponseStamps(w, now, receiver, authentic, sender, alloc, sent);
    case ETick(now, alloc, sent, dhOk, drawn, allocHs) => TickStamps(w, now, alloc, sent, dhOk, drawn, allocHs);
    case _ =>
  }

  lemma {:induction false} RunStamps(es: seq<Event>)
    ensures StampOk(Run(es))
  {
    hide Step;
    if es != [] {
      hide StampOk;
      RunStamps(es[..|es| - 1]);
      StepStamps(Run(es[..|es| - 1]), es[|es| - 1]);
    }
  }

  /* After every run, an initiation is accepted exactly when it is authentic, its stamp is later than
     every stamp since the registration, and the rate guard lets it through. */
  lemma AcceptedInitiations(es: seq<Event>, now: word, authentic: bool, t: T.stamp, sender: word, dhOk: bool,
                            drawn: word)
    ensures
      var w := Run(es);
      && Increasing(Stamps(w.log))
      && (Initiation(t) in InitiationReceived(w, now, authentic, t, sender, dhOk, drawn).log[|w.log|..]
          <==> && w.peer.valid && authentic && (w.peer.lastInitiationRx as int - now as int) % B >= 500
               && forall i :: 0 <= i < |Stamps(w.log)| ==> T.BE(Stamps(w.log)[i]) < T.BE(t))
  {
    hide Run, Stamps, T.BE, T.Memcmp, AddKeypair;
    RunStamps(es);
    var w := Run(es);
    var w' := InitiationReceived(w, now, authentic, t, sender, dhOk, drawn);
    if w.peer.valid {
      ReplayVerdict(w, t);
    }
    if w'.log != w.log {
      assert w'.log[|w.log|..][0] == Initiation(t);
    }
  }
}
