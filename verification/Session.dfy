/**
 One registered peer as a state machine: the three keypair slots, the pending
 handshake, the timers and the limits of wireguard.c and wireguardif.c.  Every
 transition also appends to a log of what was encrypted, received, started and
 accepted, so that properties of whole runs are properties of the log.
 Cryptographic outcomes, random indices, allocation, transmission and the clock
 are inputs of the events.
 */
module Session {
  import opened Words
  import opened Replay
  import T = Tai64n

  const REKEY_AFTER_MESSAGES: int := 0x1000_0000_0000_0000
  const REJECT_AFTER_MESSAGES: int := 0xFFFF_FFFF_FFFF_FFFF - 0x2000
  const REKEY_AFTER_TIME: int := 120
  const REJECT_AFTER_TIME: int := 180
  const REKEY_TIMEOUT: int := 5

  // ---------- state ----------

  /* session names the handshake that produced the keys; zero stands for wiped memory. */
  datatype Keypair = Keypair(
    valid: bool, initiator: bool, millis: word, sendingCounter: dword, receivingValid: bool,
    lastTx: word, lastRx: word, window: Window, localIndex: word, remoteIndex: word, session: nat)

  const ZERO: Keypair := Keypair(false, false, 0, 0, false, 0, 0, FRESH, 0, 0, 0)

  datatype Handshake = Handshake(valid: bool, initiator: bool, localIndex: word, remoteIndex: word)

  const NO_HANDSHAKE: Handshake := Handshake(false, false, 0, 0)

  datatype Peer = Peer(
    valid: bool, active: bool, keepalive: nat,
    curr: Keypair, prev: Keypair, next: Keypair, handshake: Handshake,
    greatest: T.stamp, lastInitiationRx: word, lastInitiationTx: word, lastTx: word, lastRx: word,
    sendHandshake: bool, sessions: nat)

  datatype Slot = Curr | Prev | Next

  datatype Entry =
    | Registered(stamp: T.stamp)
    | Created(index: word)
    | Started(session: nat, initiator: bool, index: word)
    | Encrypted(session: nat, counter: dword)
    | Received(session: nat, counter: dword, confirming: bool, delivered: bool)
    | Initiation(stamp: T.stamp)

  datatype World = World(peer: Peer, log: seq<Entry>)

  function Get(p: Peer, s: Slot): Keypair
  {
    match s
    case Curr => p.curr
    case Prev => p.prev
    case Next => p.next
  }

  function Put(p: Peer, s: Slot, k: Keypair): Peer
  {
    match s
    case Curr => p.(curr := k)
    case Prev => p.(prev := k)
    case Next => p.(next := k)
  }

  // ---------- decisions ----------

  /* wireguard_expired, on 32-bit milliseconds; a negative age limit wraps. */
  predicate Expired(now: word, created: word, seconds: int)
  {
    (now as int - created as int) % B >= seconds % B * 1000 % B
  }

  /* wireguardif_can_send_initiation and should_send_initiation */
  predicate ShouldSendInitiation(p: Peer, now: word)
  {
    && (p.lastInitiationTx == 0 || Expired(now, p.lastInitiationTx, REKEY_TIMEOUT))
    && (p.sendHandshake
        || (p.curr.valid && !p.curr.initiator && Expired(now, p.curr.millis, REJECT_AFTER_TIME - p.keepalive))
        || (!p.curr.valid && p.active))
  }

  predicate ShouldSendKeepalive(p: Peer, now: word)
  {
    p.keepalive > 0 && (p.curr.valid || p.prev.valid) && Expired(now, p.lastTx, p.keepalive)
  }

  predicate ShouldDestroyCurrent(p: Peer, now: word)
  {
    p.curr.valid && (Expired(now, p.curr.millis, REJECT_AFTER_TIME) || p.curr.sendingCounter >= REJECT_AFTER_MESSAGES)
  }

  predicate ShouldReset(p: Peer, now: word)
  {
    p.curr.valid && Expired(now, p.curr.millis, REJECT_AFTER_TIME * 3)
  }

  /* What the rejection loop of wireguard_generate_unique_index ends with. */
  predicate Unused(p: Peer, index: word)
  {
    && index != 0 && index != 0xFFFF_FFFF
    && index != p.curr.localIndex && index != p.prev.localIndex && index != p.next.localIndex
    && index != p.handshake.localIndex
  }

  // ---------- slots ----------

  /* keypair_update: a packet under the next keypair makes it current. */
  function Promote(p: Peer, received: Slot): Peer
  {
    if received.Next? then p.(prev := p.curr, curr := p.next, next := ZERO) else p
  }

  /* add_new_keypair */
  function AddKeypair(p: Peer, k: Keypair): Peer
  {
    if k.initiator then
      if p.next.valid then p.(prev := p.next, next := ZERO, curr := k) else p.(prev := p.curr, curr := k)
    else p.(next := k, prev := ZERO)
  }

  /* wireguard_start_session */
  function StartSession(w: World, initiator: bool, now: word): World
  {
    var p := w.peer;
    var n := p.sessions + 1;
    var k := Keypair(true, initiator, now, 0, true, 0, 0, FRESH, p.handshake.localIndex, p.handshake.remoteIndex, n);
    var p' := p.(handshake := Handshake(false, p.handshake.initiator, 0, 0), sessions := n);
    World(AddKeypair(p', k), w.log + [Started(n, initiator, k.localIndex)])
  }

  /* get_peer_keypair_for_idx */
  function Lookup(p: Peer, index: word): Slot
    requires HasKeypair(p, index)
  {
    if p.curr.valid && p.curr.localIndex == index then Curr
    else if p.next.valid && p.next.localIndex == index then Next
    else Prev
  }

  predicate HasKeypair(p: Peer, index: word)
  {
    || (p.curr.valid && p.curr.localIndex == index)
    || (p.next.valid && p.next.localIndex == index)
    || (p.prev.valid && p.prev.localIndex == index)
  }

  // ---------- sending ----------

  function SendingSlot(p: Peer): Slot
  {
    if p.curr.valid && !p.curr.initiator && p.curr.lastRx == 0 then Prev else Curr
  }

  predicate MaySend(k: Keypair)
  {
    k.valid && (k.initiator || k.lastRx != 0)
  }

  /* wireguardif_output_to_peer; the payload does not matter here. */
  function Output(w: World, now: word, alloc: bool, sent: bool): World
  {
    var p := w.peer;
    var s := SendingSlot(p);
    var k := Get(p, s);
    if !MaySend(k) then w
    else if Expired(now, k.millis, REJECT_AFTER_TIME) || k.sendingCounter >= REJECT_AFTER_MESSAGES then
      World(Put(p, s, ZERO), w.log)
    else if !alloc then w
    else
      var k' := k.(sendingCounter := (k.sendingCounter + 1) % 0x1_0000_0000_0000_0000,
                    lastTx := if sent then now else k.lastTx);
      var rekey := k'.sendingCounter >= REKEY_AFTER_MESSAGES
          || (k'.initiator && Expired(now, k'.millis, REKEY_AFTER_TIME));
      World(Put(p, s, k').(lastTx := if sent then now else p.lastTx, sendHandshake := rekey || p.sendHandshake),
            w.log + [Encrypted(k.session, k.sendingCounter)])
  }

  // ---------- receiving ----------

  /* A packet authenticated under a keypair: the receive times, then keypair_update. */
  function Touch(p: Peer, s: Slot, now: word): Peer
  {
    Promote(Put(p, s, Get(p, s).(lastRx := now)).(lastRx := now), s)
  }

  /* The part of wireguardif_process_data_message after a successful decryption. */
  function Accept(w: World, s: Slot, now: word, counter: dword, payload: bool, routable: bool): World
  {
    var p1 := Touch(w.peer, s, now);
    var k := Get(p1, s);
    var p2 := if k.initiator && Expired(now, k.millis, REJECT_AFTER_TIME - p1.keepalive - REKEY_TIMEOUT)
              then p1.(sendHandshake := true) else p1;
    if !payload then World(p2, w.log)
    else
      var (window, ok) := Check(k.window, counter);
      var e := Received(Get(w.peer, s).session, counter, s.Next?, routable);
      World(Put(p2, s, k.(window := window)), if ok then w.log + [e] else w.log)
  }

  /* wireguardif_process_data_message */
  function Data(w: World, now: word, index: word, counter: dword, alloc: bool, authentic: bool, payload: bool,
                routable: bool): World
  {
    var p := w.peer;
    if !p.valid || !HasKeypair(p, index) then w
    else
      var s := Lookup(p, index);
      var k := Get(p, s);
      if !k.receivingValid || Expired(now, k.millis, REJECT_AFTER_TIME)
          || k.sendingCounter >= REJECT_AFTER_MESSAGES then
        World(Put(p, s, ZERO), w.log)
      else if !alloc || !authentic then w
      else Accept(w, s, now, counter, payload, routable)
  }

  // ---------- handshakes ----------

  /* The last steps of wireguard_process_initiation_message, then wireguardif_send_handshake_response. */
  function InitiationReceived(w: World, now: word, authentic: bool, t: T.stamp, sender: word, dhOk: bool,
                              index: word): World
  {
    var p := w.peer;
    var replay := T.Memcmp(t, p.greatest) <= 0;
    var rateLimit := (p.lastInitiationRx as int - now as int) % B < 500;
    if !p.valid || !authentic || replay || rateLimit then w
    else
      var p1 := p.(lastInitiationRx := now, greatest := t,
                   handshake := Handshake(true, false, p.handshake.localIndex, sender));
      var w1 := World(p1, w.log + [Initiation(t)]);
      if !dhOk then w1
      else
        var w2 := World(p1.(handshake := p1.handshake.(localIndex := index)), w1.log + [Created(index)]);
        StartSession(w2, false, now)
  }

  /* peer_lookup_by_handshake and wireguardif_process_response_message */
  function ResponseReceived(w: World, now: word, receiver: word, authentic: bool, sender: word, alloc: bool,
                            sent: bool): World
  {
    var p := w.peer;
    if !(p.valid && p.handshake.valid && p.handshake.initiator && p.handshake.localIndex == receiver)
        || !authentic then w
    else
      var w1 := World(p.(handshake := p.handshake.(remoteIndex := sender)), w.log);
      Output(StartSession(w1, true, now), now, alloc, sent)
  }

  /* wireguard_start_handshake */
  function StartHandshake(w: World, now: word, dhOk: bool, index: word, alloc: bool): World
  {
    if !dhOk then w
    else
      var p := w.peer.(handshake := Handshake(true, true, index, w.peer.handshake.remoteIndex));
      World(if alloc then p.(sendHandshake := false, lastInitiationTx := now) else p, w.log + [Created(index)])
  }

  // ---------- the timer and the interface ----------

  function Wipe(p: Peer): Peer
  {
    p.(next := ZERO, curr := ZERO, prev := ZERO)
  }

  /* wireguardif_tmr for one registered peer, up to the decision about a handshake. */
  function BeforeHandshake(w: World, now: word, alloc: bool, sent: bool): World
  {
    var p0 := w.peer;
    var p1 := if ShouldReset(p0, now) then Wipe(p0).(handshake := Handshake(false, p0.handshake.initiator, 0, 0))
        else p0;
    var p2 := if ShouldDestroyCurrent(p1, now) then p1.(curr := ZERO) else p1;
    var w2 := World(p2, w.log);
    if ShouldSendKeepalive(p2, now) then Output(w2, now, alloc, sent) else w2
  }

  /* wireguardif_tmr */
  function Tick(w: World, now: word, alloc: bool, sent: bool, dhOk: bool, index: word, allocHs: bool): World
  {
    if !w.peer.valid then w
    else
      var w1 := BeforeHandshake(w, now, alloc, sent);
      if ShouldSendInitiation(w1.peer, now) then StartHandshake(w1, now, dhOk, index, allocHs) else w1
  }

  /* wireguardif_add_peer into a free slot; a key that wireguard_peer_init cannot use leaves the slot
     zeroed and free. */
  function Add(w: World, t: T.stamp, keepalive: nat, usable: bool): World
  {
    if w.peer.valid then w
    else if !usable then Remove(w)
    else World(Peer(true, false, keepalive, ZERO, ZERO, ZERO, NO_HANDSHAKE, t, 0, 0, 0, 0, false, w.peer.sessions),
               w.log + [Registered(t)])
  }

  /* wireguardif_remove_peer zeroes everything. */
  function Remove(w: World): World
  {
    World(Peer(false, false, 0, ZERO, ZERO, ZERO, NO_HANDSHAKE, seq(12, _ => 0), 0, 0, 0, 0, false, w.peer.sessions),
        w.log)
  }

  // ---------- runs ----------

  datatype Event =
    | EAdd(stamp: T.stamp, keepalive: nat, usable: bool)
    | ERemove
    | EConnect(endpoint: bool)
    | EDisconnect
    | EOutput(now: word, alloc: bool, sent: bool)
    | EData(now: word, index: word, counter: dword, alloc: bool, authentic: bool, payload: bool, routable: bool)
    | EInitiation(now: word, authentic: bool, stamp: T.stamp, sender: word, dhOk: bool, drawn: word)
    | EResponse(now: word, receiver: word, authentic: bool, sender: word, alloc: bool, sent: bool)
    | ETick(now: word, alloc: bool, sent: bool, dhOk: bool, drawn: word, allocHs: bool)

  function Step(w: World, e: Event): World
  {
    match e
    case EAdd(t, keepalive, usable) => Add(w, t, keepalive, usable)
    case ERemove => if w.peer.valid then Remove(w) else w
    case EConnect(endpoint) => if w.peer.valid && endpoint then World(w.peer.(active := true), w.log) else w
    case EDisconnect => if w.peer.valid then World(Wipe(w.peer.(active := false)), w.log) else w
    case EOutput(now, alloc, sent) => if w.peer.valid then Output(w, now, alloc, sent) else w
    case EData(now, index, counter, alloc, authentic, payload, routable) =>
      Data(w, now, index, counter, alloc, authentic, payload, routable)
    case EInitiation(now, authentic, t, sender, dhOk, drawn) =>
      InitiationReceived(w, now, authentic, t, sender, dhOk, drawn)
    case EResponse(now, receiver, authentic, sender, alloc, sent) =>
      ResponseReceived(w, now, receiver, authentic, sender, alloc, sent)
    case ETick(now, alloc, sent, dhOk, drawn, allocHs) => Tick(w, now, alloc, sent, dhOk, drawn, allocHs)
  }

  /* The clock never reads zero and generated indices are unused when they are drawn. */
  predicate Enabled(w: World, e: Event)
  {
    match e
    case EData(now, _, _, _, _, _, _) => now != 0
    case EInitiation(_, _, _, _, _, drawn) => Unused(w.peer, drawn)
    case ETick(now, alloc, sent, _, drawn, _) => Unused(BeforeHandshake(w, now, alloc, sent).peer, drawn)
    case _ => true
  }

  const START: World := World(Peer(false, false, 0, ZERO, ZERO, ZERO, NO_HANDSHAKE,
                                   [0, 0, 0, 0, 0, 0, 0, 0, 0, 0, 0, 0], 0, 0, 0, 0, false, 0), [])

  /* The world after a run. */
  function Run(es: seq<Event>): World
  {
    if es == [] then START else Step(Run(es[..|es| - 1]), es[|es| - 1])
  }

  predicate Possible(es: seq<Event>)
  {
    forall i :: 0 <= i < |es| ==> Enabled(Run(es[..i]), es[i])
  }

  /* A run can be continued by every event that is enabled after it. */
  lemma Extend(es: seq<Event>, e: Event)
    requires Possible(es) && Enabled(Run(es), e)
    ensures Possible(es + [e]) && Run(es + [e]) == Step(Run(es), e)
  {
    hide Step, Enabled;
    assert (es + [e])[..|es|] == es;
    forall n | 0 <= n < |es + [e]|
      ensures Enabled(Run((es + [e])[..n]), (es + [e])[n])
    {
      assert (es + [e])[..n] == es[..n];
    }
  }
}
