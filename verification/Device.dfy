/**
 The peer as the C structures hold it: three keypair objects that are copied and
 zeroed in place, one handshake object, and the methods of wireguard.c and
 wireguardif.c that update them.  Every method is proved to make exactly the
 transition of the pure state machine.
 */
module Device {
  import opened Words
  import opened Replay
  import opened Session
  import SessionSafety
  import T = Tai64n

  // ---------- struct wireguard_keypair ----------

  class WireguardKeypair {
    var valid: bool
    var initiator: bool
    var millis: word
    var sendingCounter: dword
    var receivingValid: bool
    var lastTx: word
    var lastRx: word
    var bitmap: word
    var counter: dword
    var localIndex: word
    var remoteIndex: word
    ghost var session: nat

    ghost function State(): Keypair
      reads this
    {
      Keypair(valid, initiator, millis, sendingCounter, receivingValid, lastTx, lastRx, Window(bitmap, counter),
              localIndex, remoteIndex, session)
    }

    constructor ()
      ensures State() == ZERO
    {
      valid, initiator, millis, sendingCounter, receivingValid := false, false, 0, 0, false;
      lastTx, lastRx, bitmap, counter, localIndex, remoteIndex := 0, 0, 0, 0, 0, 0;
      session := 0;
    }

    /* The zeroed structure that wireguard_start_session fills in. */
    constructor Start(h: WireguardHandshake, byUs: bool, now: word, ghost n: nat)
      ensures State() == Keypair(true, byUs, now, 0, true, 0, 0, FRESH, h.localIndex, h.remoteIndex, n)
    {
      initiator := byUs;
      localIndex := h.localIndex;
      remoteIndex := h.remoteIndex;
      millis := now;
      sendingCounter, receivingValid := 0, true;
      bitmap, counter := 0, 0;
      lastTx, lastRx := 0, 0;
      valid := true;
      session := n;
    }

    /* keypair_destroy */
    method Destroy()
      modifies this
      ensures State() == ZERO
    {
      valid, initiator, millis, sendingCounter, receivingValid := false, false, 0, 0, false;
      lastTx, lastRx, bitmap, counter, localIndex, remoteIndex := 0, 0, 0, 0, 0, 0;
      session := 0;
    }

    /* wireguard_encrypt_packet, as far as the keypair is concerned */
    method EncryptPacket() returns (used: dword)
      modifies this
      ensures used == old(sendingCounter)
      ensures State() == old(State()).(sendingCounter := (used + 1) % 0x1_0000_0000_0000_0000)
    {
      used := sendingCounter;
      sendingCounter := (sendingCounter + 1) % 0x1_0000_0000_0000_0000;
    }

    method SetLastTx(now: word)
      modifies this
      ensures State() == old(State()).(lastTx := now)
    {
      lastTx := now;
    }

    method SetLastRx(now: word)
      modifies this
      ensures State() == old(State()).(lastRx := now)
    {
      lastRx := now;
    }

    lemma Fields()
      ensures
        var s := State();
        && s.valid == valid && s.initiator == initiator && s.millis == millis && s.lastRx == lastRx
        && s.sendingCounter == sendingCounter && s.receivingValid == receivingValid
        && s.localIndex == localIndex && s.session == session
    {
    }

    /* structure assignment */
    method CopyFrom(k: WireguardKeypair)
      modifies this
      ensures State() == old(k.State())
    {
      valid, initiator, millis := k.valid, k.initiator, k.millis;
      sendingCounter, receivingValid := k.sendingCounter, k.receivingValid;
      lastTx, lastRx, bitmap, counter := k.lastTx, k.lastRx, k.bitmap, k.counter;
      localIndex, remoteIndex := k.localIndex, k.remoteIndex;
      session := k.session;
    }

    /* wireguard_check_replay */
    method CheckReplay(num: dword) returns (result: bool)
      modifies this
      ensures
        var (window, ok) := Check(old(State()).window, num);
        State() == old(State()).(window := window) && result == ok
    {
      hide And, Or, Pow2;
      result := false;
      if num != 0 {
        if num > counter {
          var diff: word := (num as int - counter as int) % B;
          if diff < WINDOW {
            ShiftedBits(bitmap, diff);
            bitmap := bitmap as int * Pow2(diff) % B;
            OrOne(bitmap, 1);
            bitmap := Or(bitmap, 1);
          } else {
            bitmap := 1;
          }
          counter := num;
          result := true;
        } else {
          var diff: word := (counter as int - num as int) % B;
          if diff < WINDOW {
            MarkedBits(bitmap, diff);
            if And(bitmap, Pow2(diff)) != 0 {
            } else {
              bitmap := Or(bitmap, Pow2(diff));
              result := true;
            }
          }
        }
      }
    }
  }

  // ---------- struct wireguard_handshake ----------

  /* The fields of the structure that the slots and timers depend on; its keys and hashes are those of
     NoiseMachine.HandshakeBuffers, which has these four fields too. */
  class WireguardHandshake {
    var valid: bool
    var initiator: bool
    var localIndex: word
    var remoteIndex: word

    function State(): Handshake
      reads this
    {
      Handshake(valid, initiator, localIndex, remoteIndex)
    }

    constructor ()
      ensures State() == NO_HANDSHAKE
    {
      valid, initiator, localIndex, remoteIndex := false, false, 0, 0;
    }

    /* handshake_destroy */
    method Destroy()
      modifies this
      ensures State() == Handshake(false, old(initiator), 0, 0)
    {
      remoteIndex, localIndex, valid := 0, 0, false;
    }
  }

  /* The first unused index among the random words drawn. */
  function FirstUnused(p: Peer, draws: seq<word>): (index: word)
    requires exists i :: 0 <= i < |draws| && Unused(p, draws[i])
    ensures Unused(p, index)
  {
    if Unused(p, draws[0]) then draws[0] else FirstUnused(p, draws[1..])
  }

  // ---------- struct wireguard_peer ----------

  class WireguardPeer {
    var valid: bool
    var active: bool
    var keepalive: nat
    const curr: WireguardKeypair
    const prev: WireguardKeypair
    const next: WireguardKeypair
    const handshake: WireguardHandshake
    var greatest: T.stamp
    var lastInitiationRx: word
    var lastInitiationTx: word
    var lastTx: word
    var lastRx: word
    var sendHandshake: bool
    ghost var sessions: nat
    ghost var log: seq<Entry>

    ghost predicate Apart()
    {
      curr != prev && curr != next && prev != next
    }

    ghost function State(): World
      reads this, curr, prev, next, handshake
    {
      World(Peer(valid, active, keepalive, curr.State(), prev.State(), next.State(), handshake.State(),
                 greatest, lastInitiationRx, lastInitiationTx, lastTx, lastRx, sendHandshake, sessions), log)
    }

    lemma Fields()
      ensures State().peer.valid == valid
    {
    }

    ghost function SlotOf(k: WireguardKeypair): Slot
    {
      if k == curr then Curr else if k == prev then Prev else Next
    }

    constructor ()
      ensures Apart() && State() == START
      ensures fresh(curr) && fresh(prev) && fresh(next) && fresh(handshake)
    {
      valid, active, keepalive := false, false, 0;
      greatest := [0, 0, 0, 0, 0, 0, 0, 0, 0, 0, 0, 0];
      lastInitiationRx, lastInitiationTx, lastTx, lastRx, sendHandshake := 0, 0, 0, 0, false;
      sessions, log := 0, [];
      var k := new WireguardKeypair();
      curr := k;
      k := new WireguardKeypair();
      prev := k;
      k := new WireguardKeypair();
      next := k;
      handshake := new WireguardHandshake();
    }

    /* wireguard_generate_unique_index, given the random words it will draw */
    method GenerateUniqueIndex(draws: seq<word>) returns (index: word)
      requires exists i :: 0 <= i < |draws| && Unused(State().peer, draws[i])
      ensures index == FirstUnused(State().peer, draws)
    {
      ghost var p := State().peer;
      var n := 0;
      index := draws[0];
      while index == 0 || index == 0xFFFF_FFFF || index == curr.localIndex || index == prev.localIndex
            || index == next.localIndex || index == handshake.localIndex
        invariant 0 <= n < |draws| && index == draws[n]
        invariant exists i :: 0 <= i < |draws[n..]| && Unused(p, draws[n..][i])
        invariant FirstUnused(p, draws[n..]) == FirstUnused(p, draws)
        decreases |draws| - n
      {
        ghost var i :| 0 <= i < |draws[n..]| && Unused(p, draws[n..][i]);
        assert i > 0 && draws[n..][1..] == draws[n + 1..] && Unused(p, draws[n + 1..][i - 1]);
        n := n + 1;
        index := draws[n];
      }
      assert draws[n..][0] == index;
    }

    /* keypair_update */
    method KeypairUpdate(received: WireguardKeypair)
      requires Apart() && (received == curr || received == prev || received == next)
      modifies curr, prev, next
      ensures State() == old(State()).(peer := Promote(old(State()).peer, SlotOf(received)))
    {
      if received == next {
        prev.CopyFrom(curr);
        curr.CopyFrom(next);
        next.Destroy();
      }
    }

    /* add_new_keypair */
    method AddNewKeypair(k: WireguardKeypair)
      requires Apart() && k != curr && k != prev && k != next
      modifies curr, prev, next
      ensures State() == old(State()).(peer := AddKeypair(old(State()).peer, k.State()))
    {
      if k.initiator {
        if next.valid {
          prev.CopyFrom(next);
          next.Destroy();
        } else {
          prev.CopyFrom(curr);
        }
        curr.CopyFrom(k);
      } else {
        next.CopyFrom(k);
        prev.Destroy();
      }
    }

    /* wireguard_start_session; the key derivation is in module NoiseMachine. */
    method StartSession(initiator: bool, now: word)
      requires Apart()
      modifies this, curr, prev, next, handshake
      ensures State() == Session.StartSession(old(State()), initiator, now)
    {
      hide WireguardKeypair.State, AddKeypair;
      sessions := sessions + 1;
      var k := new WireguardKeypair.Start(handshake, initiator, now, sessions);
      log := log + [Started(sessions, initiator, handshake.localIndex)];
      handshake.Destroy();
      AddNewKeypair(k);
    }

    /* get_peer_keypair_for_idx */
    method GetKeypairForIndex(index: word) returns (k: WireguardKeypair?)
      requires Apart()
      ensures k == null <==> !HasKeypair(State().peer, index)
      ensures k != null ==> (k == curr || k == prev || k == next) && SlotOf(k) == Lookup(State().peer, index)
    {
      if curr.valid && curr.localIndex == index {
        k := curr;
      } else if next.valid && next.localIndex == index {
        k := next;
      } else if prev.valid && prev.localIndex == index {
        k := prev;
      } else {
        k := null;
      }
    }

    /* The branch of wireguardif_output_to_peer that has a usable key and a buffer. */
    method Transmit(k: WireguardKeypair, now: word, sent: bool)
      modifies `lastTx, `sendHandshake, `log, k
      ensures
        var j := old(k.State());
        var j' := j.(sendingCounter := (j.sendingCounter + 1) % 0x1_0000_0000_0000_0000,
                      lastTx := if sent then now else j.lastTx);
        var rekey := j'.sendingCounter >= REKEY_AFTER_MESSAGES
            || (j'.initiator && Expired(now, j'.millis, REKEY_AFTER_TIME));
        && k.State() == j' && lastTx == (if sent then now else old(lastTx))
        && sendHandshake == (rekey || old(sendHandshake))
        && log == old(log) + [Encrypted(j.session, j.sendingCounter)]
    {
      hide Expired, WireguardKeypair.State;
      k.Fields();
      var used := k.EncryptPacket();
      if sent {
        lastTx := now;
        k.SetLastTx(now);
      }
      k.Fields();
      log := log + [Encrypted(k.session, used)];
      if k.sendingCounter >= REKEY_AFTER_MESSAGES {
        sendHandshake := true;
      } else if k.initiator && Expired(now, k.millis, REKEY_AFTER_TIME) {
        sendHandshake := true;
      }
    }

    /* The current keypair, or the previous one while nothing has come in under the current. */
    method SendingKeypair() returns (k: WireguardKeypair)
      requires Apart()
      ensures (k == curr || k == prev) && SlotOf(k) == SendingSlot(State().peer)
    {
      k := curr;
      if k.valid && !k.initiator && k.lastRx == 0 {
        k := prev;
      }
    }

    lemma SlotState(k: WireguardKeypair)
      requires Apart() && (k == curr || k == prev || k == next)
      ensures Get(State().peer, SlotOf(k)) == k.State()
    {
    }

    /* The peer after one of its keypairs changed. */
    twostate lemma SlotPut(k: WireguardKeypair)
      requires Apart() && (k == curr || k == prev || k == next)
      requires (k == curr || unchanged(curr)) && (k == prev || unchanged(prev)) && (k == next || unchanged(next))
      requires unchanged(handshake) && unchanged(`valid) && unchanged(`active) && unchanged(`keepalive)
        && unchanged(`greatest)
      requires unchanged(`lastInitiationRx) && unchanged(`lastInitiationTx) && unchanged(`lastRx)
        && unchanged(`sessions)
      ensures
        var p := Put(old(State()).peer, SlotOf(k), k.State());
        && State().peer == p.(lastTx := lastTx, sendHandshake := sendHandshake)
        && (unchanged(this) ==> State().peer == p)
    {
    }

    /* wireguardif_output_to_peer */
    method OutputToPeer(now: word, alloc: bool, sent: bool)
      requires Apart()
      modifies this, curr, prev, next
      ensures State() == Output(old(State()), now, alloc, sent)
    {
      hide Expired, SendingSlot, WireguardKeypair.State, Put, Get;
      var k := SendingKeypair();
      k.Fields();
      SlotState(k);
      if k.valid && (k.initiator || k.lastRx != 0) {
        if !Expired(now, k.millis, REJECT_AFTER_TIME) && k.sendingCounter < REJECT_AFTER_MESSAGES {
          if alloc {
            Transmit(k, now, sent);
            SlotPut(k);
          }
        } else {
          k.Destroy();
          SlotPut(k);
        }
      }
    }

    /* The bookkeeping of wireguardif_process_data_message for an authentic packet. */
    method TouchKeypair(k: WireguardKeypair, now: word)
      requires Apart() && (k == curr || k == prev || k == next)
      modifies this, curr, prev, next
      ensures State() == old(State()).(peer := Touch(old(State()).peer, SlotOf(k), now))
    {
      hide WireguardKeypair.State;
      k.SetLastRx(now);
      lastRx := now;
      KeypairUpdate(k);
    }

    /* The replay check, and what is handed on when it passes. */
    method CheckAndDeliver(k: WireguardKeypair, ghost n: nat, num: dword, routable: bool)
      requires Apart() && (k == curr || k == prev || k == next)
      modifies `log, k
      ensures
        var p, s := old(State()).peer, SlotOf(k);
        var (window, ok) := Check(Get(p, s).window, num);
        && State().peer == Put(p, s, Get(p, s).(window := window))
        && log == if ok then old(log) + [Received(n, num, s.Next?, routable)] else old(log)
    {
      hide Check, WireguardKeypair.State;
      var ok := k.CheckReplay(num);
      if ok {
        log := log + [Received(n, num, k == next, routable)];
      }
    }

    /* The rest of it, after the packet has decrypted. */
    method AcceptData(k: WireguardKeypair, now: word, num: dword, payload: bool, routable: bool)
      requires Apart() && (k == curr || k == prev || k == next)
      modifies this, curr, prev, next
      ensures State() == Accept(old(State()), SlotOf(k), now, num, payload, routable)
    {
      hide Expired, Check, Touch, Put, WireguardKeypair.State;
      ghost var n := k.session;
      k.Fields();
      TouchKeypair(k, now);
      k.Fields();
      if k.initiator && Expired(now, k.millis, REJECT_AFTER_TIME - keepalive - REKEY_TIMEOUT) {
        sendHandshake := true;
      }
      if payload {
        CheckAndDeliver(k, n, num, routable);
      }
    }

    /* wireguardif_process_data_message */
    method ProcessData(now: word, index: word, num: dword, alloc: bool, authentic: bool, payload: bool, routable: bool)
      requires Apart()
      modifies this, curr, prev, next
      ensures State() == Data(old(State()), now, index, num, alloc, authentic, payload, routable)
    {
      hide Expired, Accept, WireguardKeypair.State;
      curr.Fields();
      prev.Fields();
      next.Fields();
      if valid {
        var k := GetKeypairForIndex(index);
        if k != null {
          if k.receivingValid && !Expired(now, k.millis, REJECT_AFTER_TIME)
              && k.sendingCounter < REJECT_AFTER_MESSAGES {
            if alloc {
              if authentic {
                AcceptData(k, now, num, payload, routable);
              }
            }
          } else {
            k.Destroy();
          }
        }
      }
    }

    /* The end of wireguard_process_initiation_message, then wireguardif_send_handshake_response. */
    method ProcessInitiation(now: word, authentic: bool, t: T.stamp, sender: word, dhOk: bool, draws: seq<word>)
      requires Apart() && exists i :: 0 <= i < |draws| && Unused(State().peer, draws[i])
      modifies this, curr, prev, next, handshake
      ensures State() ==
        InitiationReceived(old(State()), now, authentic, t, sender, dhOk, FirstUnused(old(State()).peer, draws))
    {
      hide T.Memcmp, Session.StartSession, WireguardKeypair.State;
      if valid && authentic {
        var replay := T.Memcmp(t, greatest) <= 0;
        var rateLimit := (lastInitiationRx as int - now as int) % B < 500;
        if !replay && !rateLimit {
          ghost var p := State().peer;
          lastInitiationRx := now;
          greatest := t;
          log := log + [Initiation(t)];
          handshake.remoteIndex := sender;
          handshake.valid := true;
          handshake.initiator := false;
          if dhOk {
            SameUnused(p, State().peer, draws);
            var index := GenerateUniqueIndex(draws);
            handshake.localIndex := index;
            log := log + [Created(index)];
            StartSession(false, now);
          }
        }
      }
    }

    /* peer_lookup_by_handshake, then wireguardif_process_response_message */
    method ProcessResponse(now: word, receiver: word, authentic: bool, sender: word, alloc: bool, sent: bool)
      requires Apart()
      modifies this, curr, prev, next, handshake
      ensures State() == ResponseReceived(old(State()), now, receiver, authentic, sender, alloc, sent)
    {
      hide Session.StartSession, Output;
      if valid && handshake.valid && handshake.initiator && handshake.localIndex == receiver {
        if authentic {
          handshake.remoteIndex := sender;
          StartSession(true, now);
          OutputToPeer(now, alloc, sent);
        }
      }
    }

    /* wireguard_start_handshake */
    method StartHandshake(now: word, dhOk: bool, draws: seq<word>, alloc: bool)
      requires exists i :: 0 <= i < |draws| && Unused(State().peer, draws[i])
      modifies this, handshake
      ensures State() == Session.StartHandshake(old(State()), now, dhOk, FirstUnused(old(State()).peer, draws), alloc)
    {
      hide WireguardKeypair.State;
      if dhOk {
        var index := GenerateUniqueIndex(draws);
        handshake.valid := true;
        handshake.initiator := true;
        handshake.localIndex := index;
        log := log + [Created(index)];
        if alloc {
          sendHandshake := false;
          lastInitiationTx := now;
        }
      }
    }

    method WipeSlots()
      requires Apart()
      modifies curr, prev, next
      ensures State() == old(State()).(peer := Wipe(old(State()).peer))
    {
      next.Destroy();
      curr.Destroy();
      prev.Destroy();
    }

    /* wireguardif_tmr up to the decision about a handshake */
    method TickSlots(now: word, alloc: bool, sent: bool)
      requires Apart()
      modifies this, curr, prev, next, handshake
      ensures State() == BeforeHandshake(old(State()), now, alloc, sent)
    {
      hide Expired, Output;
      if curr.valid && Expired(now, curr.millis, REJECT_AFTER_TIME * 3) {
        WipeSlots();
        handshake.Destroy();
      }
      if curr.valid && (Expired(now, curr.millis, REJECT_AFTER_TIME) || curr.sendingCounter >= REJECT_AFTER_MESSAGES) {
        curr.Destroy();
      }
      if keepalive > 0 && (curr.valid || prev.valid) && Expired(now, lastTx, keepalive) {
        OutputToPeer(now, alloc, sent);
      }
    }

    /* wireguardif_tmr */
    method Timer(now: word, alloc: bool, sent: bool, dhOk: bool, draws: seq<word>, allocHs: bool)
      requires Apart()
      requires exists i :: 0 <= i < |draws| && Unused(BeforeHandshake(State(), now, alloc, sent).peer, draws[i])
      modifies this, curr, prev, next, handshake
      ensures
        var index := FirstUnused(BeforeHandshake(old(State()), now, alloc, sent).peer, draws);
        State() == Tick(old(State()), now, alloc, sent, dhOk, index, allocHs)
    {
      hide BeforeHandshake, Unused, Session.StartHandshake, Expired;
      if valid {
        TickSlots(now, alloc, sent);
        if lastInitiationTx == 0 || Expired(now, lastInitiationTx, REKEY_TIMEOUT) {
          if sendHandshake
             || (curr.valid && !curr.initiator && Expired(now, curr.millis, REJECT_AFTER_TIME - keepalive))
             || (!curr.valid && active) {
            StartHandshake(now, dhOk, draws, allocHs);
          }
        }
      }
    }

    /* wireguardif_add_peer */
    method AddPeer(t: T.stamp, interval: nat, usable: bool)
      requires Apart()
      modifies this, curr, prev, next, handshake
      ensures State() == Add(old(State()), t, interval, usable)
    {
      if !valid {
        Clear();
        if usable {
          valid := true;
          keepalive := interval;
          greatest := t;
          log := log + [Registered(t)];
        }
      }
    }

    method ClearFields()
      modifies this
      ensures unchanged(`sessions) && unchanged(`log)
      ensures !valid && !active && keepalive == 0 && greatest == seq(12, _ => 0) && !sendHandshake
      ensures lastInitiationRx == lastInitiationTx == lastTx == lastRx == 0
    {
      valid, active, keepalive, sendHandshake := false, false, 0, false;
      greatest := [0, 0, 0, 0, 0, 0, 0, 0, 0, 0, 0, 0];
      lastInitiationRx, lastInitiationTx, lastTx, lastRx := 0, 0, 0, 0;
    }

    /* The peer structure zeroed. */
    method Clear()
      requires Apart()
      modifies this, curr, prev, next, handshake
      ensures State() == Remove(old(State()))
    {
      hide WireguardKeypair.State;
      ClearFields();
      WipeSlots();
      handshake.Destroy();
      handshake.initiator := false;
    }

    /* wireguardif_remove_peer */
    method RemovePeer()
      requires Apart()
      modifies this, curr, prev, next, handshake
      ensures State() == Step(old(State()), ERemove)
    {
      hide WireguardKeypair.State, Remove;
      if valid {
        Clear();
      }
    }

    /* wireguardif_connect; endpoint says whether address and port are configured. */
    method Connect(endpoint: bool)
      modifies `active
      ensures State() == Step(old(State()), EConnect(endpoint))
    {
      hide WireguardKeypair.State;
      if valid {
        if endpoint {
          active := true;
        }
      }
    }

    /* wireguardif_disconnect */
    method Disconnect()
      requires Apart()
      modifies `active, curr, prev, next
      ensures State() == Step(old(State()), EDisconnect)
    {
      hide WireguardKeypair.State;
      if valid {
        active := false;
        WipeSlots();
      }
    }
  }

  /* Which indices are unused depends on the four indices in use only. */
  lemma {:induction false} SameUnused(p: Peer, q: Peer, draws: seq<word>)
    requires exists i :: 0 <= i < |draws| && Unused(p, draws[i])
    requires p.curr.localIndex == q.curr.localIndex && p.prev.localIndex == q.prev.localIndex
    requires p.next.localIndex == q.next.localIndex && p.handshake.localIndex == q.handshake.localIndex
    ensures exists i :: 0 <= i < |draws| && Unused(q, draws[i])
    ensures FirstUnused(q, draws) == FirstUnused(p, draws)
  {
    var i :| 0 <= i < |draws| && Unused(p, draws[i]);
    assert Unused(q, draws[i]);
    if !Unused(p, draws[0]) {
      assert draws[1..][i - 1] == draws[i];
      SameUnused(p, q, draws[1..]);
    }
  }

  // ---------- struct wireguard_device ----------

  /* What reaches the device from outside: calls, packets and timer ticks, with the random words at hand. */
  datatype Input =
    | IAdd(stamp: T.stamp, keepalive: nat, usable: bool)
    | IRemove
    | IConnect(endpoint: bool)
    | IDisconnect
    | IOutput(now: word, alloc: bool, sent: bool)
    | IData(now: word, index: word, counter: dword, alloc: bool, authentic: bool, payload: bool, routable: bool)
    | IInitiation(now: word, authentic: bool, stamp: T.stamp, sender: word, dhOk: bool, draws: seq<word>)
    | IResponse(now: word, receiver: word, authentic: bool, sender: word, alloc: bool, sent: bool)
    | ITick(now: word, alloc: bool, sent: bool, dhOk: bool, draws: seq<word>, allocHs: bool)

  /* The clock does not read zero when data arrives, and some random word can serve as an index. */
  ghost predicate Ready(w: World, i: Input)
  {
    match i
    case IData(now, _, _, _, _, _, _) => now != 0
    case IInitiation(_, _, _, _, _, draws) => exists k :: 0 <= k < |draws| && Unused(w.peer, draws[k])
    case ITick(now, alloc, sent, _, draws, _) =>
      exists k :: 0 <= k < |draws| && Unused(BeforeHandshake(w, now, alloc, sent).peer, draws[k])
    case _ => true
  }

  ghost function EventOf(w: World, i: Input): (e: Event)
    requires Ready(w, i)
    ensures Enabled(w, e)
  {
    match i
    case IAdd(t, keepalive, usable) => EAdd(t, keepalive, usable)
    case IRemove => ERemove
    case IConnect(endpoint) => EConnect(endpoint)
    case IDisconnect => EDisconnect
    case IOutput(now, alloc, sent) => EOutput(now, alloc, sent)
    case IData(now, index, counter, alloc, authentic, payload, routable) =>
      EData(now, index, counter, alloc, authentic, payload, routable)
    case IInitiation(now, authentic, t, sender, dhOk, draws) =>
      EInitiation(now, authentic, t, sender, dhOk, FirstUnused(w.peer, draws))
    case IResponse(now, receiver, authentic, sender, alloc, sent) =>
      EResponse(now, receiver, authentic, sender, alloc, sent)
    case ITick(now, alloc, sent, dhOk, draws, allocHs) =>
      ETick(now, alloc, sent, dhOk, FirstUnused(BeforeHandshake(w, now, alloc, sent).peer, draws), allocHs)
  }

  /* The device with its one peer.  The history makes the state of the objects the world after a
     possible run, so that what holds after every run holds of the objects. */
  class WireguardDevice {
    const peer: WireguardPeer
    ghost var history: seq<Event>

    ghost predicate Valid()
      reads this, peer, peer.curr, peer.prev, peer.next, peer.handshake
    {
      peer.Apart() && Possible(history) && peer.State() == Run(history)
    }

    constructor ()
      ensures Valid() && history == []
      ensures fresh(peer) && fresh(peer.curr) && fresh(peer.prev) && fresh(peer.next) && fresh(peer.handshake)
    {
      peer := new WireguardPeer();
      history := [];
    }

    /* What SessionSafety proves of every run holds of the objects. */
    lemma Safe()
      requires Valid()
      ensures SessionSafety.Inv(peer.State())
    {
      hide Run, Possible, SessionSafety.Inv;
      SessionSafety.RunKeeps(history);
    }

    /* One input: wireguardif_network_rx, wireguardif_tmr, wireguardif_output and the calls of the interface. */
    method Handle(i: Input)
      requires Valid() && Ready(peer.State(), i)
      modifies this, peer, peer.curr, peer.prev, peer.next, peer.handshake
      ensures Valid() && history == old(history) + [EventOf(old(peer.State()), i)]
    {
      ghost var e := EventOf(peer.State(), i);
      Dispatch(i);
      Extend(history, e);
      history := history + [e];
    }

    method Dispatch(i: Input)
      requires peer.Apart() && Ready(peer.State(), i)
      modifies peer, peer.curr, peer.prev, peer.next, peer.handshake
      ensures peer.State() == Step(old(peer.State()), EventOf(old(peer.State()), i))
    {
      hide WireguardPeer.State, Add, Output, Data, InitiationReceived, ResponseReceived, Tick, BeforeHandshake, Unused,
           FirstUnused;
      match i
      case IAdd(t, keepalive, usable) => peer.AddPeer(t, keepalive, usable);
      case IRemove => peer.RemovePeer();
      case IConnect(endpoint) => peer.Connect(endpoint);
      case IDisconnect => peer.Disconnect();
      case IOutput(now, alloc, sent) =>
        peer.Fields();
        if peer.valid {
          peer.OutputToPeer(now, alloc, sent);
        }
      case IData(now, index, counter, alloc, authentic, payload, routable) =>
        peer.ProcessData(now, index, counter, alloc, authentic, payload, routable);
      case IInitiation(now, authentic, t, sender, dhOk, draws) =>
        peer.ProcessInitiation(now, authentic, t, sender, dhOk, draws);
      case IResponse(now, receiver, authentic, sender, alloc, sent) =>
        peer.ProcessResponse(now, receiver, authentic, sender, alloc, sent);
      case ITick(now, alloc, sent, dhOk, draws, allocHs) => peer.Timer(now, alloc, sent, dhOk, draws, allocHs);
    }
  }
}
