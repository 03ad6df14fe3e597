/**
 The whole channel over a network that loses, duplicates and reorders frames: a sender using
 EncryptPacket, a receiver using DecryptPacket, after a completed handshake.
 */
module Channel {
  import opened Bytes
  import opened Handshake
  import opened Primitives
  import opened Ratchet
  import opened Replay
  import opened Results
  import opened Transport
  import opened Wire

  /** A packet and the counter it was sealed, or opened, under. */
  datatype Message = Message(counter: uint64, packet: Packet)

  datatype Event = Send(packet: Packet) | Deliver(raw: seq<byte>, now: int)

  datatype State = State(nonce: uint64, sent: seq<Message>, receivers: Receivers, outputs: seq<Message>)

  /** The frame on the wire for m, sent by a. */
  function Image(s: Suite, a: Session, m: Message): seq<byte>
    requires s.OpensSealed()
  {
    FrameBytes(SealedFrame(s, a.sendKey, a.localSessionId, a.remoteSessionId, m.counter, m.packet))
  }

  function Start(b: Session, createdAt: int): State {
    State(0, [], Receivers(Some(Receiver(b.recvKey, b.localSessionId, createdAt, {})), None, false), [])
  }

  /** EncryptPacket consumes a counter; DecryptPacket outputs or leaves the receiver as it was. */
  ghost function Step(s: Suite, st: State, e: Event): State {
    match e
    case Send(p) =>
      st.(nonce := (st.nonce + 1) % 0x1_0000_0000_0000_0000, sent := st.sent + [Message(st.nonce, p)])
    case Deliver(raw, now) =>
      match Decrypt(s, st.receivers, raw, now)
      case Err(_) => st
      case Ok((slot, counter, packet)) =>
        st.(receivers := Receivers(Record(st.receivers.active, counter, slot == Active),
                                   Record(st.receivers.previous, counter, slot == Previous),
                                   st.receivers.closed),
            outputs := st.outputs + [Message(counter, packet)])
  }

  ghost function Run(s: Suite, b: Session, createdAt: int, events: seq<Event>): State {
    if |events| == 0 then Start(b, createdAt)
    else Step(s, Run(s, b, createdAt, events[..|events| - 1]), events[|events| - 1])
  }

  /** Bytes that the receiver's key does not open: noise, or tampered frames. */
  predicate DoesNotOpen(s: Suite, recvKey: Key, raw: seq<byte>) {
    ParseFrame(raw).Ok? ==> OpenFrame(s, recvKey, ParseFrame(raw).value).None?
  }

  /** The network delivers frames sent earlier, any number of times in any order, and bytes that do not open. */
  ghost predicate Network(s: Suite, a: Session, b: Session, createdAt: int, events: seq<Event>)
    requires s.OpensSealed()
  {
    forall i :: 0 <= i < |events| && events[i].Deliver? ==>
      || DoesNotOpen(s, b.recvKey, events[i].raw)
      || exists m :: m in Run(s, b, createdAt, events[..i]).sent && events[i].raw == Image(s, a, m)
  }

  // ---- one delivery ------------------------------------------------------------------------

  ghost predicate ReceivesFrom(r: Receivers, a: Session) {
    && r.active.Some? && !r.closed
    && r.active.value.recvKey == a.sendKey && r.active.value.localSessionId == a.remoteSessionId
  }

  /** A frame from the peer decrypts exactly when the window admits its counter. */
  lemma ImageDecrypts(s: Suite, a: Session, rs: Receivers, m: Message, now: int)
    requires s.OpensSealed() && ReceivesFrom(rs, a)
    ensures Decrypt(s, rs, Image(s, a, m), now)
         == if Admits(rs.active.value.accepted, m.counter) then Ok((Active, m.counter, m.packet))
            else Err(ReplayDetected)
  {
    FrameRoundTrip(SealedFrame(s, a.sendKey, a.localSessionId, a.remoteSessionId, m.counter, m.packet));
    SealedFrameOpens(s, a.sendKey, a.localSessionId, a.remoteSessionId, m.counter, m.packet);
  }

  lemma NoiseChangesNothing(s: Suite, b: Session, st: State, raw: seq<byte>, now: int)
    requires st.receivers.active.Some? && st.receivers.previous.None?
    requires st.receivers.active.value.recvKey == b.recvKey && DoesNotOpen(s, b.recvKey, raw)
    ensures Step(s, st, Deliver(raw, now)) == st
  {}

  // ---- every run --------------------------------------------------------------------------------

  ghost function Counters(ms: seq<Message>): set<Counter> {
    set m | m in ms :: m.counter
  }

  /** What every reachable state keeps. */
  ghost predicate Sound(a: Session, b: Session, st: State) {
    && ReceivesFrom(st.receivers, a) && st.receivers.previous.None?
    && st.receivers.active.value.recvKey == b.recvKey
    && st.receivers.active.value.accepted == Counters(st.outputs)
    && (forall m :: m in st.outputs ==> m in st.sent)
    && (forall i, j :: 0 <= i < j < |st.outputs| ==> st.outputs[i].counter != st.outputs[j].counter)
  }

  lemma CountersOfOneMore(ms: seq<Message>, m: Message)
    ensures Counters(ms + [m]) == Counters(ms) + {m.counter}
  {
    forall c | c in Counters(ms) + {m.counter}
      ensures c in Counters(ms + [m])
    {
      if c == m.counter {
        assert (ms + [m])[|ms|] == m;
      } else {
        var x :| x in ms && x.counter == c;
        assert x in ms + [m];
      }
    }
  }

  lemma StepIsSound(s: Suite, a: Session, b: Session, st: State, e: Event)
    requires s.OpensSealed() && Connected(a, b) && Sound(a, b, st)
    requires e.Deliver? ==>
      DoesNotOpen(s, b.recvKey, e.raw) || exists m :: m in st.sent && e.raw == Image(s, a, m)
    ensures Sound(a, b, Step(s, st, e))
  {
    if e.Deliver? {
      if DoesNotOpen(s, b.recvKey, e.raw) {
        NoiseChangesNothing(s, b, st, e.raw, e.now);
      } else {
        var m :| m in st.sent && e.raw == Image(s, a, m);
        ImageDecrypts(s, a, st.receivers, m, e.now);
        CountersOfOneMore(st.outputs, m);
        if Admits(Counters(st.outputs), m.counter) {
          assert m.counter !in Counters(st.outputs);
          forall i | 0 <= i < |st.outputs|
            ensures st.outputs[i].counter != m.counter
          {
            assert st.outputs[i] in st.outputs;
          }
        }
      }
    }
  }

  /**
   Safety of the channel: on every run the receiver outputs only (counter, plaintext, message type)
   triples that were sent, each counter at most once.
   */
  lemma {:induction false} EveryRunIsSound(s: Suite, a: Session, b: Session, createdAt: int, events: seq<Event>)
    requires s.OpensSealed() && Connected(a, b) && Network(s, a, b, createdAt, events)
    ensures Sound(a, b, Run(s, b, createdAt, events))
  {
    if |events| > 0 {
      var before := events[..|events| - 1];
      forall i | 0 <= i < |before| && before[i].Deliver?
        ensures DoesNotOpen(s, b.recvKey, before[i].raw)
             || exists m :: m in Run(s, b, createdAt, before[..i]).sent && before[i].raw == Image(s, a, m)
      {
        assert before[i] == events[i] && before[..i] == events[..i];
      }
      EveryRunIsSound(s, a, b, createdAt, before);
      var last := events[|events| - 1];
      if last.Deliver? {
        assert events[|events| - 1].Deliver?;
      }
      StepIsSound(s, a, b, Run(s, b, createdAt, before), last);
    }
  }

  lemma NetworkPrefix(s: Suite, a: Session, b: Session, createdAt: int, events: seq<Event>, n: nat)
    requires s.OpensSealed() && Network(s, a, b, createdAt, events) && n <= |events|
    ensures Network(s, a, b, createdAt, events[..n])
  {
    forall i | 0 <= i < n && events[..n][i].Deliver?
      ensures DoesNotOpen(s, b.recvKey, events[..n][i].raw)
           || exists m :: m in Run(s, b, createdAt, events[..n][..i]).sent && events[..n][i].raw == Image(s, a, m)
    {
      assert events[..n][i] == events[i] && events[..n][..i] == events[..i];
    }
  }

  /**
   Exact delivery: when a sent frame arrives after any run, it is output if and only if its counter is
   new and above, or less than 1024 behind, the highest counter output so far.
   */
  lemma DeliveredExactlyInWindow(s: Suite, a: Session, b: Session, createdAt: int, events: seq<Event>, m: Message, now: int)
    requires s.OpensSealed() && Connected(a, b) && Network(s, a, b, createdAt, events)
    ensures var st := Run(s, b, createdAt, events);
            var arrived := Run(s, b, createdAt, events + [Deliver(Image(s, a, m), now)]);
            && arrived.outputs == (if Admits(Counters(st.outputs), m.counter) then st.outputs + [m] else st.outputs)
            && arrived.sent == st.sent && arrived.nonce == st.nonce
  {
    EveryRunIsSound(s, a, b, createdAt, events);
    var st := Run(s, b, createdAt, events);
    var more := events + [Deliver(Image(s, a, m), now)];
    assert more[..|more| - 1] == events;
    ImageDecrypts(s, a, st.receivers, m, now);
  }

  lemma {:induction false} OutputsAreKept(s: Suite, b: Session, createdAt: int, events: seq<Event>, n: nat)
    requires n <= |events|
    ensures Run(s, b, createdAt, events[..n]).outputs <= Run(s, b, createdAt, events).outputs
    ensures Run(s, b, createdAt, events[..n]).sent <= Run(s, b, createdAt, events).sent
  {
    if n == |events| {
      assert events[..n] == events;
    } else {
      OutputsAreKept(s, b, createdAt, events[..|events| - 1], n);
      assert events[..|events| - 1][..n] == events[..n];
    }
  }

  /** Message k is sealed under counter k, until the 64-bit counter goes round. */
  ghost predicate NumberedInOrder(st: State) {
    && st.nonce == |st.sent| % 0x1_0000_0000_0000_0000
    && forall k :: 0 <= k < |st.sent| ==> st.sent[k].counter == k % 0x1_0000_0000_0000_0000
  }

  lemma StepNumbersInOrder(s: Suite, st: State, e: Event)
    requires NumberedInOrder(st)
    ensures NumberedInOrder(Step(s, st, e))
  {
    if e.Send? {
      WrapAround(|st.sent|);
    }
  }

  lemma WrapAround(n: nat)
    ensures (n % 0x1_0000_0000_0000_0000 + 1) % 0x1_0000_0000_0000_0000 == (n + 1) % 0x1_0000_0000_0000_0000
  {}

  lemma {:induction false} SentInOrder(s: Suite, b: Session, createdAt: int, events: seq<Event>)
    ensures NumberedInOrder(Run(s, b, createdAt, events))
  {
    if |events| > 0 {
      var before := events[..|events| - 1];
      SentInOrder(s, b, createdAt, before);
      StepNumbersInOrder(s, Run(s, b, createdAt, before), events[|events| - 1]);
    }
  }

  lemma SameCounterSameMessage(st: State, m: Message, o: Message)
    requires NumberedInOrder(st) && |st.sent| <= 0x1_0000_0000_0000_0000
    requires m in st.sent && o in st.sent && m.counter == o.counter
    ensures m == o
  {}

  /**
   Nothing delivered in the window is lost: if message k of fewer than 2^64 is delivered at step i, when
   the highest counter output is less than 1024 above it, it is among the outputs at the end of the run.
   */
  lemma NothingInWindowIsLost(s: Suite, a: Session, b: Session, createdAt: int, events: seq<Event>, i: nat, m: Message)
    requires s.OpensSealed() && Connected(a, b) && Network(s, a, b, createdAt, events)
    requires |Run(s, b, createdAt, events).sent| <= 0x1_0000_0000_0000_0000
    requires i < |events| && events[i].Deliver? && events[i].raw == Image(s, a, m)
    requires m in Run(s, b, createdAt, events[..i]).sent
    requires var out := Counters(Run(s, b, createdAt, events[..i]).outputs);
             out != {} ==> Highest(out) - m.counter < WINDOW_SIZE_BITS
    ensures m in Run(s, b, createdAt, events).outputs
  {
    NetworkPrefix(s, a, b, createdAt, events, i);
    assert |Run(s, b, createdAt, events[..i]).sent| <= 0x1_0000_0000_0000_0000 by {
      OutputsAreKept(s, b, createdAt, events, i);
    }
    OutputAfterArrival(s, a, b, createdAt, events[..i], m, events[i].now);
    assert events[..i + 1] == events[..i] + [Deliver(Image(s, a, m), events[i].now)];
    OutputIsKept(s, b, createdAt, events, i + 1, m);
  }

  lemma OutputIsKept(s: Suite, b: Session, createdAt: int, events: seq<Event>, n: nat, m: Message)
    requires n <= |events| && m in Run(s, b, createdAt, events[..n]).outputs
    ensures m in Run(s, b, createdAt, events).outputs
  {
    OutputsAreKept(s, b, createdAt, events, n);
  }

  lemma OutputAfterArrival(s: Suite, a: Session, b: Session, createdAt: int, events: seq<Event>, m: Message, now: int)
    requires s.OpensSealed() && Connected(a, b) && Network(s, a, b, createdAt, events)
    requires var st := Run(s, b, createdAt, events);
             && |st.sent| <= 0x1_0000_0000_0000_0000 && m in st.sent
             && (Counters(st.outputs) != {} ==> Highest(Counters(st.outputs)) - m.counter < WINDOW_SIZE_BITS)
    ensures m in Run(s, b, createdAt, events + [Deliver(Image(s, a, m), now)]).outputs
  {
    var st := Run(s, b, createdAt, events);
    EveryRunIsSound(s, a, b, createdAt, events);
    DeliveredExactlyInWindow(s, a, b, createdAt, events, m, now);
    if m.counter in Counters(st.outputs) {
      var o :| o in st.outputs && o.counter == m.counter;
      SentInOrder(s, b, createdAt, events);
      SameCounterSameMessage(st, m, o);
    } else {
      assert (st.outputs + [m])[|st.outputs|] == m;
    }
  }

  // ---- end to end ----------------------------------------------------------------------------------

  /**
   After a handshake between genuine keypairs, each direction of the channel is sound on every run:
   from the initiator to the responder, and back.
   */
  lemma EndToEnd(s: Suite, initiator: Keypair, responder: Keypair, psk: Key, eph: Keypair, respEph: Keypair,
                 payload0Rtt: seq<byte>, payloadAct2: seq<byte>, sessionId: uint32, respSessionId: uint32,
                 createdAt: int, forward: seq<Event>, backward: seq<Event>)
    requires s.Lawful() && initiator.Genuine(s) && responder.Genuine(s) && eph.Genuine(s) && respEph.Genuine(s)
    requires sessionId != 0
    ensures var sent := InitHandshakeAct1(s, initiator, responder.publicKey, psk, payload0Rtt, eph, sessionId);
            && sent.Ok?
            && var answered := ProcessHandshakeAct1(s, responder, psk, sent.value.0, payloadAct2, respEph, respSessionId);
            && answered.Ok?
            && var finished := FinishHandshake(s, sent.value.1, answered.value.0);
            && finished.Ok?
            && var i, r := finished.value.0, answered.value.1;
            && (Network(s, i, r, createdAt, forward) ==> Sound(i, r, Run(s, r, createdAt, forward)))
            && (Network(s, r, i, createdAt, backward) ==> Sound(r, i, Run(s, i, createdAt, backward)))
  {
    KeyAgreement(s, initiator, responder, psk, payload0Rtt, payloadAct2, eph, respEph, sessionId, respSessionId);
    var sent := InitHandshakeAct1(s, initiator, responder.publicKey, psk, payload0Rtt, eph, sessionId);
    var answered := ProcessHandshakeAct1(s, responder, psk, sent.value.0, payloadAct2, respEph, respSessionId);
    var finished := FinishHandshake(s, sent.value.1, answered.value.0);
    SoundBothWays(s, finished.value.0, answered.value.1, createdAt, forward, backward);
  }

  lemma SoundBothWays(s: Suite, a: Session, b: Session, createdAt: int, forward: seq<Event>, backward: seq<Event>)
    requires s.OpensSealed() && Connected(a, b)
    ensures Network(s, a, b, createdAt, forward) ==> Sound(a, b, Run(s, b, createdAt, forward))
    ensures Network(s, b, a, createdAt, backward) ==> Sound(b, a, Run(s, a, createdAt, backward))
  {
    if Network(s, a, b, createdAt, forward) {
      EveryRunIsSound(s, a, b, createdAt, forward);
    }
    if Network(s, b, a, createdAt, backward) {
      EveryRunIsSound(s, b, a, createdAt, backward);
    }
  }
}
