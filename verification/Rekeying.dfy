/**
 The channel across key rotations (pkg/crypto/ratchet.go:120-185): each RotateKeys installs the next session, the
 one before it is received from for the grace period, and older ones are gone.
 */
module Rekeying {
  import opened Bytes
  import C = Channel
  import opened Primitives
  import opened Ratchet
  import opened Replay
  import opened Results
  import opened Transport
  import opened Wire

  // ---- one delivery after a rotation --------------------------------------------------------------

  /** A frame addressed to the session before, which is received from for 15 seconds since the rotation's session. */
  lemma PreviousDecrypts(s: Suite, rs: Receivers, a: Session, m: C.Message, now: int)
    requires s.OpensSealed() && !rs.closed && rs.active.Some? && rs.previous.Some?
    requires rs.previous.value.recvKey == a.sendKey && rs.previous.value.localSessionId == a.remoteSessionId
    requires rs.active.value.localSessionId != a.remoteSessionId
    ensures Decrypt(s, rs, C.Image(s, a, m), now) ==
            if now - rs.active.value.createdAt > 15_000_000_000 then Err(InvalidCiphertext)
            else if Admits(rs.previous.value.accepted, m.counter) then Ok((Previous, m.counter, m.packet))
            else Err(ReplayDetected)
  {
    FrameRoundTrip(SealedFrame(s, a.sendKey, a.localSessionId, a.remoteSessionId, m.counter, m.packet));
    SealedFrameOpens(s, a.sendKey, a.localSessionId, a.remoteSessionId, m.counter, m.packet);
  }

  /** A frame addressed to neither session. */
  lemma StrangerIsRefused(s: Suite, rs: Receivers, raw: seq<byte>, now: int)
    requires ParseFrame(raw).Ok? && !rs.closed && rs.active.Some?
    requires ParseFrame(raw).value.receiver != rs.active.value.localSessionId
    requires rs.previous.Some? ==> ParseFrame(raw).value.receiver != rs.previous.value.localSessionId
    ensures Decrypt(s, rs, raw, now) == Err(InvalidCiphertext)
  {}

  /** Bytes that are no frame are reported as such even by a closed manager, which refuses all others. */
  lemma ClosedRefuses(s: Suite, rs: Receivers, raw: seq<byte>, now: int)
    ensures ParseFrame(raw).Err? ==> Decrypt(s, rs, raw, now) == Err(BadFrame(ParseFrame(raw).error))
    ensures ParseFrame(raw).Ok? ==> (Decrypt(s, rs, raw, now) == Err(SessionClosed) <==> rs.closed || rs.active.None?)
  {}

  // ---- runs with rotations ---------------------------------------------------------------------------

  /** One session: the sender's end, the receiver's end, and when the receiver's end was created. */
  datatype Link = Link(a: Session, b: Session, createdAt: int)

  /** A packet, its counter and the session it was sealed in. */
  datatype Mail = Mail(link: nat, message: C.Message)

  datatype Event = Send(link: nat, packet: Packet) | Rotate | Deliver(raw: seq<byte>, now: int)

  /** `current` is the receiver's active session. */
  datatype State = State(sent: seq<Mail>, current: nat, receivers: Receivers, outputs: seq<Mail>)

  /** The sessions are genuine, and no two share the receiver's session ID. */
  ghost predicate Linked(links: seq<Link>) {
    && |links| > 0
    && (forall i :: 0 <= i < |links| ==> Connected(links[i].a, links[i].b))
    && forall i, j :: 0 <= i < j < |links| ==> links[i].b.localSessionId != links[j].b.localSessionId
  }

  function Image(s: Suite, links: seq<Link>, m: Mail): seq<byte>
    requires s.OpensSealed() && m.link < |links|
  {
    C.Image(s, links[m.link].a, m.message)
  }

  function SentOn(sent: seq<Mail>, link: nat): nat {
    if sent == [] then 0 else SentOn(sent[..|sent| - 1], link) + if sent[|sent| - 1].link == link then 1 else 0
  }

  function NewReceiver(l: Link): Receiver {
    Receiver(l.b.recvKey, l.b.localSessionId, l.createdAt, {})
  }

  function Start(links: seq<Link>): State
    requires |links| > 0
  {
    State([], 0, Receivers(Some(NewReceiver(links[0])), None, false), [])
  }

  ghost function Step(s: Suite, links: seq<Link>, st: State, e: Event): State {
    match e
    case Send(link, p) =>
      st.(sent := st.sent + [Mail(link, C.Message(SentOn(st.sent, link) % 0x1_0000_0000_0000_0000, p))])
    case Rotate =>
      if st.current + 1 < |links|
      then st.(current := st.current + 1, receivers := Receivers(Some(NewReceiver(links[st.current + 1])), st.receivers.active, false))
      else st
    case Deliver(raw, now) =>
      match Decrypt(s, st.receivers, raw, now)
      case Err(_) => st
      case Ok((slot, counter, packet)) =>
        var link := if slot == Active || st.current == 0 then st.current else st.current - 1;
        st.(receivers := Receivers(Record(st.receivers.active, counter, slot == Active),
                                   Record(st.receivers.previous, counter, slot == Previous), st.receivers.closed),
            outputs := st.outputs + [Mail(link, C.Message(counter, packet))])
  }

  ghost function Run(s: Suite, links: seq<Link>, es: seq<Event>): State
    requires |links| > 0
  {
    if es == [] then Start(links) else Step(s, links, Run(s, links, es[..|es| - 1]), es[|es| - 1])
  }

  /** Opened by no session's key. */
  ghost predicate Noise(s: Suite, links: seq<Link>, raw: seq<byte>) {
    forall i :: 0 <= i < |links| ==> C.DoesNotOpen(s, links[i].b.recvKey, raw)
  }

  ghost predicate FromNetwork(s: Suite, links: seq<Link>, st: State, e: Event)
    requires s.OpensSealed()
  {
    match e
    case Send(link, _) => link < |links|
    case Rotate => true
    case Deliver(raw, _) =>
      Noise(s, links, raw) || exists m :: m in st.sent && m.link < |links| && raw == Image(s, links, m)
  }

  /** The network delivers what was sent in any session, in any order and number, and noise. */
  ghost predicate Network(s: Suite, links: seq<Link>, es: seq<Event>)
    requires s.OpensSealed() && |links| > 0
  {
    forall i :: 0 <= i < |es| ==> FromNetwork(s, links, Run(s, links, es[..i]), es[i])
  }

  // ---- what every run keeps ---------------------------------------------------------------------------

  /** The counters output in one session. */
  ghost function CountersOn(ms: seq<Mail>, link: nat): set<Counter> {
    set m | m in ms && m.link == link :: m.message.counter
  }

  ghost predicate IsReceiver(r: Option<Receiver>, l: Link, accepted: set<Counter>) {
    r == Some(Receiver(l.b.recvKey, l.b.localSessionId, l.createdAt, accepted))
  }

  ghost predicate Sound(links: seq<Link>, st: State) {
    && st.current < |links| && !st.receivers.closed
    && IsReceiver(st.receivers.active, links[st.current], CountersOn(st.outputs, st.current))
    && (st.current == 0 ==> st.receivers.previous.None?)
    && (st.current > 0 ==>
          IsReceiver(st.receivers.previous, links[st.current - 1], CountersOn(st.outputs, st.current - 1)))
    && (forall m :: m in st.outputs ==> m in st.sent && m.link <= st.current)
    && forall i, j :: 0 <= i < j < |st.outputs| && st.outputs[i].link == st.outputs[j].link ==>
         st.outputs[i].message.counter != st.outputs[j].message.counter
  }

  /** A frame of session m.link that arrives now is let in. */
  ghost predicate Received(links: seq<Link>, st: State, m: Mail, now: int)
    requires st.current < |links|
  {
    && Admits(CountersOn(st.outputs, m.link), m.message.counter)
    && (|| m.link == st.current
        || (m.link + 1 == st.current && now - links[st.current].createdAt <= 15_000_000_000))
  }

  lemma CountersOfOneMore(ms: seq<Mail>, m: Mail, link: nat)
    ensures CountersOn(ms + [m], link) ==
            if m.link == link then CountersOn(ms, link) + {m.message.counter} else CountersOn(ms, link)
  {
    assert (ms + [m])[|ms|] == m;
    forall x | x in ms
      ensures x in ms + [m]
    {
      var i :| 0 <= i < |ms| && ms[i] == x;
      assert (ms + [m])[i] == x;
    }
  }

  /** What a frame of any session decrypts to. */
  lemma MailDecrypts(s: Suite, links: seq<Link>, st: State, m: Mail, now: int)
    requires s.OpensSealed() && Linked(links) && Sound(links, st) && m.link < |links|
    ensures var r := Decrypt(s, st.receivers, Image(s, links, m), now);
            if Received(links, st, m, now)
            then r == Ok((if m.link == st.current then Active else Previous, m.message.counter, m.message.packet))
            else r.Err?
  {
    var l := links[m.link];
    if m.link == st.current {
      C.ImageDecrypts(s, l.a, st.receivers, m.message, now);
    } else if m.link + 1 == st.current {
      PreviousDecrypts(s, st.receivers, l.a, m.message, now);
    } else {
      FrameRoundTrip(SealedFrame(s, l.a.sendKey, l.a.localSessionId, l.a.remoteSessionId, m.message.counter, m.message.packet));
      StrangerIsRefused(s, st.receivers, Image(s, links, m), now);
    }
  }

  lemma NoiseChangesNothing(s: Suite, links: seq<Link>, st: State, raw: seq<byte>, now: int)
    requires Sound(links, st) && Noise(s, links, raw)
    ensures Step(s, links, st, Deliver(raw, now)) == st
  {
    assert C.DoesNotOpen(s, links[st.current].b.recvKey, raw);
    if st.current > 0 {
      assert C.DoesNotOpen(s, links[st.current - 1].b.recvKey, raw);
    }
  }

  /** The receiver once it has let a message in. */
  ghost function Taken(st: State, m: Mail): State {
    var hit := m.link == st.current;
    st.(receivers := Receivers(Record(st.receivers.active, m.message.counter, hit),
                               Record(st.receivers.previous, m.message.counter, !hit), st.receivers.closed),
        outputs := st.outputs + [m])
  }

  lemma TakenIsSound(links: seq<Link>, st: State, m: Mail)
    requires Sound(links, st) && m in st.sent && (m.link == st.current || m.link + 1 == st.current)
    requires Admits(CountersOn(st.outputs, m.link), m.message.counter)
    ensures Sound(links, Taken(st, m))
  {
    CountersOfOneMore(st.outputs, m, st.current);
    if st.current > 0 {
      CountersOfOneMore(st.outputs, m, st.current - 1);
    }
    NewCounter(st.outputs, m);
  }

  /** One arrival: the output grows by the message exactly when it is let in. */
  lemma ArrivalStep(s: Suite, links: seq<Link>, st: State, m: Mail, now: int)
    requires s.OpensSealed() && Linked(links) && Sound(links, st) && m.link < |links|
    ensures Step(s, links, st, Deliver(Image(s, links, m), now)) == if Received(links, st, m, now) then Taken(st, m) else st
  {
    MailDecrypts(s, links, st, m, now);
  }

  lemma NewCounter(ms: seq<Mail>, m: Mail)
    requires Admits(CountersOn(ms, m.link), m.message.counter)
    ensures forall i :: 0 <= i < |ms| && ms[i].link == m.link ==> ms[i].message.counter != m.message.counter
  {
    forall i | 0 <= i < |ms| && ms[i].link == m.link
      ensures ms[i].message.counter in CountersOn(ms, m.link)
    {
      assert ms[i] in ms;
    }
  }

  lemma RotationIsSound(s: Suite, links: seq<Link>, st: State)
    requires Sound(links, st)
    ensures Sound(links, Step(s, links, st, Rotate))
  {
    var next := st.current + 1;
    assert CountersOn(st.outputs, next) == {};
  }

  lemma StepIsSound(s: Suite, links: seq<Link>, st: State, e: Event)
    requires s.OpensSealed() && Linked(links) && Sound(links, st) && FromNetwork(s, links, st, e)
    ensures Sound(links, Step(s, links, st, e))
  {
    match e
    case Send(link, p) =>
    case Rotate => RotationIsSound(s, links, st);
    case Deliver(raw, now) =>
      if Noise(s, links, raw) {
        NoiseChangesNothing(s, links, st, raw, now);
      } else {
        var m :| m in st.sent && m.link < |links| && raw == Image(s, links, m);
        ArrivalStep(s, links, st, m, now);
        if Received(links, st, m, now) {
          TakenIsSound(links, st, m);
        }
      }
  }

  /** On every run, through any number of rotations, only what was sent is output, each message at most once. */
  lemma {:induction false} EveryRunIsSound(s: Suite, links: seq<Link>, es: seq<Event>)
    requires s.OpensSealed() && Linked(links) && Network(s, links, es)
    ensures Sound(links, Run(s, links, es))
  {
    if es == [] {
      assert CountersOn([], 0) == {};
    } else {
      var before := es[..|es| - 1];
      forall i | 0 <= i < |before|
        ensures FromNetwork(s, links, Run(s, links, before[..i]), before[i])
      {
        assert before[..i] == es[..i];
      }
      EveryRunIsSound(s, links, before);
      StepIsSound(s, links, Run(s, links, before), es[|es| - 1]);
    }
  }

  /**
   After any run, a frame of any session is output if and only if it is new and within 1024 of the highest output
   in its session, and that session is the active one, or the one before within 15 seconds of the active one's creation.
   */
  lemma DeliveredExactlyAcrossRotations(s: Suite, links: seq<Link>, es: seq<Event>, m: Mail, now: int)
    requires s.OpensSealed() && Linked(links) && Network(s, links, es) && m.link < |links|
    ensures var st, u := Run(s, links, es), Run(s, links, es + [Deliver(Image(s, links, m), now)]);
            && st.current < |links|
            && u.outputs == if Received(links, st, m, now) then st.outputs + [m] else st.outputs
  {
    EveryRunIsSound(s, links, es);
    var more := es + [Deliver(Image(s, links, m), now)];
    assert more[..|more| - 1] == es;
    ArrivalStep(s, links, Run(s, links, es), m, now);
  }
}
