/** Encrypting, decrypting and rotating session keys (pkg/crypto/ratchet.go), one call at a time. */
module Ratchet {
  import opened Bytes
  import opened Primitives
  import opened Replay
  import opened Results
  import opened Transport
  import opened Wire

  /** 15 seconds, in the nanoseconds of time.Duration. */
  const DUAL_KEY_GRACE_PERIOD: int := 15_000_000_000

  datatype SessionError = BadFrame(cause: FrameError) | SessionClosed | InvalidCiphertext | ReplayDetected

  datatype Packet = Packet(plaintext: seq<byte>, msgType: byte)

  /** Header context bound to the ciphertext: sender, receiver and counter. */
  function AssociatedData(sender: uint32, receiver: uint32, counter: uint64): seq<byte> {
    BigEndian(sender, 4) + BigEndian(receiver, 4) + BigEndian(counter, 8)
  }

  /** The frame EncryptPacket emits for one packet. */
  function SealedFrame(s: Suite, key: Key, sender: uint32, receiver: uint32, counter: uint64, p: Packet): DirectFrame
    requires s.OpensSealed()
  {
    var sealed := s.seal(key, ConstructNonce(counter), p.plaintext, AssociatedData(sender, receiver, counter));
    DirectFrame(DIRECT_FRAME_MAGIC, CURRENT_WIRE_VERSION, p.msgType, sender, receiver, counter,
                sealed[..|sealed| - TAG_SIZE], sealed[|sealed| - TAG_SIZE..])
  }

  function OpenFrame(s: Suite, key: Key, f: DirectFrame): Option<seq<byte>> {
    s.open(key, ConstructNonce(f.counter), f.ciphertext + f.authTag, AssociatedData(f.sender, f.receiver, f.counter))
  }

  /** Opening a sealed frame with the same key gives the plaintext. */
  lemma SealedFrameOpens(s: Suite, key: Key, sender: uint32, receiver: uint32, counter: uint64, p: Packet)
    requires s.OpensSealed()
    ensures OpenFrame(s, key, SealedFrame(s, key, sender, receiver, counter, p)) == Some(p.plaintext)
  {
    var ad := AssociatedData(sender, receiver, counter);
    var sealed := s.seal(key, ConstructNonce(counter), p.plaintext, ad);
    assert |sealed| == |p.plaintext| + TAG_SIZE;
    assert sealed == sealed[..|sealed| - TAG_SIZE] + sealed[|sealed| - TAG_SIZE..];
  }

  /** A frame is sealed, and opened, with its session IDs and counter as associated data. */
  lemma HeaderIsBound(s: Suite, key: Key, sender: uint32, receiver: uint32, counter: uint64, p: Packet, f: DirectFrame)
    requires s.OpensSealed()
    ensures var g := SealedFrame(s, key, sender, receiver, counter, p);
            && g.ciphertext + g.authTag == s.seal(key, ConstructNonce(counter), p.plaintext,
                                                  BigEndian(sender, 4) + BigEndian(receiver, 4) + BigEndian(counter, 8))
            && g.sender == sender && g.receiver == receiver && g.counter == counter && g.msgType == p.msgType
    ensures OpenFrame(s, key, f) == s.open(key, ConstructNonce(f.counter), f.ciphertext + f.authTag,
                                           BigEndian(f.sender, 4) + BigEndian(f.receiver, 4) + BigEndian(f.counter, 8))
  {
    var sealed := s.seal(key, ConstructNonce(counter), p.plaintext, AssociatedData(sender, receiver, counter));
    assert sealed == sealed[..|sealed| - TAG_SIZE] + sealed[|sealed| - TAG_SIZE..];
  }

  // ---- the receive side as a value ---------------------------------------------------------

  /** What decryption reads of a cipher state; `accepted` is its replay window. */
  datatype Receiver = Receiver(recvKey: Key, localSessionId: uint32, createdAt: int, accepted: set<Counter>)

  datatype Slot = Active | Previous

  /** The receive side of a manager. */
  datatype Receivers = Receivers(active: Option<Receiver>, previous: Option<Receiver>, closed: bool)

  /** Route by receiver session ID; the previous state only within the grace period. */
  function Route(rs: Receivers, f: DirectFrame, now: int): Option<Slot> {
    if rs.active.None? then None
    else if f.receiver == rs.active.value.localSessionId then Some(Active)
    else if && rs.previous.Some? && f.receiver == rs.previous.value.localSessionId
            && now - rs.active.value.createdAt <= DUAL_KEY_GRACE_PERIOD
    then Some(Previous)
    else None
  }

  function At(rs: Receivers, slot: Slot): Option<Receiver> {
    match slot
    case Active => rs.active
    case Previous => rs.previous
  }

  /** The outcome of one DecryptPacket call that nothing interrupts. */
  ghost function Decrypt(s: Suite, rs: Receivers, raw: seq<byte>, now: int): Result<(Slot, uint64, Packet), SessionError> {
    match ParseFrame(raw)
    case Err(cause) => Err(BadFrame(cause))
    case Ok(f) =>
      if rs.closed || rs.active.None? then Err(SessionClosed) else
      match Route(rs, f, now)
      case None => Err(InvalidCiphertext)
      case Some(slot) => OpenAt(s, At(rs, slot).value, slot, f)
  }

  ghost function OpenAt(s: Suite, r: Receiver, slot: Slot, f: DirectFrame): Result<(Slot, uint64, Packet), SessionError> {
    if !Admits(r.accepted, f.counter) then Err(ReplayDetected) else
    match OpenFrame(s, r.recvKey, f)
    case None => Err(InvalidCiphertext)
    case Some(plaintext) => Ok((slot, f.counter, Packet(plaintext, f.msgType)))
  }

  /** The receiver once its window has taken the counter. */
  ghost function Record(r: Option<Receiver>, counter: uint64, hit: bool): Option<Receiver> {
    if r.Some? && hit then Some(r.value.(accepted := r.value.accepted + {counter})) else r
  }

  class SessionRatchetManager {
    const suite: Suite
    var activeState: TransportCipherState?
    var previousState: TransportCipherState?
    var closed: bool

    /** Each state has a window of its own; the two slots may hold the same state. */
    ghost predicate Valid()
      reads this, activeState, previousState
      reads if activeState == null then {} else {activeState.antiReplay, activeState.antiReplay.bitmap}
      reads if previousState == null then {} else {previousState.antiReplay, previousState.antiReplay.bitmap}
    {
      && suite.OpensSealed()
      && (activeState != null ==> activeState.antiReplay.Valid())
      && (previousState != null ==> previousState.antiReplay.Valid())
      && (activeState != null && previousState != null && activeState != previousState ==>
            && activeState.antiReplay != previousState.antiReplay
            && activeState.antiReplay.bitmap != previousState.antiReplay.bitmap)
    }

    static ghost function View(c: TransportCipherState?): Option<Receiver>
      reads c
      reads if c == null then {} else {c.antiReplay}
    {
      if c == null then None
      else Some(Receiver(c.recvKey, c.localSessionId, c.createdAt, c.antiReplay.accepted))
    }

    ghost function Views(): Receivers
      reads this, activeState, previousState
      reads if activeState == null then {} else {activeState.antiReplay}
      reads if previousState == null then {} else {previousState.antiReplay}
    {
      Receivers(View(activeState), View(previousState), closed)
    }

    constructor (suite: Suite, initialState: TransportCipherState?)
      requires suite.OpensSealed() && (initialState != null ==> initialState.antiReplay.Valid())
      ensures Valid() && this.suite == suite && activeState == initialState && previousState == null && !closed
    {
      this.suite := suite;
      activeState, previousState, closed := initialState, null, false;
    }

    /** The emitted frame carries the packet sealed under the current counter, and the counter moves on. */
    method EncryptPacket(msgType: byte, plaintext: seq<byte>) returns (r: Result<array<byte>, SessionError>)
      requires Valid()
      modifies if activeState == null then {} else {activeState}
      ensures Valid()
      ensures closed || activeState == null ==>
        r == Err(SessionClosed) && (activeState != null ==> unchanged(activeState))
      ensures !closed && activeState != null ==>
        && r.Ok? && fresh(r.value)
        && activeState.sendNonce == (old(activeState.sendNonce) + 1) % 0x1_0000_0000_0000_0000
        && activeState.sendKey == old(activeState.sendKey) && activeState.recvKey == old(activeState.recvKey)
        && r.value[..] == FrameBytes(SealedFrame(suite, activeState.sendKey, activeState.localSessionId,
                                                 activeState.remoteSessionId, old(activeState.sendNonce),
                                                 Packet(plaintext, msgType)))
    {
      if closed || activeState == null {
        return Err(SessionClosed);
      }
      var counter := activeState.sendNonce;
      activeState.sendNonce := (activeState.sendNonce + 1) % 0x1_0000_0000_0000_0000;
      var ad := AssociatedData(activeState.localSessionId, activeState.remoteSessionId, counter);
      var sealed := suite.seal(activeState.sendKey, ConstructNonce(counter), plaintext, ad);
      var tagOffset := |sealed| - TAG_SIZE;
      var frame := DirectFrame(DIRECT_FRAME_MAGIC, CURRENT_WIRE_VERSION, msgType, activeState.localSessionId,
                               activeState.remoteSessionId, counter, sealed[..tagOffset], sealed[tagOffset..]);
      var buf := EncodeDirectFrame(frame);
      r := Ok(buf);
    }

    /** Only a successful call changes anything: its counter joins the window that was routed to. */
    method DecryptPacket(raw: array<byte>, now: int) returns (r: Result<Packet, SessionError>)
      requires Valid()
      modifies if activeState == null then {} else {activeState.antiReplay, activeState.antiReplay.bitmap}
      modifies if previousState == null then {} else {previousState.antiReplay, previousState.antiReplay.bitmap}
      ensures Valid()
      ensures match Decrypt(suite, old(Views()), old(raw[..]), now)
              case Err(e) => r == Err(e) && Views() == old(Views())
              case Ok((slot, counter, packet)) =>
                && r == Ok(packet)
                && var target := if slot == Active then activeState else previousState;
                && Views() == Receivers(Record(old(Views()).active, counter, activeState == target),
                                        Record(old(Views()).previous, counter, previousState == target),
                                        old(closed))
    {
      var parsed := DecodeDirectFrame(raw);
      if parsed.Err? {
        return Err(BadFrame(parsed.error));
      }
      var frame := parsed.value;
      if closed || activeState == null {
        return Err(SessionClosed);
      }
      var target: TransportCipherState? := null;
      if frame.receiver == activeState.localSessionId {
        target := activeState;
      } else if && previousState != null && frame.receiver == previousState.localSessionId
                && now - activeState.createdAt <= DUAL_KEY_GRACE_PERIOD {
        target := previousState;
      }
      if target == null {
        return Err(InvalidCiphertext);
      }
      var fresh1 := target.antiReplay.Check(frame.counter);
      if !fresh1 {
        return Err(ReplayDetected);
      }
      var sealed := frame.ciphertext + frame.authTag;
      var ad := AssociatedData(frame.sender, frame.receiver, frame.counter);
      var plain := suite.open(target.recvKey, ConstructNonce(frame.counter), sealed, ad);
      if plain.None? {
        return Err(InvalidCiphertext);
      }
      var fresh2 := target.antiReplay.CheckAndAdd(frame.counter);
      if !fresh2 {
        return Err(ReplayDetected);
      }
      return Ok(Packet(plain.value, frame.msgType));
    }

    /** The active state becomes the previous one with its window; the old previous keys are wiped. */
    method RotateKeys(newState: TransportCipherState?)
      requires Valid() && (newState != null ==> newState.antiReplay.Valid())
      requires newState != null && activeState != null && newState != activeState ==>
        newState.antiReplay != activeState.antiReplay && newState.antiReplay.bitmap != activeState.antiReplay.bitmap
      modifies this, previousState
      ensures Valid() && closed == old(closed)
      ensures activeState == newState && previousState == old(activeState)
      ensures old(previousState) == null || (old(previousState) != old(activeState) && old(previousState) != newState) ==>
        Views() == Receivers(old(View(newState)), old(Views()).active, closed)
      ensures old(previousState) != null ==> old(previousState).sendKey == old(previousState).recvKey == ZeroKey()
    {
      if previousState != null {
        previousState.WipeKeys();
      }
      previousState := activeState;
      activeState := newState;
    }

    method Close()
      requires Valid()
      modifies this, activeState, previousState
      ensures Valid() && closed && activeState == null && previousState == null
      ensures old(activeState) != null ==> old(activeState).sendKey == old(activeState).recvKey == ZeroKey()
      ensures old(previousState) != null ==> old(previousState).sendKey == old(previousState).recvKey == ZeroKey()
    {
      closed := true;
      if activeState != null {
        activeState.WipeKeys();
        activeState := null;
      }
      if previousState != null {
        previousState.WipeKeys();
        previousState := null;
      }
    }
  }
}
