/**
 The two-act handshake (pkg/crypto/noise.go). Random values (ephemeral keypairs, session IDs)
 are parameters. Each side is written out as its own chain of steps, as the source has it.
 */
module Handshake {
  import opened Bytes
  import opened Primitives
  import opened Results
  import opened Transport

  const STATIC_SEAL_SIZE: nat := 48

  type SealedStatic = b: seq<byte> | |b| == STATIC_SEAL_SIZE witness seq(STATIC_SEAL_SIZE, _ => 0)

  datatype Keypair = Keypair(privateKey: Key, publicKey: Key) {
    ghost predicate Genuine(s: Suite) {
      publicKey == s.public(privateKey)
    }
  }

  datatype Act1Packet = Act1Packet(
    sender: uint32,
    ephemeralPub: Key,
    encryptedStatic: SealedStatic,
    encryptedPayload: seq<byte>)

  datatype Act2Packet = Act2Packet(
    sender: uint32,
    receiver: uint32,
    ephemeralPub: Key,
    encryptedPayload: seq<byte>)

  /** What the initiator keeps between the acts. */
  datatype Pending = Pending(
    ephemeralPriv: Key,
    initiatorStatic: Keypair,
    responderStatic: Key,
    sender: uint32,
    ck: Key,
    h: Key)

  datatype HandshakeError = DhFailed | AuthFailed | ZeroSessionId | SessionIdMismatch

  const PROTOCOL_NAME: seq<byte> := AsciiBytes("Noise_IKpsk2_25519_ChaChaPoly_BLAKE2s")
  const PROLOGUE: seq<byte> := AsciiBytes("SovereignMesh-v4")

  // ---- key derivation -----------------------------------------------------------------

  function Hkdf2(s: Suite, ck: Key, input: seq<byte>): (Key, Key) {
    var tempKey := s.hmac(ck, input);
    var out1 := s.hmac(tempKey, [0x01]);
    var out2 := s.hmac(tempKey, out1 + [0x02]);
    (out1, out2)
  }

  function Hkdf3(s: Suite, ck: Key, input: seq<byte>): (Key, Key, Key) {
    var tempKey := s.hmac(ck, input);
    var out1 := s.hmac(tempKey, [0x01]);
    var out2 := s.hmac(tempKey, out1 + [0x02]);
    var out3 := s.hmac(tempKey, out2 + [0x03]);
    (out1, out2, out3)
  }

  /** Output i of the expansion of RFC 5869, section 2.3, without info: keyed over the one before and its number. */
  function Output(s: Suite, tempKey: Key, i: byte): Key
    requires i > 0
  {
    s.hmac(tempKey, (if i == 1 then [] else Output(s, tempKey, i - 1)) + [i])
  }

  /** Both derivations hand out the expansion's outputs in order. */
  lemma HkdfExpands(s: Suite, ck: Key, input: seq<byte>)
    ensures var t := s.hmac(ck, input);
            && Hkdf2(s, ck, input) == (Output(s, t, 1), Output(s, t, 2))
            && Hkdf3(s, ck, input) == (Output(s, t, 1), Output(s, t, 2), Output(s, t, 3))
  {
    var t := s.hmac(ck, input);
    assert [] + [0x01] == [0x01];
    assert Output(s, t, 1) == s.hmac(t, [0x01]);
    assert Output(s, t, 2) == s.hmac(t, Output(s, t, 1) + [0x02]);
  }

  /** copy into a fixed-size array: excess is dropped, the rest stays zero. */
  function Fit(bs: seq<byte>, n: nat): (r: seq<byte>)
    ensures |r| == n
    ensures |bs| == n ==> r == bs
  {
    if |bs| >= n then bs[..n] else bs + seq(n - |bs|, _ => 0)
  }

  function Dh(s: Suite, priv: Key, pub: Key): Result<Key, HandshakeError> {
    match s.dh(priv, pub)
    case Some(k) => Ok(k)
    case None => Err(DhFailed)
  }

  function Open(s: Suite, k: Key, sealed: seq<byte>, ad: Key): Result<seq<byte>, HandshakeError> {
    match s.open(k, ConstructNonce(0), sealed, ad)
    case Some(p) => Ok(p)
    case None => Err(AuthFailed)
  }

  // ---- act 1, initiator -------------------------------------------------------------------

  function InitHandshakeAct1(s: Suite, initiatorStatic: Keypair, responderStaticPub: Key, psk: Key,
                             payload0Rtt: seq<byte>, eph: Keypair, sessionId: uint32)
    : Result<(Act1Packet, Pending), HandshakeError>
  {
    var h0 := s.hash(PROTOCOL_NAME);
    var ck0 := h0;
    var h1 := s.hash(h0 + PROLOGUE);
    var h2 := s.hash(h1 + responderStaticPub);
    var h3 := s.hash(h2 + eph.publicKey);
    var dh1 :- Dh(s, eph.privateKey, responderStaticPub);
    var (ck1, k1) := Hkdf2(s, ck0, dh1);
    var msgS := s.seal(k1, ConstructNonce(0), initiatorStatic.publicKey, h3);
    var h4 := s.hash(h3 + msgS);
    var dh2 :- Dh(s, initiatorStatic.privateKey, responderStaticPub);
    var (ck2, _) := Hkdf2(s, ck1, dh2);
    var (ck3, tempH, k3) := Hkdf3(s, ck2, psk);
    var h5 := s.hash(h4 + tempH);
    var msgPayload := s.seal(k3, ConstructNonce(0), payload0Rtt, h5);
    var h6 := s.hash(h5 + msgPayload);
    Ok((Act1Packet(sessionId, eph.publicKey, Fit(msgS, STATIC_SEAL_SIZE), msgPayload),
        Pending(eph.privateKey, initiatorStatic, responderStaticPub, sessionId, ck3, h6)))
  }

  /** Both sides' symmetric state once act 1 has been read. */
  datatype Transcript = Transcript(ck: Key, h: Key)

  // ---- act 1 on the responder, producing act 2 ------------------------------------------------

  function ProcessHandshakeAct1(s: Suite, responderStatic: Keypair, psk: Key, act1: Act1Packet,
                                payloadAct2: seq<byte>, respEph: Keypair, respSessionId: uint32)
    : Result<(Act2Packet, Session, seq<byte>), HandshakeError>
  {
    if act1.sender == 0 then Err(ZeroSessionId) else
    var h0 := s.hash(PROTOCOL_NAME);
    var ck0 := h0;
    var h1 := s.hash(h0 + PROLOGUE);
    var h2 := s.hash(h1 + responderStatic.publicKey);
    var h3 := s.hash(h2 + act1.ephemeralPub);
    var dh1 :- Dh(s, responderStatic.privateKey, act1.ephemeralPub);
    var (ck1, k1) := Hkdf2(s, ck0, dh1);
    var staticBytes :- Open(s, k1, act1.encryptedStatic, h3);
    var peerStaticPub := Fit(staticBytes, KEY_SIZE);
    var h4 := s.hash(h3 + act1.encryptedStatic);
    var dh2 :- Dh(s, responderStatic.privateKey, peerStaticPub);
    var (ck2, _) := Hkdf2(s, ck1, dh2);
    var (ck3, tempH, k3) := Hkdf3(s, ck2, psk);
    var h5 := s.hash(h4 + tempH);
    var payload0Rtt :- Open(s, k3, act1.encryptedPayload, h5);
    var h6 := s.hash(h5 + act1.encryptedPayload);
    Answer(s, Transcript(ck3, h6), peerStaticPub, act1.ephemeralPub, act1.sender, payload0Rtt, payloadAct2,
           respEph, respSessionId)
  }

  /** The second half of ProcessHandshakeAct1, from the state after act 1. */
  function Answer(s: Suite, t: Transcript, peerStaticPub: Key, ephemeralPub: Key, sender: uint32,
                  payload0Rtt: seq<byte>, payloadAct2: seq<byte>, respEph: Keypair, respSessionId: uint32)
    : Result<(Act2Packet, Session, seq<byte>), HandshakeError>
  {
    var h7 := s.hash(t.h + respEph.publicKey);
    var dh3 :- Dh(s, respEph.privateKey, ephemeralPub);
    var (ck4, _) := Hkdf2(s, t.ck, dh3);
    var dh4 :- Dh(s, respEph.privateKey, peerStaticPub);
    var (ck5, k5) := Hkdf2(s, ck4, dh4);
    var msgPayload2 := s.seal(k5, ConstructNonce(0), payloadAct2, h7);
    var (kRecv, kSend) := Hkdf2(s, ck5, []);
    Ok((Act2Packet(respSessionId, sender, respEph.publicKey, msgPayload2),
        Session(kSend, kRecv, respSessionId, sender, peerStaticPub),
        payload0Rtt))
  }

  // ---- act 2 on the initiator -------------------------------------------------------------------

  function FinishHandshake(s: Suite, p: Pending, act2: Act2Packet): Result<(Session, seq<byte>), HandshakeError> {
    if act2.receiver != p.sender then Err(SessionIdMismatch) else
    var h7 := s.hash(p.h + act2.ephemeralPub);
    var dh3 :- Dh(s, p.ephemeralPriv, act2.ephemeralPub);
    var (ck4, _) := Hkdf2(s, p.ck, dh3);
    var dh4 :- Dh(s, p.initiatorStatic.privateKey, act2.ephemeralPub);
    var (ck5, k5) := Hkdf2(s, ck4, dh4);
    var payloadAct2 :- Open(s, k5, act2.encryptedPayload, h7);
    var (kSend, kRecv) := Hkdf2(s, ck5, []);
    Ok((Session(kSend, kRecv, p.sender, act2.sender, p.responderStatic), payloadAct2))
  }

  /** The initiator sends with the first key of the split and receives with the second; a responder the other way. */
  lemma SplitInOrder(s: Suite, p: Pending, act2: Act2Packet, t: Transcript, peerStaticPub: Key, ephemeralPub: Key,
                     sender: uint32, payload0Rtt: seq<byte>, payloadAct2: seq<byte>, respEph: Keypair, respSessionId: uint32)
    ensures var r := FinishHandshake(s, p, act2);
            r.Ok? ==> exists ck: Key :: Hkdf2(s, ck, []) == (r.value.0.sendKey, r.value.0.recvKey)
    ensures var r := Answer(s, t, peerStaticPub, ephemeralPub, sender, payload0Rtt, payloadAct2, respEph, respSessionId);
            r.Ok? ==> exists ck: Key :: Hkdf2(s, ck, []) == (r.value.1.recvKey, r.value.1.sendKey)
  {}

  /** Act 2 is refused for its session ID exactly when it does not answer the initiator's. */
  lemma SessionIdsAreChecked(s: Suite, p: Pending, act2: Act2Packet)
    ensures FinishHandshake(s, p, act2) == Err(SessionIdMismatch) <==> act2.receiver != p.sender
  {}

  /** Act 1 is refused for its session ID exactly when that is zero. */
  lemma ZeroIdIsRefused(s: Suite, responderStatic: Keypair, psk: Key, act1: Act1Packet,
                        payloadAct2: seq<byte>, respEph: Keypair, respSessionId: uint32)
    ensures ProcessHandshakeAct1(s, responderStatic, psk, act1, payloadAct2, respEph, respSessionId) == Err(ZeroSessionId)
       <==> act1.sender == 0
  {}

  class InitiatorHandshakeState {
    var pending: Pending

    constructor (p: Pending)
      ensures pending == p
    {
      pending := p;
    }

    /** ProcessHandshakeAct2: on success, and only then, the ephemeral secret is wiped. */
    method ProcessHandshakeAct2(s: Suite, act2: Act2Packet, now: int)
      returns (r: Result<TransportCipherState, HandshakeError>, payload: seq<byte>)
      modifies this
      ensures r == Err(SessionIdMismatch) <==> act2.receiver != old(pending).sender
      ensures match FinishHandshake(s, old(pending), act2)
              case Err(e) => r == Err(e) && pending == old(pending)
              case Ok((session, p)) =>
                && payload == p && pending == old(pending).(ephemeralPriv := ZeroKey())
                && r.Ok? && fresh(r.value) && r.value.sendKey == session.sendKey && r.value.recvKey == session.recvKey
                && r.value.sendNonce == 0 && r.value.localSessionId == session.localSessionId
                && r.value.remoteSessionId == session.remoteSessionId
                && r.value.peerStaticPub == session.peerStaticPub
                && fresh(r.value.antiReplay) && fresh(r.value.antiReplay.bitmap)
                && r.value.antiReplay.Valid() && r.value.antiReplay.accepted == {}
    {
      SessionIdsAreChecked(s, pending, act2);
      payload := [];
      match FinishHandshake(s, pending, act2)
      case Err(e) =>
        r := Err(e);
      case Ok((session, p)) =>
        var transport := new TransportCipherState(session, now);
        pending := pending.(ephemeralPriv := ZeroKey());
        payload := p;
        r := Ok(transport);
    }
  }

  // ---- key agreement -----------------------------------------------------------------------------

  /** Diffie-Hellman between two genuine keypairs, computed at either end. */
  lemma SharedSecret(s: Suite, a: Keypair, b: Keypair)
    requires s.Lawful() && a.Genuine(s) && b.Genuine(s)
    ensures Dh(s, a.privateKey, b.publicKey).Ok?
    ensures Dh(s, b.privateKey, a.publicKey) == Dh(s, a.privateKey, b.publicKey)
  {
    assert s.dh(a.privateKey, s.public(b.privateKey)) == s.dh(b.privateKey, s.public(a.privateKey));
  }

  lemma OpenSealed(s: Suite, k: Key, p: seq<byte>, ad: Key)
    requires s.Lawful()
    ensures Open(s, k, s.seal(k, ConstructNonce(0), p, ad), ad) == Ok(p)
    ensures |s.seal(k, ConstructNonce(0), p, ad)| == |p| + TAG_SIZE
  {}

  /** Act 1 sealed with genuine keys is opened by the responder it was made for. */
  lemma Act1IsAccepted(s: Suite, initiator: Keypair, responder: Keypair, psk: Key, payload0Rtt: seq<byte>,
                       payloadAct2: seq<byte>, eph: Keypair, respEph: Keypair, sessionId: uint32, respSessionId: uint32)
    returns (t: Transcript)
    requires s.Lawful() && initiator.Genuine(s) && responder.Genuine(s) && eph.Genuine(s) && respEph.Genuine(s)
    requires sessionId != 0
    ensures var sent := InitHandshakeAct1(s, initiator, responder.publicKey, psk, payload0Rtt, eph, sessionId);
            && sent.Ok?
            && sent.value.1 == Pending(eph.privateKey, initiator, responder.publicKey, sessionId, t.ck, t.h)
            && sent.value.0.sender == sessionId && sent.value.0.ephemeralPub == eph.publicKey
            && ProcessHandshakeAct1(s, responder, psk, sent.value.0, payloadAct2, respEph, respSessionId)
            == Answer(s, t, initiator.publicKey, eph.publicKey, sessionId, payload0Rtt, payloadAct2, respEph, respSessionId)
  {
    var h3 := s.hash(s.hash(s.hash(s.hash(PROTOCOL_NAME) + PROLOGUE) + responder.publicKey) + eph.publicKey);
    SharedSecret(s, eph, responder);
    var dh1 := Dh(s, eph.privateKey, responder.publicKey).value;
    var (ck1, k1) := Hkdf2(s, s.hash(PROTOCOL_NAME), dh1);
    var msgS := s.seal(k1, ConstructNonce(0), initiator.publicKey, h3);
    OpenSealed(s, k1, initiator.publicKey, h3);
    var h4 := s.hash(h3 + msgS);
    SharedSecret(s, initiator, responder);
    var dh2 := Dh(s, initiator.privateKey, responder.publicKey).value;
    var ck2 := Hkdf2(s, ck1, dh2).0;
    var (ck3, tempH, k3) := Hkdf3(s, ck2, psk);
    var h5 := s.hash(h4 + tempH);
    OpenSealed(s, k3, payload0Rtt, h5);
    t := Transcript(ck3, s.hash(h5 + s.seal(k3, ConstructNonce(0), payload0Rtt, h5)));
  }

  /**
   Running act 1, its processing and act 2 with matching keys never fails, delivers both payloads,
   and leaves the two sides connected, each holding the other's static key.
   */
  lemma KeyAgreement(s: Suite, initiator: Keypair, responder: Keypair, psk: Key, payload0Rtt: seq<byte>,
                     payloadAct2: seq<byte>, eph: Keypair, respEph: Keypair, sessionId: uint32, respSessionId: uint32)
    requires s.Lawful() && initiator.Genuine(s) && responder.Genuine(s) && eph.Genuine(s) && respEph.Genuine(s)
    requires sessionId != 0
    ensures var sent := InitHandshakeAct1(s, initiator, responder.publicKey, psk, payload0Rtt, eph, sessionId);
            && sent.Ok?
            && var answered := ProcessHandshakeAct1(s, responder, psk, sent.value.0, payloadAct2, respEph, respSessionId);
            && answered.Ok?
            && var finished := FinishHandshake(s, sent.value.1, answered.value.0);
            && finished.Ok?
            && Connected(finished.value.0, answered.value.1)
            && finished.value.0.localSessionId == sessionId && answered.value.1.localSessionId == respSessionId
            && finished.value.0.peerStaticPub == responder.publicKey
            && answered.value.1.peerStaticPub == initiator.publicKey
            && answered.value.2 == payload0Rtt && finished.value.1 == payloadAct2
  {
    var t := Act1IsAccepted(s, initiator, responder, psk, payload0Rtt, payloadAct2, eph, respEph, sessionId, respSessionId);
    var h7 := s.hash(t.h + respEph.publicKey);
    SharedSecret(s, respEph, eph);
    SharedSecret(s, respEph, initiator);
    var ck4 := Hkdf2(s, t.ck, Dh(s, respEph.privateKey, eph.publicKey).value).0;
    var k5 := Hkdf2(s, ck4, Dh(s, respEph.privateKey, initiator.publicKey).value).1;
    OpenSealed(s, k5, payloadAct2, h7);
  }
}
