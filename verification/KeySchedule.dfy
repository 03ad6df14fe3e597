/**
 The handshake's derivations (pkg/crypto/noise.go:124-374) against a reference: a symmetric state that each
 step of the pattern updates, and what the pre-shared key decides.
 */
module KeySchedule {
  import opened Bytes
  import opened Handshake
  import opened Primitives
  import opened Results
  import opened Transport

  // ---- the reference ---------------------------------------------------------------------------

  /** Chaining key, transcript hash and current cipher key. */
  datatype Symmetric = Symmetric(ck: Key, h: Key, k: Key)

  function MixHash(s: Suite, st: Symmetric, data: seq<byte>): Symmetric {
    st.(h := s.hash(st.h + data))
  }

  function MixKey(s: Suite, st: Symmetric, secret: Key): Symmetric {
    var temp := s.hmac(st.ck, secret);
    st.(ck := Output(s, temp, 1), k := Output(s, temp, 2))
  }

  function MixKeyAndHash(s: Suite, st: Symmetric, secret: Key): Symmetric {
    var temp := s.hmac(st.ck, secret);
    Symmetric(Output(s, temp, 1), s.hash(st.h + Output(s, temp, 2)), Output(s, temp, 3))
  }

  /** Sealed under the current key, with the transcript as associated data. */
  function Sealed(s: Suite, st: Symmetric, plaintext: seq<byte>): seq<byte> {
    s.seal(st.k, ConstructNonce(0), plaintext, st.h)
  }

  function OpenedBy(s: Suite, st: Symmetric, sealed: seq<byte>): Option<seq<byte>> {
    s.open(st.k, ConstructNonce(0), sealed, st.h)
  }

  function Start(s: Suite): Symmetric {
    var h := s.hash(AsciiBytes("Noise_IKpsk2_25519_ChaChaPoly_BLAKE2s"));
    MixHash(s, Symmetric(h, h, ZeroKey()), AsciiBytes("SovereignMesh-v4"))
  }

  /** Responder's static key, initiator's ephemeral key, their secret: what the initiator's static key is sealed under. */
  function ForStatic(s: Suite, rs: Key, e: Key, es: Key): Symmetric {
    MixKey(s, MixHash(s, MixHash(s, Start(s), rs), e), es)
  }

  /** The sealed static key, and the secret of the static keys. */
  function ForPsk(s: Suite, st: Symmetric, sealedStatic: seq<byte>, ss: Key): Symmetric {
    MixKey(s, MixHash(s, st, sealedStatic), ss)
  }

  /** Then the pre-shared key: what the payload of act 1 is sealed under. */
  function ForPayload(s: Suite, st: Symmetric, sealedStatic: seq<byte>, ss: Key, psk: Key): Symmetric {
    MixKeyAndHash(s, ForPsk(s, st, sealedStatic, ss), psk)
  }

  /** The responder's ephemeral key and its secrets with the initiator's two keys: what the payload of act 2 is sealed under. */
  function ForAct2(s: Suite, st: Symmetric, re: Key, ee: Key, se: Key): Symmetric {
    MixKey(s, MixKey(s, MixHash(s, st, re), ee), se)
  }

  // ---- the derivations follow it ---------------------------------------------------------------

  /**
   Act 1 carries the static key and the payload sealed in the state of the pattern at that step, and leaves the
   initiator with the chaining key and the transcript that follow; only a failing secret makes it fail.
   */
  lemma Act1FollowsPattern(s: Suite, initiator: Keypair, rs: Key, psk: Key, payload0Rtt: seq<byte>, eph: Keypair, sessionId: uint32)
    requires s.OpensSealed()
    ensures var r := InitHandshakeAct1(s, initiator, rs, psk, payload0Rtt, eph, sessionId);
            match (s.dh(eph.privateKey, rs), s.dh(initiator.privateKey, rs))
            case (Some(es), Some(ss)) =>
              var st := ForStatic(s, rs, eph.publicKey, es);
              var sealedStatic := Sealed(s, st, initiator.publicKey);
              var pl := ForPayload(s, st, sealedStatic, ss, psk);
              var sealedPayload := Sealed(s, pl, payload0Rtt);
              && |sealedStatic| == STATIC_SEAL_SIZE
              && r == Ok((Act1Packet(sessionId, eph.publicKey, sealedStatic, sealedPayload),
                          Pending(eph.privateKey, initiator, rs, sessionId, pl.ck, MixHash(s, pl, sealedPayload).h)))
            case _ => r == Err(DhFailed)
  {
    if s.dh(eph.privateKey, rs).Some? && s.dh(initiator.privateKey, rs).Some? {
      var es, ss := s.dh(eph.privateKey, rs).value, s.dh(initiator.privateKey, rs).value;
      var st := ForStatic(s, rs, eph.publicKey, es);
      HkdfExpands(s, s.hash(PROTOCOL_NAME), es);
      HkdfExpands(s, st.ck, ss);
      HkdfExpands(s, ForPsk(s, st, Sealed(s, st, initiator.publicKey), ss).ck, psk);
    }
  }

  /** The outcome of a step on which a secret or an authentication depends. */
  function Need<T>(o: Option<T>, e: HandshakeError): Result<T, HandshakeError> {
    if o.Some? then Ok(o.value) else Err(e)
  }

  /** The responder by the pattern: what it opens act 1 with, and what it seals act 2 with. */
  function Respond(s: Suite, responder: Keypair, psk: Key, act1: Act1Packet, payloadAct2: seq<byte>, re: Keypair, id: uint32)
    : Result<(Act2Packet, Session, seq<byte>), HandshakeError>
  {
    if act1.sender == 0 then Err(ZeroSessionId) else
    var es :- Need(s.dh(responder.privateKey, act1.ephemeralPub), DhFailed);
    var st := ForStatic(s, responder.publicKey, act1.ephemeralPub, es);
    var plain :- Need(OpenedBy(s, st, act1.encryptedStatic), AuthFailed);
    var peer := Fit(plain, KEY_SIZE);
    var ss :- Need(s.dh(responder.privateKey, peer), DhFailed);
    var pl := ForPayload(s, st, act1.encryptedStatic, ss, psk);
    var payload0Rtt :- Need(OpenedBy(s, pl, act1.encryptedPayload), AuthFailed);
    var ee :- Need(s.dh(re.privateKey, act1.ephemeralPub), DhFailed);
    var se :- Need(s.dh(re.privateKey, peer), DhFailed);
    var last := ForAct2(s, MixHash(s, pl, act1.encryptedPayload), re.publicKey, ee, se);
    var split := s.hmac(last.ck, []);
    Ok((Act2Packet(id, act1.sender, re.publicKey, Sealed(s, last, payloadAct2)),
        Session(Output(s, split, 2), Output(s, split, 1), id, act1.sender, peer), payload0Rtt))
  }

  /** The initiator's last step by the pattern, from what act 1 left it with. */
  function Finish(s: Suite, p: Pending, act2: Act2Packet): Result<(Session, seq<byte>), HandshakeError> {
    if act2.receiver != p.sender then Err(SessionIdMismatch) else
    var ee :- Need(s.dh(p.ephemeralPriv, act2.ephemeralPub), DhFailed);
    var se :- Need(s.dh(p.initiatorStatic.privateKey, act2.ephemeralPub), DhFailed);
    var last := ForAct2(s, Symmetric(p.ck, p.h, ZeroKey()), act2.ephemeralPub, ee, se);
    var payloadAct2 :- Need(OpenedBy(s, last, act2.encryptedPayload), AuthFailed);
    var split := s.hmac(last.ck, []);
    Ok((Session(Output(s, split, 1), Output(s, split, 2), p.sender, act2.sender, p.responderStatic), payloadAct2))
  }

  lemma AnswerFollowsPattern(s: Suite, pl: Symmetric, peer: Key, act1: Act1Packet, payload0Rtt: seq<byte>,
                             payloadAct2: seq<byte>, re: Keypair, id: uint32)
    requires s.dh(re.privateKey, act1.ephemeralPub).Some? && s.dh(re.privateKey, peer).Some?
    ensures var last := ForAct2(s, pl, re.publicKey, s.dh(re.privateKey, act1.ephemeralPub).value, s.dh(re.privateKey, peer).value);
            var split := s.hmac(last.ck, []);
            Answer(s, Transcript(pl.ck, pl.h), peer, act1.ephemeralPub, act1.sender, payload0Rtt, payloadAct2, re, id) ==
            Ok((Act2Packet(id, act1.sender, re.publicKey, Sealed(s, last, payloadAct2)),
                Session(Output(s, split, 2), Output(s, split, 1), id, act1.sender, peer), payload0Rtt))
  {
    var ee, se := s.dh(re.privateKey, act1.ephemeralPub).value, s.dh(re.privateKey, peer).value;
    HkdfExpands(s, pl.ck, ee);
    HkdfExpands(s, MixKey(s, MixHash(s, pl, re.publicKey), ee).ck, se);
    HkdfExpands(s, ForAct2(s, pl, re.publicKey, ee, se).ck, []);
  }

  /** On every packet, the responder answers as the pattern says: every error, every key and every byte. */
  lemma ResponderFollowsPattern(s: Suite, responder: Keypair, psk: Key, act1: Act1Packet, payloadAct2: seq<byte>,
                                re: Keypair, id: uint32)
    ensures ProcessHandshakeAct1(s, responder, psk, act1, payloadAct2, re, id) ==
            Respond(s, responder, psk, act1, payloadAct2, re, id)
  {
    var es := s.dh(responder.privateKey, act1.ephemeralPub);
    if act1.sender != 0 && es.Some? {
      HkdfExpands(s, s.hash(PROTOCOL_NAME), es.value);
      var st := ForStatic(s, responder.publicKey, act1.ephemeralPub, es.value);
      var plain := OpenedBy(s, st, act1.encryptedStatic);
      if plain.Some? {
        var peer: Key := Fit(plain.value, KEY_SIZE);
        var ss := s.dh(responder.privateKey, peer);
        if ss.Some? {
          HkdfExpands(s, st.ck, ss.value);
          HkdfExpands(s, ForPsk(s, st, act1.encryptedStatic, ss.value).ck, psk);
          var pl := ForPayload(s, st, act1.encryptedStatic, ss.value, psk);
          if s.dh(re.privateKey, act1.ephemeralPub).Some? && s.dh(re.privateKey, peer).Some? && OpenedBy(s, pl, act1.encryptedPayload).Some? {
            AnswerFollowsPattern(s, MixHash(s, pl, act1.encryptedPayload), peer, act1,
                                 OpenedBy(s, pl, act1.encryptedPayload).value, payloadAct2, re, id);
          }
        }
      }
    }
  }

  /** On every act 2, the initiator finishes as the pattern says. */
  lemma InitiatorFollowsPattern(s: Suite, p: Pending, act2: Act2Packet)
    ensures FinishHandshake(s, p, act2) == Finish(s, p, act2)
  {
    var ee, se := s.dh(p.ephemeralPriv, act2.ephemeralPub), s.dh(p.initiatorStatic.privateKey, act2.ephemeralPub);
    if ee.Some? && se.Some? {
      var st := Symmetric(p.ck, p.h, ZeroKey());
      HkdfExpands(s, p.ck, ee.value);
      HkdfExpands(s, MixKey(s, MixHash(s, st, act2.ephemeralPub), ee.value).ck, se.value);
      HkdfExpands(s, ForAct2(s, st, act2.ephemeralPub, ee.value, se.value).ck, []);
    }
  }

  // ---- what the pre-shared key decides ------------------------------------------------------------

  /**
   An honest act 1 under one pre-shared key, processed by its responder under another, is refused unless the
   cipher opens under the other key and transcript what was sealed under the first.
   */
  lemma OtherPskExactly(s: Suite, initiator: Keypair, responder: Keypair, psk: Key, other: Key, payload0Rtt: seq<byte>,
                        payloadAct2: seq<byte>, eph: Keypair, re: Keypair, sessionId: uint32, id: uint32)
    requires s.Lawful() && initiator.Genuine(s) && responder.Genuine(s) && eph.Genuine(s) && re.Genuine(s) && sessionId != 0
    ensures var es, ss := s.dh(eph.privateKey, responder.publicKey), s.dh(initiator.privateKey, responder.publicKey);
            es.Some? && ss.Some? &&
            var st := ForStatic(s, responder.publicKey, eph.publicKey, es.value);
            var sealedStatic := Sealed(s, st, initiator.publicKey);
            var ours, theirs := ForPayload(s, st, sealedStatic, ss.value, psk), ForPayload(s, st, sealedStatic, ss.value, other);
            var sent := InitHandshakeAct1(s, initiator, responder.publicKey, psk, payload0Rtt, eph, sessionId);
            && sent.Ok?
            && (ProcessHandshakeAct1(s, responder, other, sent.value.0, payloadAct2, re, id) == Err(AuthFailed)
                <==> OpenedBy(s, theirs, Sealed(s, ours, payload0Rtt)).None?)
  {
    SharedSecret(s, eph, responder);
    SharedSecret(s, initiator, responder);
    SharedSecret(s, re, eph);
    SharedSecret(s, re, initiator);
    Act1FollowsPattern(s, initiator, responder.publicKey, psk, payload0Rtt, eph, sessionId);
    var act1 := InitHandshakeAct1(s, initiator, responder.publicKey, psk, payload0Rtt, eph, sessionId).value.0;
    ResponderFollowsPattern(s, responder, other, act1, payloadAct2, re, id);
  }

  // ---- a suite whose cipher checks keys ---------------------------------------------------------------

  /** Eight bytes of the key and eight of the associated data. */
  function KeyedTag(k: Key, ad: seq<byte>): seq<byte> {
    k[..8] + Fit(ad, 8)
  }

  function StrictOpen(k: Key, sealed: seq<byte>, ad: seq<byte>): Option<seq<byte>> {
    if |sealed| >= TAG_SIZE && sealed[|sealed| - TAG_SIZE..] == KeyedTag(k, ad) then Some(sealed[..|sealed| - TAG_SIZE]) else None
  }

  function StrictHmac(k: seq<byte>, d: seq<byte>): Key {
    if |d| == KEY_SIZE then d else Fit(k, KEY_SIZE)
  }

  const STRICT: Suite := Suite(
    d => Fit(d, KEY_SIZE),
    (k, d) => StrictHmac(k, d),
    k => k,
    (a, b) => Some(AddKeys(a, b)),
    (k, _, p, ad) => p + KeyedTag(k, ad),
    (k, _, c, ad) => StrictOpen(k, c, ad))

  lemma StrictIsLawful()
    ensures STRICT.Lawful()
  {
    forall a: Key, b: Key
      ensures STRICT.dh(a, STRICT.public(b)).Some? && STRICT.dh(a, STRICT.public(b)) == STRICT.dh(b, STRICT.public(a))
    {
      assert AddKeys(a, b) == AddKeys(b, a);
    }
    forall k: Key, n: Nonce, p: seq<byte>, ad: seq<byte>
      ensures |STRICT.seal(k, n, p, ad)| == |p| + TAG_SIZE
      ensures STRICT.open(k, n, STRICT.seal(k, n, p, ad), ad) == Some(p)
    {
      assert (p + KeyedTag(k, ad))[|p|..] == KeyedTag(k, ad) && (p + KeyedTag(k, ad))[..|p|] == p;
    }
  }

  lemma StrictMixing(st: Symmetric, psk: Key)
    ensures MixKeyAndHash(STRICT, st, psk) == Symmetric(psk, st.h, psk)
  {
    assert StrictHmac(st.ck, psk) == psk;
    assert Output(STRICT, psk, 1) == psk && Output(STRICT, psk, 2) == psk && Output(STRICT, psk, 3) == psk;
    assert Fit(st.h + psk, KEY_SIZE) == st.h;
  }

  /**
   In this suite an honest act 1 is refused for every pair of pre-shared keys the tag tells apart, and for no
   other pair: a handshake that forgets the pre-shared key would accept them all.
   */
  lemma PskDecides(initiator: Keypair, responder: Keypair, psk: Key, other: Key, payload0Rtt: seq<byte>,
                   payloadAct2: seq<byte>, eph: Keypair, re: Keypair, sessionId: uint32, id: uint32)
    requires initiator.Genuine(STRICT) && responder.Genuine(STRICT) && eph.Genuine(STRICT) && re.Genuine(STRICT)
    requires sessionId != 0
    ensures var sent := InitHandshakeAct1(STRICT, initiator, responder.publicKey, psk, payload0Rtt, eph, sessionId);
            sent.Ok?
            && (ProcessHandshakeAct1(STRICT, responder, other, sent.value.0, payloadAct2, re, id) == Err(AuthFailed)
                <==> psk[..8] != other[..8])
  {
    StrictIsLawful();
    OtherPskExactly(STRICT, initiator, responder, psk, other, payload0Rtt, payloadAct2, eph, re, sessionId, id);
    var es, ss := STRICT.dh(eph.privateKey, responder.publicKey).value, STRICT.dh(initiator.privateKey, responder.publicKey).value;
    var st := ForStatic(STRICT, responder.publicKey, eph.publicKey, es);
    var before := ForPsk(STRICT, st, Sealed(STRICT, st, initiator.publicKey), ss);
    StrictMixing(before, psk);
    StrictMixing(before, other);
    StrictOpensExactly(psk, other, payload0Rtt, before.h);
  }

  lemma StrictOpensExactly(k: Key, other: Key, p: seq<byte>, ad: Key)
    ensures StrictOpen(other, p + KeyedTag(k, ad), ad).None? <==> k[..8] != other[..8]
  {
    var tag, otherTag := KeyedTag(k, ad), KeyedTag(other, ad);
    assert (p + tag)[|p|..] == tag;
    assert tag[..8] == k[..8] && otherTag[..8] == other[..8];
  }
}
