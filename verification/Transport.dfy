/** Established session keys (TransportCipherState of pkg/crypto/noise.go). */
module Transport {
  import opened Bytes
  import opened Primitives
  import opened Replay

  /** What a completed handshake hands to one side. */
  datatype Session = Session(
    sendKey: Key,
    recvKey: Key,
    localSessionId: uint32,
    remoteSessionId: uint32,
    peerStaticPub: Key)

  /** The two ends of one session: what one sends with, the other receives with. */
  ghost predicate Connected(a: Session, b: Session) {
    && a.sendKey == b.recvKey && a.recvKey == b.sendKey
    && a.localSessionId == b.remoteSessionId && a.remoteSessionId == b.localSessionId
  }

  class TransportCipherState {
    var sendKey: Key
    var recvKey: Key
    var sendNonce: uint64
    const localSessionId: uint32
    const remoteSessionId: uint32
    const peerStaticPub: Key
    const createdAt: int
    const antiReplay: AntiReplayWindow

    constructor (s: Session, now: int)
      ensures sendKey == s.sendKey && recvKey == s.recvKey && sendNonce == 0
      ensures localSessionId == s.localSessionId && remoteSessionId == s.remoteSessionId
      ensures peerStaticPub == s.peerStaticPub && createdAt == now
      ensures fresh(antiReplay) && fresh(antiReplay.bitmap)
      ensures antiReplay.Valid() && antiReplay.accepted == {}
    {
      sendKey, recvKey, sendNonce := s.sendKey, s.recvKey, 0;
      localSessionId, remoteSessionId := s.localSessionId, s.remoteSessionId;
      peerStaticPub, createdAt := s.peerStaticPub, now;
      antiReplay := new AntiReplayWindow();
    }

    /** Wipe(SendKey), Wipe(RecvKey). */
    method WipeKeys()
      modifies this`sendKey, this`recvKey
      ensures sendKey == ZeroKey() && recvKey == ZeroKey()
    {
      sendKey, recvKey := ZeroKey(), ZeroKey();
    }
  }
}
