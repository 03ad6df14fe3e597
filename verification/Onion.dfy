/** Layered encryption of a three-hop circuit (pkg/routing/onion.go). */
module Onion {
  import opened Bytes
  import opened Cell
  import opened Handshake
  import opened Primitives
  import opened Results
  import opened Text

  datatype CircuitError = HopMismatch | HopDhFailed(hop: nat)

  datatype PeelError =
    | PayloadTooSmall | PeelDhFailed | PeelFailed | EmptyLayer | InvalidExitLayer | InvalidRelayLayer
    | OutOfRange  // an index past the plaintext, a run-time fault in the source

  datatype PeelResult =
    | Relay(nextHopPub: Key, innerPayload: seq<byte>)
    | Exit(target: seq<byte>, data: seq<byte>)

  function LayerLabel(layerIndex: nat): seq<byte> {
    AsciiBytes("onion-layer-" + Decimal(layerIndex))
  }

  // ---- the layers -------------------------------------------------------------------------

  /** Exit marker, target and data, each after its 16-bit length. */
  function ExitLayer(target: seq<byte>, payload: seq<byte>): (l: seq<byte>)
    ensures |l| == 5 + |target| + |payload|
  {
    [0x01] + BigEndian(|target|, 2) + target + BigEndian(|payload|, 2) + payload
  }

  /** Relay marker, the next hop's public key, and what that hop is to open. */
  function RelayLayer(nextHopPub: Key, inner: seq<byte>): (l: seq<byte>)
    ensures |l| == 33 + |inner|
  {
    [0x00] + nextHopPub + inner
  }

  function SealLayer(s: Suite, key: Key, layerIndex: nat, layer: seq<byte>): seq<byte> {
    s.seal(key, ConstructNonce(0), layer, LayerLabel(layerIndex))
  }

  /** The public key and the key shared with the client, of one hop. */
  datatype HopKeys = HopKeys(publicKey: Key, sharedKey: Key)

  function Layer3(s: Suite, exit: HopKeys, target: seq<byte>, payload: seq<byte>): seq<byte> {
    SealLayer(s, exit.sharedKey, 3, ExitLayer(target, payload))
  }

  function Layer2(s: Suite, middle: HopKeys, exit: HopKeys, target: seq<byte>, payload: seq<byte>): seq<byte> {
    SealLayer(s, middle.sharedKey, 2, RelayLayer(exit.publicKey, Layer3(s, exit, target, payload)))
  }

  function Layer1(s: Suite, entry: HopKeys, middle: HopKeys, exit: HopKeys, target: seq<byte>, payload: seq<byte>): seq<byte> {
    SealLayer(s, entry.sharedKey, 1, RelayLayer(middle.publicKey, Layer2(s, middle, exit, target, payload)))
  }

  /** The cell EncryptLayeredData encodes. */
  function DataCell(s: Suite, circuitId: uint32, ephPub: Key, entry: HopKeys, middle: HopKeys, exit: HopKeys,
                    streamId: uint32, target: seq<byte>, payload: seq<byte>): OnionCell {
    OnionCell(circuitId, CELL_CMD_RELAY_DATA, streamId, 0, ephPub + Layer1(s, entry, middle, exit, target, payload))
  }

  // ---- peeling ------------------------------------------------------------------------------

  /** What PeelLayer computes. */
  function Peeled(s: Suite, hopPriv: Key, layerIndex: nat, cellPayload: seq<byte>): Result<PeelResult, PeelError> {
    if |cellPayload| < KEY_SIZE + 16 then Err(PayloadTooSmall) else
    var clientEphPub := cellPayload[..32];
    match s.dh(hopPriv, clientEphPub)
    case None => Err(PeelDhFailed)
    case Some(sharedKey) =>
      match s.open(sharedKey, ConstructNonce(0), cellPayload[32..], LayerLabel(layerIndex))
      case None => Err(PeelFailed)
      case Some(plaintext) => ReadLayer(clientEphPub, plaintext)
  }

  function ReadLayer(clientEphPub: Key, plaintext: seq<byte>): Result<PeelResult, PeelError> {
    if |plaintext| < 1 then Err(EmptyLayer)
    else if plaintext[0] == 0x01 then ReadExitLayer(plaintext)
    else if |plaintext| < 33 then Err(InvalidRelayLayer)
    else Ok(Relay(plaintext[1..33], clientEphPub + plaintext[33..]))
  }

  function ReadExitLayer(plaintext: seq<byte>): Result<PeelResult, PeelError> {
    if |plaintext| < 5 then Err(InvalidExitLayer) else
    var targetLen := ReadUint16(plaintext, 1);
    var dataOffset := 3 + targetLen;
    if dataOffset + 2 > |plaintext| then Err(OutOfRange) else
    var dataLen := ReadUint16(plaintext, dataOffset);
    if dataOffset + 2 + dataLen > |plaintext| then Err(OutOfRange) else
    Ok(Exit(plaintext[3..3 + targetLen], plaintext[dataOffset + 2..dataOffset + 2 + dataLen]))
  }

  method PeelLayer(s: Suite, hopPriv: Key, layerIndex: nat, cellPayload: array<byte>) returns (r: Result<PeelResult, PeelError>)
    ensures r == Peeled(s, hopPriv, layerIndex, cellPayload[..])
  {
    if cellPayload.Length < KEY_SIZE + 16 {
      return Err(PayloadTooSmall);
    }
    var clientEphPub: Key := cellPayload[..32];
    var ciphertext := cellPayload[32..];
    assert cellPayload[..][..32] == clientEphPub && cellPayload[..][32..] == ciphertext;
    var sharedKey := s.dh(hopPriv, clientEphPub);
    if sharedKey.None? {
      return Err(PeelDhFailed);
    }
    var plain := s.open(sharedKey.value, ConstructNonce(0), ciphertext, LayerLabel(layerIndex));
    if plain.None? {
      return Err(PeelFailed);
    }
    var plaintext := plain.value;
    if |plaintext| < 1 {
      return Err(EmptyLayer);
    }
    if plaintext[0] == 0x01 {
      return ReadExitLayer(plaintext);
    }
    if |plaintext| < 1 + KEY_SIZE {
      return Err(InvalidRelayLayer);
    }
    var nextPayload := new byte[KEY_SIZE + |plaintext| - 33](_ => 0);
    CopyInto(nextPayload, 0, clientEphPub);
    assert nextPayload[..32] == clientEphPub;
    CopyInto(nextPayload, 32, plaintext[33..]);
    assert nextPayload[..] == nextPayload[..nextPayload.Length] == clientEphPub + plaintext[33..];
    r := Ok(Relay(plaintext[1..33], nextPayload[..]));
  }

  /** What a hop refuses, and with which error. */
  lemma PeelRefusals(s: Suite, hopPriv: Key, layerIndex: nat, cellPayload: seq<byte>)
    ensures var r := Peeled(s, hopPriv, layerIndex, cellPayload);
            && (r == Err(PayloadTooSmall) <==> |cellPayload| < 48)
            && (|cellPayload| >= 48 ==>
                  var key := s.dh(hopPriv, cellPayload[..32]);
                  && (r == Err(PeelDhFailed) <==> key.None?)
                  && (key.Some? ==>
                        var plain := s.open(key.value, ConstructNonce(0), cellPayload[32..], LayerLabel(layerIndex));
                        && (r == Err(PeelFailed) <==> plain.None?)
                        && (plain.Some? ==>
                              && (r == Err(EmptyLayer) <==> |plain.value| == 0)
                              && (r == Err(InvalidExitLayer) <==> 0 < |plain.value| < 5 && plain.value[0] == 0x01)
                              && (r == Err(InvalidRelayLayer) <==> 0 < |plain.value| < 33 && plain.value[0] != 0x01))))
  {}

  // ---- sizes ----------------------------------------------------------------------------------

  const MAX_ONION_DATA: nat := 1255

  lemma LayerSizes(s: Suite, entry: HopKeys, middle: HopKeys, exit: HopKeys, target: seq<byte>, payload: seq<byte>)
    requires s.OpensSealed()
    ensures |Layer3(s, exit, target, payload)| == 21 + |target| + |payload|
    ensures |Layer2(s, middle, exit, target, payload)| == 70 + |target| + |payload|
    ensures |Layer1(s, entry, middle, exit, target, payload)| == 119 + |target| + |payload|
  {}

  /** The cell holds the layers exactly when target and payload have at most 1255 bytes together. */
  lemma FitsExactly(s: Suite, circuitId: uint32, ephPub: Key, entry: HopKeys, middle: HopKeys, exit: HopKeys,
                    streamId: uint32, target: seq<byte>, payload: seq<byte>)
    requires s.OpensSealed()
    ensures |DataCell(s, circuitId, ephPub, entry, middle, exit, streamId, target, payload).payload| <= MAX_CELL_PAYLOAD_SIZE
       <==> |target| + |payload| <= MAX_ONION_DATA
  {
    LayerSizes(s, entry, middle, exit, target, payload);
  }

  /** In an exit layer that fits, both 16-bit length fields hold the lengths themselves. */
  lemma LengthFieldsHold(target: seq<byte>, payload: seq<byte>)
    requires |target| + |payload| <= MAX_ONION_DATA
    ensures ExitLayer(target, payload)[0] == 0x01
    ensures ReadUint16(ExitLayer(target, payload), 1) == |target|
    ensures ReadUint16(ExitLayer(target, payload), 3 + |target|) == |payload|
    ensures ExitLayer(target, payload)[3..3 + |target|] == target
    ensures ExitLayer(target, payload)[5 + |target|..] == payload
  {
    var l := ExitLayer(target, payload);
    BigEndian16(|target|);
    BigEndian16(|payload|);
    assert l[1..3] == BigEndian(|target|, 2);
    assert l[3 + |target|..3 + |target| + 2] == BigEndian(|payload|, 2);
  }

  // ---- the round trip -----------------------------------------------------------------------------

  lemma ExitLayerReadsBack(ephPub: Key, target: seq<byte>, payload: seq<byte>)
    requires |target| + |payload| <= MAX_ONION_DATA
    ensures ReadLayer(ephPub, ExitLayer(target, payload)) == Ok(Exit(target, payload))
  {
    LengthFieldsHold(target, payload);
    var l := ExitLayer(target, payload);
    assert l[5 + |target|..5 + |target| + |payload|] == l[5 + |target|..];
  }

  lemma RelayLayerReadsBack(ephPub: Key, nextHopPub: Key, inner: seq<byte>)
    ensures RelayLayer(nextHopPub, inner)[0] == 0x00 && RelayLayer(nextHopPub, inner)[1..33] == nextHopPub
    ensures ReadLayer(ephPub, RelayLayer(nextHopPub, inner)) == Ok(Relay(nextHopPub, ephPub + inner))
  {
    var l := RelayLayer(nextHopPub, inner);
    assert l[1..33] == nextHopPub && l[33..] == inner;
  }

  /** A hop that shares the key the layer was sealed with reads the layer. */
  lemma PeelReads(s: Suite, hopPriv: Key, layerIndex: nat, ephPub: Key, sharedKey: Key, layer: seq<byte>)
    requires s.OpensSealed() && s.dh(hopPriv, ephPub) == Some(sharedKey)
    ensures Peeled(s, hopPriv, layerIndex, ephPub + SealLayer(s, sharedKey, layerIndex, layer)) == ReadLayer(ephPub, layer)
  {
    var sealed := SealLayer(s, sharedKey, layerIndex, layer);
    assert (ephPub + sealed)[..32] == ephPub && (ephPub + sealed)[32..] == sealed;
  }

  /** The keys of a hop whose private key is hopPriv, as Build3HopCircuit derives them. */
  ghost predicate Derived(s: Suite, hop: HopKeys, hopPriv: Key, eph: Keypair) {
    hop.publicKey == s.public(hopPriv) && s.dh(eph.privateKey, hop.publicKey) == Some(hop.sharedKey)
  }

  /**
   For any circuit, any target and payload that fit, and any padding: decoding the cell and peeling the
   three layers with the hops' private keys yields hop 2, then hop 3, then exactly target and payload.
   */
  lemma OnionRoundTrip(s: Suite, circuitId: uint32, eph: Keypair, priv1: Key, priv2: Key, priv3: Key,
                       entry: HopKeys, middle: HopKeys, exit: HopKeys, streamId: uint32,
                       target: seq<byte>, payload: seq<byte>, noise: Noise)
    requires s.Lawful() && eph.Genuine(s)
    requires Derived(s, entry, priv1, eph) && Derived(s, middle, priv2, eph) && Derived(s, exit, priv3, eph)
    requires |target| + |payload| <= MAX_ONION_DATA
    ensures var c := DataCell(s, circuitId, eph.publicKey, entry, middle, exit, streamId, target, payload);
            && |c.payload| <= MAX_CELL_PAYLOAD_SIZE
            && var received := ParseCell(CellBytes(c, noise));
            && received.Ok? && received.value.payload == c.payload
            && received.value.circuitId == circuitId && received.value.command == 0x03 && received.value.digest == 0
            && c.payload[..32] == eph.publicKey
            && received.value.streamId == streamId % 0x100_0000
            && var hop1 := Peeled(s, priv1, 1, received.value.payload);
            && hop1.Ok? && hop1.value.Relay? && hop1.value.nextHopPub == middle.publicKey
            && var hop2 := Peeled(s, priv2, 2, hop1.value.innerPayload);
            && hop2.Ok? && hop2.value.Relay? && hop2.value.nextHopPub == exit.publicKey
            && Peeled(s, priv3, 3, hop2.value.innerPayload) == Ok(Exit(target, payload))
  {
    FitsExactly(s, circuitId, eph.publicKey, entry, middle, exit, streamId, target, payload);
    CellRoundTrip(DataCell(s, circuitId, eph.publicKey, entry, middle, exit, streamId, target, payload), noise);
    var l3, l2 := Layer3(s, exit, target, payload), Layer2(s, middle, exit, target, payload);
    SharedSecret(s, eph, Keypair(priv1, entry.publicKey));
    SharedSecret(s, eph, Keypair(priv2, middle.publicKey));
    SharedSecret(s, eph, Keypair(priv3, exit.publicKey));
    PeelReads(s, priv1, 1, eph.publicKey, entry.sharedKey, RelayLayer(middle.publicKey, l2));
    RelayLayerReadsBack(eph.publicKey, middle.publicKey, l2);
    PeelReads(s, priv2, 2, eph.publicKey, middle.sharedKey, RelayLayer(exit.publicKey, l3));
    RelayLayerReadsBack(eph.publicKey, exit.publicKey, l3);
    PeelReads(s, priv3, 3, eph.publicKey, exit.sharedKey, ExitLayer(target, payload));
    ExitLayerReadsBack(eph.publicKey, target, payload);
  }

  // ---- circuits ---------------------------------------------------------------------------------------

  class OnionHop {
    const hopIndex: int
    const nodeId: string
    const publicKey: Key
    var sharedKey: Key

    constructor (hopIndex: int, nodeId: string, publicKey: Key)
      ensures this.hopIndex == hopIndex && this.nodeId == nodeId && this.publicKey == publicKey
    {
      this.hopIndex, this.nodeId, this.publicKey := hopIndex, nodeId, publicKey;
      sharedKey := ZeroKey();
    }

    function Keys(): HopKeys
      reads this
    {
      HopKeys(publicKey, sharedKey)
    }
  }

  class OnionCircuit {
    const circuitId: uint32
    const entry: OnionHop
    const middle: OnionHop
    const exit: OnionHop
    const eph: Keypair

    constructor (circuitId: uint32, entry: OnionHop, middle: OnionHop, exit: OnionHop, eph: Keypair)
      ensures this.circuitId == circuitId && this.eph == eph
      ensures this.entry == entry && this.middle == middle && this.exit == exit
    {
      this.circuitId, this.entry, this.middle, this.exit, this.eph := circuitId, entry, middle, exit, eph;
    }

    /** Succeeds exactly up to the size bound, always with a cell of the fixed size. */
    method EncryptLayeredData(s: Suite, streamId: uint32, target: seq<byte>, payload: seq<byte>, noise: Noise)
      returns (r: Result<array<byte>, CellError>)
      requires s.OpensSealed()
      ensures r.Ok? <==> |target| + |payload| <= MAX_ONION_DATA
      ensures r.Err? ==> r == Err(PayloadOverflow)
      ensures r.Ok? ==>
        && fresh(r.value) && r.value.Length == ONION_CELL_FIXED_SIZE
        && var c := DataCell(s, circuitId, eph.publicKey, entry.Keys(), middle.Keys(), exit.Keys(), streamId, target, payload);
        && |c.payload| <= MAX_CELL_PAYLOAD_SIZE && r.value[..] == CellBytes(c, noise)
    {
      var cellPayload := SealLayers(s, target, payload);
      FitsExactly(s, circuitId, eph.publicKey, entry.Keys(), middle.Keys(), exit.Keys(), streamId, target, payload);
      r := EncodeCell(OnionCell(circuitId, CELL_CMD_RELAY_DATA, streamId, 0, cellPayload[..]), noise);
    }

    /** The three layers, innermost first, and the client's ephemeral key in front. */
    method SealLayers(s: Suite, target: seq<byte>, payload: seq<byte>) returns (buf: array<byte>)
      ensures fresh(buf)
      ensures buf[..] == eph.publicKey + Layer1(s, entry.Keys(), middle.Keys(), exit.Keys(), target, payload)
    {
      var label1, label2, label3 := AsciiBytes("onion-layer-1"), AsciiBytes("onion-layer-2"), AsciiBytes("onion-layer-3");
      assert label1 == LayerLabel(1) && label2 == LayerLabel(2) && label3 == LayerLabel(3) by {
        LabelTexts();
      }
      ghost var e, m, x := entry.Keys(), middle.Keys(), exit.Keys();
      var layer3 := FillExitLayer(target, payload);
      var layer3Cipher := s.seal(exit.sharedKey, ConstructNonce(0), layer3[..], label3);
      assert layer3Cipher == Layer3(s, x, target, payload);
      var layer2 := FillRelayLayer(exit.publicKey, layer3Cipher);
      var layer2Cipher := s.seal(middle.sharedKey, ConstructNonce(0), layer2[..], label2);
      assert layer2Cipher == Layer2(s, m, x, target, payload);
      var layer1 := FillRelayLayer(middle.publicKey, layer2Cipher);
      var layer1Cipher := s.seal(entry.sharedKey, ConstructNonce(0), layer1[..], label1);
      assert layer1Cipher == Layer1(s, e, m, x, target, payload);
      buf := new byte[KEY_SIZE + |layer1Cipher|](_ => 0);
      CopyInto(buf, 0, eph.publicKey);
      CopyInto(buf, 32, layer1Cipher);
      assert buf[..] == buf[..buf.Length];
    }
  }

  /** The label written out for sealing is the one formatted for peeling. */
  lemma LabelTexts()
    ensures AsciiBytes("onion-layer-1") == LayerLabel(1)
    ensures AsciiBytes("onion-layer-2") == LayerLabel(2)
    ensures AsciiBytes("onion-layer-3") == LayerLabel(3)
  {
    OneDigit(1);
    OneDigit(2);
    OneDigit(3);
  }

  lemma OneDigit(n: nat)
    requires n < 10
    ensures Decimal(n) == [DigitChar(n)]
  {}

  method FillExitLayer(target: seq<byte>, payload: seq<byte>) returns (buf: array<byte>)
    ensures fresh(buf) && buf[..] == ExitLayer(target, payload)
  {
    buf := new byte[1 + 2 + |target| + 2 + |payload|](_ => 0);
    PutByte(buf, 0, 0x01);
    CopyInto(buf, 1, BigEndian(|target|, 2));
    CopyInto(buf, 3, target);
    var dataOffset := 3 + |target|;
    CopyInto(buf, dataOffset, BigEndian(|payload|, 2));
    CopyInto(buf, dataOffset + 2, payload);
    assert buf[..] == buf[..buf.Length];
  }

  method FillRelayLayer(nextHopPub: Key, inner: seq<byte>) returns (buf: array<byte>)
    ensures fresh(buf) && buf[..] == RelayLayer(nextHopPub, inner)
  {
    buf := new byte[1 + KEY_SIZE + |inner|](_ => 0);
    PutByte(buf, 0, 0x00);
    CopyInto(buf, 1, nextHopPub);
    CopyInto(buf, 33, inner);
    assert buf[..] == buf[..buf.Length];
  }

  /** Sets each hop's shared key in turn; a failure leaves the keys set so far. */
  method Build3HopCircuit(s: Suite, circuitId: uint32, entry: OnionHop?, middle: OnionHop?, exit: OnionHop?, eph: Keypair)
    returns (r: Result<OnionCircuit, CircuitError>)
    modifies if entry == null || middle == null || exit == null then {} else {entry, middle, exit}
    ensures entry == null || middle == null || exit == null ==> r == Err(HopMismatch)
    ensures entry != null && middle != null && exit != null ==>
      match (s.dh(eph.privateKey, entry.publicKey), s.dh(eph.privateKey, middle.publicKey), s.dh(eph.privateKey, exit.publicKey))
      case (None, _, _) => r == Err(HopDhFailed(1))
      case (Some(_), None, _) => r == Err(HopDhFailed(2))
      case (Some(_), Some(_), None) => r == Err(HopDhFailed(3))
      case (Some(k1), Some(k2), Some(k3)) =>
        && r.Ok? && fresh(r.value) && r.value.circuitId == circuitId && r.value.eph == eph
        && r.value.entry == entry && r.value.middle == middle && r.value.exit == exit
        && entry.sharedKey == k1 && middle.sharedKey == k2 && exit.sharedKey == k3
  {
    if entry == null || middle == null || exit == null {
      return Err(HopMismatch);
    }
    var k1 := s.dh(eph.privateKey, entry.publicKey);
    if k1.None? {
      return Err(HopDhFailed(1));
    }
    entry.sharedKey := k1.value;
    var k2 := s.dh(eph.privateKey, middle.publicKey);
    if k2.None? {
      return Err(HopDhFailed(2));
    }
    middle.sharedKey := k2.value;
    var k3 := s.dh(eph.privateKey, exit.publicKey);
    if k3.None? {
      return Err(HopDhFailed(3));
    }
    exit.sharedKey := k3.value;
    var c := new OnionCircuit(circuitId, entry, middle, exit, eph);
    r := Ok(c);
  }
}
