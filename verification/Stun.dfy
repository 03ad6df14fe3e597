/** STUN messages (pkg/nat/stun.go; RFC 8489 sections 5, 14 and 14.2). */
module Stun {
  import opened Bits
  import opened Bytes
  import opened Results

  const STUN_MAGIC_COOKIE: uint32 := 0x2112A442
  const STUN_HEADER_SIZE: nat := 20
  const ATTR_MAPPED_ADDRESS: uint16 := 0x0001
  const ATTR_XOR_MAPPED_ADDRESS: uint16 := 0x0020
  const FAMILY_IPV4: byte := 0x01
  const FAMILY_IPV6: byte := 0x02
  /** The upper half of the cookie, uint16(STUNMagicCookie >> 16). */
  const COOKIE_HIGH: uint16 := 0x2112

  type TransactionId = t: seq<byte> | |t| == 12 witness seq(12, _ => 0)
  type Attributes = map<uint16, seq<byte>>

  datatype Message = Message(
    msgType: uint16, length: uint16, magicCookie: uint32, transactionId: TransactionId, attributes: Attributes)

  datatype StunError = InvalidHeader | AttributeNotFound | UnsupportedFamily

  // ---- attributes on the wire ----------------------------------------------------------------

  /** Bytes up to the next 4-byte boundary. */
  function Pad(n: nat): nat {
    if n % 4 == 0 then 0 else 4 - n % 4
  }

  /** The formula of the source. */
  lemma PadFormula(n: nat)
    ensures (4 - n % 4) % 4 == Pad(n)
  {}

  function Zeros(n: nat): (z: seq<byte>)
    ensures |z| == n
  {
    seq(n, _ => 0)
  }

  function AttributeBytes(t: uint16, v: seq<byte>): (bs: seq<byte>)
    ensures |bs| == 4 + |v| + Pad(|v|)
  {
    BigEndian(t, 2) + BigEndian(|v|, 2) + v + Zeros(Pad(|v|))
  }

  /** The attributes one after the other, in the given order. */
  function AttributesBytes(order: seq<uint16>, attrs: Attributes): seq<byte>
    requires forall t :: t in order ==> t in attrs
  {
    if |order| == 0 then [] else AttributeBytes(order[0], attrs[order[0]]) + AttributesBytes(order[1..], attrs)
  }

  /** An order in which the iteration over the map may visit its keys. */
  ghost predicate Enumerates(order: seq<uint16>, attrs: Attributes) {
    && (forall t :: t in order <==> t in attrs)
    && (forall i, j :: 0 <= i < j < |order| ==> order[i] != order[j])
  }

  function MessageBytes(m: Message, order: seq<uint16>): seq<byte>
    requires forall t :: t in order ==> t in m.attributes
  {
    var attrBytes := AttributesBytes(order, m.attributes);
    BigEndian(m.msgType, 2) + BigEndian(|attrBytes|, 2) + BigEndian(m.magicCookie, 4) + m.transactionId + attrBytes
  }

  /** The attribute loop of the decoder, from `offset` on. */
  function DecodeAttributes(raw: seq<byte>, offset: nat, end: nat, attrs: Attributes): Attributes
    requires end <= |raw|
    decreases if offset < end then end - offset else 0
  {
    if offset + 4 > end then attrs else
    var t, len := ReadUint16(raw, offset), ReadUint16(raw, offset + 2);
    if offset + 4 + len > end then attrs
    else DecodeAttributes(raw, offset + 4 + len + Pad(len), end, attrs[t := raw[offset + 4..offset + 4 + len]])
  }

  function ParseStun(raw: seq<byte>): Result<Message, StunError> {
    if |raw| < STUN_HEADER_SIZE then Err(InvalidHeader)
    else if ReadUint32(raw, 4) != STUN_MAGIC_COOKIE then Err(InvalidHeader)
    else if |raw| < STUN_HEADER_SIZE + ReadUint16(raw, 2) then Err(InvalidHeader)
    else
      Ok(Message(ReadUint16(raw, 0), ReadUint16(raw, 2), ReadUint32(raw, 4), raw[8..20],
                 DecodeAttributes(raw, STUN_HEADER_SIZE, STUN_HEADER_SIZE + ReadUint16(raw, 2), map[])))
  }

  // ---- reading back one attribute ------------------------------------------------------------------

  /** At the start of an attribute whose value fits in 16 bits, type, length and value read back. */
  lemma AttributeReadsBack(raw: seq<byte>, offset: nat, t: uint16, v: seq<byte>, rest: seq<byte>)
    requires offset <= |raw| && raw[offset..] == AttributeBytes(t, v) + rest && |v| < 0x1_0000
    ensures ReadUint16(raw, offset) == t && ReadUint16(raw, offset + 2) == |v|
    ensures raw[offset + 4..offset + 4 + |v|] == v
    ensures raw[offset + 4 + |v| + Pad(|v|)..] == rest
  {
    var bs := AttributeBytes(t, v);
    assert raw[offset..offset + |bs|] == bs;
    assert raw[offset..offset + 2] == bs[0..2] == BigEndian(t, 2);
    assert raw[offset + 2..offset + 4] == bs[2..4] == BigEndian(|v|, 2);
    BigEndian16(t);
    BigEndian16(|v|);
  }

  lemma PadAligns(n: nat)
    ensures (4 + n + Pad(n)) % 4 == 0
  {}

  lemma SumAligned(a: nat, b: nat)
    requires a % 4 == 0 && b % 4 == 0
    ensures (a + b) % 4 == 0
  {}

  lemma {:induction false} AttributesAligned(order: seq<uint16>, attrs: Attributes)
    requires forall t :: t in order ==> t in attrs
    ensures |AttributesBytes(order, attrs)| % 4 == 0
  {
    if |order| > 0 {
      AttributesAligned(order[1..], attrs);
      PadAligns(|attrs[order[0]]|);
      SumAligned(|AttributeBytes(order[0], attrs[order[0]])|, |AttributesBytes(order[1..], attrs)|);
    }
  }

  /** One round of the decoder's loop over an attribute that reads back. */
  lemma DecodeOne(raw: seq<byte>, offset: nat, end: nat, t: uint16, v: seq<byte>, rest: seq<byte>, acc: Attributes)
    requires offset <= end <= |raw| && raw[offset..] == AttributeBytes(t, v) + rest && |v| < 0x1_0000
    ensures var next := offset + |AttributeBytes(t, v)|;
            && next <= |raw| && raw[next..] == rest
            && DecodeAttributes(raw, offset, end, acc)
            == if offset + 4 + |v| <= end then DecodeAttributes(raw, next, end, acc[t := v]) else acc
  {
    AttributeReadsBack(raw, offset, t, v, rest);
  }

  /** The attributes with keys in the list. */
  function Selected(order: seq<uint16>, attrs: Attributes): Attributes {
    map t | t in order && t in attrs :: attrs[t]
  }

  ghost predicate ValuesFit(order: seq<uint16>, attrs: Attributes) {
    forall t :: t in order && t in attrs ==> |attrs[t]| < 0x1_0000
  }

  /** Decoding what was encoded, from any point on, adds the attributes that are left. */
  lemma {:induction false} DecodesAll(raw: seq<byte>, offset: nat, order: seq<uint16>, attrs: Attributes, acc: Attributes)
    requires forall t :: t in order ==> t in attrs
    requires ValuesFit(order, attrs)
    requires offset <= |raw| && raw[offset..] == AttributesBytes(order, attrs)
    ensures DecodeAttributes(raw, offset, |raw|, acc) == acc + Selected(order, attrs)
    decreases |order|
  {
    if |order| > 0 {
      var t := order[0];
      DecodeOne(raw, offset, |raw|, t, attrs[t], AttributesBytes(order[1..], attrs), acc);
      DecodesAll(raw, offset + |AttributeBytes(t, attrs[t])|, order[1..], attrs, acc[t := attrs[t]]);
      SelectedFirst(order, attrs, acc);
    }
  }

  lemma SelectedFirst(order: seq<uint16>, attrs: Attributes, acc: Attributes)
    requires |order| > 0 && order[0] in attrs
    ensures acc[order[0] := attrs[order[0]]] + Selected(order[1..], attrs) == acc + Selected(order, attrs)
  {
    assert order == [order[0]] + order[1..];
  }

  /** Cut short on a 4-byte boundary, the decoder never reaches the last attribute. */
  lemma {:induction false} CutShortMissesLast(raw: seq<byte>, offset: nat, end: nat, order: seq<uint16>, attrs: Attributes,
                                              acc: Attributes)
    requires forall t :: t in order ==> t in attrs
    requires ValuesFit(order, attrs) && forall i, j :: 0 <= i < j < |order| ==> order[i] != order[j]
    requires offset <= end < |raw| && (end - offset) % 4 == 0 && raw[offset..] == AttributesBytes(order, attrs)
    ensures |order| > 0
    ensures order[|order| - 1] !in acc ==> order[|order| - 1] !in DecodeAttributes(raw, offset, end, acc)
    decreases |order|
  {
    var t, last := order[0], order[|order| - 1];
    var next := offset + |AttributeBytes(t, attrs[t])|;
    DecodeOne(raw, offset, end, t, attrs[t], AttributesBytes(order[1..], attrs), acc);
    if offset + 4 + |attrs[t]| <= end {
      PadAligns(|attrs[t]|);
      NextStaysInside(end - offset, 4 + |attrs[t]|, Pad(|attrs[t]|));
      CutShortMissesLast(raw, next, end, order[1..], attrs, acc[t := attrs[t]]);
      assert order[1..][|order| - 2] == last;
    }
  }

  /** On a 4-byte boundary, padding never leaves a window the value fits in. */
  lemma NextStaysInside(window: nat, size: nat, pad: nat)
    requires window % 4 == 0 && (size + pad) % 4 == 0 && pad < 4 && size <= window
    ensures size + pad <= window && (window - (size + pad)) % 4 == 0
  {}

  /** A decoded value always has a length that fits in 16 bits. */
  lemma {:induction false} DecodedValuesFit(raw: seq<byte>, offset: nat, end: nat, acc: Attributes)
    requires end <= |raw| && forall t :: t in acc ==> |acc[t]| < 0x1_0000
    ensures forall t :: t in DecodeAttributes(raw, offset, end, acc) ==>
      |DecodeAttributes(raw, offset, end, acc)[t]| < 0x1_0000
    decreases if offset < end then end - offset else 0
  {
    if offset + 4 <= end {
      var t, len := ReadUint16(raw, offset), ReadUint16(raw, offset + 2);
      if offset + 4 + len <= end {
        var acc' := acc[t := raw[offset + 4..offset + 4 + len]];
        DecodedValuesFit(raw, offset + 4 + len + Pad(len), end, acc');
        assert DecodeAttributes(raw, offset, end, acc) == DecodeAttributes(raw, offset + 4 + len + Pad(len), end, acc');
      }
    }
  }

  // ---- whole messages ------------------------------------------------------------------------------------

  lemma HeaderReadsBack(m: Message, order: seq<uint16>)
    requires forall t :: t in order ==> t in m.attributes
    ensures var raw, body := MessageBytes(m, order), AttributesBytes(order, m.attributes);
            && |raw| == STUN_HEADER_SIZE + |body|
            && ReadUint16(raw, 0) == m.msgType && ReadUint16(raw, 2) == |body| % 0x1_0000
            && ReadUint32(raw, 4) == m.magicCookie && raw[8..20] == m.transactionId
            && raw[STUN_HEADER_SIZE..] == body
  {
    var raw, body := MessageBytes(m, order), AttributesBytes(order, m.attributes);
    assert raw[0..2] == BigEndian(m.msgType, 2) && raw[2..4] == BigEndian(|body|, 2);
    assert raw[4..8] == BigEndian(m.magicCookie, 4);
    BigEndian16(m.msgType);
    BigEndian32(m.magicCookie);
    Pow256Values();
    BigEndianRoundTrip(|body|, 2);
  }

  lemma {:induction false} ShortBodyShortValues(order: seq<uint16>, attrs: Attributes)
    requires forall t :: t in order ==> t in attrs
    ensures forall t :: t in order ==> |attrs[t]| < |AttributesBytes(order, attrs)|
  {
    if |order| > 0 {
      ShortBodyShortValues(order[1..], attrs);
      assert order == [order[0]] + order[1..];
    }
  }

  /** What the decoder makes of an encoded message. */
  lemma ParseOfEncoded(m: Message, order: seq<uint16>)
    requires forall t :: t in order ==> t in m.attributes
    ensures var raw, body := MessageBytes(m, order), AttributesBytes(order, m.attributes);
            var length := |body| % 0x1_0000;
            && STUN_HEADER_SIZE + length <= |raw|
            && ParseStun(raw)
            == if m.magicCookie != STUN_MAGIC_COOKIE then Err(InvalidHeader)
               else Ok(Message(m.msgType, length, m.magicCookie, m.transactionId,
                               DecodeAttributes(raw, STUN_HEADER_SIZE, STUN_HEADER_SIZE + length, map[])))
  {
    HeaderReadsBack(m, order);
  }

  /** The same message, but for its length field. */
  predicate Restores(r: Result<Message, StunError>, m: Message) {
    r.Ok? && r.value.(length := m.length) == m
  }

  /**
   For every message and every order in which its map may be visited, decoding the encoding gives type,
   transaction ID and the same attributes exactly when the cookie is right and the encoded attributes
   have at most 65535 bytes.
   */
  lemma StunRoundTrip(m: Message, order: seq<uint16>)
    requires Enumerates(order, m.attributes)
    ensures Restores(ParseStun(MessageBytes(m, order)), m)
       <==> m.magicCookie == STUN_MAGIC_COOKIE && |AttributesBytes(order, m.attributes)| <= 0xFFFF
  {
    ParseOfEncoded(m, order);
    AttributesDecodeExactly(m, order);
  }

  lemma AttributesDecodeExactly(m: Message, order: seq<uint16>)
    requires Enumerates(order, m.attributes)
    ensures var raw, body := MessageBytes(m, order), AttributesBytes(order, m.attributes);
            var end := STUN_HEADER_SIZE + |body| % 0x1_0000;
            && end <= |raw|
            && (DecodeAttributes(raw, STUN_HEADER_SIZE, end, map[]) == m.attributes <==> |body| <= 0xFFFF)
  {
    var length := |AttributesBytes(order, m.attributes)|;
    HeaderReadsBack(m, order);
    BodyDecodesExactly(MessageBytes(m, order), order, m.attributes, length, STUN_HEADER_SIZE + length % 0x1_0000);
  }

  lemma BodyDecodesExactly(raw: seq<byte>, order: seq<uint16>, attrs: Attributes, length: nat, end: nat)
    requires Enumerates(order, attrs) && length == |AttributesBytes(order, attrs)|
    requires STUN_HEADER_SIZE <= |raw| && raw[STUN_HEADER_SIZE..] == AttributesBytes(order, attrs)
    requires end == STUN_HEADER_SIZE + length % 0x1_0000
    ensures end <= |raw|
    ensures DecodeAttributes(raw, STUN_HEADER_SIZE, end, map[]) == attrs <==> length <= 0xFFFF
  {
    if length <= 0xFFFF {
      assert end == |raw|;
      WholeBodyDecodes(raw, order, attrs);
    } else {
      AttributesAligned(order, attrs);
      Aligned16(length);
      TruncatedBodyDiffers(raw, end, order, attrs);
    }
  }

  lemma Aligned16(n: nat)
    requires n % 4 == 0
    ensures (n % 0x1_0000) % 4 == 0
  {}

  lemma WholeBodyDecodes(raw: seq<byte>, order: seq<uint16>, attrs: Attributes)
    requires Enumerates(order, attrs) && |AttributesBytes(order, attrs)| <= 0xFFFF
    requires STUN_HEADER_SIZE <= |raw| && raw[STUN_HEADER_SIZE..] == AttributesBytes(order, attrs)
    ensures DecodeAttributes(raw, STUN_HEADER_SIZE, |raw|, map[]) == attrs
  {
    ShortBodyShortValues(order, attrs);
    DecodesAll(raw, STUN_HEADER_SIZE, order, attrs, map[]);
    assert Selected(order, attrs) == attrs;
  }

  lemma TruncatedBodyDiffers(raw: seq<byte>, end: nat, order: seq<uint16>, attrs: Attributes)
    requires Enumerates(order, attrs)
    requires STUN_HEADER_SIZE <= end < |raw| && (end - STUN_HEADER_SIZE) % 4 == 0
    requires raw[STUN_HEADER_SIZE..] == AttributesBytes(order, attrs)
    ensures DecodeAttributes(raw, STUN_HEADER_SIZE, end, map[]) != attrs
  {
    if ValuesFit(order, attrs) {
      CutShortMissesLast(raw, STUN_HEADER_SIZE, end, order, attrs, map[]);
      assert order[|order| - 1] in attrs;
    } else {
      DecodedValuesFit(raw, STUN_HEADER_SIZE, end, map[]);
    }
  }

  // ---- the mapped address ---------------------------------------------------------------------------------

  datatype Address = V4(ip: uint32, port: uint16) | V6(ip6: seq<byte>, port: uint16)

  function XorValue(ip: uint32, port: int): (v: seq<byte>)
    ensures |v| == 8
  {
    [0x00, FAMILY_IPV4] + BigEndian(Xor(port % 0x1_0000, COOKIE_HIGH), 2) + BigEndian(Xor(ip, STUN_MAGIC_COOKIE), 4)
  }

  function XorBytes(a: seq<byte>, b: seq<byte>): seq<byte>
    requires |a| == |b|
  {
    seq(|a|, i requires 0 <= i < |a| => XorByte(a[i], b[i]))
  }

  function XorByte(a: byte, b: byte): byte {
    Pow2Values();
    XorInRange(a, b, 8);
    Xor(a, b)
  }

  function Xor16(a: uint16, b: uint16): uint16 {
    Pow2Values();
    XorInRange(a, b, 16);
    Xor(a, b)
  }

  function Xor32(a: uint32, b: uint32): uint32 {
    Pow2Values();
    XorInRange(a, b, 32);
    Xor(a, b)
  }

  /** GetXORMappedAddress, with its fallback to MAPPED-ADDRESS. */
  function MappedAddress(m: Message): Result<Address, StunError> {
    if ATTR_XOR_MAPPED_ADDRESS !in m.attributes then
      if ATTR_MAPPED_ADDRESS in m.attributes && |m.attributes[ATTR_MAPPED_ADDRESS]| >= 8
         && m.attributes[ATTR_MAPPED_ADDRESS][1] == FAMILY_IPV4
      then Ok(V4(ReadUint32(m.attributes[ATTR_MAPPED_ADDRESS], 4), ReadUint16(m.attributes[ATTR_MAPPED_ADDRESS], 2)))
      else Err(AttributeNotFound)
    else
      var attr := m.attributes[ATTR_XOR_MAPPED_ADDRESS];
      if |attr| < 8 then Err(InvalidHeader) else
      var port := Xor16(ReadUint16(attr, 2), COOKIE_HIGH);
      if attr[1] == FAMILY_IPV4 then Ok(V4(Xor32(ReadUint32(attr, 4), STUN_MAGIC_COOKIE), port))
      else if attr[1] == FAMILY_IPV6 && |attr| >= 20
      then Ok(V6(XorBytes(attr[4..20], BigEndian(STUN_MAGIC_COOKIE, 4) + m.transactionId), port))
      else Err(UnsupportedFamily)
  }

  function WithMappedAddress(m: Message, ip: uint32, port: int): Message {
    m.(attributes := m.attributes[ATTR_XOR_MAPPED_ADDRESS := XorValue(ip, port)])
  }

  /** Setting and getting an IPv4 address gives it back; the port is reduced to 16 bits. */
  lemma SetGet(m: Message, ip: uint32, port: int, reduced: uint16)
    requires reduced == port % 0x1_0000
    ensures MappedAddress(WithMappedAddress(m, ip, port)) == Ok(V4(ip, reduced))
  {
    var v := XorValue(ip, port);
    Pow2Values();
    XorInRange(reduced, COOKIE_HIGH, 16);
    XorInRange(ip, STUN_MAGIC_COOKIE, 32);
    assert v[2..4] == BigEndian(Xor(reduced, COOKIE_HIGH), 2);
    assert v[4..8] == BigEndian(Xor(ip, STUN_MAGIC_COOKIE), 4);
    BigEndian16(Xor(reduced, COOKIE_HIGH));
    BigEndian32(Xor(ip, STUN_MAGIC_COOKIE));
    XorTwice(reduced, COOKIE_HIGH);
    XorTwice(ip, STUN_MAGIC_COOKIE);
  }

  /** The attribute's fields, as section 14.2 of RFC 8489 lays them out. */
  lemma XorValueMeans(ip: uint32, port: int, reduced: uint16)
    requires reduced == port % 0x1_0000
    ensures var v := XorValue(ip, port);
            && v[0] == 0 && v[1] == 1
            && ReadUint16(v, 2) == Xor16(reduced, 0x2112) && ReadUint32(v, 4) == Xor32(ip, 0x2112A442)
  {
    var v := XorValue(ip, port);
    Pow2Values();
    XorInRange(reduced, COOKIE_HIGH, 16);
    XorInRange(ip, STUN_MAGIC_COOKIE, 32);
    assert v[2..4] == BigEndian(Xor(reduced, COOKIE_HIGH), 2);
    assert v[4..8] == BigEndian(Xor(ip, STUN_MAGIC_COOKIE), 4);
    BigEndian16(Xor(reduced, COOKIE_HIGH));
    BigEndian32(Xor(ip, STUN_MAGIC_COOKIE));
  }

  /** The mask of the port is the upper half of the cookie. */
  lemma CookieHalves()
    ensures COOKIE_HIGH == STUN_MAGIC_COOKIE / 0x1_0000
    ensures BigEndian(STUN_MAGIC_COOKIE, 4) == [0x21, 0x12, 0xA4, 0x42]
  {
    BigEndianBytes(STUN_MAGIC_COOKIE);
  }

  /** Which messages have no usable address, and why. */
  lemma GetterErrorsExactly(m: Message)
    ensures MappedAddress(m) == Err(AttributeNotFound) <==>
      && 0x0020 !in m.attributes
      && !(0x0001 in m.attributes && |m.attributes[0x0001]| >= 8 && m.attributes[0x0001][1] == 1)
    ensures MappedAddress(m) == Err(InvalidHeader) <==> 0x0020 in m.attributes && |m.attributes[0x0020]| < 8
    ensures MappedAddress(m) == Err(UnsupportedFamily) <==>
      && 0x0020 in m.attributes && |m.attributes[0x0020]| >= 8 && m.attributes[0x0020][1] != 1
      && !(m.attributes[0x0020][1] == 2 && |m.attributes[0x0020]| >= 20)
  {}

  /** A plain MAPPED-ADDRESS is read only when there is no XOR-MAPPED-ADDRESS. */
  lemma FallbackReads(m: Message, ip: uint32, port: uint16, rest: seq<byte>)
    requires 0x0020 !in m.attributes && 0x0001 in m.attributes
    requires m.attributes[0x0001] == [0, 1] + BigEndian(port, 2) + BigEndian(ip, 4) + rest
    ensures MappedAddress(m) == Ok(V4(ip, port))
  {
    var v := m.attributes[0x0001];
    BigEndian16(port);
    BigEndian32(ip);
    assert v[2..4] == BigEndian(port, 2) && v[4..8] == BigEndian(ip, 4);
  }

  /** What an IPv6 address is masked with. */
  function V6Mask(id: TransactionId): (r: seq<byte>)
    ensures |r| == 16
  {
    [0x21, 0x12, 0xA4, 0x42] + id
  }

  lemma XorByteTwice(a: byte, b: byte)
    ensures XorByte(XorByte(a, b), b) == a
  {
    XorTwice(a, b);
  }

  /** An IPv6 address masked with cookie and transaction ID is read back, port and all. */
  lemma V6Reads(m: Message, ip6: seq<byte>, port: uint16, rest: seq<byte>)
    requires 0x0020 in m.attributes && |ip6| == 16
    requires m.attributes[0x0020] == [0, 2] + BigEndian(Xor16(port, 0x2112), 2) + XorBytes(ip6, V6Mask(m.transactionId)) + rest
    ensures MappedAddress(m) == Ok(V6(ip6, port))
  {
    var v, mask := m.attributes[0x0020], V6Mask(m.transactionId);
    CookieHalves();
    BigEndian16(Xor16(port, 0x2112));
    XorTwice(port, 0x2112);
    assert v[2..4] == BigEndian(Xor16(port, 0x2112), 2);
    assert v[4..20] == XorBytes(ip6, mask);
    forall i | 0 <= i < 16
      ensures XorBytes(XorBytes(ip6, mask), mask)[i] == ip6[i]
    {
      XorByteTwice(ip6[i], mask[i]);
    }
    assert XorBytes(v[4..20], mask) == ip6;
  }

  /** Refusals of the decoder. */
  lemma RefusalsExactly(raw: seq<byte>)
    ensures ParseStun(raw).Err? <==>
      |raw| < 20 || raw[4..8] != [0x21, 0x12, 0xA4, 0x42] || |raw| < 20 + ReadUint16(raw, 2)
  {
    if |raw| >= 20 {
      CookieHalves();
      FromBigEndianRoundTrip(raw[4..8]);
      BigEndian32(STUN_MAGIC_COOKIE);
    }
  }

  /** Each attribute is a 4-byte header, the value, and zeros up to a 4-byte boundary. */
  lemma AttributeLayout(t: uint16, v: seq<byte>, i: nat)
    ensures var bs := AttributeBytes(t, v);
            && |bs| % 4 == 0 && |bs| < 4 + |v| + 4
            && bs[..2] == BigEndian(t, 2) && bs[2..4] == BigEndian(|v|, 2) && bs[4..4 + |v|] == v
            && (4 + |v| <= i < |bs| ==> bs[i] == 0)
  {
    PadAligns(|v|);
  }

  lemma SameAttributesSameAddress(m: Message, n: Message)
    requires m.attributes == n.attributes && m.transactionId == n.transactionId
    ensures MappedAddress(m) == MappedAddress(n)
  {}

  /** The receiver of the encoded message finds the address in it. */
  ghost predicate Finds(sent: Message, order: seq<uint16>, a: Address)
    requires forall t :: t in order ==> t in sent.attributes
  {
    var received := ParseStun(MessageBytes(sent, order));
    received.Ok? && MappedAddress(received.value) == Ok(a)
  }

  lemma SentAddressIsFound(sent: Message, order: seq<uint16>, a: Address)
    requires Enumerates(order, sent.attributes) && sent.magicCookie == STUN_MAGIC_COOKIE
    requires |AttributesBytes(order, sent.attributes)| <= 0xFFFF
    requires MappedAddress(sent) == Ok(a)
    ensures Finds(sent, order, a)
  {
    StunRoundTrip(sent, order);
    SameAttributesSameAddress(ParseStun(MessageBytes(sent, order)).value, sent);
  }

  /** Set, Encode, Decode, Get returns the same address and port, whatever else the message carries. */
  lemma AddressSurvivesTheWire(m: Message, ip: uint32, port: uint16, order: seq<uint16>)
    requires Enumerates(order, WithMappedAddress(m, ip, port).attributes) && m.magicCookie == STUN_MAGIC_COOKIE
    requires |AttributesBytes(order, WithMappedAddress(m, ip, port).attributes)| <= 0xFFFF
    ensures Finds(WithMappedAddress(m, ip, port), order, V4(ip, port))
  {
    SetGet(m, ip, port, port);
    SentAddressIsFound(WithMappedAddress(m, ip, port), order, V4(ip, port));
  }

  // ---- the message object -------------------------------------------------------------------------------------

  lemma {:induction false} OneMoreAttribute(order: seq<uint16>, t: uint16, attrs: Attributes)
    requires t in attrs && forall k :: k in order ==> k in attrs
    ensures AttributesBytes(order + [t], attrs) == AttributesBytes(order, attrs) + AttributeBytes(t, attrs[t])
  {
    if |order| == 0 {
      assert order + [t] == [t];
      assert AttributesBytes([t][1..], attrs) == [];
    } else {
      var rest := order[1..];
      assert (order + [t])[0] == order[0] && (order + [t])[1..] == rest + [t];
      OneMoreAttribute(rest, t, attrs);
      Associates(AttributeBytes(order[0], attrs[order[0]]), AttributesBytes(rest, attrs), AttributeBytes(t, attrs[t]));
    }
  }

  lemma Associates(a: seq<byte>, b: seq<byte>, c: seq<byte>)
    ensures a + (b + c) == (a + b) + c
  {}

  class StunMessage {
    var msgType: uint16
    var length: uint16
    var magicCookie: uint32
    var transactionId: TransactionId
    var attributes: Attributes

    function View(): Message
      reads this
    {
      Message(msgType, length, magicCookie, transactionId, attributes)
    }

    constructor (m: Message)
      ensures View() == m
    {
      msgType, length, magicCookie, transactionId, attributes :=
        m.msgType, m.length, m.magicCookie, m.transactionId, m.attributes;
    }

    /** The map is visited in some order; the result is the encoding in that order. */
    method Encode() returns (buf: array<byte>)
      ensures fresh(buf)
      ensures exists order :: Enumerates(order, attributes) && buf[..] == MessageBytes(View(), order)
    {
      var attrBytes := EncodeAttributes();
      ghost var order :| Enumerates(order, attributes) && attrBytes == AttributesBytes(order, attributes);
      buf := new byte[STUN_HEADER_SIZE + |attrBytes|](_ => 0);
      FillMessage(buf, View(), attrBytes);
      assert buf[..] == MessageBytes(View(), order);
    }

    static method FillMessage(buf: array<byte>, m: Message, attrBytes: seq<byte>)
      requires buf.Length == STUN_HEADER_SIZE + |attrBytes|
      modifies buf
      ensures buf[..] == BigEndian(m.msgType, 2) + BigEndian(|attrBytes|, 2) + BigEndian(m.magicCookie, 4)
                         + m.transactionId + attrBytes
    {
      CopyInto(buf, 0, BigEndian(m.msgType, 2));
      CopyInto(buf, 2, BigEndian(|attrBytes|, 2));
      CopyInto(buf, 4, BigEndian(m.magicCookie, 4));
      CopyInto(buf, 8, m.transactionId);
      CopyInto(buf, 20, attrBytes);
      assert buf[..] == buf[..buf.Length];
    }

    method EncodeAttributes() returns (attrBytes: seq<byte>)
      ensures exists order :: Enumerates(order, attributes) && attrBytes == AttributesBytes(order, attributes)
    {
      attrBytes := [];
      ghost var order: seq<uint16> := [];
      var rest := attributes.Keys;
      while rest != {}
        invariant rest <= attributes.Keys
        invariant forall t :: t in order <==> t in attributes.Keys - rest
        invariant forall i, j :: 0 <= i < j < |order| ==> order[i] != order[j]
        invariant attrBytes == AttributesBytes(order, attributes)
        decreases rest
      {
        var t :| t in rest;
        assert t !in order;
        OneMoreAttribute(order, t, attributes);
        var bytes := EncodeAttribute(t, attributes[t]);
        attrBytes := attrBytes + bytes;
        order := order + [t];
        rest := rest - {t};
      }
    }

    /** The padding formula of the source. */
    static method PadLength(n: nat) returns (pad: nat)
      ensures pad == Pad(n)
    {
      PadFormula(n);
      pad := (4 - n % 4) % 4;
    }

    static method EncodeAttribute(t: uint16, v: seq<byte>) returns (bytes: seq<byte>)
      ensures bytes == AttributeBytes(t, v)
    {
      bytes := BigEndian(t, 2) + BigEndian(|v|, 2) + v;
      var pad := PadLength(|v|);
      for p := 0 to pad
        invariant bytes == BigEndian(t, 2) + BigEndian(|v|, 2) + v + Zeros(p)
      {
        assert Zeros(p + 1) == Zeros(p) + [0];
        bytes := bytes + [0x00];
      }
    }

    /** Terminates and stays in bounds on every byte string. */
    static method DecodeStun(raw: seq<byte>) returns (r: Result<StunMessage, StunError>)
      ensures r.Err? ==> ParseStun(raw) == Err(r.error)
      ensures r.Ok? ==> fresh(r.value) && ParseStun(raw) == Ok(r.value.View())
    {
      if |raw| < STUN_HEADER_SIZE {
        return Err(InvalidHeader);
      }
      var msgType, length, magic := ReadUint16(raw, 0), ReadUint16(raw, 2), ReadUint32(raw, 4);
      if magic != STUN_MAGIC_COOKIE {
        return Err(InvalidHeader);
      }
      var txId := raw[8..20];
      if |raw| < STUN_HEADER_SIZE + length {
        return Err(InvalidHeader);
      }
      var attrs := DecodeBody(raw, STUN_HEADER_SIZE + length);
      var m := new StunMessage(Message(msgType, length, magic, txId, attrs));
      r := Ok(m);
    }

    /** The loop over attributes: padding may carry the offset past the end, never past the loop's test. */
    static method DecodeBody(raw: seq<byte>, end: nat) returns (attrs: Attributes)
      requires STUN_HEADER_SIZE <= end <= |raw|
      ensures attrs == DecodeAttributes(raw, STUN_HEADER_SIZE, end, map[])
    {
      attrs := map[];
      var offset := STUN_HEADER_SIZE;
      while offset + 4 <= end
        invariant DecodeAttributes(raw, offset, end, attrs) == DecodeAttributes(raw, STUN_HEADER_SIZE, end, map[])
        decreases if offset < end then end - offset else 0
      {
        var attrType, attrLen := ReadUint16(raw, offset), ReadUint16(raw, offset + 2);
        offset := offset + 4;
        if offset + attrLen > end {
          break;
        }
        attrs := attrs[attrType := raw[offset..offset + attrLen]];
        var pad := PadLength(attrLen);
        offset := offset + attrLen + pad;
      }
    }

    /** Only an IPv4 address sets the attribute. */
    method SetXorMappedAddress(ip4: Option<uint32>, port: int)
      modifies this`attributes
      ensures View() == match ip4
                        case Some(ip) => WithMappedAddress(old(View()), ip, port)
                        case None => old(View())
    {
      if ip4.Some? {
        var xport := Xor(port % 0x1_0000, COOKIE_HIGH);
        var xip := Xor(ip4.value, STUN_MAGIC_COOKIE);
        attributes := attributes[ATTR_XOR_MAPPED_ADDRESS := [0x00, FAMILY_IPV4] + BigEndian(xport, 2) + BigEndian(xip, 4)];
      }
    }

    method GetXorMappedAddress() returns (r: Result<Address, StunError>)
      ensures r == MappedAddress(View())
    {
      if ATTR_XOR_MAPPED_ADDRESS !in attributes {
        if ATTR_MAPPED_ADDRESS in attributes && |attributes[ATTR_MAPPED_ADDRESS]| >= 8 {
          var mapAttr := attributes[ATTR_MAPPED_ADDRESS];
          if mapAttr[1] == FAMILY_IPV4 {
            return Ok(V4(ReadUint32(mapAttr, 4), ReadUint16(mapAttr, 2)));
          }
        }
        return Err(AttributeNotFound);
      }
      var attr := attributes[ATTR_XOR_MAPPED_ADDRESS];
      if |attr| < 8 {
        return Err(InvalidHeader);
      }
      var port := Xor16(ReadUint16(attr, 2), COOKIE_HIGH);
      if attr[1] == FAMILY_IPV4 {
        return Ok(V4(Xor32(ReadUint32(attr, 4), STUN_MAGIC_COOKIE), port));
      } else if attr[1] == FAMILY_IPV6 && |attr| >= 20 {
        var cookieAndTx := BigEndian(STUN_MAGIC_COOKIE, 4) + transactionId;
        var ipBytes := XorInto(attr[4..20], cookieAndTx);
        return Ok(V6(ipBytes[..], port));
      }
      return Err(UnsupportedFamily);
    }

    static method XorInto(a: seq<byte>, b: seq<byte>) returns (r: array<byte>)
      requires |a| == |b|
      ensures fresh(r) && r[..] == XorBytes(a, b)
    {
      r := new byte[|a|](_ => 0);
      for i := 0 to |a|
        invariant forall k :: 0 <= k < i ==> r[k] == XorByte(a[k], b[k])
      {
        r[i] := XorByte(a[i], b[i]);
      }
    }
  }
}
