/** The direct wire frame (pkg/crypto/wire.go). */
module Wire {
  import opened Bytes
  import opened Primitives
  import opened Results

  const DIRECT_FRAME_MAGIC: uint32 := 0x5356524E
  const CURRENT_WIRE_VERSION: byte := 0x04
  const HEADER_BYTES: nat := 22
  const MIN_DIRECT_FRAME_SIZE: nat := 38

  type Tag = t: seq<byte> | |t| == TAG_SIZE witness seq(TAG_SIZE, _ => 0)

  datatype DirectFrame = DirectFrame(
    magic: uint32,
    version: byte,
    msgType: byte,
    sender: uint32,
    receiver: uint32,
    counter: uint64,
    ciphertext: seq<byte>,
    authTag: Tag)

  datatype FrameError = TooShort | BadMagic | UnsupportedVersion

  /** The wire image of a frame. */
  function FrameBytes(f: DirectFrame): (raw: seq<byte>)
    ensures |raw| == MIN_DIRECT_FRAME_SIZE + |f.ciphertext|
  {
    Header(f) + f.ciphertext + f.authTag
  }

  function Header(f: DirectFrame): (h: seq<byte>)
    ensures |h| == HEADER_BYTES
  {
    BigEndian(f.magic, 4) + [f.version, f.msgType] + BigEndian(f.sender, 4) + BigEndian(f.receiver, 4)
      + BigEndian(f.counter, 8)
  }

  /** Reading a frame: the first failing test decides the error. */
  function ParseFrame(raw: seq<byte>): Result<DirectFrame, FrameError> {
    if |raw| < MIN_DIRECT_FRAME_SIZE then Err(TooShort)
    else if ReadUint32(raw, 0) != DIRECT_FRAME_MAGIC then Err(BadMagic)
    else if raw[4] != CURRENT_WIRE_VERSION then Err(UnsupportedVersion)
    else
      Ok(DirectFrame(ReadUint32(raw, 0), raw[4], raw[5], ReadUint32(raw, 6), ReadUint32(raw, 10),
                     ReadUint64(raw, 14), raw[HEADER_BYTES..|raw| - TAG_SIZE], raw[|raw| - TAG_SIZE..]))
  }

  lemma HeaderFields(f: DirectFrame)
    ensures var h := Header(f);
            && h[0..4] == BigEndian(f.magic, 4) && h[4] == f.version && h[5] == f.msgType
            && h[6..10] == BigEndian(f.sender, 4) && h[10..14] == BigEndian(f.receiver, 4)
            && h[14..22] == BigEndian(f.counter, 8)
  {}

  /** Where each field stands in the wire image. */
  lemma FrameLayout(f: DirectFrame)
    ensures var raw, n := FrameBytes(f), |f.ciphertext|;
            && raw[0..4] == BigEndian(f.magic, 4) && raw[4] == f.version && raw[5] == f.msgType
            && raw[6..10] == BigEndian(f.sender, 4) && raw[10..14] == BigEndian(f.receiver, 4)
            && raw[14..22] == BigEndian(f.counter, 8)
            && raw[22..22 + n] == f.ciphertext && raw[22 + n..] == f.authTag
  {
    var raw, h := FrameBytes(f), Header(f);
    HeaderFields(f);
    assert raw[..HEADER_BYTES] == h;
    assert raw[0..4] == h[0..4] && raw[6..10] == h[6..10] && raw[10..14] == h[10..14] && raw[14..22] == h[14..22];
    Slices(h, f.ciphertext, f.authTag);
  }

  /** Decoding an encoded frame gives it back when magic and version are current, and fails otherwise. */
  lemma FrameRoundTrip(f: DirectFrame)
    ensures ParseFrame(FrameBytes(f)) ==
            if f.magic != DIRECT_FRAME_MAGIC then Err(BadMagic)
            else if f.version != CURRENT_WIRE_VERSION then Err(UnsupportedVersion)
            else Ok(f)
  {
    FrameLayout(f);
    BigEndian32(f.magic);
    BigEndian32(f.sender);
    BigEndian32(f.receiver);
    BigEndian64(f.counter);
  }

  /** What decodes is the encoding of the decoded frame: one wire image a frame. */
  lemma ParsedFrameIsCanonical(raw: seq<byte>)
    requires ParseFrame(raw).Ok?
    ensures FrameBytes(ParseFrame(raw).value) == raw
  {
    FromBigEndianRoundTrip(raw[0..4]);
    FromBigEndianRoundTrip(raw[6..10]);
    FromBigEndianRoundTrip(raw[10..14]);
    FromBigEndianRoundTrip(raw[14..22]);
    var f := ParseFrame(raw).value;
    assert Header(f) == raw[..HEADER_BYTES];
    assert raw == raw[..HEADER_BYTES] + raw[HEADER_BYTES..|raw| - TAG_SIZE] + raw[|raw| - TAG_SIZE..];
  }

  /** The magic is the letters SVRN. */
  lemma MagicBytes(raw: seq<byte>)
    requires |raw| >= 4
    ensures ReadUint32(raw, 0) == DIRECT_FRAME_MAGIC <==> raw[..4] == [0x53, 0x56, 0x52, 0x4E]
  {
    BigEndianBytes(DIRECT_FRAME_MAGIC);
    BigEndian32(DIRECT_FRAME_MAGIC);
    FromBigEndianRoundTrip(raw[0..4]);
    assert raw[..4] == raw[0..4];
  }

  method EncodeDirectFrame(f: DirectFrame) returns (buf: array<byte>)
    ensures fresh(buf) && buf[..] == FrameBytes(f)
  {
    var totalLen := 4 + 1 + 1 + 4 + 4 + 8 + |f.ciphertext| + TAG_SIZE;
    buf := new byte[totalLen](_ => 0);
    CopyInto(buf, 0, BigEndian(f.magic, 4));
    PutByte(buf, 4, f.version);
    PutByte(buf, 5, f.msgType);
    assert buf[..6] == BigEndian(f.magic, 4) + [f.version, f.msgType];
    CopyInto(buf, 6, BigEndian(f.sender, 4));
    CopyInto(buf, 10, BigEndian(f.receiver, 4));
    CopyInto(buf, 14, BigEndian(f.counter, 8));
    assert buf[..22] == Header(f);
    CopyInto(buf, 22, f.ciphertext);
    CopyInto(buf, 22 + |f.ciphertext|, f.authTag);
    assert buf[..] == buf[..totalLen];
  }

  method DecodeDirectFrame(raw: array<byte>) returns (r: Result<DirectFrame, FrameError>)
    ensures r == Err(TooShort) <==> raw.Length < 38
    ensures raw.Length >= 38 ==>
      && (r == Err(BadMagic) <==> raw[..4] != [0x53, 0x56, 0x52, 0x4E])
      && (r == Err(UnsupportedVersion) <==> raw[..4] == [0x53, 0x56, 0x52, 0x4E] && raw[4] != 4)
    ensures r == ParseFrame(raw[..])
  {
    if raw.Length < MIN_DIRECT_FRAME_SIZE {
      return Err(TooShort);
    }
    MagicBytes(raw[..]);
    var magic := ReadUint32(raw[..], 0);
    if magic != DIRECT_FRAME_MAGIC {
      return Err(BadMagic);
    }
    var version := raw[4];
    if version != CURRENT_WIRE_VERSION {
      return Err(UnsupportedVersion);
    }
    var ciphertextLen := raw.Length - HEADER_BYTES - TAG_SIZE;
    var ciphertext := new byte[ciphertextLen](_ => 0);
    CopyInto(ciphertext, 0, raw[HEADER_BYTES..HEADER_BYTES + ciphertextLen]);
    assert ciphertext[..] == ciphertext[..ciphertextLen] == raw[HEADER_BYTES..HEADER_BYTES + ciphertextLen];
    var authTag := new byte[TAG_SIZE](_ => 0);
    CopyInto(authTag, 0, raw[HEADER_BYTES + ciphertextLen..]);
    assert authTag[..] == authTag[..TAG_SIZE] == raw[raw.Length - TAG_SIZE..];
    r := Ok(DirectFrame(magic, version, raw[5], ReadUint32(raw[..], 6), ReadUint32(raw[..], 10),
                        ReadUint64(raw[..], 14), ciphertext[..], authTag[..]));
    assert raw[..][HEADER_BYTES..raw.Length - TAG_SIZE] == ciphertext[..];
    assert raw[..][raw.Length - TAG_SIZE..] == authTag[..];
  }
}
