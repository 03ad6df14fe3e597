/** The fixed-size onion cell (pkg/routing/cell.go). */
module Cell {
  import opened Bytes
  import opened Results

  const ONION_CELL_FIXED_SIZE: nat := 1420
  const CELL_HEADER_SIZE: nat := 14
  const MAX_CELL_PAYLOAD_SIZE: nat := 1406
  const CELL_CMD_RELAY_DATA: byte := 0x03

  datatype OnionCell = OnionCell(circuitId: uint32, command: byte, streamId: uint32, digest: uint32, payload: seq<byte>)

  datatype CellError = InvalidCellSize | PayloadOverflow

  /** The random bytes that fill a cell, by position. */
  type Noise = nat -> byte

  function Padding(noise: Noise, n: nat): (p: seq<byte>)
    ensures |p| == n
  {
    seq(n, i requires 0 <= i < n => noise(i))
  }

  function CellHeader(c: OnionCell): (h: seq<byte>)
    ensures |h| == CELL_HEADER_SIZE
  {
    BigEndian(c.circuitId, 4) + [c.command] + BigEndian(c.streamId, 3) + BigEndian(c.digest, 4)
      + BigEndian(|c.payload|, 2)
  }

  /** The wire image of a cell: header, payload, padding up to the fixed size. */
  function CellBytes(c: OnionCell, noise: Noise): (raw: seq<byte>)
    requires |c.payload| <= MAX_CELL_PAYLOAD_SIZE
    ensures |raw| == ONION_CELL_FIXED_SIZE
  {
    CellHeader(c) + c.payload + Padding(noise, MAX_CELL_PAYLOAD_SIZE - |c.payload|)
  }

  function ParseCell(raw: seq<byte>): Result<OnionCell, CellError> {
    if |raw| != ONION_CELL_FIXED_SIZE then Err(InvalidCellSize)
    else if ReadUint16(raw, 12) > MAX_CELL_PAYLOAD_SIZE then Err(PayloadOverflow)
    else
      Ok(OnionCell(ReadUint32(raw, 0), raw[4], ReadUint24(raw, 5), ReadUint32(raw, 8),
                   raw[CELL_HEADER_SIZE..CELL_HEADER_SIZE + ReadUint16(raw, 12)]))
  }

  function ReadUint24(bs: seq<byte>, at: nat): uint32
    requires at + 3 <= |bs|
  {
    Pow256Values();
    FromBigEndianRoundTrip(bs[at..at + 3]);
    FromBigEndian(bs[at..at + 3])
  }

  lemma BigEndian24(v: uint32)
    ensures FromBigEndian(BigEndian(v, 3)) == v % 0x100_0000
  {
    Pow256Values();
    BigEndianRoundTrip(v, 3);
  }

  lemma CellHeaderFields(c: OnionCell)
    ensures var h := CellHeader(c);
            && h[0..4] == BigEndian(c.circuitId, 4) && h[4] == c.command && h[5..8] == BigEndian(c.streamId, 3)
            && h[8..12] == BigEndian(c.digest, 4) && h[12..14] == BigEndian(|c.payload|, 2)
  {}

  /** Where each field stands in a cell; the rest is padding. */
  lemma CellLayout(c: OnionCell, noise: Noise)
    requires |c.payload| <= MAX_CELL_PAYLOAD_SIZE
    ensures var raw := CellBytes(c, noise);
            && raw[0..4] == BigEndian(c.circuitId, 4) && raw[4] == c.command && raw[5..8] == BigEndian(c.streamId, 3)
            && raw[8..12] == BigEndian(c.digest, 4) && raw[12..14] == BigEndian(|c.payload|, 2)
            && raw[14..14 + |c.payload|] == c.payload
  {
    var raw, h := CellBytes(c, noise), CellHeader(c);
    CellHeaderFields(c);
    assert raw[..CELL_HEADER_SIZE] == h;
    assert raw[0..4] == h[0..4] && raw[5..8] == h[5..8] && raw[8..12] == h[8..12] && raw[12..14] == h[12..14];
    Slices(h, c.payload, Padding(noise, MAX_CELL_PAYLOAD_SIZE - |c.payload|));
  }

  /** Whatever the padding, decoding gives the cell back with the 24 low bits of its stream ID. */
  lemma CellRoundTrip(c: OnionCell, noise: Noise)
    requires |c.payload| <= MAX_CELL_PAYLOAD_SIZE
    ensures ParseCell(CellBytes(c, noise)) == Ok(c.(streamId := c.streamId % 0x100_0000))
    ensures ReadUint16(CellBytes(c, noise), 12) == |c.payload|
  {
    CellLayout(c, noise);
    BigEndian32(c.circuitId);
    BigEndian24(c.streamId);
    BigEndian32(c.digest);
    BigEndian16(|c.payload|);
  }

  method EncodeCell(c: OnionCell, noise: Noise) returns (r: Result<array<byte>, CellError>)
    ensures |c.payload| > MAX_CELL_PAYLOAD_SIZE ==> r == Err(PayloadOverflow)
    ensures |c.payload| <= MAX_CELL_PAYLOAD_SIZE ==> r.Ok? && fresh(r.value) && r.value[..] == CellBytes(c, noise)
  {
    if |c.payload| > MAX_CELL_PAYLOAD_SIZE {
      return Err(PayloadOverflow);
    }
    var buf := new byte[ONION_CELL_FIXED_SIZE](_ => 0);
    CopyInto(buf, 0, BigEndian(c.circuitId, 4));
    PutByte(buf, 4, c.command);
    CopyInto(buf, 5, BigEndian(c.streamId, 3));
    CopyInto(buf, 8, BigEndian(c.digest, 4));
    CopyInto(buf, 12, BigEndian(|c.payload|, 2));
    assert buf[..14] == CellHeader(c);
    CopyInto(buf, 14, c.payload);
    var padLen := ONION_CELL_FIXED_SIZE - (14 + |c.payload|);
    CopyInto(buf, 14 + |c.payload|, Padding(noise, padLen));
    assert buf[..] == buf[..ONION_CELL_FIXED_SIZE];
    r := Ok(buf);
  }

  method DecodeCell(raw: array<byte>) returns (r: Result<OnionCell, CellError>)
    ensures r == Err(InvalidCellSize) <==> raw.Length != 1420
    ensures raw.Length == 1420 ==> (r == Err(PayloadOverflow) <==> ReadUint16(raw[..], 12) > 1406)
    ensures r == ParseCell(raw[..])
  {
    if raw.Length != ONION_CELL_FIXED_SIZE {
      return Err(InvalidCellSize);
    }
    var payloadLen := ReadUint16(raw[..], 12);
    if payloadLen > MAX_CELL_PAYLOAD_SIZE {
      return Err(PayloadOverflow);
    }
    var payload := new byte[payloadLen](_ => 0);
    CopyInto(payload, 0, raw[14..14 + payloadLen]);
    assert payload[..] == payload[..payloadLen] == raw[..][14..14 + payloadLen];
    r := Ok(OnionCell(ReadUint32(raw[..], 0), raw[4], ReadUint24(raw[..], 5), ReadUint32(raw[..], 8), payload[..]));
  }
}
