/** The Dynamixel protocol 2.0 codec: instruction packets sent to the motors
    and status packets they answer with.

    Instruction packet: FF FF FD 00, ID, LEN_L, LEN_H, INST, PARAM..., CRC_L, CRC_H
    Status packet:      FF FF FD 00, ID, LEN_L, LEN_H, 0x55, ERROR, PARAM..., CRC_L, CRC_H

    Multi-byte fields are little-endian; the CRC covers every byte before it. */
module ProtocolV2 {

  import opened Bytes
  import opened Error
  import Motors
  import Crc16

  datatype Option<T> = None | Some(value: T)

  // ---------------------------------------------------------------------
  // Instructions and constants

  datatype Instruction = Ping | ReadData | WriteData | Reset | SyncRead | SyncWrite

  /** The instruction byte sent for each instruction. */
  function Opcode(i: Instruction): u8
  {
    match i
    case Ping => 0x01
    case ReadData => 0x02
    case WriteData => 0x03
    case Reset => 0x06
    case SyncRead => 0x82
    case SyncWrite => 0x83
  }

  /** No two instructions share an instruction byte. */
  lemma OpcodeInjective(i: Instruction, j: Instruction)
    ensures Opcode(i) == Opcode(j) <==> i == j
  {
  }

  /** The id every motor listens to. */
  const BROADCAST_ID: u8 := 254

  /** The four bytes that open every packet. */
  const HEADER: seq<u8> := [0xFF, 0xFF, 0xFD, 0x00]

  /** Marker, id and the two length bytes. */
  const HEADER_LENGTH: nat := 7

  /** The byte in a status packet where an instruction packet has its
      instruction. */
  const STATUS_INSTRUCTION: u8 := 0x55

  /** The operations the motors understand, as far as the driver uses them:
      a codec for register values of a given length. The driver's macros
      that do this are not part of this model, so they are parameters. */
  datatype DataCodec = DataCodec(
    encode: (u16, u16) -> seq<u8>,   // (register length, value) to parameter bytes
    decode: (u16, seq<u8>) -> u16)   // (register length, parameter bytes) to value

  // ---------------------------------------------------------------------
  // Packet header

  datatype PacketHeader = PacketHeader(id: u8, length: u16)

  /** Parses the seven header bytes: the marker must be FF FF FD 00, the
      length is little-endian in bytes 5 and 6. */
  function HeaderFromBytes(b: seq<u8>): (r: Result<PacketHeader>)
    requires |b| == HEADER_LENGTH
    ensures r.Err? <==> b[..4] != HEADER
    ensures r.Err? ==> r.err.error == Parsing
    ensures r.Ok? ==> r.value.id == b[4] && Motors.Unpack(r.value.length) == (b[5], b[6])
  {
    Motors.UnpackPack(b[5], b[6]);
    if b[..4] != HEADER then Err(ParsingError())
    else Ok(PacketHeader(b[4], Motors.Pack(b[5], b[6])))
  }

  // ---------------------------------------------------------------------
  // Instruction packets

  datatype InstructionPacket = InstructionPacket(
    id: u8, length: u16, instruction: Instruction, parameters: seq<u8>)

  /** A packet whose length field counts the parameters, the instruction
      byte and the two CRC bytes, cut to 16 bits. */
  function NewPacket(id: u8, instruction: Instruction, parameters: seq<u8>): (p: InstructionPacket)
    ensures p.id == id && p.instruction == instruction && p.parameters == parameters
    ensures (p.length - (|parameters| + 3)) % 0x1_0000 == 0
    ensures |parameters| + 3 < 0x1_0000 ==> p.length == |parameters| + 3
  {
    InstructionPacket(id, (|parameters| + 3) % 0x1_0000, instruction, parameters)
  }

  function PingPacket(id: u8): (p: InstructionPacket)
    ensures p.id == id && p.instruction == Ping && p.parameters == [] && p.length == 3
  {
    NewPacket(id, Ping, [])
  }

  /** Parameters: the register's address, then its length, both
      little-endian. */
  function ReadDataPacket(id: u8, addr: u16, len: u16): (p: InstructionPacket)
    ensures p.id == id && p.instruction == ReadData && p.length == 7
    ensures |p.parameters| == 4
    ensures Motors.Pack(p.parameters[0], p.parameters[1]) == addr
    ensures Motors.Pack(p.parameters[2], p.parameters[3]) == len
  {
    Motors.PackUnpack(addr);
    Motors.PackUnpack(len);
    var (addrL, addrH) := Motors.Unpack(addr);
    var (lenL, lenH) := Motors.Unpack(len);
    NewPacket(id, ReadData, [addrL, addrH, lenL, lenH])
  }

  /** Sent to every motor: address and length as in a read, then the ids
      that must answer, in the order they must answer. */
  function SyncReadDataPacket(ids: seq<u8>, addr: u16, len: u16): (p: InstructionPacket)
    ensures p.id == BROADCAST_ID && p.instruction == SyncRead
    ensures |p.parameters| == 4 + |ids| && p.parameters[4..] == ids
    ensures Motors.Pack(p.parameters[0], p.parameters[1]) == addr
    ensures Motors.Pack(p.parameters[2], p.parameters[3]) == len
    ensures (p.length - (|ids| + 7)) % 0x1_0000 == 0
  {
    Motors.PackUnpack(addr);
    Motors.PackUnpack(len);
    var (addrL, addrH) := Motors.Unpack(addr);
    var (lenL, lenH) := Motors.Unpack(len);
    NewPacket(BROADCAST_ID, SyncRead, [addrL, addrH, lenL, lenH] + ids)
  }

  /** Parameters: the register's address, then the value coded for the
      register's length. */
  function WriteDataPacket(id: u8, addr: u16, len: u16, data: u16, codec: DataCodec): (p: InstructionPacket)
    ensures p.id == id && p.instruction == WriteData
    ensures |p.parameters| >= 2 && p.parameters[2..] == codec.encode(len, data)
    ensures Motors.Pack(p.parameters[0], p.parameters[1]) == addr
    ensures (p.length - (|p.parameters| + 3)) % 0x1_0000 == 0
  {
    Motors.PackUnpack(addr);
    var (addrL, addrH) := Motors.Unpack(addr);
    NewPacket(id, WriteData, [addrL, addrH] + codec.encode(len, data))
  }

  /** For each (id, value) in turn: the id, then the value coded for the
      register's length. */
  function CodedData(len: u16, data: seq<(u8, u16)>, codec: DataCodec): seq<u8>
    decreases |data|
  {
    if data == [] then []
    else [data[0].0] + codec.encode(len, data[0].1) + CodedData(len, data[1..], codec)
  }

  /** Coding one more entry appends its id and its coded value: the step of
      the driver's left fold. */
  lemma {:induction false} CodedDataSnoc(len: u16, data: seq<(u8, u16)>, x: (u8, u16), codec: DataCodec)
    ensures CodedData(len, data + [x], codec) == CodedData(len, data, codec) + [x.0] + codec.encode(len, x.1)
    decreases |data|
  {
    if data == [] {
      assert data + [x] == [x];
      assert CodedData(len, [x], codec) == [x.0] + codec.encode(len, x.1) + CodedData(len, [], codec);
    } else {
      assert (data + [x])[0] == data[0];
      assert (data + [x])[1..] == data[1..] + [x];
      CodedDataSnoc(len, data[1..], x, codec);
    }
  }

  /** `k + 1` blocks of `m` are one block followed by `k` blocks. */
  lemma MulSucc(k: nat, m: nat)
    ensures (k + 1) * m == m + k * m
  {
  }

  /** Fewer blocks take no more room. */
  lemma MulMono(a: nat, b: nat, m: nat)
    requires a <= b
    ensures a * m <= b * m
  {
  }

  /** A slice lying inside the second part of a concatenation. */
  lemma SliceOfSecond(a: seq<u8>, b: seq<u8>, i: nat, j: nat)
    requires |a| <= i <= j <= |a| + |b|
    ensures (a + b)[i..j] == b[i - |a|..j - |a|]
  {
  }

  /** When every value codes to `w` bytes, the coded data takes `w + 1`
      bytes per entry. */
  lemma {:induction false} CodedDataLength(len: u16, data: seq<(u8, u16)>, codec: DataCodec, w: nat)
    requires forall v: u16 :: |codec.encode(len, v)| == w
    ensures |CodedData(len, data, codec)| == |data| * (w + 1)
    decreases |data|
  {
    if data != [] {
      CodedDataLength(len, data[1..], codec, w);
      MulSucc(|data| - 1, w + 1);
    }
  }

  /** When every value codes to `w` bytes, entry `k` occupies bytes
      `k * (w + 1)` to `(k + 1) * (w + 1)`: its id first, its value after. */
  lemma {:induction false} CodedDataLayout(len: u16, data: seq<(u8, u16)>, codec: DataCodec, w: nat, k: nat)
    requires forall v: u16 :: |codec.encode(len, v)| == w
    requires k < |data|
    ensures |CodedData(len, data, codec)| == |data| * (w + 1)
    ensures CodedData(len, data, codec)[k * (w + 1)..(k + 1) * (w + 1)]
         == [data[k].0] + codec.encode(len, data[k].1)
    decreases |data|
  {
    CodedDataLength(len, data, codec, w);
    var m := w + 1;
    MulMono(k + 1, |data|, m);
    var head := [data[0].0] + codec.encode(len, data[0].1);
    var tail := CodedData(len, data[1..], codec);
    assert CodedData(len, data, codec) == head + tail;
    assert |head| == m;
    MulSucc(k, m);
    if k == 0 {
      assert (head + tail)[0..m] == head;
    } else {
      CodedDataLayout(len, data[1..], codec, w, k - 1);
      MulSucc(k - 1, m);
      SliceOfSecond(head, tail, k * m, (k + 1) * m);
      assert data[1..][k - 1] == data[k];
    }
  }

  /** The driver's fold over the (id, value) pairs, pushing each id and
      extending with each coded value. */
  method FoldCodedData(len: u16, data: seq<(u8, u16)>, codec: DataCodec) returns (acc: seq<u8>)
    ensures acc == CodedData(len, data, codec)
  {
    acc := [];
    var i := 0;
    while i < |data|
      invariant 0 <= i <= |data|
      invariant acc == CodedData(len, data[..i], codec)
    {
      CodedDataSnoc(len, data[..i], data[i], codec);
      assert data[..i + 1] == data[..i] + [data[i]];
      acc := acc + [data[i].0];
      acc := acc + codec.encode(len, data[i].1);
      i := i + 1;
    }
    assert data[..i] == data;
  }

  /** Sent to every motor: the register's address, then each motor's id
      and coded value. */
  function SyncWriteDataPacket(addr: u16, len: u16, data: seq<(u8, u16)>, codec: DataCodec): (p: InstructionPacket)
    ensures p.id == BROADCAST_ID && p.instruction == SyncWrite
    ensures |p.parameters| >= 2 && p.parameters[2..] == CodedData(len, data, codec)
    ensures Motors.Pack(p.parameters[0], p.parameters[1]) == addr
    ensures (p.length - (|p.parameters| + 3)) % 0x1_0000 == 0
  {
    Motors.PackUnpack(addr);
    var (addrL, addrH) := Motors.Unpack(addr);
    NewPacket(BROADCAST_ID, SyncWrite, [addrL, addrH] + CodedData(len, data, codec))
  }

  /** The bytes on the wire for an instruction packet. */
  function InstructionFrame(p: InstructionPacket): seq<u8>
  {
    var (lenL, lenH) := Motors.Unpack(p.length);
    var body := HEADER + [p.id, lenL, lenH, Opcode(p.instruction)] + p.parameters;
    var (crcL, crcH) := Motors.Unpack(Crc16.Crc(body));
    body + [crcL, crcH]
  }

  /** The frame is the header, the id, the length field, the instruction,
      the parameters and the CRC of everything before it, little-endian:
      ten bytes more than the parameters. */
  lemma InstructionFrameLayout(p: InstructionPacket)
    ensures var f := InstructionFrame(p);
      && |f| == |p.parameters| + 10
      && f[..4] == HEADER && f[4] == p.id && f[7] == Opcode(p.instruction)
      && Motors.Pack(f[5], f[6]) == p.length
      && f[8..|f| - 2] == p.parameters
      && Motors.Pack(f[|f| - 2], f[|f| - 1]) == Crc16.Crc(f[..|f| - 2])
  {
    var f := InstructionFrame(p);
    var body := f[..|f| - 2];
    assert body == HEADER + [p.id, f[5], f[6], Opcode(p.instruction)] + p.parameters;
    Motors.PackUnpack(p.length);
    Motors.PackUnpack(Crc16.Crc(body));
  }

  /** Serialises an instruction packet: header, id, length, instruction,
      parameters, then the CRC of all of these. */
  method AsBytes(p: InstructionPacket) returns (buff: seq<u8>)
    ensures buff == InstructionFrame(p)
  {
    var (lenL, lenH) := Motors.Unpack(p.length);
    buff := [0xFF, 0xFF, 0xFD, 0x00, p.id, lenL, lenH, Opcode(p.instruction)];
    buff := buff + p.parameters;
    assert buff == HEADER + [p.id, lenL, lenH, Opcode(p.instruction)] + p.parameters;
    var (crcL, crcH) := Motors.Unpack(Crc16.Crc(buff));
    buff := buff + [crcL];
    buff := buff + [crcH];
  }

  /** For a packet built by `NewPacket` whose parameters fit, the length
      field counts exactly the bytes that follow the seven header bytes. */
  lemma LengthFieldCountsTail(id: u8, instruction: Instruction, parameters: seq<u8>)
    requires |parameters| + 3 < 0x1_0000
    ensures |InstructionFrame(NewPacket(id, instruction, parameters))| - HEADER_LENGTH
         == NewPacket(id, instruction, parameters).length
  {
    InstructionFrameLayout(NewPacket(id, instruction, parameters));
  }

  // ---------------------------------------------------------------------
  // Status packets

  datatype StatusPacket = StatusPacket(
    id: u8, length: u16, errorCode: Option<u8>, parameters: seq<u8>)

  /** The last two bytes hold, little-endian, the CRC of all bytes before
      them. */
  predicate ChecksumMatches(b: seq<u8>)
    requires |b| >= 2
  {
    Crc16.Crc(b[..|b| - 2]) == Motors.Pack(b[|b| - 2], b[|b| - 1])
  }

  /** What `StatusPacket::from_bytes` needs not to panic: two bytes to find
      the CRC, and once the CRC matches, the nine bytes up to the error byte
      plus the CRC itself. */
  predicate FromBytesDefined(b: seq<u8>)
  {
    |b| >= 2 && (ChecksumMatches(b) ==> |b| >= 11)
  }

  /** Parses a status packet as the driver does: checks the CRC, then reads
      id, length, error byte and parameters at fixed offsets. Neither the
      marker, nor the 0x55 byte, nor the length field is checked. */
  function StatusFromBytes(b: seq<u8>): (r: Result<StatusPacket>)
    requires FromBytesDefined(b)
    ensures r.Err? <==> !ChecksumMatches(b)
    ensures r.Err? ==> r.err.error == InvalidChecksum
    ensures r.Ok? ==> r.value.id == b[4] && r.value.parameters == b[9..|b| - 2]
    ensures r.Ok? ==> Motors.Unpack(r.value.length) == (b[5], b[6])
    ensures r.Ok? ==> (r.value.errorCode == None <==> b[8] == 0)
    ensures r.Ok? && r.value.errorCode.Some? ==> r.value.errorCode.value == b[8]
  {
    if !ChecksumMatches(b) then Err(InvalidChecksumError())
    else
      Motors.UnpackPack(b[5], b[6]);
      Ok(StatusPacket(b[4], Motors.Pack(b[5], b[6]),
                      if b[8] == 0 then None else Some(b[8]),
                      b[9..|b| - 2]))
  }

  /** The parse with the length check the driver leaves out: a frame too
      short to hold the error byte and the CRC is a parsing error rather
      than a panic. It is the parse the controller uses. */
  function StatusFromBytesChecked(b: seq<u8>): (r: Result<StatusPacket>)
    ensures |b| < 2 ==> r == Err(ParsingError())
    ensures FromBytesDefined(b) ==> r == StatusFromBytes(b)
    ensures !FromBytesDefined(b) ==> r == Err(ParsingError())
  {
    if FromBytesDefined(b) then StatusFromBytes(b) else Err(ParsingError())
  }

  /** The bytes on the wire for a status packet; an absent error code is
      written as 0. */
  function StatusFrame(p: StatusPacket): seq<u8>
  {
    var (lenL, lenH) := Motors.Unpack(p.length);
    var code := if p.errorCode.Some? then p.errorCode.value else 0;
    var body := HEADER + [p.id, lenL, lenH, STATUS_INSTRUCTION, code] + p.parameters;
    var (crcL, crcH) := Motors.Unpack(Crc16.Crc(body));
    body + [crcL, crcH]
  }

  /** The frame is the header, the id, the length field, 0x55, the error
      byte, the parameters and a matching CRC: eleven bytes more than the
      parameters. */
  lemma StatusFrameLayout(p: StatusPacket)
    ensures var f := StatusFrame(p);
      && |f| == |p.parameters| + 11
      && f[..4] == HEADER && f[4] == p.id && f[7] == STATUS_INSTRUCTION
      && Motors.Pack(f[5], f[6]) == p.length
      && f[8] == (if p.errorCode.Some? then p.errorCode.value else 0)
      && f[9..|f| - 2] == p.parameters
      && ChecksumMatches(f)
  {
    var f := StatusFrame(p);
    var body := f[..|f| - 2];
    assert body == HEADER + [p.id, f[5], f[6], STATUS_INSTRUCTION, f[8]] + p.parameters;
    Motors.PackUnpack(p.length);
    Motors.PackUnpack(Crc16.Crc(body));
  }

  /** Serialises a status packet (the driver does this in its tests). */
  method ToBytes(p: StatusPacket) returns (bytes: seq<u8>)
    ensures bytes == StatusFrame(p)
  {
    var (lenL, lenH) := Motors.Unpack(p.length);
    var code := if p.errorCode.Some? then p.errorCode.value else 0;
    bytes := [0xFF, 0xFF, 0xFD, 0x00, p.id, lenL, lenH, 0x55, code];
    bytes := bytes + p.parameters;
    assert bytes == HEADER + [p.id, lenL, lenH, STATUS_INSTRUCTION, code] + p.parameters;
    var crc := Crc16.Crc(bytes);
    var (crcL, crcH) := Motors.Unpack(crc);
    bytes := bytes + [crcL, crcH];
  }

  /** A status packet as parsing gives it back: an error code of 0 reads as
      no error. */
  function Normalized(p: StatusPacket): StatusPacket
  {
    if p.errorCode == Some(0) then p.(errorCode := None) else p
  }

  /** Parsing the bytes of a status packet gives the packet back: same id,
      length and parameters, and the same error code except that `Some(0)`
      comes back as `None`. */
  lemma StatusRoundTrip(p: StatusPacket)
    ensures FromBytesDefined(StatusFrame(p))
    ensures StatusFromBytes(StatusFrame(p)) == Ok(Normalized(p))
  {
    var f := StatusFrame(p);
    StatusFrameLayout(p);
    Motors.PackUnpack(p.length);
    Motors.UnpackPack(f[5], f[6]);
    assert Motors.Unpack(p.length) == (f[5], f[6]);
    var r := StatusFromBytes(f);
    assert r.value.length == p.length;
  }

  /** The unit test's status packet carries a matching CRC. */
  lemma ExampleChecksumMatches(b: seq<u8>)
    requires b == [0xFF, 0xFF, 0xFD, 0x00, 42, 6, 0, 0x55, 0, 0, 23, 4, 242]
    ensures ChecksumMatches(b)
  {
    var body := b[..|b| - 2];
    assert body == [0xFF, 0xFF, 0xFD, 0x00, 42, 6, 0, 0x55, 0, 0, 23];
    Crc16.CrcTestVector(body);
    assert Motors.Pack(b[|b| - 2], b[|b| - 1]) == 0xF204;
  }

  /** The status packet of the driver's unit test: id 42, length 6, no
      error, parameters 0 and 23, CRC bytes 4 and 242. */
  lemma ParseStatusPacketExample(b: seq<u8>)
    requires b == [0xFF, 0xFF, 0xFD, 0x00, 42, 6, 0, 0x55, 0, 0, 23, 4, 242]
    ensures FromBytesDefined(b)
    ensures StatusFromBytes(b) == Ok(StatusPacket(42, 6, None, [0, 23]))
  {
    ExampleChecksumMatches(b);
    assert b[9..|b| - 2] == [0, 23];
  }
}
