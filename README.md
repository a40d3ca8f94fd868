# rustamixel protocol 2.0 core, modelled in Dafny

rustamixel is a `no_std` Rust driver for Dynamixel smart servomotors. It
talks to the motors over a half-duplex serial line with the Dynamixel
protocol 2.0. This project models the driver's core and proves properties
of the model:

- **Packets.** The controller sends instruction packets
  (`FF FF FD 00, ID, LEN_L, LEN_H, INST, PARAM…, CRC_L, CRC_H`) and reads
  back status packets (`… 0x55, ERROR, PARAM…, CRC…`). The CRC is
  CRC-16/BUYPASS over every byte before it.
- **Controller operations.** `ping`, `scan`, `read_data`, `sync_read_data`,
  `write_data` and `sync_write_data`, on top of `send` and `recv`.
- **Errors.** The error taxonomy `DynamixelError` / `ErrorType`.
- **Registers.** The `Register` abstraction, the `pack!`/`unpack!`
  little-endian helpers, and the XL-320 register table.

Files:

- `bytes.dfy`: the machine integer types `u8` and `u16`.
- `error.dfy`: the error kinds, their constructors, and a `Result` type.
- `motors.dfy`: `Register`, `Pack`/`Unpack` and the lemmas that they are
  inverse.
- `xl320.dfy`: the XL-320 registers with their addresses and widths.
- `crc.dfy`: CRC-16/BUYPASS, written out bit by bit on a 16-bit register.
  It is checked against the catalogue check value and against the packet
  in the driver's unit test.
- `protocol_v2.dfy`: packet construction, serialisation and parsing, as
  pure functions. The driver's loops that build byte vectors are methods
  proved against those functions.
- `controller.dfy`: the serial line and the controller. The line is two
  byte sequences held by a `ControllerV2` object:
  - `rx` is the bytes that will arrive. Reading when it is empty is a
    Timeout: the driver's busy wait gives up.
  - `tx` is every byte written so far.

  Each operation has a specification function of the incoming bytes. It
  returns the result and the bytes left unread. The class's methods are
  proved to follow these functions. For loops that stop at the first
  error (`scan`) or skip failures (`sync_read_data`), the loop is a
  recursive function, and the method's loop invariant says that running
  it from the current state gives the final outcome.

  A reply is received byte by byte, as the driver's `recv` reads it:
  - seven header bytes;
  - then as many bytes as the header's length field announces;
  - then the parse.

  `RecvReadsOneFrame` proves this equal to a whole-frame reading built
  from `Take` and `ReadFrame`.

## Model

`Motors.Pack` and `Motors.Unpack` are the definitions of the `pack!` and
`unpack!` macros (src/motors/mod.rs:34-41). `Crc16.Crc` is the definition
of the driver's `crc` function (src/protocol/v2.rs:326-328). Their
properties are stated by the lemmas in the rows below: `UnpackPack`,
`PackUnpack`, `PackDistinct`, `FeedAppend`, `CrcCheckValue` and
`CrcTestVector`.

| member | source | states |
|---|---|---|
| `Error.ParsingError` | src/error.rs:18-22 | the error built has kind `Parsing` |
| `Error.UnsupportedRegisterError` | src/error.rs:23-27 | the error built has kind `UnsupportedRegister` |
| `Error.StatusErrorCode` | src/error.rs:28-32 | the error built is a `StatusError` carrying exactly the byte given |
| `Error.InvalidChecksumError` | src/error.rs:33-37 | the error built has kind `InvalidChecksum` |
| `Error.TimeoutError` | src/error.rs:38-42 | the error built has kind `Timeout` |
| `Error.ErrorTypesDistinct` | src/error.rs:4-11 | the derived equality tells all five kinds apart, and two status errors are equal exactly when their bytes are |
| `Motors.UnpackPack` | src/motors/mod.rs:34-41 | splitting a joined low/high byte pair gives the pair back |
| `Motors.PackUnpack` | src/motors/mod.rs:34-41 | joining the two bytes of a 16-bit word gives the word back |
| `Motors.PackDistinct` | src/motors/mod.rs:34-36 | distinct byte pairs join to distinct words |
| `XL320.RegisterOf` | src/motors/XL_320.rs:3-10 | every XL-320 register is 1 or 2 bytes wide and lies below address 0x100, so its address's high byte is 0 |
| `XL320.RegisterWidths` | src/motors/XL_320.rs:4-9 | `ID` and `TorqueEnable` are one byte wide, and the position, speed and torque-limit registers are two bytes wide, both ways round |
| `XL320.RegistersDisjoint` | src/motors/XL_320.rs:3-10 | no two registers share a byte of the control table |
| `XL320.RegisterAddressesDistinct` | src/motors/XL_320.rs:3-10 | a register is determined by its address |
| `Crc16.FeedAppend` | src/protocol/v2.rs:326-328 | the CRC register after a concatenation is the register after the first part, fed the second |
| `Crc16.CrcCheckValue` | src/protocol/v2.rs:326-328 | the CRC of ASCII "123456789" is 0xFEE8, the catalogue check value of CRC-16/BUYPASS |
| `Crc16.CrcTestVector` | src/protocol/v2.rs:341 | the CRC of the first eleven bytes of the unit test's packet is 0xF204, whose bytes are the packet's last two, 4 and 242 |
| `ProtocolV2.OpcodeInjective` | src/protocol/v2.rs:154-162 | no two instructions share an instruction byte |
| `ProtocolV2.HeaderFromBytes` | src/protocol/v2.rs:173-186 | the parse fails, with `Parsing`, exactly when the first four bytes are not FF FF FD 00; otherwise the id is byte 4 and the length splits into bytes 5 and 6 |
| `ProtocolV2.NewPacket` | src/protocol/v2.rs:200-207 | the packet keeps its id, instruction and parameters; its length is the parameter count plus 3, cut to 16 bits |
| `ProtocolV2.PingPacket` | src/protocol/v2.rs:208-210 | a ping to `id` has no parameters and length 3 |
| `ProtocolV2.ReadDataPacket` | src/protocol/v2.rs:211-220 | the four parameters join back to the address and the length, and the length field is 7 |
| `ProtocolV2.SyncReadDataPacket` | src/protocol/v2.rs:221-229 | the packet goes to the broadcast id; after the address and the length come exactly the ids asked, in order; the length field counts them plus 7 (mod 2^16) |
| `ProtocolV2.WriteDataPacket` | src/protocol/v2.rs:230-236 | the parameters are the address, which joins back, followed by exactly the coded value; the length field is the parameter count plus 3, cut to 16 bits |
| `ProtocolV2.CodedDataSnoc` | src/protocol/v2.rs:241-245 | coding one more (id, value) appends its id and its coded value, which is the fold's step |
| `ProtocolV2.CodedDataLength` | src/protocol/v2.rs:241-245 | when every value codes to `w` bytes, the coded data is `w + 1` bytes per entry |
| `ProtocolV2.CodedDataLayout` | src/protocol/v2.rs:241-245 | entry `k` occupies bytes `k(w+1)` to `(k+1)(w+1)`: its id, then its coded value |
| `ProtocolV2.FoldCodedData` | src/protocol/v2.rs:241-245 | the fold's push/extend loop yields the coded data of all entries, in order |
| `ProtocolV2.SyncWriteDataPacket` | src/protocol/v2.rs:237-250 | the packet goes to the broadcast id, with the address followed by exactly the coded data; the length field is the parameter count plus 3, cut to 16 bits |
| `ProtocolV2.InstructionFrameLayout` | src/protocol/v2.rs:251-273 | the frame is ten bytes longer than the parameters: marker, id, the length field that joins back, instruction byte, the parameters, then the CRC of everything before it |
| `ProtocolV2.AsBytes` | src/protocol/v2.rs:252-273 | the serialisation builds exactly the instruction frame |
| `ProtocolV2.LengthFieldCountsTail` | src/protocol/v2.rs:200-207 | when the parameters fit, the length field counts exactly the frame bytes after the seven header bytes |
| `ProtocolV2.StatusFromBytes` | src/protocol/v2.rs:286-302 | the parse fails, with `InvalidChecksum`, exactly when the CRC does not match; otherwise the id, the length, the error byte (0 read as none) and the parameters come from their fixed offsets |
| `ProtocolV2.StatusFromBytesChecked` | src/protocol/v2.rs:286-302 | it is `StatusFromBytes` wherever that is defined, and otherwise a `Parsing` error |
| `ProtocolV2.StatusFrameLayout` | src/protocol/v2.rs:304-323 | the status frame is eleven bytes longer than the parameters, with 0x55 at byte 7, the error byte (0 for none) at byte 8, and a matching CRC |
| `ProtocolV2.ToBytes` | src/protocol/v2.rs:305-323 | the test serialiser builds exactly the status frame |
| `ProtocolV2.StatusRoundTrip` | src/protocol/v2.rs:347-358 | parsing a serialised status packet gives it back, except that an error code `Some(0)` comes back as none |
| `ProtocolV2.ExampleChecksumMatches` | src/protocol/v2.rs:341 | the unit test's packet carries a matching CRC |
| `ProtocolV2.ParseStatusPacketExample` | src/protocol/v2.rs:339-346 | the unit test's packet parses to id 42, length 6, no error, parameters `[0, 23]` |
| `Controller.Take` | src/protocol/v2.rs:135-137 | reading `n` bytes succeeds exactly when `n` bytes are there, and gives the first `n`; otherwise it is a Timeout with the bytes read lost |
| `Controller.ReadFrameShape` | src/protocol/v2.rs:133-142 | a frame read is a prefix of the incoming bytes that starts with the marker and is as long as its length field says; the only errors are Timeout and `Parsing` |
| `Controller.Deliver` | src/protocol/v2.rs:144-150 | a packet reporting an error byte becomes a `StatusError` with that byte; a parse error, or a packet with no error code, passes through unchanged |
| `Controller.ReceiveBytes` | src/protocol/v2.rs:134-142 | while the reply is still incomplete, reading `n` bytes moves them from the line to the reply, or is a Timeout when the line runs dry |
| `Controller.RecvReadsOneFrame` | src/protocol/v2.rs:133-151 | receiving byte by byte equals reading the header, then the announced length, then parsing |
| `Controller.RecvAgreesWhereDefined` | src/protocol/v2.rs:133-151 | on every input where the driver's `recv` does not panic, the model's receive gives the same result and leaves the same bytes |
| `Controller.RecvRejectsShortFrame` | src/protocol/v2.rs:144 | where the driver's `recv` panics, the model reports `Parsing` and leaves the bytes after the frame unread |
| `Controller.TwoByteFrame` | src/protocol/v2.rs:133-142 | nine bytes whose header announces two more are read as one whole frame |
| `Controller.ShortReplyBreaksRecv` | src/protocol/v2.rs:286-295 | a CRC-valid reply announcing two bytes is outside the driver's `recv` domain, while the model answers `Parsing` and consumes it |
| `Controller.RecvOfStatusFrame` | src/protocol/v2.rs:133-151 | receiving a well-formed status frame consumes exactly it and gives the packet back (or its error) |
| `Controller.RecvReportsStatusError` | src/protocol/v2.rs:146-148 | a reply whose error byte is non-zero fails with `StatusError` of that byte |
| `Controller.PingOutcome` | src/protocol/v2.rs:38-51 | a ping answers true exactly on a valid reply and false exactly on a Timeout, and otherwise passes the error on |
| `Controller.ScanLoop` | src/protocol/v2.rs:53-63 | the id after the last one pinged never passes the end of the range |
| `Controller.ScanLoopAfter` | src/protocol/v2.rs:53-63 | ids found earlier are only kept in front of those found later |
| `Controller.ScanLoopFirst` | src/protocol/v2.rs:53-63 | for any ping, a scan pings the first id, reports it exactly when its ping said true, and goes on with the rest; an error ends it |
| `Controller.ScanFirst` | src/protocol/v2.rs:53-63 | the same for the driver's ping |
| `Controller.ScanLoopAscending` | src/protocol/v2.rs:53-63 | the loop keeps the ids found strictly increasing and within the range |
| `Controller.ScanAscending` | src/protocol/v2.rs:53-63 | a scan of `[lo, hi)` reports strictly increasing ids, all in that range |
| `Controller.ScanLoopNoTimeout` | src/protocol/v2.rs:53-63 | a loop over pings that never fail with Timeout never fails with Timeout |
| `Controller.ScanNeverTimesOut` | src/protocol/v2.rs:38-63 | a scan never fails with Timeout, because a ping turns a Timeout into `false` |
| `Controller.ReadDataOutcome` | src/protocol/v2.rs:67-81 | a read succeeds exactly on a valid reply with as many parameters as the register is long; a count mismatch is `Parsing`; a reply error is passed on |
| `Controller.ReadDataAcceptsAnyReplyId` | src/protocol/v2.rs:67-81 | a valid reply of the right size is decoded whatever id it carries |
| `Controller.SyncReadLoopAskedIds` | src/protocol/v2.rs:85-101 | the loop records at most one answer per entry of the ids list, and only under ids in the list |
| `Controller.SyncReadLoopAfter` | src/protocol/v2.rs:92-98 | replies collected earlier are only kept in front of those collected later |
| `Controller.SyncReadLoopInOrder` | src/protocol/v2.rs:94-98 | from the `i`-th id on, the loop answers under a subsequence of the ids still to come |
| `Controller.AllAnsweredStep` | src/protocol/v2.rs:92-98 | when every motor answers, the answer from the `i`-th id on is that id with its reply's decoded value, followed by the rest |
| `Controller.SyncReadLoopAllAnswer` | src/protocol/v2.rs:92-98 | when each id's turn brings a valid reply, the loop receives exactly that reply and records its decoded value under that id, keeping the earlier answers in front |
| `Controller.SyncReadAllAnswer` | src/protocol/v2.rs:83-101 | when every motor asked answers in turn with a valid reply, the sync read answers every id asked, in order, with the value decoded from its reply, and consumes exactly those replies |
| `Controller.SyncReadSpec` | src/protocol/v2.rs:85-101 | a sync read answers under a subsequence of the ids list: at most once per entry of the list, in the list's order (an id listed twice can be answered twice) |
| `Controller.WriteDataOutcome` | src/protocol/v2.rs:105-115 | a write succeeds exactly when its acknowledgement is valid, and otherwise fails with the acknowledgement's own error; it leaves unread the bytes the receive leaves; with no reply, as after a broadcast write, it is a Timeout |
| `Controller.ControllerV2.constructor` | src/protocol/v2.rs:29-36 | a new controller holds the given line |
| `Controller.ControllerV2.Send` | src/protocol/v2.rs:128-132 | sending writes exactly the packet's frame and reads nothing |
| `Controller.ControllerV2.ReadBytes` | src/protocol/v2.rs:134-137 | reading byte by byte takes what `Take` says and writes nothing |
| `Controller.ControllerV2.Recv` | src/protocol/v2.rs:133-151 | receiving follows the receive specification and writes nothing |
| `Controller.ControllerV2.Ping` | src/protocol/v2.rs:38-51 | a ping writes a ping frame and answers as the ping specification says |
| `Controller.ControllerV2.Scan` | src/protocol/v2.rs:53-63 | a scan answers and consumes as the scan loop says, and writes one ping frame per id pinged, in order |
| `Controller.ControllerV2.ReadData` | src/protocol/v2.rs:67-81 | a read writes the read request and answers as the read specification says |
| `Controller.ControllerV2.SyncReadData` | src/protocol/v2.rs:85-101 | a sync read writes the sync-read request, awaits one reply per id, and answers as the sync-read loop says |
| `Controller.ControllerV2.WriteData` | src/protocol/v2.rs:105-115 | a write writes the write request and waits for the acknowledgement, even after a broadcast |
| `Controller.ControllerV2.SyncWriteData` | src/protocol/v2.rs:119-126 | a sync write writes exactly the sync-write frame and reads nothing |

Where the code and the protocol description differ, the model follows the
code:
- no reply's id is compared with the id addressed;
- the status packet's marker, its 0x55 byte and its length field are not
  checked when it is parsed;
- `write_data` waits for an acknowledgement even when sent to the
  broadcast id;
- `sync_read_data` matches replies to ids by position only, so a missing
  reply puts the later replies under the wrong ids. The model reproduces
  this.

## Left out

- The serial port, the clock and the busy wait are not modelled: `busy_wait!`, `block!`, the `hal` traits and the 1 ms timeout constant. Incoming bytes are a sequence, and running out of them is the Timeout; written bytes are appended to a sequence, and writes never fail, as `Error = !` promises.
- `Controller.PingSpec`, `Controller.ScanRun` with `Controller.ControllerV2.Scan`, and `Controller.SyncReadSpec` with `Controller.ControllerV2.SyncReadData`: since a Timeout happens only when the incoming bytes run out, a Timeout ends the line and nothing arrives after it. A silent motor followed by one that answers cannot be expressed. The driver's scan of a bus where ids 0 and 2 answer reports `[0, 2]`, but the model's scan only ever reports a run of consecutive ids from `lo`. Likewise the model's sync read gets no reply after its first Timeout. The lemmas over `ScanLoop` and `SyncReadLoop` are stated for any ping or receive function, so they cover such a bus too; only the instances built on this line model do not.
- The `crc16` crate is not part of this model. The CRC is a self-written bitwise CRC-16/BUYPASS, checked only on two test vectors. Its error-detecting strength is not proved.
- The `dxl_code_data!` and `dxl_decode_data!` macros are not part of this model. They are the `DataCodec` parameter, so no property of the coding itself is proved.
- `with_protocol_v2`, `DynamixelError::description` (string formatting) and the unit tests' random packet generators are left out. Protocol 1.0, byte stuffing and reply-id checking are out too, since the driver has none of them.
- `(parameters.len() + 3) as u16` is modelled as a remainder modulo 2^16. The properties that need the true length assume it fits.

## Findings

| source | as written | input that shows it | evidently intended | confidence | as-written member | corrected member |
|---|---|---|---|---|---|---|
| src/protocol/v2.rs:133-151 | `recv` reads seven header bytes plus the announced length and hands them to `StatusPacket::from_bytes`. That function checks only the CRC, then reads byte 8 and slices bytes 9 to `end - 2`. A reply whose length field is below 4 but whose CRC matches makes it index past the end and panic. | `FF FF FD 00, id, 02 00`, followed by the two CRC bytes of those seven | a frame too short to hold the instruction byte, the error byte and the CRC is rejected as a parsing error | not executed | `Controller.RecvAsWritten` with `Controller.ShortReplyBreaksRecv` | `Controller.RecvSpec` (through `ProtocolV2.StatusFromBytesChecked`) with `Controller.RecvRejectsShortFrame` and `Controller.RecvAgreesWhereDefined` |
