/** The protocol 2.0 controller: one request/response exchange at a time
    over a serial line.

    The line is modelled by two byte sequences. `rx` holds the bytes that
    will arrive, in order; asking for a byte when none is left is a
    Timeout (the driver's busy wait gives up). `tx` holds every byte
    written so far. Each operation is specified by a function of the
    incoming bytes that returns the result together with the bytes still
    unread; the methods of `ControllerV2` are proved to follow them. */
module Controller {

  import opened Bytes
  import opened Error
  import Motors
  import Crc16
  import opened ProtocolV2

  /** The outcome of reading from the line: a result and the bytes left
      unread. */
  datatype Exchange<T> = Exchange(result: Result<T>, rest: seq<u8>)

  // ---------------------------------------------------------------------
  // Receiving

  /** Reading `n` bytes: the next `n` bytes, or a Timeout when the line
      runs dry first; the bytes read before a Timeout are lost. */
  function Take(rx: seq<u8>, n: nat): (r: Exchange<seq<u8>>)
    ensures r.result.Ok? <==> n <= |rx|
    ensures r.result.Ok? ==> |r.result.value| == n && r.result.value + r.rest == rx
    ensures r.result.Err? ==> r.result.err.error == Timeout && r.rest == []
  {
    if n <= |rx| then Exchange(Ok(rx[..n]), rx[n..]) else Exchange(Err(TimeoutError()), [])
  }

  /** The bytes of one reply: seven header bytes, then as many more as the
      header's length field says. A bad marker stops after the header. */
  function ReadFrame(rx: seq<u8>): Exchange<seq<u8>>
  {
    var head := Take(rx, HEADER_LENGTH);
    if head.result.Err? then Exchange(Err(head.result.err), head.rest)
    else
      var header := HeaderFromBytes(head.result.value);
      if header.Err? then Exchange(Err(header.err), head.rest)
      else
        var body := Take(head.rest, header.value.length);
        if body.result.Err? then Exchange(Err(body.result.err), body.rest)
        else Exchange(Ok(head.result.value + body.result.value), body.rest)
  }

  /** A frame read is a prefix of the incoming bytes that starts with the
      marker and is as long as its length field says; reading fails only
      with Timeout or, on a bad marker, Parsing. */
  lemma ReadFrameShape(rx: seq<u8>)
    ensures var r := ReadFrame(rx);
      && (r.result.Ok? ==> r.result.value + r.rest == rx)
      && (r.result.Ok? ==> |r.result.value| >= HEADER_LENGTH && r.result.value[..4] == HEADER)
      && (r.result.Ok? ==> |r.result.value| == HEADER_LENGTH + Motors.Pack(r.result.value[5], r.result.value[6]))
      && (r.result.Err? ==> r.result.err.error == Timeout || r.result.err.error == Parsing)
  {
    var head := Take(rx, HEADER_LENGTH);
    if head.result.Ok? {
      var header := HeaderFromBytes(head.result.value);
      if header.Ok? {
        Motors.PackUnpack(header.value.length);
        var body := Take(head.rest, header.value.length);
        if body.result.Ok? {
          assert (head.result.value + body.result.value)[..4] == head.result.value[..4];
          assert (head.result.value + body.result.value) + body.rest == head.result.value + (body.result.value + body.rest);
        }
      }
    }
  }

  /** A parsed status packet that reports an error becomes that error. */
  function Deliver(r: Result<StatusPacket>): (d: Result<StatusPacket>)
    ensures d.Ok? ==> r == d && d.value.errorCode.None?
    ensures r.Ok? && r.value.errorCode.Some? ==> d == Err(StatusErrorCode(r.value.errorCode.value))
    ensures !(r.Ok? && r.value.errorCode.Some?) ==> d == r
  {
    if r.Ok? && r.value.errorCode.Some? then Err(StatusErrorCode(r.value.errorCode.value)) else r
  }

  /** Whether a reply of which `got` has been read still waits for bytes:
      the header is incomplete, or it is complete and valid and announces
      more bytes than have come. */
  predicate Awaiting(got: seq<u8>)
  {
    |got| < HEADER_LENGTH ||
    (HeaderFromBytes(got[..HEADER_LENGTH]).Ok? &&
     |got| < HEADER_LENGTH + HeaderFromBytes(got[..HEADER_LENGTH]).value.length)
  }

  /** Receiving the rest of a reply of which `got` has been read, one byte
      at a time: a byte that does not come is a Timeout (what was read is
      lost); once complete, a bad marker is a parsing error, and otherwise
      the bytes are parsed and a reported error becomes `StatusError`. */
  function Receive(rx: seq<u8>, got: seq<u8>): Exchange<StatusPacket>
    decreases |rx|
  {
    if Awaiting(got) then
      if rx == [] then Exchange(Err(TimeoutError()), []) else Receive(rx[1..], got + [rx[0]])
    else if HeaderFromBytes(got[..HEADER_LENGTH]).Err? then
      Exchange(Err(HeaderFromBytes(got[..HEADER_LENGTH]).err), rx)
    else Exchange(Deliver(StatusFromBytesChecked(got)), rx)
  }

  /** One reply, received from nothing. The reply's id is never compared
      with anything. */
  function RecvSpec(rx: seq<u8>): Exchange<StatusPacket>
  {
    Receive(rx, [])
  }

  /** One reply seen whole: read a frame, parse it, turn a reported error
      into `StatusError`. */
  function RecvFrame(rx: seq<u8>): Exchange<StatusPacket>
  {
    var frame := ReadFrame(rx);
    if frame.result.Err? then Exchange(Err(frame.result.err), frame.rest)
    else Exchange(Deliver(StatusFromBytesChecked(frame.result.value)), frame.rest)
  }

  /** Whether `n` more bytes can be added to `got` while the reply keeps
      waiting for each: they fit within the header, or within the length a
      valid header announces. */
  predicate Fillable(got: seq<u8>, n: nat)
  {
    |got| + n <= HEADER_LENGTH ||
    (|got| >= HEADER_LENGTH && HeaderFromBytes(got[..HEADER_LENGTH]).Ok? &&
     |got| + n <= HEADER_LENGTH + HeaderFromBytes(got[..HEADER_LENGTH]).value.length)
  }

  /** The first of those bytes is awaited, and the others can follow it. */
  lemma FillableStep(got: seq<u8>, b: u8, n: nat)
    requires Fillable(got, n) && n > 0
    ensures Awaiting(got) && Fillable(got + [b], n - 1)
  {
    if |got| >= HEADER_LENGTH {
      assert (got + [b])[..HEADER_LENGTH] == got[..HEADER_LENGTH];
    }
  }

  /** Moving one byte from the line to the reply, then `n - 1` more, moves
      `n` bytes. */
  lemma ShiftBytes(rx: seq<u8>, got: seq<u8>, n: nat)
    requires 0 < n <= |rx|
    ensures rx[1..][n - 1..] == rx[n..]
    ensures (got + [rx[0]]) + rx[1..][..n - 1] == got + rx[..n]
  {
    assert rx[..n] == [rx[0]] + rx[1..][..n - 1];
  }

  /** Reading `n` more bytes while the reply still waits for them, within
      the header or within the announced length, only moves them from the
      line to the reply; the line running dry on the way is a Timeout. */
  lemma {:induction false} ReceiveBytes(rx: seq<u8>, got: seq<u8>, n: nat)
    requires Fillable(got, n)
    ensures Receive(rx, got) ==
      if n <= |rx| then Receive(rx[n..], got + rx[..n]) else Exchange(Err(TimeoutError()), [])
    decreases n
  {
    if n == 0 {
      assert rx[0..] == rx && got + rx[..0] == got;
    } else if rx == [] {
      FillableStep(got, 0, n);
    } else {
      FillableStep(got, rx[0], n);
      assert Receive(rx, got) == Receive(rx[1..], got + [rx[0]]);
      ReceiveBytes(rx[1..], got + [rx[0]], n - 1);
      if n <= |rx| {
        ShiftBytes(rx, got, n);
      }
    }
  }

  /** Receiving byte by byte reads exactly one frame: it agrees with the
      whole-frame view on every input. */
  lemma RecvReadsOneFrame(rx: seq<u8>)
    ensures RecvSpec(rx) == RecvFrame(rx)
  {
    ReceiveBytes(rx, [], HEADER_LENGTH);
    if HEADER_LENGTH <= |rx| {
      var head := rx[..HEADER_LENGTH];
      assert [] + head == head && head[..HEADER_LENGTH] == head;
      var header := HeaderFromBytes(head);
      if header.Ok? {
        var rest := rx[HEADER_LENGTH..];
        ReceiveBytes(rest, head, header.value.length);
        if header.value.length <= |rest| {
          var got := head + rest[..header.value.length];
          assert got[..HEADER_LENGTH] == head;
          assert !Awaiting(got);
        }
      }
    }
  }

  /** The incoming bytes on which the driver's own `recv` does not panic. */
  predicate RecvDefined(rx: seq<u8>)
  {
    ReadFrame(rx).result.Ok? ==> FromBytesDefined(ReadFrame(rx).result.value)
  }

  /** `recv` as written: parses the frame without a length check, so it is
      only defined where that parse is. */
  function RecvAsWritten(rx: seq<u8>): Exchange<StatusPacket>
    requires RecvDefined(rx)
  {
    var frame := ReadFrame(rx);
    if frame.result.Err? then Exchange(Err(frame.result.err), frame.rest)
    else Exchange(Deliver(StatusFromBytes(frame.result.value)), frame.rest)
  }

  /** Wherever the driver's `recv` is defined, the model's agrees with it. */
  lemma RecvAgreesWhereDefined(rx: seq<u8>)
    requires RecvDefined(rx)
    ensures RecvSpec(rx) == RecvAsWritten(rx)
  {
    RecvReadsOneFrame(rx);
  }

  /** Where the driver's `recv` would index past the end of the frame
      read, the model reports a parsing error and leaves the bytes after
      that frame unread. */
  lemma RecvRejectsShortFrame(rx: seq<u8>)
    requires !RecvDefined(rx)
    ensures RecvSpec(rx) == Exchange(Err(ParsingError()), ReadFrame(rx).rest)
  {
    RecvReadsOneFrame(rx);
  }

  /** The bytes `h` followed by their CRC, low byte first. */
  function WithCrc(h: seq<u8>): (b: seq<u8>)
    ensures |b| == |h| + 2 && b[..|h|] == h && ChecksumMatches(b)
  {
    var (crcL, crcH) := Motors.Unpack(Crc16.Crc(h));
    var b := h + [crcL, crcH];
    assert b[..|b| - 2] == h;
    Motors.PackUnpack(Crc16.Crc(h));
    b
  }

  /** A reply from `id` whose header announces two bytes, followed by the
      CRC of the header: the marker is right and the checksum matches. */
  function ShortReply(id: u8): (b: seq<u8>)
    ensures |b| == 9 && b[..7] == [0xFF, 0xFF, 0xFD, 0x00, id, 2, 0] && ChecksumMatches(b)
  {
    WithCrc([0xFF, 0xFF, 0xFD, 0x00, id, 2, 0])
  }

  /** Nine bytes whose header announces two bytes are read as one whole
      frame. */
  lemma TwoByteFrame(b: seq<u8>)
    requires |b| == 9 && b[..7] == [0xFF, 0xFF, 0xFD, 0x00, b[4], 2, 0]
    ensures ReadFrame(b) == Exchange(Ok(b), [])
  {
    var head := b[..7];
    assert head[..4] == HEADER;
    assert HeaderFromBytes(head) == Ok(PacketHeader(b[4], Motors.Pack(2, 0)));
    assert Motors.Pack(2, 0) == 2;
    var tail := b[7..];
    assert tail[..2] == tail;
    assert head + tail == b;
  }

  /** On a short reply the driver's `recv` indexes past the end of the
      frame (it reads the error byte at offset 8 and the parameters from
      offset 9 up to the CRC), while the model reports a parsing error and
      consumes the reply. */
  lemma ShortReplyBreaksRecv(id: u8)
    ensures !RecvDefined(ShortReply(id))
    ensures RecvSpec(ShortReply(id)) == Exchange(Err(ParsingError()), [])
  {
    TwoByteFrame(ShortReply(id));
    RecvReadsOneFrame(ShortReply(id));
  }

  /** Receiving the bytes of a well-formed status packet (length field
      counting the error byte, the parameters and the CRC) consumes exactly
      them and gives the packet, or its error. */
  lemma RecvOfStatusFrame(sp: StatusPacket, rest: seq<u8>)
    requires sp.length == |sp.parameters| + 4
    ensures RecvSpec(StatusFrame(sp) + rest) == Exchange(Deliver(Ok(Normalized(sp))), rest)
  {
    var f := StatusFrame(sp);
    StatusFrameLayout(sp);
    var rx := f + rest;
    assert rx[..HEADER_LENGTH] == f[..HEADER_LENGTH];
    assert f[..HEADER_LENGTH][..4] == HEADER;
    var header := HeaderFromBytes(f[..HEADER_LENGTH]);
    Motors.UnpackPack(f[5], f[6]);
    assert header.value.length == sp.length;
    assert rx[HEADER_LENGTH..][..sp.length] == f[HEADER_LENGTH..];
    assert rx[HEADER_LENGTH..][sp.length..] == rest;
    assert f[..HEADER_LENGTH] + f[HEADER_LENGTH..] == f;
    assert ReadFrame(rx) == Exchange(Ok(f), rest);
    StatusRoundTrip(sp);
    RecvReadsOneFrame(rx);
  }

  /** A reply that reports a non-zero error byte fails with that byte. */
  lemma RecvReportsStatusError(sp: StatusPacket, rest: seq<u8>, e: u8)
    requires sp.length == |sp.parameters| + 4
    requires sp.errorCode == Some(e) && e != 0
    ensures RecvSpec(StatusFrame(sp) + rest).result == Err(StatusErrorCode(e))
  {
    RecvOfStatusFrame(sp, rest);
  }

  // ---------------------------------------------------------------------
  // Ping and scan

  /** A ping succeeds with `true` on any valid reply, with `false` when
      nothing arrives, and fails with any other error. */
  function PingSpec(rx: seq<u8>): Exchange<bool>
  {
    var reply := RecvSpec(rx);
    if reply.result.Ok? then Exchange(Ok(true), reply.rest)
    else if reply.result.err.error == Timeout then Exchange(Ok(false), reply.rest)
    else Exchange(Err(reply.result.err), reply.rest)
  }

  /** A ping answers `false` exactly when the reply timed out, `true`
      exactly when a valid reply came, and passes on every other error. */
  lemma PingOutcome(rx: seq<u8>)
    ensures PingSpec(rx).rest == RecvSpec(rx).rest
    ensures PingSpec(rx).result == Ok(true) <==> RecvSpec(rx).result.Ok?
    ensures PingSpec(rx).result == Ok(false) <==> RecvSpec(rx).result == Err(TimeoutError())
    ensures PingSpec(rx).result.Err? <==> RecvSpec(rx).result.Err? && RecvSpec(rx).result.err.error != Timeout
    ensures PingSpec(rx).result.Err? ==> PingSpec(rx).result.err == RecvSpec(rx).result.err
  {
  }

  /** The bytes a ping of `id` writes. */
  function PingBytes(id: u8): seq<u8>
  {
    InstructionFrame(PingPacket(id))
  }

  /** The bytes written by sending `frame(id)` for every id of `[lo, hi)`
      in order; a scan writes `Frames(PingBytes, lo, hi)`. */
  function Frames(frame: u8 -> seq<u8>, lo: nat, hi: nat): seq<u8>
    requires hi <= 0x100
    decreases hi
  {
    if hi <= lo then [] else Frames(frame, lo, hi - 1) + frame(hi - 1)
  }

  /** Where a scan stands: its result, the bytes left to read, and `next`,
      the id after the last one pinged. */
  datatype ScanState = ScanState(result: Result<seq<u8>>, rest: seq<u8>, next: nat)

  /** The scan loop from `id` on, with the ids `found` so far, for a ping
      whose outcome on the incoming bytes is `ping`. Each id is pinged in
      turn; the first error ends the scan. */
  function ScanLoop(ping: seq<u8> -> Exchange<bool>, rx: seq<u8>, id: nat, hi: nat, found: seq<u8>): (s: ScanState)
    requires hi <= 0x100
    ensures id <= hi ==> s.next <= hi
    decreases hi - id
  {
    if id >= hi then ScanState(Ok(found), rx, id)
    else
      var p := ping(rx);
      if p.result.Err? then ScanState(Err(p.result.err), p.rest, id + 1)
      else ScanLoop(ping, p.rest, id + 1, hi, if p.result.value then found + [id] else found)
  }

  /** The driver's scan of `[lo, hi)`, starting with nothing found. */
  function ScanRun(rx: seq<u8>, lo: nat, hi: nat): ScanState
    requires hi <= 0x100
  {
    ScanLoop(PingSpec, rx, lo, hi, [])
  }

  /** One more frame extends the bytes written by the ones before. */
  lemma FramesStep(frame: u8 -> seq<u8>, t0: seq<u8>, t1: seq<u8>, t2: seq<u8>, lo: nat, id: nat)
    requires lo <= id < 0x100
    requires t1 == t0 + Frames(frame, lo, id) && t2 == t1 + frame(id)
    ensures t2 == t0 + Frames(frame, lo, id + 1)
  {
  }

  /** One turn of the loop, with the ping's outcome named. */
  lemma ScanLoopTurn(ping: seq<u8> -> Exchange<bool>, rx: seq<u8>, rest: seq<u8>, r: Result<bool>, id: nat, hi: nat, found: seq<u8>, goal: ScanState)
    requires id < hi <= 0x100
    requires ScanLoop(ping, rx, id, hi, found) == goal
    requires Exchange(r, rest) == ping(rx)
    ensures r.Err? ==> goal == ScanState(Err(r.err), rest, id + 1)
    ensures r.Ok? ==> ScanLoop(ping, rest, id + 1, hi, if r.value then found + [id] else found) == goal
  {
  }

  /** A scan outcome with `found` put before the ids found. */
  function After(found: seq<u8>, s: ScanState): ScanState
  {
    s.(result := if s.result.Ok? then Ok(found + s.result.value) else s.result)
  }

  /** The ids found before do not influence the rest of a scan: they are
      only kept in front. */
  lemma {:induction false} ScanLoopAfter(ping: seq<u8> -> Exchange<bool>, rx: seq<u8>, id: nat, hi: nat, found: seq<u8>)
    requires hi <= 0x100
    ensures ScanLoop(ping, rx, id, hi, found) == After(found, ScanLoop(ping, rx, id, hi, []))
    decreases hi - id
  {
    if id >= hi {
      assert found + [] == found;
    } else {
      var p := ping(rx);
      if p.result.Ok? {
        var step: seq<u8> := if p.result.value then [id] else [];
        assert (if p.result.value then found + [id] else found) == found + step;
        assert (if p.result.value then [] + [id] else []) == step;
        ScanLoopAfter(ping, p.rest, id + 1, hi, found + step);
        ScanLoopAfter(ping, p.rest, id + 1, hi, step);
        var tail := ScanLoop(ping, p.rest, id + 1, hi, []);
        if tail.result.Ok? {
          assert (found + step) + tail.result.value == found + (step + tail.result.value);
        }
      }
    }
  }

  /** Scanning `[lo, hi)` pings `lo` first: `lo` is reported exactly when
      its ping answered `true`, and what follows is the scan of
      `[lo + 1, hi)` on the bytes left; an error from the ping ends it. */
  lemma ScanLoopFirst(ping: seq<u8> -> Exchange<bool>, rx: seq<u8>, lo: nat, hi: nat)
    requires lo < hi <= 0x100
    ensures ScanLoop(ping, rx, lo, hi, []) ==
      if ping(rx).result.Err? then ScanState(Err(ping(rx).result.err), ping(rx).rest, lo + 1)
      else After(if ping(rx).result.value then [lo] else [], ScanLoop(ping, ping(rx).rest, lo + 1, hi, []))
  {
    var p := ping(rx);
    if p.result.Ok? {
      assert (if p.result.value then [] + [lo] else []) == (if p.result.value then [lo] else []);
      ScanLoopAfter(ping, p.rest, lo + 1, hi, if p.result.value then [lo] else []);
    }
  }

  /** The same for the driver's ping. */
  lemma ScanFirst(rx: seq<u8>, lo: nat, hi: nat)
    requires lo < hi <= 0x100
    ensures var p := PingSpec(rx);
      ScanRun(rx, lo, hi) ==
        if p.result.Err? then ScanState(Err(p.result.err), p.rest, lo + 1)
        else After(if p.result.value then [lo] else [], ScanRun(p.rest, lo + 1, hi))
  {
    ScanLoopFirst(PingSpec, rx, lo, hi);
  }

  /** Strictly increasing. */
  predicate Ascending(s: seq<u8>)
  {
    forall i, j :: 0 <= i < j < |s| ==> s[i] < s[j]
  }

  /** Every element lies in `[lo, hi)`. */
  predicate Within(s: seq<u8>, lo: nat, hi: nat)
  {
    forall i :: 0 <= i < |s| ==> lo <= s[i] < hi
  }

  /** Appending an id above all those found keeps them increasing. */
  lemma AppendAscending(found: seq<u8>, lo: nat, id: u8)
    requires Ascending(found) && Within(found, lo, id) && lo <= id
    ensures Ascending(found + [id]) && Within(found + [id], lo, id + 1)
  {
  }

  /** The loop keeps the ids found strictly increasing and within
      `[lo, hi)`. */
  lemma {:induction false} ScanLoopAscending(ping: seq<u8> -> Exchange<bool>, rx: seq<u8>, lo: nat, id: nat, hi: nat, found: seq<u8>)
    requires lo <= id <= hi <= 0x100
    requires Ascending(found) && Within(found, lo, id)
    ensures ScanLoop(ping, rx, id, hi, found).result.Ok? ==>
      Ascending(ScanLoop(ping, rx, id, hi, found).result.value) &&
      Within(ScanLoop(ping, rx, id, hi, found).result.value, lo, hi)
    decreases hi - id
  {
    if id < hi {
      var p := ping(rx);
      if p.result.Ok? {
        var found' := if p.result.value then found + [id] else found;
        if p.result.value {
          AppendAscending(found, lo, id);
        }
        ScanLoopAscending(ping, p.rest, lo, id + 1, hi, found');
      }
    }
  }

  /** The ids a scan of `[lo, hi)` reports are strictly increasing and lie
      in that range. */
  lemma ScanAscending(rx: seq<u8>, lo: nat, hi: nat)
    requires lo <= hi <= 0x100
    ensures ScanRun(rx, lo, hi).result.Ok? ==>
      Ascending(ScanRun(rx, lo, hi).result.value) && Within(ScanRun(rx, lo, hi).result.value, lo, hi)
  {
    ScanLoopAscending(PingSpec, rx, lo, lo, hi, []);
  }

  /** A loop over pings that never fail with Timeout never fails with
      Timeout either. */
  lemma {:induction false} ScanLoopNoTimeout(ping: seq<u8> -> Exchange<bool>, rx: seq<u8>, id: nat, hi: nat, found: seq<u8>)
    requires hi <= 0x100
    requires forall r :: ping(r).result.Err? ==> ping(r).result.err.error != Timeout
    ensures ScanLoop(ping, rx, id, hi, found).result.Err? ==>
      ScanLoop(ping, rx, id, hi, found).result.err.error != Timeout
    decreases hi - id
  {
    if id < hi {
      var p := ping(rx);
      if p.result.Ok? {
        ScanLoopNoTimeout(ping, p.rest, id + 1, hi, if p.result.value then found + [id] else found);
      }
    }
  }

  /** A scan never fails with Timeout: a ping turns a Timeout into `false`. */
  lemma ScanNeverTimesOut(rx: seq<u8>, lo: nat, hi: nat)
    requires hi <= 0x100
    ensures ScanRun(rx, lo, hi).result.Err? ==> ScanRun(rx, lo, hi).result.err.error != Timeout
  {
    forall r
      ensures PingSpec(r).result.Err? ==> PingSpec(r).result.err.error != Timeout
    {
      PingOutcome(r);
    }
    ScanLoopNoTimeout(PingSpec, rx, lo, hi, []);
  }

  // ---------------------------------------------------------------------
  // Reading and writing registers

  /** Reads a register: the reply must carry exactly as many parameters as
      the register is long, which are then decoded. */
  function ReadDataSpec(rx: seq<u8>, reg: Motors.Register, codec: DataCodec): Exchange<u16>
  {
    var reply := RecvSpec(rx);
    if reply.result.Err? then Exchange(Err(reply.result.err), reply.rest)
    else if |reply.result.value.parameters| != reg.length then Exchange(Err(ParsingError()), reply.rest)
    else Exchange(Ok(codec.decode(reg.length, reply.result.value.parameters)), reply.rest)
  }

  /** A valid reply whose parameter count differs from the register's
      length is a parsing error; otherwise the reply's outcome decides. */
  lemma ReadDataOutcome(rx: seq<u8>, reg: Motors.Register, codec: DataCodec)
    ensures ReadDataSpec(rx, reg, codec).rest == RecvSpec(rx).rest
    ensures RecvSpec(rx).result.Err? ==> ReadDataSpec(rx, reg, codec).result == Err(RecvSpec(rx).result.err)
    ensures RecvSpec(rx).result.Ok? && |RecvSpec(rx).result.value.parameters| != reg.length ==>
      ReadDataSpec(rx, reg, codec).result == Err(ParsingError())
    ensures ReadDataSpec(rx, reg, codec).result.Ok? <==>
      RecvSpec(rx).result.Ok? && |RecvSpec(rx).result.value.parameters| == reg.length
  {
  }

  /** A valid reply with the right number of parameters is decoded,
      whatever id it carries: the reply's id is never checked against the
      id addressed. */
  lemma ReadDataAcceptsAnyReplyId(sp: StatusPacket, rest: seq<u8>, reg: Motors.Register, codec: DataCodec)
    requires sp.length == |sp.parameters| + 4
    requires sp.errorCode == None || sp.errorCode == Some(0)
    requires |sp.parameters| == reg.length
    ensures ReadDataSpec(StatusFrame(sp) + rest, reg, codec) == Exchange(Ok(codec.decode(reg.length, sp.parameters)), rest)
  {
    RecvOfStatusFrame(sp, rest);
  }

  /** The replies collected by a sync read, and the bytes left. */
  datatype SyncReadState = SyncReadState(answer: seq<(u8, u16)>, rest: seq<u8>)

  /** The sync-read loop from the `i`-th id on, for a receive whose
      outcome on the incoming bytes is `recv`: one reply is awaited per id,
      and each valid reply is recorded under the id whose turn it is. */
  function SyncReadLoop(recv: seq<u8> -> Exchange<StatusPacket>, rx: seq<u8>, ids: seq<u8>, i: nat, len: u16, codec: DataCodec, answer: seq<(u8, u16)>): SyncReadState
    decreases |ids| - i
  {
    if i >= |ids| then SyncReadState(answer, rx)
    else
      var reply := recv(rx);
      SyncReadLoop(recv, reply.rest, ids, i + 1, len, codec,
                   if reply.result.Ok? then answer + [(ids[i], codec.decode(len, reply.result.value.parameters))] else answer)
  }

  /** The loop answers at most once per entry of `ids`, and only under ids
      in the list. */
  lemma {:induction false} SyncReadLoopAskedIds(recv: seq<u8> -> Exchange<StatusPacket>, rx: seq<u8>, ids: seq<u8>, i: nat, len: u16, codec: DataCodec, answer: seq<(u8, u16)>)
    requires i <= |ids| && |answer| <= i
    requires forall k :: 0 <= k < |answer| ==> answer[k].0 in ids
    ensures |SyncReadLoop(recv, rx, ids, i, len, codec, answer).answer| <= |ids|
    ensures forall k :: 0 <= k < |SyncReadLoop(recv, rx, ids, i, len, codec, answer).answer| ==>
      SyncReadLoop(recv, rx, ids, i, len, codec, answer).answer[k].0 in ids
    decreases |ids| - i
  {
    if i < |ids| {
      var reply := recv(rx);
      var answer' := if reply.result.Ok? then answer + [(ids[i], codec.decode(len, reply.result.value.parameters))] else answer;
      assert forall k :: 0 <= k < |answer'| ==> answer'[k].0 in ids;
      SyncReadLoopAskedIds(recv, reply.rest, ids, i + 1, len, codec, answer');
    }
  }

  /** The ids of a sync-read answer, in order. */
  function Ids(answer: seq<(u8, u16)>): (r: seq<u8>)
    ensures |r| == |answer| && forall k :: 0 <= k < |answer| ==> r[k] == answer[k].0
  {
    seq(|answer|, k requires 0 <= k < |answer| => answer[k].0)
  }

  /** `a` is `b` with some elements left out, the others kept in order. */
  predicate Subsequence(a: seq<u8>, b: seq<u8>)
    decreases |b|
  {
    if a == [] then true
    else if b == [] then false
    else (a[0] == b[0] && Subsequence(a[1..], b[1..])) || Subsequence(a, b[1..])
  }

  /** The replies collected before do not influence the rest of a sync
      read: they are only kept in front. */
  lemma {:induction false} SyncReadLoopAfter(recv: seq<u8> -> Exchange<StatusPacket>, rx: seq<u8>, ids: seq<u8>, i: nat, len: u16, codec: DataCodec, answer: seq<(u8, u16)>)
    ensures SyncReadLoop(recv, rx, ids, i, len, codec, answer) ==
      SyncReadState(answer + SyncReadLoop(recv, rx, ids, i, len, codec, []).answer,
                    SyncReadLoop(recv, rx, ids, i, len, codec, []).rest)
    decreases |ids| - i
  {
    if i >= |ids| {
      assert answer + [] == answer;
    } else {
      var reply := recv(rx);
      if reply.result.Ok? {
        var entry := (ids[i], codec.decode(len, reply.result.value.parameters));
        SyncReadLoopAfter(recv, reply.rest, ids, i + 1, len, codec, answer + [entry]);
        SyncReadLoopAfter(recv, reply.rest, ids, i + 1, len, codec, [entry]);
        var tail := SyncReadLoop(recv, reply.rest, ids, i + 1, len, codec, []).answer;
        assert [] + [entry] == [entry];
        assert (answer + [entry]) + tail == answer + ([entry] + tail);
      } else {
        SyncReadLoopAfter(recv, reply.rest, ids, i + 1, len, codec, answer);
      }
    }
  }

  /** From the `i`-th id on, the loop answers under a subsequence of the
      ids still to come: in their order, at most once per entry. */
  lemma {:induction false} SyncReadLoopInOrder(recv: seq<u8> -> Exchange<StatusPacket>, rx: seq<u8>, ids: seq<u8>, i: nat, len: u16, codec: DataCodec)
    requires i <= |ids|
    ensures Subsequence(Ids(SyncReadLoop(recv, rx, ids, i, len, codec, []).answer), ids[i..])
    decreases |ids| - i
  {
    if i < |ids| {
      var reply := recv(rx);
      SyncReadLoopInOrder(recv, reply.rest, ids, i + 1, len, codec);
      var tail := SyncReadLoop(recv, reply.rest, ids, i + 1, len, codec, []).answer;
      assert ids[i..][1..] == ids[i + 1..];
      if reply.result.Ok? {
        var entry := (ids[i], codec.decode(len, reply.result.value.parameters));
        assert [] + [entry] == [entry];
        SyncReadLoopAfter(recv, reply.rest, ids, i + 1, len, codec, [entry]);
        assert SyncReadLoop(recv, rx, ids, i, len, codec, []).answer == [entry] + tail;
        var found := Ids([entry] + tail);
        assert found[0] == ids[i..][0] && found[1..] == Ids(tail);
      } else {
        assert SyncReadLoop(recv, rx, ids, i, len, codec, []).answer == tail;
      }
    }
  }

  /** The driver's sync read answers under a subsequence of the ids asked:
      at most once per entry of the list, in the list's order. */
  function SyncReadSpec(rx: seq<u8>, ids: seq<u8>, len: u16, codec: DataCodec): (r: SyncReadState)
    ensures |r.answer| <= |ids|
    ensures forall k :: 0 <= k < |r.answer| ==> r.answer[k].0 in ids
    ensures Subsequence(Ids(r.answer), ids)
  {
    SyncReadLoopAskedIds(RecvSpec, rx, ids, 0, len, codec, []);
    SyncReadLoopInOrder(RecvSpec, rx, ids, 0, len, codec);
    assert ids[0..] == ids;
    SyncReadLoop(RecvSpec, rx, ids, 0, len, codec, [])
  }

  /** The bytes of several status packets, one after another. */
  function StatusFrames(sps: seq<StatusPacket>): seq<u8>
    decreases |sps|
  {
    if sps == [] then [] else StatusFrame(sps[0]) + StatusFrames(sps[1..])
  }

  /** A well-formed status packet that reports no error. */
  predicate ValidReply(sp: StatusPacket)
  {
    sp.length == |sp.parameters| + 4 && (sp.errorCode == None || sp.errorCode == Some(0))
  }

  /** The answer of a sync read from the `i`-th id on when every motor
      answers: each id with its reply's decoded value. */
  function AllAnswered(sps: seq<StatusPacket>, ids: seq<u8>, i: nat, len: u16, codec: DataCodec): (r: seq<(u8, u16)>)
    requires |sps| == |ids| && i <= |ids|
    ensures |r| == |ids| - i
    ensures forall k :: 0 <= k < |r| ==> r[k] == (ids[i + k], codec.decode(len, sps[i + k].parameters))
  {
    seq(|ids| - i, k requires 0 <= k < |ids| - i => (ids[i + k], codec.decode(len, sps[i + k].parameters)))
  }

  /** Answering from the `i`-th id on is answering the `i`-th id, then the
      rest. */
  lemma AllAnsweredStep(sps: seq<StatusPacket>, ids: seq<u8>, i: nat, len: u16, codec: DataCodec)
    requires |sps| == |ids| && i < |ids|
    ensures AllAnswered(sps, ids, i, len, codec) ==
      [(ids[i], codec.decode(len, sps[i].parameters))] + AllAnswered(sps, ids, i + 1, len, codec)
  {
    var a := AllAnswered(sps, ids, i, len, codec);
    var b := [(ids[i], codec.decode(len, sps[i].parameters))] + AllAnswered(sps, ids, i + 1, len, codec);
    assert forall k :: 0 <= k < |a| ==> a[k] == b[k];
  }

  /** When every motor asked sends a valid reply, in turn, each reply is
      received and recorded under its turn's id, whatever answers came
      before. */
  lemma {:induction false} SyncReadLoopAllAnswer(sps: seq<StatusPacket>, ids: seq<u8>, i: nat, len: u16, codec: DataCodec, answer: seq<(u8, u16)>, rest: seq<u8>)
    requires |sps| == |ids| && i <= |ids|
    requires forall k :: 0 <= k < |sps| ==> ValidReply(sps[k])
    ensures SyncReadLoop(RecvSpec, StatusFrames(sps[i..]) + rest, ids, i, len, codec, answer) ==
      SyncReadState(answer + AllAnswered(sps, ids, i, len, codec), rest)
    decreases |ids| - i
  {
    if i >= |ids| {
      assert sps[i..] == [];
      assert answer + AllAnswered(sps, ids, i, len, codec) == answer;
    } else {
      var sp := sps[i];
      assert sps[i..][0] == sp && sps[i..][1..] == sps[i + 1..];
      var later := StatusFrames(sps[i + 1..]) + rest;
      assert StatusFrames(sps[i..]) + rest == StatusFrame(sp) + later;
      RecvOfStatusFrame(sp, later);
      var entry := (ids[i], codec.decode(len, sp.parameters));
      SyncReadLoopAllAnswer(sps, ids, i + 1, len, codec, answer + [entry], rest);
      AllAnsweredStep(sps, ids, i, len, codec);
      assert (answer + [entry]) + AllAnswered(sps, ids, i + 1, len, codec) ==
        answer + ([entry] + AllAnswered(sps, ids, i + 1, len, codec));
    }
  }

  /** When every motor asked answers with a valid reply, in turn, the sync
      read waits for each of them and answers every id asked, in order,
      with the value decoded from that motor's reply. */
  lemma SyncReadAllAnswer(sps: seq<StatusPacket>, ids: seq<u8>, len: u16, codec: DataCodec, rest: seq<u8>)
    requires |sps| == |ids|
    requires forall k :: 0 <= k < |sps| ==> ValidReply(sps[k])
    ensures SyncReadSpec(StatusFrames(sps) + rest, ids, len, codec) ==
      SyncReadState(AllAnswered(sps, ids, 0, len, codec), rest)
  {
    var rx := StatusFrames(sps) + rest;
    assert sps[0..] == sps;
    SyncReadLoopAllAnswer(sps, ids, 0, len, codec, [], rest);
    assert [] + AllAnswered(sps, ids, 0, len, codec) == AllAnswered(sps, ids, 0, len, codec);
    assert SyncReadSpec(rx, ids, len, codec) == SyncReadLoop(RecvSpec, rx, ids, 0, len, codec, []);
  }

  /** Writes a register and waits for the acknowledgement. */
  function WriteDataSpec(rx: seq<u8>): Exchange<()>
  {
    var reply := RecvSpec(rx);
    Exchange(if reply.result.Ok? then Ok(()) else Err(reply.result.err), reply.rest)
  }

  /** A write succeeds exactly when its acknowledgement is valid, fails
      with the acknowledgement's own error otherwise, and leaves the bytes
      after the acknowledgement unread. With no reply at all, as after a
      write to the broadcast id that no motor answers, it fails with
      Timeout. */
  lemma WriteDataOutcome(rx: seq<u8>)
    ensures WriteDataSpec(rx).result.Ok? <==> RecvSpec(rx).result.Ok?
    ensures RecvSpec(rx).result.Err? ==> WriteDataSpec(rx).result == Err(RecvSpec(rx).result.err)
    ensures WriteDataSpec(rx).rest == RecvSpec(rx).rest
    ensures WriteDataSpec([]) == Exchange(Err(TimeoutError()), [])
  {
  }

  // ---------------------------------------------------------------------
  // The controller

  class ControllerV2 {
    /** Bytes that will arrive, in order. */
    var rx: seq<u8>
    /** Bytes written so far. */
    var tx: seq<u8>

    constructor (rx: seq<u8>, tx: seq<u8>)
      ensures this.rx == rx && this.tx == tx
    {
      this.rx := rx;
      this.tx := tx;
    }

    /** Writes the packet's bytes one at a time. */
    method Send(p: InstructionPacket)
      modifies this
      ensures tx == old(tx) + InstructionFrame(p) && rx == old(rx)
    {
      var bytes := AsBytes(p);
      var i := 0;
      while i < |bytes|
        invariant 0 <= i <= |bytes|
        invariant tx == old(tx) + bytes[..i] && rx == old(rx)
      {
        assert bytes[..i + 1] == bytes[..i] + [bytes[i]];
        tx := tx + [bytes[i]];
        i := i + 1;
      }
      assert bytes[..i] == bytes;
    }

    /** Reads `n` bytes one at a time, giving up at the first byte that
      does not come. */
    method ReadBytes(n: nat) returns (r: Result<seq<u8>>)
      modifies this
      ensures Exchange(r, rx) == Take(old(rx), n) && tx == old(tx)
    {
      var bytes: seq<u8> := [];
      var i := 0;
      while i < n
        invariant 0 <= i <= n && i <= |old(rx)|
        invariant bytes == old(rx)[..i] && rx == old(rx)[i..] && tx == old(tx)
      {
        if rx == [] {
          return Err(TimeoutError());
        }
        assert old(rx)[..i + 1] == old(rx)[..i] + [rx[0]];
        bytes := bytes + [rx[0]];
        rx := rx[1..];
        i := i + 1;
      }
      return Ok(bytes);
    }

    /** Receives one status packet. */
    method Recv() returns (r: Result<StatusPacket>)
      modifies this
      ensures Exchange(r, rx) == RecvSpec(old(rx)) && tx == old(tx)
    {
      RecvReadsOneFrame(rx);
      var head := ReadBytes(HEADER_LENGTH);
      if head.Err? {
        return Err(head.err);
      }
      var header := HeaderFromBytes(head.value);
      if header.Err? {
        return Err(header.err);
      }
      var body := ReadBytes(header.value.length);
      if body.Err? {
        return Err(body.err);
      }
      var p := StatusFromBytesChecked(head.value + body.value);
      if p.Err? {
        return Err(p.err);
      }
      if p.value.errorCode.Some? {
        return Err(StatusErrorCode(p.value.errorCode.value));
      }
      return p;
    }

    /** Pings one motor. */
    method Ping(id: u8) returns (r: Result<bool>)
      modifies this
      ensures Exchange(r, rx) == PingSpec(old(rx))
      ensures tx == old(tx) + PingBytes(id)
    {
      Send(PingPacket(id));
      var reply := Recv();
      if reply.Ok? {
        return Ok(true);
      }
      if reply.err.error == Timeout {
        return Ok(false);
      }
      return Err(reply.err);
    }

    /** Pings every id of `[lo, hi)` in order and lists those that answer. */
    method Scan(lo: u8, hi: u8) returns (r: Result<seq<u8>>)
      modifies this
      ensures var s := ScanRun(old(rx), lo, hi);
        r == s.result && rx == s.rest && tx == old(tx) + Frames(PingBytes, lo, s.next)
    {
      ghost var goal := ScanRun(rx, lo, hi);
      var v: seq<u8> := [];
      var id: nat := lo;
      while id < hi
        invariant lo <= id <= 0x100
        invariant ScanLoop(PingSpec, rx, id, hi, v) == goal
        invariant tx == old(tx) + Frames(PingBytes, lo, id)
        decreases hi - id
      {
        ghost var before := rx;
        ghost var sent := tx;
        var found := Ping(id);
        FramesStep(PingBytes, old(tx), sent, tx, lo, id);
        ScanLoopTurn(PingSpec, before, rx, found, id, hi, v, goal);
        if found.Err? {
          return Err(found.err);
        }
        if found.value {
          v := v + [id as u8];
        }
        id := id + 1;
      }
      return Ok(v);
    }

    /** Reads register `reg` of motor `id`. */
    method ReadData(id: u8, reg: Motors.Register, codec: DataCodec) returns (r: Result<u16>)
      modifies this
      ensures Exchange(r, rx) == ReadDataSpec(old(rx), reg, codec)
      ensures tx == old(tx) + InstructionFrame(ReadDataPacket(id, reg.address, reg.length))
    {
      Send(ReadDataPacket(id, reg.address, reg.length));
      var status := Recv();
      if status.Err? {
        return Err(status.err);
      }
      if |status.value.parameters| != reg.length {
        return Err(ParsingError());
      }
      return Ok(codec.decode(reg.length, status.value.parameters));
    }

    /** Reads register `reg` of every motor in `ids`, keeping the valid
      replies. */
    method SyncReadData(ids: seq<u8>, reg: Motors.Register, codec: DataCodec) returns (answer: seq<(u8, u16)>)
      modifies this
      ensures SyncReadState(answer, rx) == SyncReadSpec(old(rx), ids, reg.length, codec)
      ensures tx == old(tx) + InstructionFrame(SyncReadDataPacket(ids, reg.address, reg.length))
    {
      Send(SyncReadDataPacket(ids, reg.address, reg.length));
      answer := [];
      var i := 0;
      while i < |ids|
        invariant 0 <= i <= |ids|
        invariant SyncReadLoop(RecvSpec, rx, ids, i, reg.length, codec, answer) == SyncReadSpec(old(rx), ids, reg.length, codec)
        invariant tx == old(tx) + InstructionFrame(SyncReadDataPacket(ids, reg.address, reg.length))
      {
        var status := Recv();
        if status.Ok? {
          answer := answer + [(ids[i], codec.decode(reg.length, status.value.parameters))];
        }
        i := i + 1;
      }
    }

    /** Writes `data` to register `reg` of motor `id` and waits for the
      acknowledgement, whatever the id. */
    method WriteData(id: u8, reg: Motors.Register, data: u16, codec: DataCodec) returns (r: Result<()>)
      modifies this
      ensures Exchange(r, rx) == WriteDataSpec(old(rx))
      ensures tx == old(tx) + InstructionFrame(WriteDataPacket(id, reg.address, reg.length, data, codec))
    {
      Send(WriteDataPacket(id, reg.address, reg.length, data, codec));
      var ack := Recv();
      if ack.Err? {
        return Err(ack.err);
      }
      return Ok(());
    }

    /** Writes one value per motor to register `reg`; no motor answers. */
    method SyncWriteData(reg: Motors.Register, data: seq<(u8, u16)>, codec: DataCodec)
      modifies this
      ensures tx == old(tx) + InstructionFrame(SyncWriteDataPacket(reg.address, reg.length, data, codec))
      ensures rx == old(rx)
    {
      var (addrL, addrH) := Motors.Unpack(reg.address);
      var coded := FoldCodedData(reg.length, data, codec);
      var packet := NewPacket(BROADCAST_ID, SyncWrite, [addrL, addrH] + coded);
      assert packet == SyncWriteDataPacket(reg.address, reg.length, data, codec);
      Send(packet);
    }
  }
}
