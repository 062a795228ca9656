/**
 The sniffer driver of src/sniffer.rs: locating the dongle, binding its bulk
 endpoints, the framed command/acknowledgement exchange and the validation of
 unsolicited data frames. Transfers are inputs; each exchange reports the
 transfers it issued and its outcome.

 Rust arithmetic overflow and out-of-range slicing abort the program; the
 model makes that outcome explicit as `Panic`.
 */
module Sniffer {
  import opened Wrappers
  import opened Usb
  import opened CmdCodes
  import opened Checksum

  /** Timeout of a command write and of its acknowledgement read. */
  const CommandTimeoutMs: nat := 250
  /** Timeout of the read that waits for a captured packet. */
  const ReceiveTimeoutMs: nat := 1000
  /** Size of every read buffer. */
  const ReadBufferSize: nat := 256
  /** Largest payload whose frame length still fits in the one-byte length field. */
  const MaxPayload: nat := 252

  datatype SnifferError =
    | DeviceError
    | ProtocolError(reason: string)
    | TimeOut
    | UsbError(error: RusbError)

  datatype Outcome<+T> = Ok(value: T) | Err(error: SnifferError) | Panic(reason: string)

  /** The transfers an operation issued, in order, and what it returned. */
  datatype Exchange<+T> = Exchange(ops: seq<UsbOp>, outcome: Outcome<T>)

  /** A bound dongle: the addresses of its bulk OUT and IN endpoints. */
  datatype SnifferDevice = SnifferDevice(outAddress: bv8, inAddress: bv8)

  // ---------------------------------------------------------------------------
  // Device Locator and Transport Binder
  // ---------------------------------------------------------------------------

  /** Index of the first endpoint with direction `dir`, or `|eps|` when there is none. */
  function FirstWithDirection(eps: seq<EndpointDescriptor>, dir: Direction): (i: nat)
    ensures i <= |eps|
    ensures forall j :: 0 <= j < i ==> eps[j].direction != dir
    ensures i < |eps| ==> eps[i].direction == dir
  {
    if |eps| == 0 then 0
    else if eps[0].direction == dir then 0
    else 1 + FirstWithDirection(eps[1..], dir)
  }

  /**
   `find_first_endpoint`: the first endpoint of the interface whose direction
   is `dir`, whatever its transfer type; `DeviceError` when none has it.
   */
  function FindFirstEndpoint(eps: seq<EndpointDescriptor>, dir: Direction): (r: Outcome<EndpointDescriptor>)
    ensures r.Ok? || r == Err(DeviceError)
    ensures r.Ok? <==> exists i :: 0 <= i < |eps| && eps[i].direction == dir
    ensures r.Ok? ==> exists i :: 0 <= i < |eps| && eps[i] == r.value && r.value.direction == dir
                                   && forall j :: 0 <= j < i ==> eps[j].direction != dir
  {
    var i := FirstWithDirection(eps, dir);
    if i < |eps| then Ok(eps[i]) else Err(DeviceError)
  }

  /**
   `SnifferDevice::new` over the endpoints of the device's first interface
   setting: the IN endpoint is looked up first, then the OUT endpoint.
   */
  function New(eps: seq<EndpointDescriptor>): (r: Outcome<SnifferDevice>)
    ensures r.Ok? || r == Err(DeviceError)
    ensures r.Ok? <==> ((exists i :: 0 <= i < |eps| && eps[i].direction == In)
                        && (exists i :: 0 <= i < |eps| && eps[i].direction == Out))
    ensures r.Ok? ==> (r.value.inAddress == FindFirstEndpoint(eps, In).value.address
                       && r.value.outAddress == FindFirstEndpoint(eps, Out).value.address)
  {
    match FindFirstEndpoint(eps, In)
    case Ok(inEp) =>
      (match FindFirstEndpoint(eps, Out)
       case Ok(outEp) => Ok(SnifferDevice(outEp.address, inEp.address))
       case _ => Err(DeviceError))
    case _ => Err(DeviceError)
  }

  /** Result of searching the bus: a match, no match, or a panic on an unreadable descriptor. */
  datatype Search = FoundDevice(device: Device) | NoMatch | DescriptorPanic(device: Device)

  predicate HasIds(d: Device, vendor: bv16, product: bv16)
  {
    d.descriptor.Some? && d.descriptor.value.vendorId == vendor && d.descriptor.value.productId == product
  }

  /** A device at which the lazy search stops: its descriptor cannot be read, or it matches. */
  predicate StopsSearch(d: Device, vendor: bv16, product: bv16)
  {
    d.descriptor.None? || HasIds(d, vendor, product)
  }

  function FirstStop(devices: seq<Device>, vendor: bv16, product: bv16): (i: nat)
    ensures i <= |devices|
    ensures forall j :: 0 <= j < i ==> !StopsSearch(devices[j], vendor, product)
    ensures i < |devices| ==> StopsSearch(devices[i], vendor, product)
  {
    if |devices| == 0 then 0
    else if StopsSearch(devices[0], vendor, product) then 0
    else 1 + FirstStop(devices[1..], vendor, product)
  }

  /**
   `find_device`: the first device in enumeration order whose vendor and
   product ids both match. The search is lazy: a descriptor that cannot be
   read aborts it (`expect`) only when no earlier device matched.
   */
  function FindDevice(devices: seq<Device>, vendor: bv16, product: bv16): (r: Search)
    ensures r.FoundDevice? ==> exists i :: 0 <= i < |devices| && devices[i] == r.device
                                 && HasIds(r.device, vendor, product)
                                 && forall j :: 0 <= j < i ==> !StopsSearch(devices[j], vendor, product)
    ensures r.DescriptorPanic? ==> exists i :: 0 <= i < |devices| && devices[i] == r.device
                                     && r.device.descriptor.None?
                                     && forall j :: 0 <= j < i ==> !StopsSearch(devices[j], vendor, product)
    ensures r.NoMatch? <==> forall i :: 0 <= i < |devices| ==>
                              devices[i].descriptor.Some? && !HasIds(devices[i], vendor, product)
  {
    var i := FirstStop(devices, vendor, product);
    if i == |devices| then NoMatch
    else if devices[i].descriptor.None? then DescriptorPanic(devices[i])
    else FoundDevice(devices[i])
  }

  // ---------------------------------------------------------------------------
  // Command/Ack Engine
  // ---------------------------------------------------------------------------

  /**
   The command frame `[len][code][payload][crc]`. The length byte is
   `(3 + payload_len) as u8`, which truncates for payloads over 252 bytes; the
   checksum covers every byte before it.
   */
  function BuildFrame(code: bv8, payload: seq<bv8>): (frame: seq<bv8>)
    ensures |frame| == |payload| + 3
    ensures frame[0] == ((|payload| + 3) % 256) as bv8
    ensures frame[1] == code
    ensures frame[2..|payload| + 2] == payload
    ensures frame[|payload| + 2] == 0xFF ^ Xor(frame[..|payload| + 2])
    ensures Xor(frame) == 0xFF
  {
    var head := [((|payload| + 3) % 256) as bv8, code] + payload;
    var c := Crc(head, |head|);
    assert head[..|head|] == head;
    XorAppend(head, c);
    var frame := head + [c];
    assert frame[..|head|] == head;
    assert frame[2..|payload| + 2] == payload;
    frame
  }

  /**
   A decoder for the frame layout `[len][code][payload][crc]`: the length byte
   equals the frame length and all bytes, checksum included, fold to zero from
   the 0xFF seed. Gives the code and the payload.
   */
  function ParseFrame(frame: seq<bv8>): Option<(bv8, seq<bv8>)>
  {
    if 3 <= |frame| < 256 && frame[0] == |frame| as bv8 && Xor(frame) == 0xFF
    then Some((frame[1], frame[2..|frame| - 1]))
    else None
  }

  /** Every frame the driver builds for a payload of at most 252 bytes parses back to its code and payload. */
  lemma FrameRoundTrip(code: bv8, payload: seq<bv8>)
    requires |payload| <= MaxPayload
    ensures ParseFrame(BuildFrame(code, payload)) == Some((code, payload))
  {
    var f := BuildFrame(code, payload);
    assert f[2..|f| - 1] == payload;
  }

  /** Conversely, every frame the decoder accepts is the one the driver builds for its code and payload. */
  lemma ParsedFrameIsBuilt(frame: seq<bv8>)
    requires ParseFrame(frame).Some?
    ensures BuildFrame(ParseFrame(frame).value.0, ParseFrame(frame).value.1) == frame
  {
    var code := frame[1];
    var payload := frame[2..|frame| - 1];
    var head := frame[..|frame| - 1];
    assert head == [frame[0], code] + payload;
    assert frame == head + [frame[|frame| - 1]];
    XorAppend(head, frame[|frame| - 1]);
    var b := BuildFrame(code, payload);
    assert b[..|head|] == head;
    assert b == head + [b[|head|]];
    assert b[|head|] == frame[|frame| - 1];
  }

  /** The two frames the driver sends at start-up. */
  lemma FrameExamples()
    ensures BuildFrame(ToByte(CmdInit), []) == [0x03, 0x00, 0xFC]
    ensures BuildFrame(ToByte(CmdSetChannel), [0x0D]) == [0x04, 0x02, 0x0D, 0xF4]
  {
    var f := BuildFrame(ToByte(CmdInit), []);
    assert f[..2] == [0x03, 0x00];
    assert Xor([0x03, 0x00]) == 0x03;
    var g := BuildFrame(ToByte(CmdSetChannel), [0x0D]);
    assert g[..3] == [0x04, 0x02, 0x0D];
    assert Xor([0x04, 0x02, 0x0D]) == 0x0B;
  }

  /** The read buffer after an acknowledgement or data read: a fresh zero buffer filled with what arrived. */
  function ReadBuffer(bytes: seq<bv8>): seq<bv8>
    requires |bytes| <= ReadBufferSize
  {
    Fill(Zeros(ReadBufferSize), bytes)
  }

  /** The acknowledgement a response carries: byte 2, present when at least three bytes arrived. */
  predicate Acknowledges(command: CmdCode, bytes: seq<bv8>)
    requires command != CmdErr
  {
    |bytes| >= 3 && bytes[2] == ToByte(AckFor(command))
  }

  /**
   `send_command`: compute the expected acknowledgement (the `+ 1` overflows
   for `CmdErr`), write the frame as one bulk transfer, insist on a complete
   write, read one response and compare its byte 2 with the acknowledgement.
   */
  function SendCommand(dev: SnifferDevice, command: CmdCode, payload: seq<bv8>,
                       write: WriteResult, read: ReadResult): (r: Exchange<()>)
    requires FitsIn(read, ReadBufferSize)
    ensures command == CmdErr <==> r.outcome.Panic?
    ensures command == CmdErr ==> r.ops == []
    ensures |r.ops| == 2 <==> command != CmdErr && write == WriteOk(|payload| + 3)
    ensures r.outcome.Ok? <==> (command != CmdErr && write == WriteOk(|payload| + 3)
                                && read.ReadOk? && Acknowledges(command, read.bytes))
  {
    if command == CmdErr then
      Exchange([], Panic("attempt to add with overflow"))
    else
      var ack := AckFor(command);
      var frame := BuildFrame(ToByte(command), payload);
      var declared := (|payload| + 3) % 256;   // buffer[0] as usize
      var sent := BulkWrite(dev.outAddress, frame[..declared], CommandTimeoutMs);
      match write
      case WriteErr(e) => Exchange([sent], Err(UsbError(e)))
      case WriteOk(written) =>
        if written != |frame| then Exchange([sent], Err(DeviceError))
        else
          var ops := [sent, BulkRead(dev.inAddress, ReadBufferSize, CommandTimeoutMs)];
          match read
          case ReadErr(e) => Exchange(ops, Err(UsbError(e)))
          case ReadOk(bytes) =>
            if |bytes| == 0 then Exchange(ops, Err(DeviceError))
            else if ReadBuffer(bytes)[2] != ToByte(ack) then
              Exchange(ops, Err(ProtocolError("unexpected response code")))
            else Exchange(ops, Ok(()))
  }

  /**
   The one write of `send_command` carries the frame, cut to the length its
   length byte declares; a failed or short write ends the exchange before any read.
   */
  lemma SendCommandWrites(dev: SnifferDevice, command: CmdCode, payload: seq<bv8>,
                          write: WriteResult, read: ReadResult)
    requires FitsIn(read, ReadBufferSize) && command != CmdErr
    ensures var r := SendCommand(dev, command, payload, write, read);
      1 <= |r.ops| <= 2 &&
      r.ops[0] == BulkWrite(dev.outAddress, BuildFrame(ToByte(command), payload)[..(|payload| + 3) % 256], CommandTimeoutMs)
    ensures |payload| <= MaxPayload ==> SendCommand(dev, command, payload, write, read).ops[0].data
                                        == BuildFrame(ToByte(command), payload)
    ensures write.WriteErr? ==> SendCommand(dev, command, payload, write, read) == Exchange(
      [BulkWrite(dev.outAddress, BuildFrame(ToByte(command), payload)[..(|payload| + 3) % 256], CommandTimeoutMs)],
      Err(UsbError(write.error)))
    ensures write.WriteOk? && write.written != |payload| + 3 ==>
      |SendCommand(dev, command, payload, write, read).ops| == 1
      && SendCommand(dev, command, payload, write, read).outcome == Err(DeviceError)
  {
    if |payload| <= MaxPayload {
      assert (|payload| + 3) % 256 == |payload| + 3;
      assert BuildFrame(ToByte(command), payload)[..|payload| + 3] == BuildFrame(ToByte(command), payload);
    }
  }

  /**
   After a complete write, `send_command` reads once from the IN endpoint: a
   read error or an empty read is an error, otherwise byte 2 of the response
   decides between success and a protocol error.
   */
  lemma SendCommandReads(dev: SnifferDevice, command: CmdCode, payload: seq<bv8>, read: ReadResult)
    requires FitsIn(read, ReadBufferSize) && command != CmdErr
    ensures var r := SendCommand(dev, command, payload, WriteOk(|payload| + 3), read);
      |r.ops| == 2 && r.ops[1] == BulkRead(dev.inAddress, ReadBufferSize, CommandTimeoutMs)
    ensures read.ReadErr? ==>
      SendCommand(dev, command, payload, WriteOk(|payload| + 3), read).outcome == Err(UsbError(read.error))
    ensures read == ReadOk([]) ==>
      SendCommand(dev, command, payload, WriteOk(|payload| + 3), read).outcome == Err(DeviceError)
    ensures read.ReadOk? && |read.bytes| > 0 && !Acknowledges(command, read.bytes) ==>
      SendCommand(dev, command, payload, WriteOk(|payload| + 3), read).outcome
      == Err(ProtocolError("unexpected response code"))
  {
  }

  /**
   A payload longer than 252 bytes never succeeds against a transport that
   reports at most the bytes it was handed: the truncated length byte hands it
   fewer bytes than the frame holds, and the write check fails.
   */
  lemma OversizedPayloadFails(dev: SnifferDevice, command: CmdCode, payload: seq<bv8>,
                              written: nat, read: ReadResult)
    requires FitsIn(read, ReadBufferSize)
    requires command != CmdErr && |payload| > MaxPayload
    requires written <= |SendCommand(dev, command, payload, WriteOk(written), read).ops[0].data|
    ensures SendCommand(dev, command, payload, WriteOk(written), read).outcome == Err(DeviceError)
  {
  }

  /** For each command, the acknowledgement accepted is exactly response byte 2 == command byte + 1. */
  lemma CommandAckIsNextByte(dev: SnifferDevice, command: CmdCode, payload: seq<bv8>, bytes: seq<bv8>)
    requires IsCommand(command) && |bytes| <= ReadBufferSize
    ensures SendCommand(dev, command, payload, WriteOk(|payload| + 3), ReadOk(bytes)).outcome.Ok?
        <==> |bytes| >= 3 && bytes[2] == ToByte(command) + 1
  {
    AckForMatchesTable(command);
  }

  // ---------------------------------------------------------------------------
  // Packet Receiver
  // ---------------------------------------------------------------------------

  /** The "packet received" code. */
  const GotPkt: bv8 := 0x0A

  /** A data frame that `receive_packet` accepts: equal length bytes, the GotPkt code, room for a checksum. */
  predicate IsDataFrame(bytes: seq<bv8>)
  {
    |bytes| >= 4 && bytes[0] == bytes[1] && bytes[2] == GotPkt
  }

  /**
   `receive_packet`: one bulk read with a one-second timeout, then in order:
   empty read, size mismatch, unexpected command code; a frame that passes
   gives everything between the three header bytes and the trailing checksum.
   A three-byte frame passes the checks but panics in `drain(..3)`.
   */
  function ReceivePacket(dev: SnifferDevice, read: ReadResult): (r: Exchange<seq<bv8>>)
    requires FitsIn(read, ReadBufferSize)
    ensures r.ops == [BulkRead(dev.inAddress, ReadBufferSize, ReceiveTimeoutMs)]
    ensures r.outcome == Err(TimeOut) <==> read == ReadErr(Timeout)
    ensures read.ReadErr? && read.error != Timeout ==> r.outcome == Err(UsbError(read.error))
    ensures read == ReadOk([]) ==> r.outcome == Err(ProtocolError("empty read"))
    ensures read.ReadOk? && |read.bytes| > 0 && ReadBuffer(read.bytes)[0] != ReadBuffer(read.bytes)[1] ==>
      r.outcome == Err(ProtocolError("size mismatch"))
    ensures read.ReadOk? && |read.bytes| > 0 && ReadBuffer(read.bytes)[0] == ReadBuffer(read.bytes)[1]
            && ReadBuffer(read.bytes)[2] != GotPkt ==>
      r.outcome == Err(ProtocolError("Unexpected command code"))
    ensures r.outcome.Panic? <==> read.ReadOk? && |read.bytes| == 3 && read.bytes[0] == read.bytes[1]
                                  && read.bytes[2] == GotPkt
    ensures r.outcome.Ok? <==> read.ReadOk? && IsDataFrame(read.bytes)
    ensures r.outcome.Ok? ==> (|r.outcome.value| == |read.bytes| - 4
                               && r.outcome.value == read.bytes[3..|read.bytes| - 1])
  {
    var ops := [BulkRead(dev.inAddress, ReadBufferSize, ReceiveTimeoutMs)];
    match read
    case ReadErr(e) =>
      if e == Timeout then Exchange(ops, Err(TimeOut)) else Exchange(ops, Err(UsbError(e)))
    case ReadOk(bytes) =>
      var n := |bytes|;
      var buffer := ReadBuffer(bytes);
      if n == 0 then Exchange(ops, Err(ProtocolError("empty read")))
      else if buffer[0] != buffer[1] then Exchange(ops, Err(ProtocolError("size mismatch")))
      else if buffer[2] != GotPkt then Exchange(ops, Err(ProtocolError("Unexpected command code")))
      else
        var kept := buffer[..n - 1];   // drain((n - 1)..)
        if |kept| < 3 then Exchange(ops, Panic("range end index 3 out of range"))
        else Exchange(ops, Ok(kept[3..]))   // drain(..3)
  }

  /** A data frame as the dongle sends it: equal length bytes, GotPkt, the body, a trailing checksum. */
  function DataFrame(declared: bv8, body: seq<bv8>, checksum: bv8): seq<bv8>
  {
    [declared, declared, GotPkt] + body + [checksum]
  }

  /** Every data frame that fits the read buffer is accepted and yields exactly its body. */
  lemma ReceiveDecodesDataFrame(dev: SnifferDevice, declared: bv8, body: seq<bv8>, checksum: bv8)
    requires |body| + 4 <= ReadBufferSize
    ensures ReceivePacket(dev, ReadOk(DataFrame(declared, body, checksum))).outcome == Ok(body)
  {
    var f := DataFrame(declared, body, checksum);
    assert f[3..|f| - 1] == body;
  }

  /** Conversely, every accepted read is a data frame whose body is the returned bytes. */
  lemma ReceivedIsDataFrame(dev: SnifferDevice, bytes: seq<bv8>)
    requires |bytes| <= ReadBufferSize
    requires ReceivePacket(dev, ReadOk(bytes)).outcome.Ok?
    ensures bytes == DataFrame(bytes[0], ReceivePacket(dev, ReadOk(bytes)).outcome.value, bytes[|bytes| - 1])
  {
    var body := ReceivePacket(dev, ReadOk(bytes)).outcome.value;
    assert bytes == bytes[..3] + bytes[3..|bytes| - 1] + [bytes[|bytes| - 1]];
  }

  /** An accepted packet starts with the RSSI byte (offset 3) and the LQI byte (offset 4). */
  lemma ReceivedStartsWithRssiLqi(dev: SnifferDevice, bytes: seq<bv8>)
    requires |bytes| <= ReadBufferSize && IsDataFrame(bytes) && |bytes| >= 6
    ensures ReceivePacket(dev, ReadOk(bytes)).outcome.value[..2] == [bytes[3], bytes[4]]
  {
  }
}
