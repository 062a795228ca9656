/**
 The older, self-contained driver in src/main.rs: its own copies of the
 command codes and the checksum, a `send_command` that builds the frame in a
 zero-filled 256-byte buffer and only reports problems on the console, and the
 capture loop with its `remaining` byte counter.

 The console messages are modelled as the `Diagnostic` a call ends with; the
 pcap blocks the loop writes are modelled as the records it emits.
 */
module Legacy {
  import opened Wrappers
  import opened Usb
  import opened CmdCodes
  import opened Checksum
  import Sniffer

  /** Size of the buffer `send_command` builds frames in and of the capture loop's read buffer. */
  const BufferSize: nat := 256

  /** main.rs's own `CmdCodes::from`; it maps every byte exactly as the copy in src/sniffer.rs does. */
  function CodeFromByte(b: bv8): (c: CmdCode)
    ensures c == CmdCodes.FromByte(b)
  {
    match b
    case 0x00 => CmdInit
    case 0x01 => CmdInitAck
    case 0x02 => CmdSetChannel
    case 0x03 => CmdSetChannelAck
    case 0x04 => CmdSendPkt
    case 0x05 => CmdSendPktAck
    case 0x06 => CmdSniffOn
    case 0x07 => CmdSniffOnAck
    case 0x08 => CmdSniffOff
    case 0x09 => CmdSniffOffAck
    case 0x0A => CmdGotPkt
    case 0xFF => CmdErr
    case _ => CmdErr
  }

  /**
   main.rs's inline endpoint lookup: the first IN and the first OUT endpoint
   of the interface, each `unwrap`ped (`None` is that panic). It binds the
   same addresses as `SnifferDevice::new` in src/sniffer.rs.
   */
  function BindEndpoints(eps: seq<EndpointDescriptor>): (r: Option<Sniffer.SnifferDevice>)
    ensures r.Some? <==> Sniffer.New(eps).Ok?
    ensures r.Some? ==> r.value == Sniffer.New(eps).value
  {
    var i := Sniffer.FirstWithDirection(eps, In);
    var o := Sniffer.FirstWithDirection(eps, Out);
    if i < |eps| && o < |eps| then Some(Sniffer.SnifferDevice(eps[o].address, eps[i].address)) else None
  }

  /** main.rs's `calculate_crc(buffer, len: u8)`: the 0xFF-seeded XOR fold over `buffer[0..len]`. */
  method CalculateCrc(buffer: seq<bv8>, len: bv8) returns (checksum: bv8)
    requires len as int <= |buffer|
    ensures checksum == Crc(buffer, len as int)
  {
    var n := len as int;
    checksum := 0xFF;
    var i := 0;
    while i < n
      invariant 0 <= i <= n
      invariant checksum == Crc(buffer, i)
    {
      checksum := checksum ^ buffer[i];
      i := i + 1;
    }
  }

  /**
   The 256-byte buffer after `send_command` built a frame in it: length byte
   `(3 + payload_len) as u8`, code, payload, then the checksum over the first
   `buffer[0]` bytes, written into the slot the fold itself still reads as
   zero. `None` when the payload does not fit (slice or index out of range).
   */
  function FrameBuffer(code: bv8, payload: seq<bv8>): (r: Option<seq<bv8>>)
    ensures r.Some? <==> |payload| + 2 < BufferSize
    ensures r.Some? ==> |r.value| == BufferSize
  {
    var p := |payload|;
    if p + 2 >= BufferSize then None
    else
      var zeroed := [((3 + p) % 256) as bv8, code] + payload + Zeros(BufferSize - (p + 2));
      Some(zeroed[p + 2 := Crc(zeroed, (3 + p) % 256)])
  }

  /**
   For every payload of at most 252 bytes the bytes main.rs sends are exactly
   the frame src/sniffer.rs builds: the zero slot inside the checksummed range
   does not change the XOR.
   */
  lemma FrameAgreesWithSniffer(code: bv8, payload: seq<bv8>)
    requires |payload| <= Sniffer.MaxPayload
    ensures FrameBuffer(code, payload).Some?
    ensures FrameBuffer(code, payload).value[..|payload| + 3] == Sniffer.BuildFrame(code, payload)
  {
    var p := |payload|;
    var head := [((3 + p) % 256) as bv8, code] + payload;
    var tail := Zeros(BufferSize - (p + 2));
    FrameBufferLayout(code, payload);
    ZeroSlotLeavesChecksum(head, tail);
    var c := Crc(head, |head|);
    SlotThenCut(head, tail, c);
    BuiltFrameLayout(code, payload);
    var buffer := (head + tail)[|head| := c];
    assert FrameBuffer(code, payload) == Some(buffer);
    assert |head| + 1 == p + 3;
    assert buffer[..|head| + 1] == Sniffer.BuildFrame(code, payload);
  }

  /** The frame buffer is the zero-padded head with the checksum over `3 + p` bytes in slot `p + 2`. */
  lemma FrameBufferLayout(code: bv8, payload: seq<bv8>)
    requires |payload| <= Sniffer.MaxPayload
    ensures var head := [((3 + |payload|) % 256) as bv8, code] + payload;
      var zeroed := head + Zeros(BufferSize - (|payload| + 2));
      FrameBuffer(code, payload) == Some(zeroed[|head| := Crc(zeroed, |head| + 1)])
  {
    var p := |payload|;
    assert (3 + p) % 256 == p + 3;
  }

  /** src/sniffer.rs's frame is the head followed by the checksum of the head. */
  lemma BuiltFrameLayout(code: bv8, payload: seq<bv8>)
    requires |payload| <= Sniffer.MaxPayload
    ensures var head := [((3 + |payload|) % 256) as bv8, code] + payload;
      Sniffer.BuildFrame(code, payload) == head + [Crc(head, |head|)]
  {
  }

  lemma SlotThenCut(head: seq<bv8>, tail: seq<bv8>, c: bv8)
    requires |tail| >= 1
    ensures (head + tail)[|head| := c][..|head| + 1] == head + [c]
  {
  }

  /** Folding a zero byte in after `head` leaves the checksum of `head` unchanged. */
  lemma ZeroSlotLeavesChecksum(head: seq<bv8>, tail: seq<bv8>)
    requires |tail| >= 1 && tail[0] == 0
    ensures Crc(head + tail, |head| + 1) == Crc(head, |head|)
  {
    assert (head + tail)[..|head| + 1] == head + [0];
    assert head[..|head|] == head;
    XorAppend(head, 0);
  }

  /** What `send_command` reports on the console, or the panic that ends it. */
  datatype Diagnostic =
    | Acknowledged
    | UnexpectedResult(code: bv8)
    | ReadFailed(error: RusbError)
    | Aborted(reason: string)

  /** The transfers a legacy `send_command` issued and the diagnostic it ended with. */
  datatype LegacyExchange = LegacyExchange(ops: seq<UsbOp>, diagnostic: Diagnostic)

  /**
   main.rs's `send_command`. The write result is discarded; the response is
   read into the same buffer, so a short read compares a stale frame byte; the
   debug dump's `buffer[0] + 1` overflows for a 0xFF length byte. Nothing is
   returned to the caller: the diagnostic is only printed.
   */
  function SendCommand(dev: Sniffer.SnifferDevice, command: CmdCode, payload: seq<bv8>,
                       write: WriteResult, read: ReadResult): (r: LegacyExchange)
    requires FitsIn(read, BufferSize)
    ensures r.ops == [] <==> command == CmdErr || |payload| + 2 >= BufferSize
    ensures r.ops == [] ==> r.diagnostic.Aborted?
    ensures r.ops != [] ==> |r.ops| == 2 && r.ops[1] == BulkRead(dev.inAddress, BufferSize, Sniffer.CommandTimeoutMs)
    ensures r.ops != [] ==> r.ops[0].BulkWrite? && r.ops[0].endpoint == dev.outAddress
                             && r.ops[0].timeoutMs == Sniffer.CommandTimeoutMs
    ensures r.ops != [] && read.ReadErr? ==> r.diagnostic == ReadFailed(read.error)
    ensures r.diagnostic == Acknowledged ==>
      command != CmdErr && read.ReadOk? && (|read.bytes| >= 3 ==> read.bytes[2] == ToByte(AckFor(command)))
    ensures r.ops != [] && read.ReadOk? && |read.bytes| >= 3 && read.bytes[0] != 0xFF ==>
      r.diagnostic == (if read.bytes[2] == ToByte(AckFor(command)) then Acknowledged else UnexpectedResult(read.bytes[2]))
    // every successful read, short ones included, is judged on the frame buffer it overwrote
    ensures r.ops != [] && read.ReadOk? ==>
      var b := Fill(FrameBuffer(ToByte(command), payload).value, read.bytes);
      r.diagnostic == (if b[0] == 0xFF then Aborted("attempt to add with overflow")
                       else if b[2] == ToByte(AckFor(command)) then Acknowledged
                       else UnexpectedResult(b[2]))
  {
    if command == CmdErr then LegacyExchange([], Aborted("attempt to add with overflow"))
    else
      var ack := CodeFromByte(ToByte(command) + 1);
      match FrameBuffer(ToByte(command), payload)
      case None => LegacyExchange([], Aborted("index out of range"))
      case Some(buffer) =>
        var sent := BulkWrite(dev.outAddress, buffer[..(3 + |payload|) % 256], Sniffer.CommandTimeoutMs);
        var ops := [sent, BulkRead(dev.inAddress, BufferSize, Sniffer.CommandTimeoutMs)];
        match read
        case ReadErr(e) => LegacyExchange(ops, ReadFailed(e))
        case ReadOk(bytes) =>
          var response := Fill(buffer, bytes);
          if response[0] == 0xFF then LegacyExchange(ops, Aborted("attempt to add with overflow"))
          else if response[2] != ToByte(ack) then LegacyExchange(ops, UnexpectedResult(response[2]))
          else LegacyExchange(ops, Acknowledged)
  }

  /**
   For a payload of at most 252 bytes, main.rs writes the very frame
   src/sniffer.rs writes. At 253 bytes the length byte wraps to 0 in both, and
   both write nothing.
   */
  lemma SentFrameAgreesWithSniffer(dev: Sniffer.SnifferDevice, command: CmdCode, payload: seq<bv8>,
                                   write: WriteResult, read: ReadResult)
    requires FitsIn(read, BufferSize)
    requires command != CmdErr && |payload| <= Sniffer.MaxPayload + 1
    ensures |payload| <= Sniffer.MaxPayload ==>
      SendCommand(dev, command, payload, write, read).ops[0]
      == BulkWrite(dev.outAddress, Sniffer.BuildFrame(ToByte(command), payload), Sniffer.CommandTimeoutMs)
    ensures |payload| == Sniffer.MaxPayload + 1 ==>
      SendCommand(dev, command, payload, write, read).ops[0] == BulkWrite(dev.outAddress, [], Sniffer.CommandTimeoutMs)
    ensures SendCommand(dev, command, payload, write, read).ops[0]
         == Sniffer.SendCommand(dev, command, payload, write, read).ops[0]
  {
    Sniffer.SendCommandWrites(dev, command, payload, write, read);
    if |payload| <= Sniffer.MaxPayload {
      SentFrameIsFrameBuffer(dev, command, payload, write, read);
      FrameAgreesWithSniffer(ToByte(command), payload);
    } else {
      assert (3 + |payload|) % 256 == 0;
    }
  }

  lemma SentFrameIsFrameBuffer(dev: Sniffer.SnifferDevice, command: CmdCode, payload: seq<bv8>,
                               write: WriteResult, read: ReadResult)
    requires FitsIn(read, BufferSize)
    requires command != CmdErr && |payload| <= Sniffer.MaxPayload
    ensures FrameBuffer(ToByte(command), payload).Some?
    ensures SendCommand(dev, command, payload, write, read).ops[0]
         == BulkWrite(dev.outAddress, FrameBuffer(ToByte(command), payload).value[..|payload| + 3], Sniffer.CommandTimeoutMs)
  {
    assert (3 + |payload|) % 256 == |payload| + 3;
  }

  /**
   A zero-byte response leaves the sent frame in the buffer, so the frame's own
   byte 2 is taken for the acknowledgement; for a 252-byte payload the length
   byte 0xFF makes the dump's `buffer[0] + 1` overflow.
   */
  lemma ZeroByteResponseJudgesSentFrame(dev: Sniffer.SnifferDevice, command: CmdCode, payload: seq<bv8>,
                                        write: WriteResult)
    requires command != CmdErr && |payload| <= Sniffer.MaxPayload
    ensures |payload| == Sniffer.MaxPayload ==>
      SendCommand(dev, command, payload, write, ReadOk([])).diagnostic.Aborted?
    ensures |payload| < Sniffer.MaxPayload ==>
      var f := Sniffer.BuildFrame(ToByte(command), payload);
      SendCommand(dev, command, payload, write, ReadOk([])).diagnostic
      == (if f[2] == ToByte(AckFor(command)) then Acknowledged else UnexpectedResult(f[2]))
  {
    var p := |payload|;
    StaleResponse(dev, command, payload, write);
    FrameAgreesWithSniffer(ToByte(command), payload);
    var buffer := FrameBuffer(ToByte(command), payload).value;
    var f := Sniffer.BuildFrame(ToByte(command), payload);
    assert buffer[0] == f[0] && buffer[2] == f[2];
    LengthByteIsFFOnlyAtMax(p);
  }

  /** A zero-byte response is judged on the frame buffer as it was sent. */
  lemma StaleResponse(dev: Sniffer.SnifferDevice, command: CmdCode, payload: seq<bv8>, write: WriteResult)
    requires command != CmdErr && |payload| + 2 < BufferSize
    ensures var b := FrameBuffer(ToByte(command), payload).value;
      SendCommand(dev, command, payload, write, ReadOk([])).diagnostic
      == (if b[0] == 0xFF then Aborted("attempt to add with overflow")
          else if b[2] == ToByte(AckFor(command)) then Acknowledged
          else UnexpectedResult(b[2]))
  {
    var b := FrameBuffer(ToByte(command), payload).value;
    assert Fill(b, []) == b;
  }

  /** The length byte `(3 + p) as u8` of a payload of at most 252 bytes is 0xFF only at 252. */
  lemma LengthByteIsFFOnlyAtMax(p: nat)
    requires p <= Sniffer.MaxPayload
    ensures ((p + 3) % 256) as bv8 == 0xFF <==> p == Sniffer.MaxPayload
  {
    assert (p + 3) % 256 == p + 3;
  }

  /** The write outcome has no influence on anything `send_command` does. */
  lemma WriteResultIgnored(dev: Sniffer.SnifferDevice, command: CmdCode, payload: seq<bv8>,
                           w1: WriteResult, w2: WriteResult, read: ReadResult)
    requires FitsIn(read, BufferSize)
    ensures SendCommand(dev, command, payload, w1, read) == SendCommand(dev, command, payload, w2, read)
  {
  }

  /**
   Where both versions see a complete write and a response of at least three
   bytes, main.rs prints "Acknowledged" exactly when src/sniffer.rs returns `Ok`.
   */
  lemma AckAgreesWithSniffer(dev: Sniffer.SnifferDevice, command: CmdCode, payload: seq<bv8>, bytes: seq<bv8>)
    requires command != CmdErr && |payload| <= Sniffer.MaxPayload
    requires 3 <= |bytes| <= BufferSize && bytes[0] != 0xFF
    ensures SendCommand(dev, command, payload, WriteOk(|payload| + 3), ReadOk(bytes)).diagnostic == Acknowledged
        <==> Sniffer.SendCommand(dev, command, payload, WriteOk(|payload| + 3), ReadOk(bytes)).outcome.Ok?
  {
  }

  // ---------------------------------------------------------------------------
  // The capture loop
  // ---------------------------------------------------------------------------

  /** A packet block the loop writes: `original_len` (`buffer[0] - 5`) and the captured bytes. */
  datatype PcapRecord = PcapRecord(originalLen: bv8, data: seq<bv8>)

  /** How the loop ended: the stop flag, a protocol error returned from `main`, or a panic. */
  datatype LoopEnd = Stopped | ProtocolFailure | LoopAborted(reason: string)

  /** The records written, how the loop ended, and the bulk reads it issued. */
  datatype LoopResult = LoopResult(records: seq<PcapRecord>, end: LoopEnd, ops: seq<UsbOp>)

  /** The capture loop's read timeout, in milliseconds. */
  const CaptureTimeoutMs: nat := 1000

  /** The bulk read every iteration issues: the IN endpoint, the whole buffer, one second. */
  function CaptureRead(dev: Sniffer.SnifferDevice): UsbOp
  {
    BulkRead(dev.inAddress, BufferSize, CaptureTimeoutMs)
  }

  /** The packet block for an accepted read: bytes 5 up to the length byte `buffer[0]`. */
  function Record(buffer: seq<bv8>): (r: PcapRecord)
    requires |buffer| == BufferSize && buffer[0] >= 5
  {
    PcapRecord(buffer[0] - 5, buffer[5..buffer[0]])
  }

  /** Records `records` and reads `ops` followed by what the rest of the loop produces. */
  function Prepend(records: seq<PcapRecord>, ops: seq<UsbOp>, rest: LoopResult): LoopResult
  {
    LoopResult(records + rest.records, rest.end, ops + rest.ops)
  }

  predicate AllFit(results: seq<ReadResult>)
  {
    forall i :: 0 <= i < |results| ==> FitsIn(results[i], BufferSize)
  }

  /**
   The capture loop without its `remaining` counter: every result is one bulk
   read, read errors are skipped, a read whose byte 2 is not the GotPkt code ends
   the loop with a protocol error, a length byte below 5 panics, every other read
   emits one record. The read buffer carries over between results.
   */
  function Capture(dev: Sniffer.SnifferDevice, buffer: seq<bv8>, results: seq<ReadResult>): LoopResult
    requires |buffer| == BufferSize && AllFit(results)
    decreases |results|
  {
    if |results| == 0 then LoopResult([], Stopped, [])
    else
      match results[0]
      case ReadErr(_) => Prepend([], [CaptureRead(dev)], Capture(dev, buffer, results[1..]))
      case ReadOk(bytes) =>
        var b := Fill(buffer, bytes);
        if b[2] != Sniffer.GotPkt then LoopResult([], ProtocolFailure, [CaptureRead(dev)])
        else if b[0] < 5 then LoopResult([], LoopAborted("attempt to subtract with overflow"), [CaptureRead(dev)])
        else Prepend([Record(b)], [CaptureRead(dev)], Capture(dev, b, results[1..]))
  }

  /**
   main.rs's receive loop over the results that happen before the stop flag is
   seen. The `u8` counter `remaining` is 0 at the top of every iteration, so
   `remaining -= buffer[1]` never underflows and the loop ends with a protocol
   error exactly when byte 2 of the read buffer is not the GotPkt code. One record is
   emitted and `received_packets` counts up once per accepted read; the reads
   issued are those of `CaptureReads`.
   */
  method ReceiveLoop(dev: Sniffer.SnifferDevice, results: seq<ReadResult>) returns (r: LoopResult, received: nat)
    requires AllFit(results)
    ensures r == Capture(dev, Zeros(BufferSize), results)
    ensures received == |r.records|
  {
    var buffer := Zeros(BufferSize);
    var remaining: bv8 := 0;
    var records: seq<PcapRecord> := [];
    var ops: seq<UsbOp> := [];
    received := 0;
    var i := 0;
    assert results[i..] == results;
    PrependNothing(Capture(dev, buffer, results));
    while i < |results|
      invariant 0 <= i <= |results|
      invariant |buffer| == BufferSize
      invariant remaining == 0
      invariant received == |records|
      invariant AllFit(results[i..])
      invariant Capture(dev, Zeros(BufferSize), results) == Prepend(records, ops, Capture(dev, buffer, results[i..]))
    {
      CaptureStep(dev, buffer, results, i);
      AllFitSuffix(results, i + 1);
      var read := CaptureRead(dev);
      match results[i] {
        case ReadErr(_) =>
          PrependOne(records, [], ops, read, Capture(dev, buffer, results[i + 1..]));
        case ReadOk(bytes) =>
          buffer := Fill(buffer, bytes);
          if remaining == 0 {
            remaining := buffer[1];
          }
          if remaining < buffer[0] {
            remaining := buffer[1];
          }
          // the checked `u8` subtraction would panic here
          assert buffer[1] <= remaining;
          remaining := remaining - buffer[1];
          if buffer[2] != Sniffer.GotPkt && remaining == 0 {
            r := LoopResult(records, ProtocolFailure, ops + [read]);
            return;
          }
          if buffer[0] < 5 {
            r := LoopResult(records, LoopAborted("attempt to subtract with overflow"), ops + [read]);
            return;
          }
          PrependOne(records, [Record(buffer)], ops, read, Capture(dev, buffer, results[i + 1..]));
          records := records + [Record(buffer)];
          received := received + 1;
      }
      ops := ops + [read];
      i := i + 1;
    }
    r := LoopResult(records, Stopped, ops);
  }

  /**
   Every iteration issues one bulk read on the IN endpoint into the whole buffer
   with a one-second timeout: all results are consumed when the stop flag ends
   the loop, and otherwise the last one consumed is the successful read that
   ended it.
   */
  lemma {:induction false} CaptureReads(dev: Sniffer.SnifferDevice, buffer: seq<bv8>, results: seq<ReadResult>)
    requires |buffer| == BufferSize && AllFit(results)
    ensures var r := Capture(dev, buffer, results);
      forall k :: 0 <= k < |r.ops| ==> r.ops[k] == BulkRead(dev.inAddress, BufferSize, CaptureTimeoutMs)
    ensures var r := Capture(dev, buffer, results);
      r.end.Stopped? ==> |r.ops| == |results|
    ensures var r := Capture(dev, buffer, results);
      !r.end.Stopped? ==> 1 <= |r.ops| <= |results| && results[|r.ops| - 1].ReadOk?
    decreases |results|
  {
    if |results| > 0 {
      var tail := results[1..];
      AllFitSuffix(results, 1);
      match results[0]
      case ReadErr(_) =>
        CaptureReads(dev, buffer, tail);
        var rest := Capture(dev, buffer, tail);
        assert !rest.end.Stopped? ==> results[|rest.ops|] == tail[|rest.ops| - 1];
      case ReadOk(bytes) =>
        var b := Fill(buffer, bytes);
        if b[2] == Sniffer.GotPkt && b[0] >= 5 {
          CaptureReads(dev, b, tail);
          var rest := Capture(dev, b, tail);
          assert !rest.end.Stopped? ==> results[|rest.ops|] == tail[|rest.ops| - 1];
        }
    }
  }

  /** One iteration of Capture, taken at position `i` of the reads. */
  lemma CaptureStep(dev: Sniffer.SnifferDevice, buffer: seq<bv8>, results: seq<ReadResult>, i: nat)
    requires |buffer| == BufferSize && AllFit(results) && i < |results|
    ensures results[i].ReadErr? ==>
      Capture(dev, buffer, results[i..]) == Prepend([], [CaptureRead(dev)], Capture(dev, buffer, results[i + 1..]))
    ensures results[i].ReadOk? ==>
      var b := Fill(buffer, results[i].bytes);
      Capture(dev, buffer, results[i..])
      == if b[2] != Sniffer.GotPkt then LoopResult([], ProtocolFailure, [CaptureRead(dev)])
         else if b[0] < 5 then LoopResult([], LoopAborted("attempt to subtract with overflow"), [CaptureRead(dev)])
         else Prepend([Record(b)], [CaptureRead(dev)], Capture(dev, b, results[i + 1..]))
  {
    assert results[i..][0] == results[i];
    assert results[i..][1..] == results[i + 1..];
  }

  lemma AllFitSuffix(results: seq<ReadResult>, i: nat)
    requires AllFit(results) && i <= |results|
    ensures AllFit(results[i..])
  {
    forall k | 0 <= k < |results| - i ensures FitsIn(results[i..][k], BufferSize) {
      assert results[i..][k] == results[i + k];
    }
  }

  lemma PrependNothing(rest: LoopResult)
    ensures Prepend([], [], rest) == rest
  {
    assert [] + rest.records == rest.records;
    assert [] + rest.ops == rest.ops;
  }

  lemma PrependOne(records: seq<PcapRecord>, xs: seq<PcapRecord>, ops: seq<UsbOp>, op: UsbOp, rest: LoopResult)
    ensures Prepend(records, ops, Prepend(xs, [op], rest)) == Prepend(records + xs, ops + [op], rest)
  {
    assert records + (xs + rest.records) == (records + xs) + rest.records;
    assert ops + ([op] + rest.ops) == (ops + [op]) + rest.ops;
  }

  /**
   A zero-byte read leaves the previous frame in the buffer, and the loop
   writes that frame a second time.
   */
  lemma ZeroByteReadRepeatsPacket(dev: Sniffer.SnifferDevice, frame: seq<bv8>)
    requires 3 <= |frame| <= BufferSize && frame[2] == Sniffer.GotPkt && frame[0] >= 5
    ensures Capture(dev, Zeros(BufferSize), [ReadOk(frame), ReadOk([])]).records
         == [Record(Fill(Zeros(BufferSize), frame)), Record(Fill(Zeros(BufferSize), frame))]
  {
    var b := Fill(Zeros(BufferSize), frame);
    assert b[0] == frame[0] && b[2] == frame[2];
    var results := [ReadOk(frame), ReadOk([])];
    assert results[1..] == [ReadOk([])];
    assert [ReadOk([])][1..] == [];
    assert Fill(b, []) == b;
    var second := Capture(dev, b, [ReadOk([])]);
    assert second == Prepend([Record(b)], [CaptureRead(dev)], LoopResult([], Stopped, []));
    assert Capture(dev, Zeros(BufferSize), results) == Prepend([Record(b)], [CaptureRead(dev)], second);
  }
}
