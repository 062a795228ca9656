/**
 The USB transport as seen by the sniffer driver. Nothing here talks to a bus:
 every bulk transfer is an input (what the transport reported) and every
 transfer the driver issues is recorded as a `UsbOp`, so that contracts can
 say which transfers happened, on which endpoint, with which data and timeout.
 */
module Usb {
  import opened Wrappers

  /** The error kinds the USB library (rusb) can report. Only `Timeout` is told apart by the driver. */
  datatype RusbError =
    | Io | InvalidParam | Access | NoDevice | NotFound | Busy | Timeout
    | Overflow | Pipe | Interrupted | NoMem | NotSupported | BadDescriptor | Other

  /** Outcome of a bulk read: the bytes the device delivered (their count is `n`), or an error. */
  datatype ReadResult = ReadOk(bytes: seq<bv8>) | ReadErr(error: RusbError)

  /** Outcome of a bulk write: the number of bytes the transport reports as written, or an error. */
  datatype WriteResult = WriteOk(written: nat) | WriteErr(error: RusbError)

  /** A transfer issued by the driver. */
  datatype UsbOp =
    | BulkWrite(endpoint: bv8, data: seq<bv8>, timeoutMs: nat)
    | BulkRead(endpoint: bv8, capacity: nat, timeoutMs: nat)

  datatype Direction = In | Out

  datatype TransferType = Control | Isochronous | Bulk | Interrupt

  datatype EndpointDescriptor = EndpointDescriptor(address: bv8, direction: Direction, transferType: TransferType)

  datatype DeviceDescriptor = DeviceDescriptor(vendorId: bv16, productId: bv16)

  /** A device on the bus; `descriptor` is `None` when reading its descriptor fails. */
  datatype Device = Device(busNumber: bv8, address: bv8, descriptor: Option<DeviceDescriptor>)

  /** A read result that a bulk read into a buffer of `capacity` bytes can produce. */
  predicate FitsIn(read: ReadResult, capacity: nat)
  {
    read.ReadOk? ==> |read.bytes| <= capacity
  }

  /** A freshly allocated buffer of `n` zero bytes (`vec![0; n]`). */
  function Zeros(n: nat): (r: seq<bv8>)
    ensures |r| == n
    ensures forall i :: 0 <= i < n ==> r[i] == 0
  {
    seq(n, _ => 0)
  }

  /**
   The buffer after a bulk read delivered `bytes` into it: the first `|bytes|`
   bytes are overwritten, the rest keep whatever the buffer held before.
   */
  function Fill(buffer: seq<bv8>, bytes: seq<bv8>): (r: seq<bv8>)
    requires |bytes| <= |buffer|
    ensures |r| == |buffer|
    ensures forall i :: 0 <= i < |bytes| ==> r[i] == bytes[i]
    ensures forall i :: |bytes| <= i < |buffer| ==> r[i] == buffer[i]
  {
    bytes + buffer[|bytes|..]
  }
}
