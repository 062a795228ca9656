# ccsniffer-rust in Dafny

A model of the host side of ccsniffer-rust. The program drives a Texas
Instruments CC2531 USB dongle running sniffer firmware and turns the
IEEE 802.15.4 frames the dongle captures into pcap-ng records.

The model covers three source files:

- **src/sniffer.rs** (`cmd_codes.dfy`, `checksum.dfy`, `sniffer.dfy`). This
  is the reusable driver. It holds the command codes and their
  "acknowledgement is command + 1" rule, and the 0xFF-seeded XOR checksum.
  It also covers:
  - the framed command/acknowledgement exchange (`send_command`);
  - validation of unsolicited data frames (`receive_packet`);
  - the device search (`find_device`) and the endpoint binding
    (`find_first_endpoint`, `SnifferDevice::new`).
- **src/pcaptap.rs** (`pcaptap.dfy`). This is the IEEE 802.15.4 TAP metadata
  serializer: a 4-byte header and 8-byte little-endian TLV records.
- **src/main.rs** (`legacy.dfy`). This is the older self-contained driver. It
  has its own code table and checksum, and a `send_command` that builds the
  frame in a zero-filled 256-byte buffer and only prints diagnostics. It also
  holds the capture loop with its `u8` counter `remaining`.

USB transfers are inputs. A bulk read is a `ReadResult`: the bytes that
arrived, or a rusb error. A bulk write is a `WriteResult`. Every operation
that talks to the device returns the transfers it issued (endpoint, data or
capacity, timeout), so the contracts can say which transfers happen. This
includes both `send_command`s, `receive_packet` and the capture loop. A read fills a buffer from the front
and leaves the rest of the buffer as it was (`Usb.Fill`):

- src/sniffer.rs reads into a fresh zero buffer each time;
- main.rs reuses one buffer, so a short read sees stale bytes.

Integer behaviour follows a debug build of the Rust code:

- `as` casts truncate;
- an overflowing `u8`/`u16` operation or an out-of-range slice is a panic,
  shown as an explicit `Panic`/`Overflow`/`Aborted` outcome.

The model shows the following behaviours of the source:

- `send_command` of src/sniffer.rs truncates the length byte for payloads over
  252 bytes. The write check then cannot pass (`OversizedPayloadFails`).
- `receive_packet` accepts a three-byte frame `[n, n, 0x0A]` and then panics
  in `drain(..3)`.
- main.rs's `send_command` panics in its dump when the response's first byte
  is 0xFF. A response shorter than three bytes is judged on bytes of the frame
  it overwrote (`Legacy.ZeroByteResponseJudgesSentFrame`).
- In main.rs's capture loop, `remaining` is 0 at the top of every iteration,
  so its subtraction never underflows (`ReceiveLoop`). Because the buffer is
  reused, a zero-byte read writes the previous packet a second time
  (`ZeroByteReadRepeatsPacket`).

## Model

| member | source | states |
|---|---|---|
| CmdCodes.FromByte | src/sniffer.rs:28-46 | a byte maps to the code carrying that byte exactly when it is one of the twelve known values (0x00-0x0A, 0xFF); every other byte maps to `CmdErr` |
| CmdCodes.FromByteInvertsToByte | src/sniffer.rs:11-46 | `from` undoes `as u8` on every code |
| CmdCodes.ToByteInjective | src/sniffer.rs:11-26 | no two codes share a wire byte |
| CmdCodes.AckFor | src/sniffer.rs:136 | the acknowledgement of a code below 0x0A carries the next byte value; `CmdGotPkt`'s successor 0x0B is unknown and becomes `CmdErr`; no acknowledgement is `CmdInit` |
| CmdCodes.AckForMatchesTable | src/sniffer.rs:13-25 | for each of the five commands, the "+ 1" rule gives the acknowledgement listed next to it in the enum |
| CmdCodes.GotPktAckIsErr | src/sniffer.rs:136 | the "+ 1" rule applied to `CmdGotPkt` gives `CmdErr` (0xFF) |
| Checksum.XorAppend | src/sniffer.rs:241-247 | folding in one more byte XORs it into the running total |
| Checksum.Crc | src/sniffer.rs:241-247 | `calculate_crc(buffer, len)` is 0xFF XOR every byte of `buffer[0..len]`; `len` must lie within the buffer |
| Checksum.CrcExamples | src/sniffer.rs:241-247 | the checksum of the `Init` head is 0xFC; that of the `SetChannel(13)` head is 0xF4 |
| Usb.Zeros | src/sniffer.rs:160 | `vec![0; n]` has length n and holds only zeros |
| Usb.Fill | src/main.rs:309-313 | a bulk read overwrites the first `n` bytes of the buffer with the bytes received and keeps the rest |
| Sniffer.FirstWithDirection | src/sniffer.rs:259-263 | the index returned is that of the first endpoint with the direction, or the length of the list if none has it |
| Sniffer.FindFirstEndpoint | src/sniffer.rs:255-265 | succeeds exactly when some endpoint has the direction and returns the first one; otherwise it fails with `DeviceError` |
| Sniffer.New | src/sniffer.rs:86-107 | binding succeeds exactly when the interface has both an IN and an OUT endpoint; it stores the address of the first of each; otherwise `DeviceError` |
| Sniffer.FirstStop | src/sniffer.rs:110-122 | every device before the index neither matches nor has an unreadable descriptor; the device at the index does one of the two |
| Sniffer.FindDevice | src/sniffer.rs:109-123 | returns the first device whose vendor and product ids both match; panics on an unreadable descriptor only if it comes before any match; reports no match exactly when every descriptor is readable and none matches |
| Sniffer.BuildFrame | src/sniffer.rs:132-141 | the frame is `[len, code, payload.., crc]` with `len = (payload + 3) mod 256`; its last byte is the checksum of all bytes before it, and the whole frame folds to 0xFF |
| Sniffer.FrameRoundTrip | src/sniffer.rs:132-141 | the decoder of the frame layout `[len][code][payload][crc]` (length byte equals length, the whole frame folds to 0xFF) accepts every frame built for a payload of at most 252 bytes and reads back the code and payload |
| Sniffer.ParsedFrameIsBuilt | src/sniffer.rs:132-141 | every frame that decoder accepts is the frame `BuildFrame` gives for its code and payload |
| Sniffer.FrameExamples | src/sniffer.rs:132-141 | the start-up frames: `Init` is `03 00 FC` and `SetChannel(13)` is `04 02 0D F4` |
| Sniffer.SendCommand | src/sniffer.rs:132-184 | panics with no transfer exactly for `CmdErr`; reads an acknowledgement exactly after a complete write; succeeds exactly when the write is complete, the read succeeds and byte 2 of the response is the command's acknowledgement |
| Sniffer.SendCommandWrites | src/sniffer.rs:138-158 | the single write goes to the OUT endpoint with a 250 ms timeout and carries the frame cut to its length byte (the whole frame up to 252 payload bytes); a write error is returned as `UsbError` and a short write as `DeviceError`, and in both cases nothing is read |
| Sniffer.SendCommandReads | src/sniffer.rs:160-183 | after a complete write, one 256-byte read on the IN endpoint with a 250 ms timeout; a read error is `UsbError`, an empty read `DeviceError`, a wrong byte 2 "unexpected response code" |
| Sniffer.OversizedPayloadFails | src/sniffer.rs:138-158 | with more than 252 payload bytes the truncated length byte hands the transport fewer bytes than the frame holds, so the call fails with `DeviceError` |
| Sniffer.CommandAckIsNextByte | src/sniffer.rs:136-180 | for the five commands, a complete exchange succeeds exactly when response byte 2 is the command byte plus one |
| Sniffer.ReceivePacket | src/sniffer.rs:186-233 | one 256-byte read with a 1 s timeout. A timeout gives `TimeOut` and other errors `UsbError`. The checks run in order: empty read, size mismatch, unexpected command code. It panics exactly for a valid three-byte header and succeeds exactly on a data frame, returning the bytes between the header and the trailing checksum |
| Sniffer.ReceiveDecodesDataFrame | src/sniffer.rs:197-226 | every data frame `[n, n, 0x0A, body.., crc]` that fits the buffer is accepted and yields exactly its body |
| Sniffer.ReceivedIsDataFrame | src/sniffer.rs:197-226 | every accepted read is such a data frame, with the returned bytes as its body |
| Sniffer.ReceivedStartsWithRssiLqi | src/sniffer.rs:197-204 | the bytes returned start with the RSSI byte and the link-quality byte of the frame |
| PcapTap.Le16RoundTrip | src/pcaptap.rs:40 | reading two little-endian bytes back gives the `u16` written |
| PcapTap.Le32RoundTrip | src/pcaptap.rs:26 | reading four little-endian bytes back gives the 32-bit pattern written |
| PcapTap.HeaderLength | src/pcaptap.rs:40 | `4 + 8 * (blocks as u16)` is defined exactly when it fits in a `u16` (at most 0xFFFF), and then is exactly `4 + 8 * (blocks mod 65536)`; beyond that the `u16` arithmetic overflows |
| PcapTap.WriteTo | src/pcaptap.rs:20-53 | `write_to` overflows exactly for a header of more than 8191 blocks (after truncation); otherwise it only appends, returns 4 for the header and 8 for each TLV, and its bytes read back as the block written, or as a header declaring `4 + 8 * blocks` |
| PcapTap.DeclaredValueFits | src/pcaptap.rs:23-50 | the value length a TLV declares (4, 1 or 3) never exceeds the four value bytes of its 8-byte slot |
| PcapTap.TlvRunLength | src/pcaptap.rs:20-53 | writing any run of TLVs one after another appends 8 bytes per TLV, returns 8 per TLV, and leaves the earlier bytes alone |
| PcapTap.HeaderDeclares | src/pcaptap.rs:37-42 | a header for at most 8191 blocks is 4 bytes and declares `4 + 8k` |
| PcapTap.HeaderedStreamLength | src/pcaptap.rs:37-42 | a header for k blocks followed by k TLVs is exactly as long as the header declares |
| PcapTap.HeaderExample | src/pcaptap.rs:59-64 | `Header(2)` serializes to `[0, 0, 20, 0]` |
| PcapTap.FullMetadataHeaderExample | src/pcaptap.rs:37-42 | `Header(3)` (RSSI, channel, LQI) serializes to `[0, 0, 28, 0]` |
| PcapTap.RssiExample | src/pcaptap.rs:66-71 | `TlvRssi(5.0)` serializes to `[1, 0, 4, 0, 0, 0, 160, 64]` |
| PcapTap.LqiExample | src/pcaptap.rs:73-78 | `TlvLqi(5)` serializes to `[10, 0, 1, 0, 5, 0, 0, 0]` |
| PcapTap.ChannelExample | src/pcaptap.rs:80-85 | `ChannelAssignment(11)` serializes to `[3, 0, 3, 0, 11, 0, 0, 0]` |
| Legacy.CodeFromByte | src/main.rs:41-59 | main.rs's copy of `from` maps every byte exactly as src/sniffer.rs's does |
| Legacy.BindEndpoints | src/main.rs:172-191 | the inline lookup binds a device exactly when `SnifferDevice::new` would, with the same two addresses; otherwise it panics in `unwrap` |
| Legacy.CalculateCrc | src/main.rs:276-283 | the `u8`-length loop computes the same checksum as src/sniffer.rs's fold over `buffer[0..len]` |
| Legacy.FrameBuffer | src/main.rs:292-300 | the 256-byte frame buffer exists exactly when the payload leaves room for the checksum slot |
| Legacy.ZeroSlotLeavesChecksum | src/main.rs:300 | the checksum over `buffer[0]` bytes includes the still-zero checksum slot, and that zero does not change it |
| Legacy.FrameAgreesWithSniffer | src/main.rs:292-300 | up to 252 payload bytes, the first `payload + 3` bytes of main.rs's buffer are exactly src/sniffer.rs's frame |
| Legacy.SendCommand | src/main.rs:291-330 | aborts with no transfer exactly for `CmdErr` or a payload that does not fit; otherwise writes once to the OUT endpoint and reads once from the IN endpoint (250 ms each); a read error is reported; "Acknowledged" implies a successful read whose byte 2, when present, is the acknowledgement; for a response of at least three bytes not starting with 0xFF it is "Acknowledged" exactly when byte 2 is the acknowledgement, and otherwise "Unexpected result" with that byte; in general every successful read, short ones included, is judged on the frame buffer it overwrote: abort when its byte 0 is 0xFF, else "Acknowledged" exactly when its byte 2 is the acknowledgement, else "Unexpected result" with byte 2 |
| Legacy.SentFrameIsFrameBuffer | src/main.rs:302-306 | the write carries the first `payload + 3` bytes of the frame buffer |
| Legacy.SentFrameAgreesWithSniffer | src/main.rs:297-306 | up to 253 payload bytes, main.rs sends the same transfer as src/sniffer.rs: the frame itself up to 252 bytes, and an empty transfer at 253, where the length byte wraps to 0 |
| Legacy.ZeroByteResponseJudgesSentFrame | src/main.rs:309-324 | after a zero-byte response, byte 2 of the frame just sent is taken for the acknowledgement ("Acknowledged" exactly when it equals it); with a 252-byte payload the length byte 0xFF makes the dump overflow |
| Legacy.WriteResultIgnored | src/main.rs:302-306 | the write's outcome has no influence on anything that follows |
| Legacy.AckAgreesWithSniffer | src/main.rs:314-325 | with a complete write and a response of at least three bytes not starting with 0xFF, main.rs prints "Acknowledged" exactly when src/sniffer.rs returns `Ok` |
| Legacy.ReceiveLoop | src/main.rs:203-266 | the loop with its `u8` counter computes the reference capture, reads included: errors skipped, a wrong byte 2 ends it with a protocol error, a length byte below 5 panics, every other read emits the record `(buffer[0] - 5, buffer[5..buffer[0]])`; `received_packets` counts the records; inside the loop the `u8` subtraction `remaining -= buffer[1]` is proved never to underflow |
| Legacy.CaptureReads | src/main.rs:206-216 | every iteration issues one bulk read on the IN endpoint into the whole 256-byte buffer with a 1000 ms timeout; when the stop flag ends the loop every result was read, otherwise the loop stops at the successful read that ended it |
| Legacy.ZeroByteReadRepeatsPacket | src/main.rs:218-256 | a good data frame followed by a zero-byte read produces the same record twice |

## Left out

- Listing the USB devices is not modelled, so the panic of
  `DeviceList::new().unwrap()` in `find_device` (src/sniffer.rs:110) and in
  `main`'s own search (src/main.rs:128) is left out.
- The rusb calls that open the device, claim interface 0, read the product
  string, and enumerate configurations and interfaces are not modelled. Neither
  are the device-descriptor reads in `SnifferDevice::new` (src/sniffer.rs:88)
  and in `main` (src/main.rs:156, 188). The model starts from the device list
  and the endpoint list those calls would yield, and their `?`/`unwrap`/`expect`
  failures are not modelled. Two failures are modelled: the `expect` on the
  descriptor read during the device search (`Sniffer.FindDevice`) and the
  `unwrap` of the endpoint lookup in `main` (`Legacy.BindEndpoints`).
- The SIGINT handler thread and the stop flag are left out. The capture loop
  is modelled over the reads that happen before the flag is seen, and
  `Stopped` stands for the flag. The trailing `CmdSniffOff` and the three
  start-up commands in `main` are plain calls of `send_command` whose
  diagnostics are only printed, so they are not modelled separately.
- The pcap-ng writer is left out: interface description blocks, timestamps and
  `unwrap` on its I/O errors. The loop's output is the sequence of records,
  each with its `original_len` and data.
- Console output, `hexdump`/`dump` and the `debug` flag of src/sniffer.rs are
  left out. The debug dump `read_buffer[0] + 1` in src/sniffer.rs (line 172)
  can overflow, but only when debugging is switched on, so it is not modelled.
  main.rs's dump runs unconditionally, so its overflow is modelled.
- Command-line parsing (clap, the channel range 11..27) is left out.
- src/protocol.rs is a stub and is not part of this model. The `CRC_16`
  constant of main.rs is never used.
- The RSSI value is a 32-bit float. It is modelled as its bit pattern, with no
  floating-point semantics.
- main.rs's inline device search (lines 128-145) is the same lazy search as
  `find_device`, with fixed ids 0x0451/0x16a8. It is covered by
  `Sniffer.FindDevice` and not modelled a second time.
- The `i32` counter `received_packets` is modelled as unbounded. Its overflow
  after 2^31 packets is not modelled.
- `TapBlock::write_to` writes into a growable byte vector, which never fails.
  I/O errors of other writers are not modelled.
