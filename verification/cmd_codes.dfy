/**
 The command codes of the CC2531 sniffer firmware (`CmdCodes` in src/sniffer.rs).
 Commands are even; the acknowledgement of a command is the next value.
 */
module CmdCodes {

  datatype CmdCode =
    | CmdInit | CmdInitAck
    | CmdSetChannel | CmdSetChannelAck
    | CmdSendPkt | CmdSendPktAck
    | CmdSniffOn | CmdSniffOnAck
    | CmdSniffOff | CmdSniffOffAck
    | CmdGotPkt
    | CmdErr

  /** The wire byte of a code (`command as u8`). */
  function ToByte(c: CmdCode): bv8
  {
    match c
    case CmdInit => 0x00
    case CmdInitAck => 0x01
    case CmdSetChannel => 0x02
    case CmdSetChannelAck => 0x03
    case CmdSendPkt => 0x04
    case CmdSendPktAck => 0x05
    case CmdSniffOn => 0x06
    case CmdSniffOnAck => 0x07
    case CmdSniffOff => 0x08
    case CmdSniffOffAck => 0x09
    case CmdGotPkt => 0x0A
    case CmdErr => 0xFF
  }

  /** The bytes that name a code of their own. */
  predicate IsKnownByte(b: bv8)
  {
    b <= 0x0A || b == 0xFF
  }

  /** `CmdCodes::from(u8)`: every byte outside the known ones becomes `CmdErr`. */
  function FromByte(b: bv8): (c: CmdCode)
    ensures IsKnownByte(b) <==> ToByte(c) == b
    ensures !IsKnownByte(b) ==> c == CmdErr
  {
    match b
    case 0x00 => CmdInit
    case 0x01 => CmdInitAck
    case 0x02 => CmdSetChannel
    case 0x03 => CmdSetChannelAck
    case 0x04 => CmdSendPkt
    case 0x05 => CmdSendPktAck
    case 0x06 => CmdSniffOn
    case 0x07 => CmdSniffOnAck
    case 0x08 => CmdSniffOff
    case 0x09 => CmdSniffOffAck
    case 0x0A => CmdGotPkt
    case 0xFF => CmdErr
    case _ => CmdErr
  }

  /** `from` inverts `as u8` on every one of the twelve codes. */
  lemma FromByteInvertsToByte(c: CmdCode)
    ensures FromByte(ToByte(c)) == c
  {
  }

  /** Distinct codes have distinct wire bytes. */
  lemma ToByteInjective(c: CmdCode, d: CmdCode)
    requires ToByte(c) == ToByte(d)
    ensures c == d
  {
    FromByteInvertsToByte(c);
    FromByteInvertsToByte(d);
  }

  /** The codes the host sends as commands. */
  predicate IsCommand(c: CmdCode)
  {
    c in {CmdInit, CmdSetChannel, CmdSendPkt, CmdSniffOn, CmdSniffOff}
  }

  /**
   The acknowledgement the driver expects for `c`: `(c as u8 + 1).into()`.
   For `CmdErr` the addition overflows, so the caller handles that code itself.
   */
  function AckFor(c: CmdCode): (a: CmdCode)
    requires c != CmdErr
    ensures ToByte(c) < 0x0A ==> ToByte(a) as int == ToByte(c) as int + 1
    ensures c == CmdGotPkt ==> a == CmdErr
    ensures ToByte(a) != 0
  {
    FromByte(ToByte(c) + 1)
  }

  /** Each command with the acknowledgement listed next to it in the enum, spelled out. */
  function ExpectedAck(c: CmdCode): CmdCode
    requires IsCommand(c)
  {
    match c
    case CmdInit => CmdInitAck
    case CmdSetChannel => CmdSetChannelAck
    case CmdSendPkt => CmdSendPktAck
    case CmdSniffOn => CmdSniffOnAck
    case CmdSniffOff => CmdSniffOffAck
  }

  /**
   The "ack is command + 1" arithmetic agrees with the explicit table on every
   command, and every command's acknowledgement byte is its own byte plus one.
   */
  lemma AckForMatchesTable(c: CmdCode)
    requires IsCommand(c)
    ensures AckFor(c) == ExpectedAck(c)
    ensures ToByte(AckFor(c)) == ToByte(c) + 1
  {
  }

  /** The one non-command with a defined successor whose ack is `CmdErr` (0x0B is unknown). */
  lemma GotPktAckIsErr()
    ensures AckFor(CmdGotPkt) == CmdErr && ToByte(AckFor(CmdGotPkt)) == 0xFF
  {
  }
}
