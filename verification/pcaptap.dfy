/**
 The per-packet metadata of the IEEE 802.15.4 TAP link-layer encapsulation
 (LINKTYPE_IEEE802_15_4_TAP), as written by `TapBlock::write_to` in
 src/pcaptap.rs: a 4-byte header `{version 0, reserved 0, length: u16 LE}`
 followed by 8-byte TLV records `{type: u16 LE, length: u16 LE, value, padding}`.

 The writer is a byte vector, which never fails to accept bytes, so the only
 failure is the panic of the header's `u16` length arithmetic.
 */
module PcapTap {
  import opened Wrappers

  /** A block `write_to` serializes; the RSSI float is kept as its 32-bit pattern. */
  datatype TapBlock =
    | Header(blocks: nat)
    | TlvRssi(bits: bv32)
    | TlvLqi(lqi: bv8)
    | ChannelAssignment(channel: bv16)

  /** The TLV types the writer uses. */
  datatype Tlv = RssiTlv | ChannelAssignmentTlv | LqiTlv

  function TlvCode(t: Tlv): bv16
  {
    match t
    case RssiTlv => 1
    case ChannelAssignmentTlv => 3
    case LqiTlv => 10
  }

  /** Largest block count whose header length `4 + 8 * blocks` fits in a `u16`. */
  const MaxBlocks: nat := 8191

  /** `write_u16::<LittleEndian>`. */
  function Le16(x: bv16): (r: seq<bv8>)
    ensures |r| == 2
  {
    [(x & 0xFF) as bv8, (x >> 8) as bv8]
  }

  /** `write_u32::<LittleEndian>` of a float's bit pattern (`write_f32`). */
  function Le32(x: bv32): (r: seq<bv8>)
    ensures |r| == 4
  {
    [(x & 0xFF) as bv8, ((x >> 8) & 0xFF) as bv8, ((x >> 16) & 0xFF) as bv8, (x >> 24) as bv8]
  }

  /** Reading a little-endian `u16` back. */
  function FromLe16(lo: bv8, hi: bv8): bv16
  {
    (hi as bv16 << 8) | lo as bv16
  }

  /** Reading a little-endian 32-bit pattern back. */
  function FromLe32(b0: bv8, b1: bv8, b2: bv8, b3: bv8): bv32
  {
    (b3 as bv32 << 24) | (b2 as bv32 << 16) | (b1 as bv32 << 8) | b0 as bv32
  }

  lemma Le16RoundTrip(x: bv16)
    ensures FromLe16(Le16(x)[0], Le16(x)[1]) == x
  {
  }

  lemma Le32RoundTrip(x: bv32)
    ensures FromLe32(Le32(x)[0], Le32(x)[1], Le32(x)[2], Le32(x)[3]) == x
  {
  }

  /**
   The header's length field `4 + 8 * (blocks as u16)`: the cast keeps the
   count modulo 2^16, and the `u16` multiplication or addition overflows
   (a panic) beyond 8191 blocks.
   */
  function HeaderLength(blocks: nat): (len: Option<bv16>)
    ensures len.Some? <==> 4 + 8 * (blocks % 0x1_0000) <= 0xFFFF
    // the cast is checked to be exact: the value fits in a `u16`
    ensures len.Some? ==> len.value == (4 + 8 * (blocks % 0x1_0000)) as bv16
  {
    var b := blocks % 0x1_0000;
    if b > MaxBlocks then None else Some((4 + 8 * b) as bv16)
  }

  /** The bytes one block serializes to; `None` when the header length overflows. */
  function Encode(block: TapBlock): Option<seq<bv8>>
  {
    match block
    case Header(blocks) =>
      (match HeaderLength(blocks)
       case None => None
       case Some(len) => Some([0, 0] + Le16(len)))
    case TlvRssi(bits) => Some(Le16(TlvCode(RssiTlv)) + Le16(4) + Le32(bits))
    case TlvLqi(v) => Some(Le16(TlvCode(LqiTlv)) + Le16(1) + [v] + [0, 0, 0])
    case ChannelAssignment(c) => Some(Le16(TlvCode(ChannelAssignmentTlv)) + Le16(3) + Le16(c) + [0] + [0])
  }

  /** The writer after a call, with the byte count returned, or the overflow panic. */
  datatype TapWrite = Written(out: seq<bv8>, count: nat) | Overflow

  /**
   Reading one 8-byte TLV record back: its type, its declared length, the value
   and zero padding.
   */
  function DecodeTlv(rec: seq<bv8>): Option<TapBlock>
  {
    if |rec| != 8 then None
    else
      var t := FromLe16(rec[0], rec[1]);
      var len := FromLe16(rec[2], rec[3]);
      if t == TlvCode(RssiTlv) && len == 4 then
        Some(TlvRssi(FromLe32(rec[4], rec[5], rec[6], rec[7])))
      else if t == TlvCode(LqiTlv) && len == 1 && rec[5..] == [0, 0, 0] then
        Some(TlvLqi(rec[4]))
      else if t == TlvCode(ChannelAssignmentTlv) && len == 3 && rec[6..] == [0, 0] then
        Some(ChannelAssignment(FromLe16(rec[4], rec[5])))
      else None
  }

  /** Reading a 4-byte header back: version and reserved byte 0, then the total length. */
  function DecodeHeader(h: seq<bv8>): Option<bv16>
  {
    if |h| == 4 && h[0] == 0 && h[1] == 0 then Some(FromLe16(h[2], h[3])) else None
  }

  /**
   `TapBlock::write_to` on a byte vector `w`: appends the block's bytes and
   returns how many it appended, 4 for the header and 8 for every TLV record.
   The record read back is the block written, and the header read back declares
   `4 + 8 * blocks` bytes.
   */
  function WriteTo(block: TapBlock, w: seq<bv8>): (r: TapWrite)
    ensures r.Overflow? <==> block.Header? && block.blocks % 0x1_0000 > MaxBlocks
    ensures r.Written? ==> |r.out| == |w| + r.count && r.out[..|w|] == w
    ensures r.Written? ==> r.count == if block.Header? then 4 else 8
    ensures r.Written? && !block.Header? ==> DecodeTlv(r.out[|w|..]) == Some(block)
    ensures r.Written? && block.Header? ==>
      DecodeHeader(r.out[|w|..]) == Some((4 + 8 * (block.blocks % 0x1_0000)) as bv16)
  {
    match Encode(block)
    case None => Overflow
    case Some(bytes) =>
      var out := w + bytes;
      assert out[..|w|] == w && out[|w|..] == bytes;
      match block
      case Header(_) =>
        Le16RoundTrip(HeaderLength(block.blocks).value);
        Written(out, 4)
      case TlvRssi(bits) =>
        Le32RoundTrip(bits);
        Written(out, 8)
      case TlvLqi(_) => Written(out, 8)
      case ChannelAssignment(c) =>
        Le16RoundTrip(c);
        Written(out, 8)
  }

  /** The value length a TLV record declares never exceeds the four value bytes of its 8-byte slot. */
  lemma DeclaredValueFits(block: TapBlock)
    requires !block.Header?
    ensures FromLe16(Encode(block).value[2], Encode(block).value[3]) <= 4
  {
  }

  /** Writing blocks one after another, stopping at the first overflow. */
  function WriteBlocks(blocks: seq<TapBlock>, w: seq<bv8>): TapWrite
  {
    if |blocks| == 0 then Written(w, 0)
    else
      match WriteTo(blocks[0], w)
      case Overflow => Overflow
      case Written(w1, c1) =>
        (match WriteBlocks(blocks[1..], w1)
         case Overflow => Overflow
         case Written(w2, c2) => Written(w2, c1 + c2))
  }

  predicate AllTlvs(blocks: seq<TapBlock>)
  {
    forall i :: 0 <= i < |blocks| ==> !blocks[i].Header?
  }

  /** A run of TLV records appends eight bytes per record and leaves the earlier bytes alone. */
  lemma {:induction false} TlvRunLength(tlvs: seq<TapBlock>, w: seq<bv8>)
    requires AllTlvs(tlvs)
    ensures WriteBlocks(tlvs, w).Written?
    ensures WriteBlocks(tlvs, w).count == 8 * |tlvs|
    ensures |WriteBlocks(tlvs, w).out| == |w| + 8 * |tlvs|
    ensures WriteBlocks(tlvs, w).out[..|w|] == w
  {
    if |tlvs| > 0 {
      var first := WriteTo(tlvs[0], w);
      assert first.Written? && first.count == 8;
      TlvRunLength(tlvs[1..], first.out);
      var rest := WriteBlocks(tlvs[1..], first.out);
      assert WriteBlocks(tlvs, w) == Written(rest.out, 8 + rest.count);
      PrefixOfPrefix(rest.out, first.out, w);
    }
  }

  lemma PrefixOfPrefix(a: seq<bv8>, b: seq<bv8>, c: seq<bv8>)
    requires |c| <= |b| <= |a| && a[..|b|] == b && b[..|c|] == c
    ensures a[..|c|] == c
  {
    assert a[..|c|] == a[..|b|][..|c|];
  }

  /** A header for at most 8191 blocks declares 4 + 8 * blocks bytes. */
  lemma HeaderDeclares(k: nat)
    requires k <= MaxBlocks
    ensures WriteTo(Header(k), []).Written?
    ensures WriteTo(Header(k), []).count == 4 && |WriteTo(Header(k), []).out| == 4
    ensures DecodeHeader(WriteTo(Header(k), []).out) == Some((4 + 8 * k) as bv16)
  {
    assert k % 0x1_0000 == k;
    var h := WriteTo(Header(k), []);
    assert h.out[0..] == h.out;
  }

  /**
   A header for `k` blocks followed by `k` TLV records is a stream whose length
   is exactly the length the header declares, 4 + 8k.
   */
  lemma HeaderedStreamLength(k: nat, tlvs: seq<TapBlock>)
    requires k <= MaxBlocks && |tlvs| == k && AllTlvs(tlvs)
    ensures WriteBlocks([Header(k)] + tlvs, []).Written?
    ensures |WriteBlocks([Header(k)] + tlvs, []).out| == 4 + 8 * k
    ensures WriteBlocks([Header(k)] + tlvs, []).count == 4 + 8 * k
    ensures DecodeHeader(WriteBlocks([Header(k)] + tlvs, []).out[..4]) == Some((4 + 8 * k) as bv16)
  {
    var blocks := [Header(k)] + tlvs;
    assert blocks[0] == Header(k) && blocks[1..] == tlvs;
    var h := WriteTo(Header(k), []);
    HeaderDeclares(k);
    TlvRunLength(tlvs, h.out);
    var rest := WriteBlocks(tlvs, h.out);
    assert WriteBlocks(blocks, []) == Written(rest.out, 4 + rest.count);
  }

  // Examples: the test module of src/pcaptap.rs pins the outputs of all but the second.

  /** `serialize_header`: the header announcing two TLVs. */
  lemma HeaderExample()
    ensures WriteTo(Header(2), []) == Written([0, 0, 20, 0], 4)
  {
    assert 2 % 0x1_0000 == 2;
    assert HeaderLength(2) == Some(20);
    var bytes: seq<bv8> := [0, 0] + Le16(20);
    assert bytes == [0, 0, 20, 0];
    assert [] + bytes == bytes;
  }

  /** The header of one packet's full metadata: RSSI, LQI and channel. */
  lemma FullMetadataHeaderExample()
    ensures WriteTo(Header(3), []) == Written([0, 0, 28, 0], 4)
  {
    assert 3 % 0x1_0000 == 3;
    assert HeaderLength(3) == Some(28);
    var bytes: seq<bv8> := [0, 0] + Le16(28);
    assert bytes == [0, 0, 28, 0];
    assert [] + bytes == bytes;
  }

  /** `serialize_rssi`: an RSSI of 5.0, given as its `f32` bit pattern. */
  lemma RssiExample()
    ensures WriteTo(TlvRssi(0x40A0_0000), []) == Written([1, 0, 4, 0, 0, 0, 160, 64], 8)
  {
  }

  /** `serialize_lqi`: a link quality of 5. */
  lemma LqiExample()
    ensures WriteTo(TlvLqi(5), []) == Written([10, 0, 1, 0, 5, 0, 0, 0], 8)
  {
  }

  /** `serialize_ca`: channel 11, followed by a zero page byte and a zero padding byte. */
  lemma ChannelExample()
    ensures WriteTo(ChannelAssignment(11), []) == Written([3, 0, 3, 0, 11, 0, 0, 0], 8)
  {
  }
}
