/**
 The frame checksum: an XOR fold seeded with 0xFF (`calculate_crc` in
 src/sniffer.rs, whose comment calls it the firmware's procedure).
 */
module Checksum {

  /** The XOR of all bytes of `s`: s[0] ^ s[1] ^ ... ^ s[|s|-1], and 0 for the empty sequence. */
  function Xor(s: seq<bv8>): bv8
  {
    if |s| == 0 then 0 else s[0] ^ Xor(s[1..])
  }

  /** Appending a byte XORs it into the total. */
  lemma {:induction false} XorAppend(s: seq<bv8>, x: bv8)
    ensures Xor(s + [x]) == Xor(s) ^ x
  {
    if |s| == 0 {
      assert s + [x] == [x];
      assert [x][1..] == [];
    } else {
      assert (s + [x])[1..] == s[1..] + [x];
      XorAppend(s[1..], x);
    }
  }

  /**
   `calculate_crc(buffer, len)`: start at 0xFF and XOR in `buffer[0..len]`
   one byte at a time. Indexing past the buffer panics in Rust, so
   `len` must lie within it.
   */
  function Crc(buffer: seq<bv8>, len: nat): (r: bv8)
    requires len <= |buffer|
    ensures r == 0xFF ^ Xor(buffer[..len])
  {
    if len == 0 then 0xFF
    else
      var r := Crc(buffer, len - 1) ^ buffer[len - 1];
      assert buffer[..len] == buffer[..len - 1] + [buffer[len - 1]];
      XorAppend(buffer[..len - 1], buffer[len - 1]);
      r
  }

  /** Worked values: Init's frame head and SetChannel 13's frame head. */
  lemma CrcExamples()
    ensures Crc([0x03, 0x00], 2) == 0xFC
    ensures Crc([0x04, 0x02, 0x0D], 3) == 0xF4
  {
  }
}
