/**
 * CRC-32 of IEEE 802.3 in its reflected bitwise form: register preset to all
 * ones, polynomial 0x04C11DB7 processed least-significant bit first
 * (0xEDB88320 reversed), result complemented. This is the checksum the
 * device declares in a packet header.
 */
module Crc32 {
  import opened Text

  const Reversed: bv32 := 0xEDB88320

  /** One bit step of the register. */
  function Shift(r: bv32): bv32 {
    if r & 1 == 1 then (r >> 1) ^ Reversed else r >> 1
  }

  /** One byte step: the byte is xored into the low bits, then eight bit steps. */
  function Feed(r: bv32, x: byte): bv32 {
    var r0 := r ^ (x as bv32);
    Shift(Shift(Shift(Shift(Shift(Shift(Shift(Shift(r0))))))))
  }

  /** The register after feeding `data` in order, starting from `r`. */
  function Update(r: bv32, data: seq<byte>): bv32
    decreases |data|
  {
    if data == [] then r else Update(Feed(r, data[0]), data[1..])
  }

  /** CRC-32 of `data`, as an unsigned 32-bit number (what `crc32` returns). */
  function Checksum(data: seq<byte>): (c: nat)
    ensures c < 0x1_0000_0000
  {
    (Update(0xFFFF_FFFF, data) ^ 0xFFFF_FFFF) as nat
  }

  /** The checksum of no data is 0, the value the receiver reserves for "no packet in progress". */
  lemma ChecksumOfEmpty()
    ensures Checksum([]) == 0
  {
  }
}
