/** Stored checksums (util/crc32c.h).  The CRC is an arbitrary function of the bytes it covers. */
module Checksums {
  import opened Coding

  // ---------------------------------------------------------------- crc32c::Mask

  const MASK_DELTA: Uint32 := 0xa282ead8

  // Rotate right by 15 bits and add a constant, modulo 2^32.
  function Mask(crc: Uint32): Uint32 {
    (crc / 0x8000 + crc % 0x8000 * 0x2_0000 + MASK_DELTA) % 0x1_0000_0000
  }

  function Unmask(masked: Uint32): Uint32 {
    var rot := (masked - MASK_DELTA) % 0x1_0000_0000;
    rot / 0x2_0000 + rot % 0x2_0000 * 0x8000
  }

  lemma WrapBack(x: Uint32, delta: Uint32)
    ensures ((x + delta) % 0x1_0000_0000 - delta) % 0x1_0000_0000 == x
  {
    var sum: int := x + delta;
    assert sum % 0x1_0000_0000 == if sum < 0x1_0000_0000 then sum else sum - 0x1_0000_0000;
  }

  lemma Halves(high: nat, low: nat)
    requires high < 0x2_0000
    ensures (high + low * 0x2_0000) / 0x2_0000 == low && (high + low * 0x2_0000) % 0x2_0000 == high
  {
  }

  lemma UnmaskMask(crc: Uint32)
    ensures Unmask(Mask(crc)) == crc
  {
    var high, low := crc / 0x8000, crc % 0x8000;
    Halves(high, low);
    WrapBack(high + low * 0x2_0000, MASK_DELTA);
  }

  // ---------------------------------------------------------------- the checksum field

  // How the four checksum bytes of a header are made, and how they are checked against the bytes they cover
  datatype ChecksumFunctions = ChecksumFunctions(stored: Bytes -> Bytes, matches: (Bytes, Bytes) -> bool)

  ghost predicate ChecksumOk(c: ChecksumFunctions) {
    forall b: Bytes :: |c.stored(b)| == 4 && c.matches(c.stored(b), b)
  }

  type Checksum = c: ChecksumFunctions | ChecksumOk(c)
    witness ChecksumFunctions(b => [0, 0, 0, 0], (s, b) => true)

  /** Whatever the CRC, storing it masked and comparing it unmasked is such a checksum. */
  function MaskedCrc(crc: Bytes -> Uint32): Checksum {
    var c := ChecksumFunctions(b => EncodeFixed32(Mask(crc(b))), (s: Bytes, b) => |s| == 4 && crc(b) == Unmask(DecodeFixed32(s)));
    assert ChecksumOk(c) by {
      forall b: Bytes
        ensures |c.stored(b)| == 4 && c.matches(c.stored(b), b)
      {
        Fixed32RoundTrip(Mask(crc(b)));
        UnmaskMask(crc(b));
      }
    }
    c
  }
}
