/** The sample buffer (src/data.rs). */
module Data {
  import opened Bytes

  /** Seed of the CRC-8 that is not implemented yet; nothing uses it. */
  const INITAL_CRC_VAL: byte := 0xFF

  /** `bytes: [u8; 6]`. */
  const BYTES_LEN: nat := 6

  /** The contents of a freshly made buffer. */
  const BLANK: seq<byte> := [0, 0, 0, 0, 0, 0]

  /** `s` with every byte set to zero. */
  function Zeroed(s: seq<byte>): (r: seq<byte>)
    ensures |r| == |s|
    ensures forall i :: 0 <= i < |r| ==> r[i] == 0
  {
    seq(|s|, _ => 0)
  }

  /** Zeroing twice is zeroing once. */
  lemma ZeroedIdempotent(s: seq<byte>)
    ensures Zeroed(Zeroed(s)) == Zeroed(s)
  {
  }

  class SensorData {
    const bytes: array<byte>
    var crc: bv16

    ghost predicate Valid()
    {
      bytes.Length == BYTES_LEN
    }

    /** `SensorData::new()` as read_sensor uses it: an all-zero buffer. */
    constructor ()
      ensures Valid() && fresh(bytes)
      ensures bytes[..] == BLANK && crc == 0
    {
      bytes := new byte[BYTES_LEN](_ => 0);
      crc := 0;
    }

    /** A stub: it checks nothing and changes nothing. */
    method IsCrcGood()
      ensures unchanged(this) && unchanged(bytes)
    {
    }

    /** A stub: the checksum is 0 whatever the buffer holds. */
    method Crc8() returns (c: byte)
      ensures c == 0x00
    {
      return 0x00;
    }

    /** Zeroes the buffer in place; the length and `crc` stay as they were. */
    method ClearBytes()
      modifies bytes
      ensures bytes[..] == Zeroed(old(bytes[..]))
      ensures unchanged(this)
    {
      for i := 0 to bytes.Length
        invariant forall j :: 0 <= j < i ==> bytes[j] == 0
      {
        bytes[i] := 0x00;
      }
    }
  }
}
