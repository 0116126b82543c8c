/** Machine integers as bounded integers, and their byte encodings. */
module Bytes {
  type byte = x: int | 0 <= x < 0x100
  type uint16 = x: int | 0 <= x < 0x1_0000
  type uint32 = x: int | 0 <= x < 0x1_0000_0000
  type uint64 = x: int | 0 <= x < 0x1_0000_0000_0000_0000
  type int64 = x: int | -0x8000_0000_0000_0000 <= x < 0x8000_0000_0000_0000

  type bytes = seq<byte>

  function Pow2(n: nat): (p: nat)
    ensures p > 0
  {
    if n == 0 then 1 else 2 * Pow2(n - 1)
  }

  // ---------------------------------------------------------------- little endian

  function LE16(x: uint16): (s: bytes)
    ensures |s| == 2
  {
    [x % 0x100, x / 0x100]
  }

  function FromLE16(s: bytes): uint16
    requires |s| == 2
  {
    s[0] as int + 0x100 * s[1] as int
  }

  function LE32(x: uint32): (s: bytes)
    ensures |s| == 4
  {
    LE16(x % 0x1_0000) + LE16(x / 0x1_0000)
  }

  function FromLE32(s: bytes): uint32
    requires |s| == 4
  {
    FromLE16(s[..2]) + 0x1_0000 * FromLE16(s[2..])
  }

  function LE64(x: uint64): (s: bytes)
    ensures |s| == 8
  {
    LE32(x % 0x1_0000_0000) + LE32(x / 0x1_0000_0000)
  }

  function FromLE64(s: bytes): uint64
    requires |s| == 8
  {
    FromLE32(s[..4]) + 0x1_0000_0000 * FromLE32(s[4..])
  }

  /** Two's complement of a signed 64-bit integer. */
  function LEInt64(x: int64): (s: bytes)
    ensures |s| == 8
  {
    LE64(if x < 0 then x + 0x1_0000_0000_0000_0000 else x)
  }

  function FromLEInt64(s: bytes): int64
    requires |s| == 8
  {
    var u := FromLE64(s);
    if u < 0x8000_0000_0000_0000 then u else u - 0x1_0000_0000_0000_0000
  }

  lemma RoundTripLE16(x: uint16)
    ensures FromLE16(LE16(x)) == x
  {
  }

  /** A concatenation falls apart into its parts. */
  lemma Halves(a: bytes, b: bytes)
    ensures (a + b)[..|a|] == a && (a + b)[|a|..] == b
  {
  }

  lemma RoundTripLE32(x: uint32)
    ensures FromLE32(LE32(x)) == x
  {
    hide LE16, FromLE16;
    Halves(LE16(x % 0x1_0000), LE16(x / 0x1_0000));
    RoundTripLE16(x % 0x1_0000);
    RoundTripLE16(x / 0x1_0000);
  }

  lemma RoundTripLE64(x: uint64)
    ensures FromLE64(LE64(x)) == x
  {
    hide LE32, FromLE32;
    Halves(LE32(x % 0x1_0000_0000), LE32(x / 0x1_0000_0000));
    RoundTripLE32(x % 0x1_0000_0000);
    RoundTripLE32(x / 0x1_0000_0000);
  }

  lemma RoundTripLEInt64(x: int64)
    ensures FromLEInt64(LEInt64(x)) == x
  {
    hide LE64, FromLE64;
    RoundTripLE64(if x < 0 then x + 0x1_0000_0000_0000_0000 else x);
  }

  /** The other way round: any bytes are the encoding of what they decode to. */
  lemma BytesLE16(s: bytes)
    requires |s| == 2
    ensures LE16(FromLE16(s)) == s
  {
  }

  lemma BytesLE32(s: bytes)
    requires |s| == 4
    ensures LE32(FromLE32(s)) == s
  {
    hide LE16, FromLE16;
    BytesLE16(s[..2]);
    BytesLE16(s[2..]);
  }

  lemma BytesLE64(s: bytes)
    requires |s| == 8
    ensures LE64(FromLE64(s)) == s
  {
    hide LE32, FromLE32;
    BytesLE32(s[..4]);
    BytesLE32(s[4..]);
  }

  lemma BytesLEInt64(s: bytes)
    requires |s| == 8
    ensures LEInt64(FromLEInt64(s)) == s
  {
    hide LE64, FromLE64;
    BytesLE64(s);
  }

  // ------------------------------------------------------------------- big endian

  function BE16(x: uint16): (s: bytes)
    ensures |s| == 2
  {
    [x / 0x100, x % 0x100]
  }

  function FromBE16(s: bytes): uint16
    requires |s| == 2
  {
    0x100 * s[0] as int + s[1] as int
  }

  function BE32(x: uint32): (s: bytes)
    ensures |s| == 4
  {
    BE16(x / 0x1_0000) + BE16(x % 0x1_0000)
  }

  function FromBE32(s: bytes): uint32
    requires |s| == 4
  {
    0x1_0000 * FromBE16(s[..2]) + FromBE16(s[2..])
  }

  lemma RoundTripBE16(x: uint16)
    ensures FromBE16(BE16(x)) == x
  {
  }

  lemma BytesBE16(s: bytes)
    requires |s| == 2
    ensures BE16(FromBE16(s)) == s
  {
  }

  lemma BytesBE32(s: bytes)
    requires |s| == 4
    ensures BE32(FromBE32(s)) == s
  {
    hide BE16, FromBE16;
    BytesBE16(s[..2]);
    BytesBE16(s[2..]);
  }

  lemma RoundTripBE32(x: uint32)
    ensures FromBE32(BE32(x)) == x
  {
    hide BE16, FromBE16;
    Halves(BE16(x / 0x1_0000), BE16(x % 0x1_0000));
    RoundTripBE16(x / 0x1_0000);
    RoundTripBE16(x % 0x1_0000);
  }
}
