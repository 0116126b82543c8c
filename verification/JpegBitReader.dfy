/** Reading the bits of JPEG scan data, in which every FF byte is followed by a stuffed 00
    (JpegBitReader in nxmedia/codec/jpeg_parser.cpp; section F.1.2.3 of ITU-T Rec. T.81). */
module JpegBitReader {
  import opened Bytes

  type Bit = b: int | 0 <= b < 2

  type Bits = seq<Bit>

  const PREFIX: byte := 0xFF

  // ------------------------------------------------------------------- bits and numbers

  /** The low n bits of a number, the most significant first. */
  function BitsOf(v: nat, n: nat): (s: Bits)
    ensures |s| == n
  {
    if n == 0 then [] else BitsOf(v / 2, n - 1) + [v % 2]
  }

  function ValueOf(s: Bits): nat {
    if s == [] then 0 else 2 * ValueOf(s[..|s| - 1]) + s[|s| - 1]
  }

  function ShiftRight(v: nat, n: nat): nat {
    if n == 0 then v else ShiftRight(v / 2, n - 1)
  }

  lemma {:induction false} ValueOfBits(v: nat, n: nat)
    requires v < Pow2(n)
    ensures ValueOf(BitsOf(v, n)) == v
  {
    if n > 0 {
      ValueOfBits(v / 2, n - 1);
      assert BitsOf(v, n)[..n - 1] == BitsOf(v / 2, n - 1);
    }
  }

  lemma {:induction false} BitsOfValue(s: Bits)
    ensures BitsOf(ValueOf(s), |s|) == s && ValueOf(s) < Pow2(|s|)
  {
    if s != [] {
      BitsOfValue(s[..|s| - 1]);
      assert s == s[..|s| - 1] + [s[|s| - 1]];
    }
  }

  /** The front bit is what a shift brings down. */
  lemma {:induction false} FrontBit(v: nat, n: nat)
    requires n > 0
    ensures BitsOf(v, n) == [ShiftRight(v, n - 1) % 2] + BitsOf(v, n - 1)
  {
    if n > 1 {
      FrontBit(v / 2, n - 1);
    }
  }

  // --------------------------------------------------------------------- byte stuffing

  /** The bytes that the scan data from a position on stand for, up to its end or the next marker. */
  function Payload(data: bytes, pos: nat): bytes
    requires pos <= |data|
    decreases |data| - pos
  {
    if pos == |data| then []
    else if data[pos] != PREFIX then [data[pos]] + Payload(data, pos + 1)
    else if pos + 1 < |data| && data[pos + 1] == 0 then [data[pos]] + Payload(data, pos + 2)
    else []
  }

  function AllBits(s: bytes): Bits {
    if s == [] then [] else BitsOf(s[0], 8) + AllBits(s[1..])
  }

  /** The reader's state as the bits it has still to deliver. */
  function UnreadBits(data: bytes, bytePos: nat, currentByte: byte, bitsLeft: nat): Bits
    requires bytePos <= |data|
  {
    BitsOf(currentByte, bitsLeft) + AllBits(Payload(data, bytePos))
  }

  class JpegBitReader {
    const data: bytes
    var bytePos: nat
    var bitsLeft: nat
    var currentByte: byte
    var error: bool

    ghost predicate Valid()
      reads this
    {
      bytePos <= |data| && bitsLeft <= 8
    }

    ghost function Unread(): Bits
      requires Valid()
      reads this
    {
      UnreadBits(data, bytePos, currentByte, bitsLeft)
    }

    constructor (data: bytes)
      ensures Valid() && !error && Unread() == AllBits(Payload(data, 0))
    {
      this.data := data;
      bytePos, bitsLeft, currentByte, error := 0, 0, 0, false;
    }

    /** Fetches the next byte, skipping the one stuffed behind it; fails at the end and in front of a marker. */
    method NextByte() returns (ok: bool)
      requires Valid() && bitsLeft == 0
      modifies this
      ensures Valid()
      ensures ok ==> bitsLeft == 8 && Unread() == old(Unread()) && error == old(error)
      ensures !ok ==> old(Unread()) == [] && error
    {
      hide BitsOf;
      assert BitsOf(currentByte, 0) == [];
      if bytePos >= |data| {
        error := true;
        return false;
      }
      ghost var payload := Payload(data, bytePos);
      currentByte := data[bytePos];
      bytePos := bytePos + 1;
      if currentByte == PREFIX {
        if bytePos >= |data| || data[bytePos] != 0 {
          error := true;
          return false;
        }
        bytePos := bytePos + 1;
      }
      bitsLeft := 8;
      assert payload == [currentByte] + Payload(data, bytePos);
      return true;
    }

    /** The next bit, or -1 at the end of the data and in front of a marker. */
    method ReadBit() returns (bit: int)
      requires Valid()
      modifies this
      ensures Valid()
      ensures if old(Unread()) == [] then bit == -1 && error
              else bit == old(Unread())[0] && Unread() == old(Unread())[1..] && error == old(error)
    {
      hide ShiftRight, Payload, AllBits, BitsOf;
      if bitsLeft == 0 {
        var ok := NextByte();
        if !ok { return -1; }
      }
      bitsLeft := bitsLeft - 1;
      FrontBit(currentByte, bitsLeft + 1);
      bit := ShiftRight(currentByte, bitsLeft) % 2;
      assert old(Unread()) == [bit] + Unread();
    }

    /** The value of the next n bits, or -1 if there are not so many.  n stays below 31, so that the value
        fits into an int. */
    method ReadBits(n: nat) returns (value: int)
      requires Valid() && n < 31
      modifies this
      ensures Valid()
      ensures if |old(Unread())| < n then value == -1 && error
              else value == ValueOf(old(Unread())[..n]) && Unread() == old(Unread())[n..] && error == old(error)
    {
      value := 0;
      for i := 0 to n
        invariant Valid() && error == old(error)
        invariant i <= |old(Unread())| && Unread() == old(Unread())[i..]
        invariant value == ValueOf(old(Unread())[..i])
      {
        ghost var before := old(Unread());
        var bit := ReadBit();
        if bit < 0 { return -1; }
        assert before[..i + 1][..i] == before[..i];
        value := value * 2 + bit;
      }
    }
  }

  // ------------------------------------------------------------------- the other way round

  /** Writing scan data: a 00 behind every FF. */
  function StuffedByte(b: byte): bytes {
    if b == PREFIX then [PREFIX, 0] else [b]
  }

  function Stuffed(s: bytes): bytes {
    if s == [] then [] else StuffedByte(s[0]) + Stuffed(s[1..])
  }

  /** Bits as bytes, the last one filled up with ones. */
  function Packed(s: Bits): bytes {
    if s == [] then []
    else if |s| <= 8 then [PackedByte(s + Ones(8 - |s|))]
    else [PackedByte(s[..8])] + Packed(s[8..])
  }

  function Ones(n: nat): (s: Bits)
    ensures |s| == n
  {
    seq(n, i => 1)
  }

  function PackedByte(s: Bits): byte
    requires |s| == 8
  {
    BitsOfValue(s);
    assert Pow2(8) == 256;
    ValueOf(s)
  }

  function Padding(s: Bits): Bits {
    Ones(PaddingLength(|s|))
  }

  /** How many bits are missing to a whole byte. */
  function PaddingLength(n: nat): nat {
    (8 - n % 8) % 8
  }

  lemma PaddingLengthOfTail(n: nat)
    ensures n > 8 ==> PaddingLength(n) == PaddingLength(n - 8)
    ensures 0 < n <= 8 ==> PaddingLength(n) == 8 - n
    ensures PaddingLength(0) == 0
  {
    if n > 8 {
      assert n % 8 == (n - 8) % 8;
    } else if n == 8 {
      assert n % 8 == 0;
    } else {
      assert n % 8 == n;
    }
  }

  lemma ByteIsPacked(w: Bits)
    requires |w| == 8
    ensures AllBits([PackedByte(w)]) == w
  {
    BitsOfValue(w);
    assert AllBits([]) == [];
  }

  lemma PaddingOfTail(s: Bits)
    ensures |s| > 8 ==> Padding(s) == Padding(s[8..])
    ensures 0 < |s| <= 8 ==> Padding(s) == Ones(8 - |s|)
    ensures s == [] ==> Padding(s) == []
  {
    hide PaddingLength;
    PaddingLengthOfTail(|s|);
  }

  lemma {:induction false} PackedBits(s: Bits)
    ensures AllBits(Packed(s)) == s + Padding(s)
  {
    hide AllBits, PackedByte, Padding, BitsOf, ValueOf;
    PaddingOfTail(s);
    if s == [] {
      NoBits();
    } else if |s| <= 8 {
      ByteIsPacked(s + Ones(8 - |s|));
    } else {
      var first, later := s[..8], s[8..];
      ByteIsPacked(first);
      PackedBits(later);
      AllBitsAppend([PackedByte(first)], Packed(later));
      assert s == first + later;
      assert s + Padding(s) == first + (later + Padding(later));
    }
  }

  lemma NoBits()
    ensures AllBits([]) == []
  {
  }

  lemma StuffedFront(data: bytes, pos: nat, b: byte, more: bytes)
    requires pos <= |data| && data[pos..] == StuffedByte(b) + more
    ensures pos + |StuffedByte(b)| <= |data| && data[pos + |StuffedByte(b)|..] == more
    ensures Payload(data, pos) == [b] + Payload(data, pos + |StuffedByte(b)|)
  {
    var front := StuffedByte(b);
    assert data[pos..][..|front|] == front;
    assert data[pos] == data[pos..][0] == b;
    assert b == PREFIX ==> data[pos + 1] == data[pos..][1] == 0;
    assert data[pos + |front|..] == data[pos..][|front|..];
  }

  lemma {:induction false} StuffedPayload(data: bytes, pos: nat, s: bytes, more: bytes)
    requires pos <= |data| && data[pos..] == Stuffed(s) + more
    ensures Payload(data, pos) == s + Payload(data, pos + |Stuffed(s)|)
    decreases |s|
  {
    hide Payload, StuffedByte;
    if s != [] {
      var front := StuffedByte(s[0]);
      assert Stuffed(s) + more == front + (Stuffed(s[1..]) + more);
      StuffedFront(data, pos, s[0], Stuffed(s[1..]) + more);
      StuffedPayload(data, pos + |front|, s[1..], more);
      assert s == [s[0]] + s[1..];
    }
  }

  lemma PayloadStep(data: bytes, pos: nat)
    requires pos <= |data|
    ensures Payload(data, pos) ==
            if pos == |data| then []
            else if data[pos] != PREFIX then [data[pos]] + Payload(data, pos + 1)
            else if pos + 1 < |data| && data[pos + 1] == 0 then [data[pos]] + Payload(data, pos + 2)
            else []
  {
  }

  lemma {:induction false} PayloadOfTail(data: bytes, pos: nat, k: nat)
    requires pos + k <= |data|
    ensures Payload(data, pos + k) == Payload(data[pos..], k)
    decreases |data| - pos - k
  {
    hide Payload;
    PayloadStep(data, pos + k);
    PayloadStep(data[pos..], k);
    if pos + k < |data| {
      if data[pos + k] != PREFIX {
        PayloadOfTail(data, pos, k + 1);
      } else if pos + k + 1 < |data| && data[pos + k + 1] == 0 {
        PayloadOfTail(data, pos, k + 2);
      }
    }
  }

  lemma {:induction false} AllBitsAppend(a: bytes, b: bytes)
    ensures AllBits(a + b) == AllBits(a) + AllBits(b)
  {
    if a == [] {
      assert a + b == b;
    } else {
      assert (a + b)[0] == a[0] && (a + b)[1..] == a[1..] + b;
      AllBitsAppend(a[1..], b);
    }
  }

  /** Bits that were packed and stuffed are read back, with the padding behind them, whatever data follow. */
  lemma WrittenBitsAreRead(s: Bits, more: bytes)
    ensures AllBits(Payload(Stuffed(Packed(s)) + more, 0)) == s + (Padding(s) + AllBits(Payload(more, 0)))
  {
    hide AllBits, Payload, Stuffed, Packed, Padding;
    var packed := Packed(s);
    var data := Stuffed(packed) + more;
    assert data[0..] == data;
    StuffedPayload(data, 0, packed, more);
    PayloadOfTail(data, |Stuffed(packed)|, 0);
    assert data[|Stuffed(packed)|..] == more;
    AllBitsAppend(packed, Payload(more, 0));
    PackedBits(s);
    assert (s + Padding(s)) + AllBits(Payload(more, 0)) == s + (Padding(s) + AllBits(Payload(more, 0)));
  }

  /** A marker, or a lone FF at the end, ends the bits: nothing behind it is read. */
  lemma MarkerEndsBits(s: bytes, behind: bytes)
    requires behind != [] && behind[0] == 0xFF && (|behind| > 1 ==> behind[1] != 0)
    ensures Payload(Stuffed(s) + behind, 0) == s
  {
    hide Payload, Stuffed;
    var data := Stuffed(s) + behind;
    assert data[0..] == data;
    StuffedPayload(data, 0, s, behind);
    PayloadStep(data, |Stuffed(s)|);
    assert data[|Stuffed(s)|] == behind[0];
    assert |behind| > 1 ==> data[|Stuffed(s)| + 1] == behind[1];
    assert s + [] == s;
  }
}
