/** Parsing RTP packets, section 5.1 of RFC 3550: the full parser and the one for the receive path
    (nxnet/rtp/rtp_packet.cpp). */
module RtpPacket {
  import opened Bytes

  datatype RtpErrc = PacketTooShort | InvalidVersion | InvalidHeader

  datatype HeaderView = HeaderView(
    version: byte, padding: bool, extension: bool, marker: bool, payloadType: byte,
    sequenceNumber: uint16, timestamp: uint32, ssrc: uint32)

  datatype ViewResult = ViewOk(header: HeaderView, payload: bytes) | ViewError(error: RtpErrc)

  datatype Extension = NoExtension | Extension(profile: uint16, data: bytes)

  datatype Packet = Packet(header: HeaderView, csrcs: seq<uint32>, extension: Extension, payload: bytes, totalSize: nat)

  datatype ParseResult = ParseOk(packet: Packet) | ParseError(error: RtpErrc)

  const MIN_HEADER_SIZE := 12

  // ---------------------------------------------------------------- specification

  function FixedHeader(data: bytes): HeaderView
    requires |data| >= MIN_HEADER_SIZE
  {
    HeaderView(data[0] / 64, data[0] / 32 % 2 == 1, data[0] / 16 % 2 == 1, data[1] / 128 == 1, data[1] % 128,
               FromBE16(data[2..4]), FromBE32(data[4..8]), FromBE32(data[8..12]))
  }

  function CsrcCount(data: bytes): nat
    requires |data| >= MIN_HEADER_SIZE
  {
    data[0] % 16
  }

  /** Where the extension would begin. */
  function CsrcEnd(data: bytes): nat
    requires |data| >= MIN_HEADER_SIZE
  {
    MIN_HEADER_SIZE + 4 * CsrcCount(data)
  }

  /** Where the payload begins, if the announced extension fits. */
  function HeaderEnd(data: bytes): nat
    requires |data| >= MIN_HEADER_SIZE && CsrcEnd(data) + 4 <= |data|
  {
    CsrcEnd(data) + 4 + 4 * FromBE16(data[CsrcEnd(data) + 2..CsrcEnd(data) + 4])
  }

  /** The padding step, common to both parsers: where the payload ends. */
  function PayloadEnd(data: bytes, offset: nat, padding: bool): (r: int)
    requires offset <= |data| && data != []
    ensures r == -1 || offset <= r <= |data|
  {
    if !padding then |data| else
      var n := data[|data| - 1];
      if n == 0 || n > |data| - offset then -1 else |data| - n
  }

  /** parse_header_and_payload. */
  function View(data: bytes): ViewResult {
    if |data| < MIN_HEADER_SIZE then ViewError(PacketTooShort) else
      var h := FixedHeader(data);
      if h.version != 2 then ViewError(InvalidVersion)
      else if |data| < CsrcEnd(data) then ViewError(PacketTooShort)
      else if h.extension && |data| < CsrcEnd(data) + 4 then ViewError(PacketTooShort)
      else
        var offset := if h.extension then HeaderEnd(data) else CsrcEnd(data);
        if |data| < offset then ViewError(PacketTooShort) else
          var end := PayloadEnd(data, offset, h.padding);
          if end == -1 then ViewError(InvalidHeader) else ViewOk(h, data[offset..end])
  }

  function Csrcs(data: bytes, n: nat): (s: seq<uint32>)
    requires MIN_HEADER_SIZE + 4 * n <= |data|
    ensures |s| == n
  {
    seq(n, i requires 0 <= i < n => FromBE32(data[MIN_HEADER_SIZE + 4 * i..MIN_HEADER_SIZE + 4 * i + 4]))
  }

  // --------------------------------------------------------------- implementation

  method ParseHeaderAndPayload(data: bytes) returns (result: ViewResult)
    ensures result == View(data)
  {
    hide FixedHeader, FromBE16;
    if |data| < MIN_HEADER_SIZE {
      return ViewError(PacketTooShort);
    }
    var header := FixedHeader(data);
    if header.version != 2 {
      return ViewError(InvalidVersion);
    }
    var offset := MIN_HEADER_SIZE;
    var csrcSize := data[0] % 16 * 4;
    if |data| < offset + csrcSize {
      return ViewError(PacketTooShort);
    }
    offset := offset + csrcSize;
    if header.extension {
      if |data| < offset + 4 {
        return ViewError(PacketTooShort);
      }
      var extBytes := FromBE16(data[offset + 2..offset + 4]) * 4;
      offset := offset + 4;
      if |data| < offset + extBytes {
        return ViewError(PacketTooShort);
      }
      offset := offset + extBytes;
    }
    var payloadEnd := |data|;
    if header.padding {
      var paddingLength := data[|data| - 1];
      if paddingLength == 0 || paddingLength > payloadEnd - offset {
        return ViewError(InvalidHeader);
      }
      payloadEnd := payloadEnd - paddingLength;
    }
    if offset > payloadEnd {
      return ViewError(InvalidHeader);
    }
    return ViewOk(header, data[offset..payloadEnd]);
  }

  /** The loop of the full parser over the contributing sources. */
  method ParseCsrcs(data: bytes, csrcCount: nat) returns (csrcs: seq<uint32>)
    requires MIN_HEADER_SIZE + 4 * csrcCount <= |data|
    ensures csrcs == Csrcs(data, csrcCount)
  {
    hide FromBE32;
    csrcs := [];
    var offset := MIN_HEADER_SIZE;
    for i := 0 to csrcCount
      invariant offset == MIN_HEADER_SIZE + 4 * i
      invariant csrcs == Csrcs(data, i)
    {
      csrcs := csrcs + [FromBE32(data[offset..offset + 4])];
      offset := offset + 4;
    }
  }

  /** The full parser agrees with the fast one on every byte string: the same packets are refused, for
      the same reasons, and an accepted packet has the same header and payload. Beyond that it lists
      the contributing sources and the extension words that the fast one skips. */
  method Parse(data: bytes) returns (result: ParseResult)
    ensures result.ParseError? <==> View(data).ViewError?
    ensures result.ParseError? ==> result.error == View(data).error
    ensures result.ParseOk? ==>
              var p := result.packet;
              && p.header == View(data).header && p.payload == View(data).payload && p.totalSize == |data|
              && CsrcEnd(data) <= |data| && p.csrcs == Csrcs(data, CsrcCount(data))
              && if !p.header.extension then p.extension == NoExtension else
                   && CsrcEnd(data) + 4 <= HeaderEnd(data) <= |data|
                   && p.extension == Extension(FromBE16(data[CsrcEnd(data)..CsrcEnd(data) + 2]),
                                               data[CsrcEnd(data) + 4..HeaderEnd(data)])
  {
    hide FixedHeader, FromBE16, Csrcs;
    if |data| < MIN_HEADER_SIZE {
      return ParseError(PacketTooShort);
    }
    var header := FixedHeader(data);
    if header.version != 2 {
      return ParseError(InvalidVersion);
    }
    var offset := MIN_HEADER_SIZE;
    var csrcCount: nat := data[0] % 16;
    if |data| < offset + csrcCount * 4 {
      return ParseError(PacketTooShort);
    }
    var csrcs := ParseCsrcs(data, csrcCount);
    offset := offset + csrcCount * 4;
    var extension := NoExtension;
    if header.extension {
      if |data| < offset + 4 {
        return ParseError(PacketTooShort);
      }
      var profile := FromBE16(data[offset..offset + 2]);
      var extBytes := FromBE16(data[offset + 2..offset + 4]) * 4;
      offset := offset + 4;
      if |data| < offset + extBytes {
        return ParseError(PacketTooShort);
      }
      extension := Extension(profile, data[offset..offset + extBytes]);
      offset := offset + extBytes;
    }
    var payloadEnd := |data|;
    if header.padding {
      var paddingLength := data[|data| - 1];
      if paddingLength == 0 || paddingLength > payloadEnd - offset {
        return ParseError(InvalidHeader);
      }
      payloadEnd := payloadEnd - paddingLength;
    }
    var payload := [];
    if offset <= payloadEnd {
      payload := data[offset..payloadEnd];
    }
    return ParseOk(Packet(header, csrcs, extension, payload, |data|));
  }
}
