/** The parsers against the packet format of section 5.1 of RFC 3550, written from the sender's side. */
module RtpPacketFormat {
  import opened Bytes
  import opened Sequences
  import opened RtpPacket

  /** The contributing sources, four bytes each. */
  function CsrcBytes(csrcs: seq<uint32>): (s: bytes)
    ensures |s| == 4 * |csrcs|
  {
    if csrcs == [] then [] else CsrcBytes(csrcs[..|csrcs| - 1]) + BE32(csrcs[|csrcs| - 1])
  }

  /** Profile, length in words, and the words. */
  function ExtensionBytes(e: Extension): bytes
    requires e.Extension? ==> |e.data| / 4 < 0x1_0000
  {
    match e
    case NoExtension => []
    case Extension(profile, words) => BE16(profile) + (BE16(|words| / 4) + words)
  }

  function FirstByte(h: HeaderView, csrcCount: nat): byte
    requires h.version == 2 && csrcCount < 16
  {
    128 + (if h.padding then 32 else 0) + (if h.extension then 16 else 0) + csrcCount
  }

  function SecondByte(h: HeaderView): byte
    requires h.payloadType < 128
  {
    (if h.marker then 128 else 0) + h.payloadType
  }

  /** The parts of a packet: header fields, sources, extension, payload and padding. */
  datatype Parts = Parts(header: HeaderView, csrcs: seq<uint32>, extension: Extension, payload: bytes, padding: bytes)

  /** Version 2, at most 15 sources, whole words in the extension, and a padding whose last byte counts it. */
  predicate WellFormed(p: Parts) {
    && p.header.version == 2 && p.header.payloadType < 128 && |p.csrcs| < 16
    && (p.header.extension <==> p.extension.Extension?)
    && (p.extension.Extension? ==> |p.extension.data| % 4 == 0 && |p.extension.data| / 4 < 0x1_0000)
    && (p.header.padding <==> p.padding != [])
    && (p.padding != [] ==> p.padding[|p.padding| - 1] == |p.padding|)
  }

  function FixedBytes(h: HeaderView, csrcCount: nat): (s: bytes)
    requires h.version == 2 && csrcCount < 16 && h.payloadType < 128
    ensures |s| == 12
  {
    [FirstByte(h, csrcCount), SecondByte(h)] + (BE16(h.sequenceNumber) + (BE32(h.timestamp) + BE32(h.ssrc)))
  }

  function Written(p: Parts): bytes
    requires WellFormed(p)
  {
    FixedBytes(p.header, |p.csrcs|) + (CsrcBytes(p.csrcs) + (ExtensionBytes(p.extension) + (p.payload + p.padding)))
  }

  // ------------------------------------------------------------------ what is written

  lemma FirstByteFields(h: HeaderView, n: nat)
    requires h.version == 2 && n < 16
    ensures var b := FirstByte(h, n);
            b / 64 == 2 && (b / 32 % 2 == 1 <==> h.padding) && (b / 16 % 2 == 1 <==> h.extension) && b % 16 == n
  {
  }

  lemma FixedFields(p: Parts)
    requires WellFormed(p)
    ensures |Written(p)| >= 12 && FixedHeader(Written(p)) == p.header && CsrcCount(Written(p)) == |p.csrcs|
    ensures Written(p)[12..] == CsrcBytes(p.csrcs) + (ExtensionBytes(p.extension) + (p.payload + p.padding))
  {
    hide BE16, BE32, FromBE16, FromBE32, CsrcBytes, ExtensionBytes, FirstByte;
    var h, data := p.header, Written(p);
    var rest := CsrcBytes(p.csrcs) + (ExtensionBytes(p.extension) + (p.payload + p.padding));
    var two: bytes := [FirstByte(h, |p.csrcs|), SecondByte(h)];
    var four := BE32(h.timestamp) + BE32(h.ssrc);
    assert data == two + (BE16(h.sequenceNumber) + (BE32(h.timestamp) + (BE32(h.ssrc) + rest))) by {
      Assoc(two, BE16(h.sequenceNumber) + four, rest);
      Assoc(BE16(h.sequenceNumber), four, rest);
      Assoc(BE32(h.timestamp), BE32(h.ssrc), rest);
    }
    assert data[0..] == data;
    SplitTail(data, 0, two, BE16(h.sequenceNumber) + (BE32(h.timestamp) + (BE32(h.ssrc) + rest)));
    SplitTail(data, 2, BE16(h.sequenceNumber), BE32(h.timestamp) + (BE32(h.ssrc) + rest));
    SplitTail(data, 4, BE32(h.timestamp), BE32(h.ssrc) + rest);
    SplitTail(data, 8, BE32(h.ssrc), rest);
    assert data[0] == data[0..2][0] && data[1] == data[0..2][1];
    RoundTripBE16(h.sequenceNumber);
    RoundTripBE32(h.timestamp);
    RoundTripBE32(h.ssrc);
    FirstByteFields(h, |p.csrcs|);
  }

  lemma {:induction false} CsrcsOfWritten(data: bytes, csrcs: seq<uint32>)
    requires 12 + 4 * |csrcs| <= |data| && data[12..12 + 4 * |csrcs|] == CsrcBytes(csrcs)
    ensures Csrcs(data, |csrcs|) == csrcs
  {
    hide BE32, FromBE32;
    if csrcs != [] {
      var n := |csrcs| - 1;
      var init, last, s := csrcs[..n], csrcs[n], data[12..12 + 4 * |csrcs|];
      assert s[0..] == s;
      SplitTail(s, 0, CsrcBytes(init), BE32(last));
      SliceOfSlice(data, 12, 12 + 4 * |csrcs|, 0, 4 * n);
      SliceOfSlice(data, 12, 12 + 4 * |csrcs|, 4 * n, 4 * n + 4);
      assert s[4 * n..] == s[4 * n..4 * n + 4];
      CsrcsOfWritten(data, init);
      RoundTripBE32(last);
      assert Csrcs(data, |csrcs|) == Csrcs(data, n) + [last];
    }
  }

  lemma PaddingEnds(data: bytes, offset: nat, payload: bytes, padding: bytes)
    requires offset <= |data| && data != [] && data[offset..] == payload + padding
    requires padding != [] ==> padding[|padding| - 1] == |padding|
    ensures PayloadEnd(data, offset, padding != []) == offset + |payload|
    ensures data[offset..offset + |payload|] == payload
  {
    SplitTail(data, offset, payload, padding);
    if padding != [] {
      assert data[offset + |payload|..][|padding| - 1] == data[|data| - 1];
    }
  }

  lemma ExtensionEnds(data: bytes, p: Parts)
    requires WellFormed(p) && |data| >= 12 && CsrcEnd(data) <= |data|
    requires data[CsrcEnd(data)..] == ExtensionBytes(p.extension) + (p.payload + p.padding)
    ensures p.extension.Extension? ==>
              && CsrcEnd(data) + 4 <= HeaderEnd(data) <= |data|
              && FromBE16(data[CsrcEnd(data)..CsrcEnd(data) + 2]) == p.extension.profile
              && data[CsrcEnd(data) + 4..HeaderEnd(data)] == p.extension.data
              && data[HeaderEnd(data)..] == p.payload + p.padding
    ensures p.extension == NoExtension ==> data[CsrcEnd(data)..] == p.payload + p.padding
  {
    hide BE16, FromBE16, CsrcCount, CsrcEnd;
    var start, behind := CsrcEnd(data), p.payload + p.padding;
    match p.extension
    case NoExtension => Empty(behind);
    case Extension(profile, words) =>
      Assoc(BE16(profile), BE16(|words| / 4) + words, behind);
      Assoc(BE16(|words| / 4), words, behind);
      SplitTail(data, start, BE16(profile), BE16(|words| / 4) + (words + behind));
      SplitTail(data, start + 2, BE16(|words| / 4), words + behind);
      SplitTail(data, start + 4, words, behind);
      RoundTripBE16(profile);
      RoundTripBE16(|words| / 4);
      assert |words| == |words| / 4 * 4;
  }

  /** Every well-formed packet is accepted, with padding or without: header and payload are those that were written,
      and so are sources and extension where the full parser looks for them. */
  lemma WrittenIsParsed(p: Parts)
    requires WellFormed(p)
    ensures var data := Written(p);
            && View(data) == ViewOk(p.header, p.payload)
            && CsrcEnd(data) <= |data| && Csrcs(data, CsrcCount(data)) == p.csrcs
            && (p.extension.Extension? ==>
                  && CsrcEnd(data) + 4 <= HeaderEnd(data) <= |data|
                  && FromBE16(data[CsrcEnd(data)..CsrcEnd(data) + 2]) == p.extension.profile
                  && data[CsrcEnd(data) + 4..HeaderEnd(data)] == p.extension.data)
  {
    hide FixedHeader, CsrcCount, HeaderEnd, Csrcs, CsrcBytes, ExtensionBytes, Written, FromBE16, PayloadEnd;
    var data := Written(p);
    FixedFields(p);
    SplitTail(data, 12, CsrcBytes(p.csrcs), ExtensionBytes(p.extension) + (p.payload + p.padding));
    CsrcsOfWritten(data, p.csrcs);
    ExtensionEnds(data, p);
    PaddingEnds(data, if p.extension.Extension? then HeaderEnd(data) else CsrcEnd(data), p.payload, p.padding);
  }

  // ----------------------------------------------------------------- what is accepted

  lemma {:induction false} CsrcsAreBytes(data: bytes, n: nat)
    requires 12 + 4 * n <= |data|
    ensures CsrcBytes(Csrcs(data, n)) == data[12..12 + 4 * n]
  {
    hide BE32, FromBE32;
    if n > 0 {
      var csrcs := Csrcs(data, n);
      CsrcsAreBytes(data, n - 1);
      assert csrcs[..n - 1] == Csrcs(data, n - 1);
      var last := data[12 + 4 * (n - 1)..12 + 4 * (n - 1) + 4];
      BytesBE32(last);
      assert data[12..12 + 4 * n] == data[12..12 + 4 * (n - 1)] + last;
    }
  }

  lemma FirstByteRebuilt(b: byte, h: HeaderView)
    requires b / 64 == h.version == 2 && (b / 32 % 2 == 1 <==> h.padding) && (b / 16 % 2 == 1 <==> h.extension)
    ensures FirstByte(h, b % 16) == b
  {
    assert b == b / 16 * 16 + b % 16 && b / 16 == b / 32 * 2 + b / 16 % 2 && b / 32 == b / 64 * 2 + b / 32 % 2;
  }

  lemma FixedRebuilt(data: bytes)
    requires |data| >= 12 && FixedHeader(data).version == 2
    ensures FixedHeader(data).payloadType < 128
    ensures FixedBytes(FixedHeader(data), CsrcCount(data)) == data[..12]
  {
    hide BE16, BE32, FromBE16, FromBE32, FirstByte;
    var h := FixedHeader(data);
    FirstByteRebuilt(data[0], h);
    assert SecondByte(h) == data[1];
    BytesBE16(data[2..4]);
    BytesBE32(data[4..8]);
    BytesBE32(data[8..12]);
    assert data[4..8] + data[8..12] == data[4..12];
    assert data[2..4] + data[4..12] == data[2..12];
    assert [data[0], data[1]] + data[2..12] == data[..12];
  }

  /** The parts of an accepted packet. */
  function PartsOf(data: bytes): Parts
    requires View(data).ViewOk?
  {
    var h := FixedHeader(data);
    var offset := if h.extension then HeaderEnd(data) else CsrcEnd(data);
    Parts(h, Csrcs(data, CsrcCount(data)),
          if h.extension then Extension(FromBE16(data[CsrcEnd(data)..CsrcEnd(data) + 2]),
                                        data[CsrcEnd(data) + 4..HeaderEnd(data)])
          else NoExtension,
          View(data).payload,
          data[PayloadEnd(data, offset, h.padding)..])
  }

  lemma ExtensionRebuilt(data: bytes)
    requires View(data).ViewOk? && FixedHeader(data).extension
    ensures var e := PartsOf(data).extension;
            && |e.data| % 4 == 0 && |e.data| / 4 < 0x1_0000
            && ExtensionBytes(e) == data[CsrcEnd(data)..HeaderEnd(data)]
  {
    hide BE16, FromBE16, FixedHeader, CsrcCount, PayloadEnd, Csrcs, CsrcEnd;
    var start, end := CsrcEnd(data), HeaderEnd(data);
    var e := PartsOf(data).extension;
    BytesBE16(data[start..start + 2]);
    BytesBE16(data[start + 2..start + 4]);
    assert |e.data| == 4 * FromBE16(data[start + 2..start + 4]);
    assert data[start + 2..start + 4] + data[start + 4..end] == data[start + 2..end];
    assert data[start..start + 2] + data[start + 2..end] == data[start..end];
  }

  lemma CutInFive(data: bytes, a: nat, b: nat, c: nat, d: nat)
    requires a <= b <= c <= d <= |data|
    ensures data[..a] + (data[a..b] + (data[b..c] + (data[c..d] + data[d..]))) == data
  {
    assert data[c..d] + data[d..] == data[c..];
    assert data[b..c] + data[c..] == data[b..];
    assert data[a..b] + data[b..] == data[a..];
  }

  /** Where the parts of an accepted packet lie. */
  lemma PartsLie(data: bytes)
    requires View(data).ViewOk?
    ensures var p, h := PartsOf(data), FixedHeader(data);
            var offset := if h.extension then HeaderEnd(data) else CsrcEnd(data);
            var end := PayloadEnd(data, offset, h.padding);
            && h.version == 2 && 12 <= CsrcEnd(data) <= offset <= end <= |data|
            && p.header == h && p.csrcs == Csrcs(data, CsrcCount(data))
            && p.payload == data[offset..end] && p.padding == data[end..]
            && (h.padding <==> p.padding != [])
            && (p.padding != [] ==> p.padding[|p.padding| - 1] == |p.padding|)
  {
    hide FixedHeader, CsrcCount, Csrcs, FromBE16;
  }

  lemma ExtensionLies(data: bytes)
    requires View(data).ViewOk?
    ensures var e, h := PartsOf(data).extension, FixedHeader(data);
            && (h.extension <==> e.Extension?)
            && (e.Extension? ==> |e.data| % 4 == 0 && |e.data| / 4 < 0x1_0000)
            && ExtensionBytes(e) == data[CsrcEnd(data)..if h.extension then HeaderEnd(data) else CsrcEnd(data)]
  {
    hide FixedHeader, HeaderEnd, CsrcCount, Csrcs, ExtensionBytes, FromBE16, PayloadEnd;
    if FixedHeader(data).extension { ExtensionRebuilt(data); }
    NoExtensionBytes();
  }

  /** Whatever the parsers accept is a well-formed packet. */
  lemma AcceptedIsWritten(data: bytes)
    requires View(data).ViewOk?
    ensures WellFormed(PartsOf(data)) && Written(PartsOf(data)) == data
  {
    hide FixedHeader, HeaderEnd, CsrcCount, Csrcs, CsrcBytes, ExtensionBytes, FixedBytes, PartsOf, PayloadEnd;
    var p, h := PartsOf(data), FixedHeader(data);
    var offset := if h.extension then HeaderEnd(data) else CsrcEnd(data);
    PartsLie(data);
    ExtensionLies(data);
    FixedRebuilt(data);
    FewSources(data);
    CsrcsAreBytes(data, CsrcCount(data));
    CutInFive(data, 12, CsrcEnd(data), offset, PayloadEnd(data, offset, h.padding));
  }

  lemma FewSources(data: bytes)
    requires |data| >= 12
    ensures CsrcCount(data) < 16
  {
  }

  lemma NoExtensionBytes()
    ensures ExtensionBytes(NoExtension) == []
  {
  }

  ghost predicate IsWritten(data: bytes) {
    exists p :: WellFormed(p) && Written(p) == data
  }

  /** Both parsers accept exactly the well-formed packets. */
  lemma AcceptedExactly(data: bytes)
    ensures View(data).ViewOk? <==> IsWritten(data)
  {
    hide View, Written, WellFormed;
    if View(data).ViewOk? {
      AcceptedIsWritten(data);
    }
    if IsWritten(data) {
      var p :| WellFormed(p) && Written(p) == data;
      WrittenIsParsed(p);
    }
  }
}
