/** Cutting H.264 frames into RTP packets: single NAL units, STAP-A and FU-A, sections 5.6, 5.7.1 and 5.8
    of RFC 6184 (nxnet/rtp/rtp_h264_packetizer.cpp). */
module RtpH264Packetizer {
  import opened Bytes
  import opened Sequences
  import opened AnnexB
  import opened RtpHeaderExtension
  import opened RtpFrameBuffer

  const NAL_STAP_A := 24
  const NAL_FU_A := 28
  const RTP_HEADER_SIZE := 12

  /** Everything a packet depends on besides its own payload. The extension is empty when there is none. */
  datatype Config = Config(ssrc: uint32, payloadType: byte, maxPayload: nat, ext: seq<Element>)

  /** Packet sizes of 15 and more leave room for a fragment; the extension's word count has 16 bits. */
  predicate Usable(c: Config) {
    3 <= c.maxPayload < 0x1_0000 && AllAcceptable(c.ext) && PaddedSize(ContentSize(c.ext)) / 4 < 0x1_0000
  }

  function NalType(nal: bytes): nat
    requires nal != []
  {
    nal[0] % 32
  }

  /** The nal_ref_idc bits in place. */
  function Nri(nal: bytes): byte
    requires nal != []
  {
    nal[0] / 32 % 4 * 32
  }

  // ------------------------------------------------------------------- the packets

  /** The twelve bytes in front of the extension. */
  function FixedPart(c: Config, marker: bool, seqNo: uint16, ts: uint32): (s: bytes)
    ensures |s| == RTP_HEADER_SIZE
  {
    [if c.ext == [] then 0x80 else 0x90, c.payloadType % 128 + if marker then 128 else 0]
    + (BE16(seqNo) + (BE32(ts) + BE32(c.ssrc)))
  }

  function PacketHeader(c: Config, marker: bool, seqNo: uint16, ts: uint32): bytes
    requires AllAcceptable(c.ext)
  {
    FixedPart(c, marker, seqNo, ts) + Serialized(c.ext)
  }

  /** The packets for a list of payloads: consecutive sequence numbers, one timestamp, and the marker
      on the last of them if `mark` is set. */
  function Packetized(c: Config, seqNo: uint16, ts: uint32, payloads: seq<bytes>, mark: bool): (ps: seq<bytes>)
    requires AllAcceptable(c.ext)
    ensures |ps| == |payloads|
  {
    seq(|payloads|, i requires 0 <= i < |payloads| =>
      PacketHeader(c, mark && i == |payloads| - 1, (seqNo + i) % 0x1_0000, ts) + payloads[i])
  }

  function MaxFragment(c: Config): nat
    requires c.maxPayload >= 3
  {
    if c.ext == [] then c.maxPayload - 2 else
      var extSize := SerializedSize(c.ext) % 0x1_0000;
      if c.maxPayload > extSize + 2 then c.maxPayload - extSize - 2 else 1
  }

  // -------------------------------------------------------------------- payloads

  /** What a group of NAL units is sent as. */
  datatype Group = Single(nal: bytes) | Stap(nals: seq<bytes>) | Fu(nal: bytes)

  function NalsOf(g: Group): seq<bytes> {
    match g case Single(n) => [n] case Stap(ns) => ns case Fu(n) => [n]
  }

  function MaxNri(nals: seq<bytes>): byte
    requires forall i | 0 <= i < |nals| :: nals[i] != []
    ensures MaxNri(nals) in {0, 32, 64, 96}
  {
    if nals == [] then 0 else
      var m := MaxNri(nals[..|nals| - 1]);
      if Nri(nals[|nals| - 1]) > m then Nri(nals[|nals| - 1]) else m
  }

  function StapBody(nals: seq<bytes>): bytes {
    if nals == [] then [] else BE16(|nals[0]| % 0x1_0000) + nals[0] + StapBody(nals[1..])
  }

  function StapPayload(nals: seq<bytes>): bytes
    requires forall i | 0 <= i < |nals| :: nals[i] != []
  {
    [MaxNri(nals) + NAL_STAP_A] + StapBody(nals)
  }

  function FuPayload(nal: bytes, off: nat, size: nat): bytes
    requires nal != [] && off + size <= |nal| - 1
  {
    [Nri(nal) + NAL_FU_A,
     NalType(nal) + (if off == 0 then 128 else 0) + (if off + size == |nal| - 1 then 64 else 0)]
    + nal[1 + off..1 + off + size]
  }

  function FragmentSize(nal: bytes, off: nat, max: nat): nat
    requires off < |nal| - 1
  {
    if max < |nal| - 1 - off then max else |nal| - 1 - off
  }

  /** The fragments of a unit from an offset behind its header byte on. */
  function FuFrom(nal: bytes, off: nat, max: nat): seq<bytes>
    requires nal != [] && max > 0
    decreases |nal| - off
  {
    if off >= |nal| - 1 then [] else
      var size := FragmentSize(nal, off, max);
      [FuPayload(nal, off, size)] + FuFrom(nal, off + size, max)
  }

  predicate NoneEmpty(nals: seq<bytes>) {
    forall i | 0 <= i < |nals| :: nals[i] != []
  }

  function Payloads(g: Group, maxFragment: nat): seq<bytes>
    requires NoneEmpty(NalsOf(g)) && maxFragment > 0
  {
    assert g.Fu? ==> g.nal == NalsOf(g)[0];
    match g
    case Single(n) => [n]
    case Stap(ns) => [StapPayload(ns)]
    case Fu(n) => FuFrom(n, 0, maxFragment)
  }

  // ------------------------------------------------------------------ aggregation

  function StapSize(nals: seq<bytes>): nat {
    if nals == [] then 1 else StapSize(nals[..|nals| - 1]) + |nals[|nals| - 1]| + 2
  }

  function FlushGroup(waiting: seq<bytes>): seq<Group> {
    if waiting == [] then [] else if |waiting| == 1 then [Single(waiting[0])] else [Stap(waiting)]
  }

  /** Greedy aggregation: small units wait together while a STAP-A can hold them; a unit above the
      payload limit is fragmented. */
  function Plan(nals: seq<bytes>, waiting: seq<bytes>, maxPayload: nat): seq<Group> {
    if nals == [] then FlushGroup(waiting) else
      var n, rest := nals[0], nals[1..];
      if |n| > maxPayload then FlushGroup(waiting) + [Fu(n)] + Plan(rest, [], maxPayload)
      else if waiting == [] then Plan(rest, [n], maxPayload)
      else if StapSize(waiting) + |n| + 2 <= maxPayload then Plan(rest, waiting + [n], maxPayload)
      else FlushGroup(waiting) + Plan(rest, [n], maxPayload)
  }

  predicate AllNoneEmpty(gs: seq<Group>) {
    forall i | 0 <= i < |gs| :: NoneEmpty(NalsOf(gs[i]))
  }

  function AllPayloads(gs: seq<Group>, maxFragment: nat): seq<bytes>
    requires AllNoneEmpty(gs) && maxFragment > 0
  {
    if gs == [] then [] else Payloads(gs[0], maxFragment) + AllPayloads(gs[1..], maxFragment)
  }

  function AllNals(gs: seq<Group>): seq<bytes> {
    if gs == [] then [] else NalsOf(gs[0]) + AllNals(gs[1..])
  }

  /** All payloads that one frame is sent as. */
  function FramePayloads(c: Config, nals: seq<bytes>): seq<bytes>
    requires Usable(c) && NoneEmpty(nals)
  {
    PlanNoneEmpty(nals, [], c.maxPayload);
    MaxFragmentPositive(c);
    AllPayloads(Plan(nals, [], c.maxPayload), MaxFragment(c))
  }

  lemma MaxFragmentPositive(c: Config)
    requires Usable(c)
    ensures 0 < MaxFragment(c) < c.maxPayload
  {
  }

  lemma {:induction false} AllNalsAppend(a: seq<Group>, b: seq<Group>)
    ensures AllNals(a + b) == AllNals(a) + AllNals(b)
  {
    if a == [] {
      assert a + b == b;
    } else {
      assert (a + b)[0] == a[0] && (a + b)[1..] == a[1..] + b;
      AllNalsAppend(a[1..], b);
    }
  }

  lemma {:induction false} AllPayloadsAppend(a: seq<Group>, b: seq<Group>, maxFragment: nat)
    requires AllNoneEmpty(a) && AllNoneEmpty(b) && maxFragment > 0
    ensures AllNoneEmpty(a + b)
    ensures AllPayloads(a + b, maxFragment) == AllPayloads(a, maxFragment) + AllPayloads(b, maxFragment)
  {
    hide Payloads;
    if a == [] {
      assert a + b == b;
    } else {
      assert (a + b)[0] == a[0] && (a + b)[1..] == a[1..] + b;
      AllPayloadsAppend(a[1..], b, maxFragment);
      var first, middle := Payloads(a[0], maxFragment), AllPayloads(a[1..], maxFragment);
      var last := AllPayloads(b, maxFragment);
      assert first + (middle + last) == (first + middle) + last;
    }
  }

  lemma FlushGroupNals(waiting: seq<bytes>)
    ensures AllNals(FlushGroup(waiting)) == waiting
    ensures NoneEmpty(waiting) ==> AllNoneEmpty(FlushGroup(waiting))
  {
    assert AllNals([]) == [];
    if |waiting| == 1 {
      assert [Single(waiting[0])][1..] == [] && waiting == [waiting[0]];
    } else if waiting != [] {
      assert [Stap(waiting)][1..] == [];
    }
  }

  /** Aggregation neither loses, doubles nor reorders units. */
  lemma {:induction false} PlanKeepsNals(nals: seq<bytes>, waiting: seq<bytes>, maxPayload: nat)
    ensures AllNals(Plan(nals, waiting, maxPayload)) == waiting + nals
  {
    hide AllNals, FlushGroup;
    FlushGroupNals(waiting);
    if nals == [] {
      assert waiting + nals == waiting;
    } else {
      var n, rest := nals[0], nals[1..];
      assert nals == [n] + rest;
      PlanKeepsNals(rest, [], maxPayload);
      PlanKeepsNals(rest, [n], maxPayload);
      PlanKeepsNals(rest, waiting + [n], maxPayload);
      FuNals(n);
      AllNalsAppend(FlushGroup(waiting), [Fu(n)]);
      AllNalsAppend(FlushGroup(waiting) + [Fu(n)], Plan(rest, [], maxPayload));
      AllNalsAppend(FlushGroup(waiting), Plan(rest, [n], maxPayload));
      assert waiting + [n] + ([] + rest) == waiting + nals;
      assert waiting + ([n] + rest) == waiting + [n] + rest;
    }
  }

  lemma FuNals(n: bytes)
    ensures AllNals([Fu(n)]) == [n]
  {
    assert [Fu(n)][1..] == [] && [n] + [] == [n];
  }

  lemma {:induction false} PlanNoneEmpty(nals: seq<bytes>, waiting: seq<bytes>, maxPayload: nat)
    requires NoneEmpty(nals) && NoneEmpty(waiting)
    ensures AllNoneEmpty(Plan(nals, waiting, maxPayload))
  {
    hide FlushGroup;
    FlushGroupNals(waiting);
    if nals != [] {
      PlanNoneEmpty(nals[1..], [], maxPayload);
      PlanNoneEmpty(nals[1..], [nals[0]], maxPayload);
      PlanNoneEmpty(nals[1..], waiting + [nals[0]], maxPayload);
    }
  }

  // --------------------------------------------------------------- implementation

  lemma OnePacket(c: Config, seqNo: uint16, ts: uint32, payload: bytes, mark: bool)
    requires AllAcceptable(c.ext)
    ensures Packetized(c, seqNo, ts, [payload], mark) == [PacketHeader(c, mark, seqNo, ts) + payload]
  {
    hide PacketHeader;
  }

  lemma PacketizedAppend(c: Config, seqNo: uint16, ts: uint32, a: seq<bytes>, b: seq<bytes>, mark: bool)
    requires AllAcceptable(c.ext) && (b != [] || !mark)
    ensures Packetized(c, seqNo, ts, a, false) + Packetized(c, (seqNo + |a|) % 0x1_0000, ts, b, mark)
         == Packetized(c, seqNo, ts, a + b, mark)
  {
    hide PacketHeader;
    var x, y := Packetized(c, seqNo, ts, a, false), Packetized(c, (seqNo + |a|) % 0x1_0000, ts, b, mark);
    var z := Packetized(c, seqNo, ts, a + b, mark);
    forall i | 0 <= i < |z|
      ensures z[i] == (x + y)[i]
    {
      if i < |a| {
        assert (a + b)[i] == a[i] && (x + y)[i] == x[i];
      } else {
        assert (a + b)[i] == b[i - |a|] && (x + y)[i] == y[i - |a|];
        NumbersAdd(seqNo, |a|, i - |a|);
      }
    }
  }

  lemma NumbersAdd(seqNo: nat, m: nat, n: nat)
    ensures ((seqNo + m) % 0x1_0000 + n) % 0x1_0000 == (seqNo + (m + n)) % 0x1_0000
  {
  }

  class RtpH264Packetizer {
    var ssrc: uint32
    var payloadType: byte
    var sequenceNumber: uint16
    var maxPayloadSize: uint16
    /** m_current_ext: the elements of the extension builder in use, empty for none. */
    var currentExt: seq<Element>

    ghost function Cfg(): Config
      reads this
    {
      Config(ssrc, payloadType, maxPayloadSize, currentExt)
    }

    constructor (maxPacketSize: uint16)
      requires maxPacketSize >= RTP_HEADER_SIZE
      ensures Cfg() == Config(0, 96, maxPacketSize - RTP_HEADER_SIZE, []) && sequenceNumber == 0
    {
      ssrc, payloadType, sequenceNumber, currentExt := 0, 96, 0, [];
      maxPayloadSize := maxPacketSize - RTP_HEADER_SIZE;
    }

    method WriteRtpHeader(output: RtpFrameBuffer, marker: bool, ts: uint32)
      requires output.Open() && output.packets != [] && AllAcceptable(currentExt)
      modifies `sequenceNumber, output
      ensures output.Open() && |output.packets| == |old(output.packets)|
      ensures output.packets == old(output.packets)[..|output.packets| - 1]
                                + [old(output.packets)[|output.packets| - 1]
                                   + PacketHeader(Cfg(), marker, old(sequenceNumber), ts)]
      ensures sequenceNumber == (old(sequenceNumber) + 1) % 0x1_0000
    {
      hide Serialized, Concat, Starts, BE16, BE32;
      var byte0 := if currentExt == [] then 0x80 else 0x90;
      var byte1 := payloadType % 128;
      if marker {
        byte1 := byte1 + 128;
      }
      var fixedHeader: bytes := [byte0, byte1] + (BE16(sequenceNumber) + (BE32(ts) + BE32(ssrc)));
      assert fixedHeader == FixedPart(Cfg(), marker, sequenceNumber, ts);
      output.Append(fixedHeader + Serialized(currentExt));
      sequenceNumber := (sequenceNumber + 1) % 0x1_0000;
    }

    method SendPayload(output: RtpFrameBuffer, payload: bytes, marker: bool, ts: uint32)
      requires output.Open() && AllAcceptable(currentExt)
      modifies `sequenceNumber, output
      ensures output.Open()
      ensures output.packets == old(output.packets) + Packetized(Cfg(), old(sequenceNumber), ts, [payload], marker)
      ensures sequenceNumber == (old(sequenceNumber) + 1) % 0x1_0000
    {
      hide PacketHeader, Packetized, Concat, Starts;
      ghost var header := PacketHeader(Cfg(), marker, sequenceNumber, ts);
      OnePacket(Cfg(), sequenceNumber, ts, payload, marker);
      output.BeginPacket();
      WriteRtpHeader(output, marker, ts);
      assert [] + header == header;
      output.Append(payload);
    }

    method SendSingleNal(nal: bytes, ts: uint32, marker: bool, output: RtpFrameBuffer)
      requires output.Open() && AllAcceptable(currentExt)
      modifies `sequenceNumber, output
      ensures output.Open()
      ensures output.packets == old(output.packets) + Packetized(Cfg(), old(sequenceNumber), ts, [nal], marker)
      ensures sequenceNumber == (old(sequenceNumber) + 1) % 0x1_0000
    {
      SendPayload(output, nal, marker, ts);
    }

    /** The room for a fragment behind its two header bytes, as send_fu_a computes it. */
    method FragmentLimit() returns (size: nat)
      requires Usable(Cfg())
      ensures size == MaxFragment(Cfg())
    {
      hide PaddedSize, ContentSize;
      size := maxPayloadSize - 2;
      if currentExt != [] {
        var extSize := SerializedSize(currentExt) % 0x1_0000;
        size := if maxPayloadSize > extSize + 2 then maxPayloadSize - extSize - 2 else 1;
      }
    }

    method SendFuA(nal: bytes, ts: uint32, marker: bool, output: RtpFrameBuffer)
      requires output.Open() && Usable(Cfg()) && |nal| >= 2
      modifies `sequenceNumber, output
      ensures output.Open() && Usable(Cfg()) && MaxFragment(Cfg()) > 0
      ensures var payloads := FuFrom(nal, 0, MaxFragment(Cfg()));
              && output.packets == old(output.packets) + Packetized(Cfg(), old(sequenceNumber), ts, payloads, marker)
              && sequenceNumber == (old(sequenceNumber) + |payloads|) % 0x1_0000
    {
      hide PacketHeader, Packetized, FuPayload, FuFrom, Concat, Starts, MaxFragment, SerializedSize;
      ghost var c, seq0, before := Cfg(), sequenceNumber, output.packets;
      MaxFragmentPositive(c);
      var size := |nal| - 1;
      var offset := 0;
      var maxFragmentSize := FragmentLimit();
      ghost var sent: seq<bytes> := [];
      NoPackets(c, seq0, ts);
      assert before + [] == before && [] + FuFrom(nal, 0, maxFragmentSize) == FuFrom(nal, 0, maxFragmentSize);
      while offset < size
        invariant 0 <= offset <= size && output.Open() && Cfg() == c
        invariant sent + FuFrom(nal, offset, maxFragmentSize) == FuFrom(nal, 0, maxFragmentSize)
        invariant sequenceNumber == (seq0 + |sent|) % 0x1_0000
        invariant output.packets == before + Packetized(c, seq0, ts, sent, marker && offset == size)
        invariant offset == size ==> sent != []
      {
        var fragmentSize := FragmentSize(nal, offset, maxFragmentSize);
        var isLast := offset + fragmentSize >= size;
        var payload := FuPayload(nal, offset, fragmentSize);
        PacketizedAppend(c, seq0, ts, sent, [payload], isLast && marker);
        Assoc(before, Packetized(c, seq0, ts, sent, false),
              Packetized(c, sequenceNumber, ts, [payload], isLast && marker));
        NumbersAdd(seq0, |sent|, 1);
        SendPayload(output, payload, isLast && marker, ts);
        FuTurn(nal, offset, maxFragmentSize, sent);
        sent := sent + [payload];
        offset := offset + fragmentSize;
      }
      FuTurn(nal, offset, maxFragmentSize, sent);
    }

    /** The payload of an aggregate, byte by byte as send_stap_a writes it behind the RTP header. */
    static method StapBytes(nals: seq<bytes>) returns (payload: bytes)
      requires nals != [] && NoneEmpty(nals)
      ensures payload == StapPayload(nals)
    {
      hide StapBody, BE16;
      var maxNri: byte := 0;
      for i := 0 to |nals|
        invariant maxNri == MaxNri(nals[..i])
      {
        assert nals[..i + 1][..i] == nals[..i];
        var nri := Nri(nals[i]);
        if nri > maxNri {
          maxNri := nri;
        }
      }
      assert nals[..|nals|] == nals && nals[0..] == nals;
      payload := [maxNri + NAL_STAP_A];
      for i := 0 to |nals|
        invariant payload + StapBody(nals[i..]) == StapPayload(nals)
      {
        StapTurn(payload, nals, i);
        payload := payload + BE16(|nals[i]| % 0x1_0000) + nals[i];
      }
      StapEnd(nals);
      assert payload + [] == payload;
    }

    method SendStapA(nals: seq<bytes>, ts: uint32, marker: bool, output: RtpFrameBuffer)
      requires output.Open() && AllAcceptable(currentExt) && nals != [] && NoneEmpty(nals)
      modifies `sequenceNumber, output
      ensures output.Open()
      ensures output.packets == old(output.packets)
                                + Packetized(Cfg(), old(sequenceNumber), ts, [StapPayload(nals)], marker)
      ensures sequenceNumber == (old(sequenceNumber) + 1) % 0x1_0000
    {
      hide Packetized, StapPayload;
      var payload := StapBytes(nals);
      SendPayload(output, payload, marker, ts);
    }

    /** Sends what waits, as one unit or as an aggregate. */
    method SendWaiting(waiting: seq<bytes>, ts: uint32, marker: bool, output: RtpFrameBuffer)
      requires output.Open() && Usable(Cfg()) && waiting != [] && NoneEmpty(waiting)
      modifies `sequenceNumber, output
      ensures output.Open()
      ensures var payloads := Flushed(Cfg(), waiting);
              && |payloads| == 1
              && output.packets == old(output.packets) + Packetized(Cfg(), old(sequenceNumber), ts, payloads, marker)
              && sequenceNumber == (old(sequenceNumber) + 1) % 0x1_0000
    {
      hide PacketHeader, Packetized, StapPayload, PaddedSize;
      FlushGroupNals(waiting);
      MaxFragmentPositive(Cfg());
      OneGroup(FlushGroup(waiting)[0], MaxFragment(Cfg()));
      if |waiting| > 1 {
        SendStapA(waiting, ts, marker, output);
      } else {
        SendSingleNal(waiting[0], ts, marker, output);
      }
    }

    /** packetize, without extension; `ext` stands for the builder that the other overload installs. */
    method Packetize(frame: bytes, ts: uint32, ext: seq<Element>, output: RtpFrameBuffer)
      requires output.Open() && Usable(Cfg().(ext := ext)) && currentExt == []
      modifies `currentExt, `sequenceNumber, output
      ensures Cfg() == old(Cfg())
      ensures NoneEmpty(Units(frame))
      ensures var payloads := FramePayloads(Cfg().(ext := ext), Units(frame));
              && output.packets == old(output.packets)
                                   + Packetized(Cfg().(ext := ext), old(sequenceNumber), ts, payloads, true)
              && sequenceNumber == (old(sequenceNumber) + |payloads|) % 0x1_0000
      ensures if Units(frame) == [] then output.Open() else output.Finalized()
    {
      hide PacketHeader, Packetized, Concat, Starts, FramePayloads, PaddedSize, ContentSize, Units;
      UnitsNotEmpty(frame);
      currentExt := ext;
      NoUnits(Cfg());
      NoPackets(Cfg(), sequenceNumber, ts);
      assert output.packets + [] == output.packets;
      var nals := ExtractNalUnits(frame);
      if nals != [] {
        SendAll(nals, ts, output);
        output.FinalizeBuffer();
      }
      currentExt := [];
    }

    /** The aggregation loop of packetize. */
    method SendAll(nals: seq<bytes>, ts: uint32, output: RtpFrameBuffer)
      requires output.Open() && Usable(Cfg()) && nals != [] && NoneEmpty(nals)
      modifies `sequenceNumber, output
      ensures output.Open()
      ensures var payloads := FramePayloads(Cfg(), nals);
              && output.packets == old(output.packets) + Packetized(Cfg(), old(sequenceNumber), ts, payloads, true)
              && sequenceNumber == (old(sequenceNumber) + |payloads|) % 0x1_0000
    {
      hide PacketHeader, Packetized, PaddedSize, ContentSize, StapSize, Concat, Starts, Flushed, RestPayloads, FuFrom,
        MaxFragment, FramePayloads;
      ghost var c, seq0, all, before := Cfg(), sequenceNumber, FramePayloads(Cfg(), nals), output.packets;
      ghost var sent: seq<bytes> := [];
      var waiting: seq<bytes> := [];
      var stapTotalSize := 0;
      var i := 0;
      StartPlan(c, nals);
      NoPackets(c, seq0, ts);
      assert before + [] == before;
      while i < |nals|
        invariant 0 <= i <= |nals| && output.Open() && Cfg() == c && NoneEmpty(waiting)
        invariant waiting != [] ==> stapTotalSize == StapSize(waiting)
        invariant if i == |nals| then sent == all else sent + RestPayloads(c, nals[i..], waiting) == all
        invariant sequenceNumber == (seq0 + |sent|) % 0x1_0000
        invariant output.packets == before + Packetized(c, seq0, ts, sent, i == |nals|)
      {
        var nal := nals[i];
        var isLast := i == |nals| - 1;
        PlanTurn(c, nals[i..], waiting, sent);
        assert nals[i..][0] == nal && nals[i..][1..] == nals[i + 1..];
        StapSizeSnoc(waiting, nal);
        if |nal| <= maxPayloadSize {
          var newStapSize := stapTotalSize + |nal| + 2;
          if waiting != [] && newStapSize <= maxPayloadSize {
            waiting := waiting + [nal];
            stapTotalSize := newStapSize;
          } else {
            if waiting != [] {
              sent := SendMore(before, sent, seq0, waiting, ts, false, output);
            }
            waiting := [nal];
            stapTotalSize := |nal| + 3;
          }
        } else {
          if waiting != [] {
            sent := SendMore(before, sent, seq0, waiting, ts, false, output);
            waiting := [];
            stapTotalSize := 0;
          } else {
            PlanEnds(c, waiting);
            assert sent + [] == sent;
          }
          sent := SendLarge(before, sent, seq0, nal, ts, isLast, output);
        }
        PlanEnds(c, waiting);
        assert isLast ==> nals[i + 1..] == [];
        if isLast && waiting != [] {
          sent := SendMore(before, sent, seq0, waiting, ts, true, output);
        }
        assert sent + [] == sent;
        i := i + 1;
      }
    }

    /** Sends a fragmented unit behind the payloads sent so far. */
    method SendLarge(ghost before: seq<bytes>, ghost sent: seq<bytes>, ghost seq0: uint16, nal: bytes, ts: uint32,
                     marker: bool, output: RtpFrameBuffer)
      returns (ghost more: seq<bytes>)
      requires output.Open() && Usable(Cfg()) && |nal| > maxPayloadSize
      requires output.packets == before + Packetized(Cfg(), seq0, ts, sent, false)
      requires sequenceNumber == (seq0 + |sent|) % 0x1_0000
      modifies `sequenceNumber, output
      ensures output.Open() && Usable(Cfg()) && MaxFragment(Cfg()) > 0
      ensures more == sent + FuFrom(nal, 0, MaxFragment(Cfg()))
      ensures output.packets == before + Packetized(Cfg(), seq0, ts, more, marker)
      ensures sequenceNumber == (seq0 + |more|) % 0x1_0000
    {
      hide PacketHeader, Packetized, FuFrom, Concat, Starts, PaddedSize, ContentSize, MaxFragment;
      LargeUnitFragments(Cfg(), nal);
      ghost var fragments := FuFrom(nal, 0, MaxFragment(Cfg()));
      SendFuA(nal, ts, marker, output);
      PacketizedAppend(Cfg(), seq0, ts, sent, fragments, marker);
      more := sent + fragments;
    }

    /** Sends what waits behind the payloads sent so far. */
    method SendMore(ghost before: seq<bytes>, ghost sent: seq<bytes>, ghost seq0: uint16, waiting: seq<bytes>,
                    ts: uint32, marker: bool, output: RtpFrameBuffer)
      returns (ghost more: seq<bytes>)
      requires output.Open() && Usable(Cfg()) && waiting != [] && NoneEmpty(waiting)
      requires output.packets == before + Packetized(Cfg(), seq0, ts, sent, false)
      requires sequenceNumber == (seq0 + |sent|) % 0x1_0000
      modifies `sequenceNumber, output
      ensures output.Open() && more == sent + Flushed(Cfg(), waiting)
      ensures output.packets == before + Packetized(Cfg(), seq0, ts, more, marker)
      ensures sequenceNumber == (seq0 + |more|) % 0x1_0000
    {
      hide PacketHeader, Packetized, Flushed, Concat, Starts, PaddedSize, ContentSize;
      ghost var flushed := Flushed(Cfg(), waiting);
      SendWaiting(waiting, ts, marker, output);
      PacketizedAppend(Cfg(), seq0, ts, sent, flushed, marker);
      more := sent + flushed;
    }
  }

  lemma StapTurn(payload: bytes, nals: seq<bytes>, i: nat)
    requires i < |nals|
    ensures payload + StapBody(nals[i..])
         == payload + BE16(|nals[i]| % 0x1_0000) + nals[i] + StapBody(nals[i + 1..])
  {
    hide BE16;
    var size, nal, rest := BE16(|nals[i]| % 0x1_0000), nals[i], StapBody(nals[i + 1..]);
    assert nals[i..][0] == nal && nals[i..][1..] == nals[i + 1..];
    assert StapBody(nals[i..]) == (size + nal) + rest;
    Assoc(payload, size + nal, rest);
    Assoc(payload, size, nal);
  }

  lemma StapEnd(nals: seq<bytes>)
    ensures StapBody(nals[|nals|..]) == []
  {
  }

  lemma FuTurn(nal: bytes, off: nat, max: nat, sent: seq<bytes>)
    requires nal != [] && max > 0
    ensures sent + FuFrom(nal, off, max) ==
            if off >= |nal| - 1 then sent else
              var size := FragmentSize(nal, off, max);
              (sent + [FuPayload(nal, off, size)]) + FuFrom(nal, off + size, max)
  {
    hide FuPayload;
  }

  lemma NoPackets(c: Config, seqNo: uint16, ts: uint32)
    requires AllAcceptable(c.ext)
    ensures forall mark :: Packetized(c, seqNo, ts, [], mark) == []
  {
  }

  lemma NoUnits(c: Config)
    requires Usable(c)
    ensures FramePayloads(c, []) == []
  {
    hide PaddedSize, MaxFragment;
  }

  /** A unit above the payload limit makes at least two fragments. */
  lemma LargeUnitFragments(c: Config, nal: bytes)
    requires Usable(c) && |nal| > c.maxPayload
    ensures 0 < MaxFragment(c) && |nal| >= 2
    ensures |FuFrom(nal, 0, MaxFragment(c))| >= 2
  {
    hide FuPayload;
    MaxFragmentPositive(c);
    var size := FragmentSize(nal, 0, MaxFragment(c));
    assert |FuFrom(nal, size, MaxFragment(c))| >= 1;
  }

  lemma UnitsNotEmpty(frame: bytes)
    ensures NoneEmpty(Units(frame))
  {
    UnitsAreClean(frame);
  }

  lemma OneGroup(g: Group, maxFragment: nat)
    requires NoneEmpty(NalsOf(g)) && maxFragment > 0
    ensures AllPayloads([g], maxFragment) == Payloads(g, maxFragment)
  {
    hide Payloads;
    assert [g][1..] == [] && Payloads(g, maxFragment) + [] == Payloads(g, maxFragment);
  }

  /** The payloads still to come when `waiting` waits in front of the units left. */
  function RestPayloads(c: Config, nals: seq<bytes>, waiting: seq<bytes>): seq<bytes>
    requires Usable(c) && NoneEmpty(nals) && NoneEmpty(waiting)
  {
    PlanNoneEmpty(nals, waiting, c.maxPayload);
    MaxFragmentPositive(c);
    AllPayloads(Plan(nals, waiting, c.maxPayload), MaxFragment(c))
  }

  lemma StartPlan(c: Config, nals: seq<bytes>)
    requires Usable(c) && NoneEmpty(nals)
    ensures nals[0..] == nals && [] + RestPayloads(c, nals[0..], []) == FramePayloads(c, nals)
    ensures forall seqNo: uint16, ts: uint32, mark: bool :: Packetized(c, seqNo, ts, [], mark) == []
  {
  }

  /** What is sent for the waiting units. */
  function Flushed(c: Config, waiting: seq<bytes>): (ps: seq<bytes>)
    requires Usable(c) && NoneEmpty(waiting)
  {
    FlushGroupNals(waiting);
    MaxFragmentPositive(c);
    AllPayloads(FlushGroup(waiting), MaxFragment(c))
  }

  /** One turn of the aggregation loop, behind the payloads already sent. */
  lemma PlanTurn(c: Config, nals: seq<bytes>, waiting: seq<bytes>, sent: seq<bytes>)
    requires Usable(c) && NoneEmpty(nals) && NoneEmpty(waiting) && nals != []
    ensures 0 < MaxFragment(c)
    ensures var n, rest := nals[0], nals[1..];
            sent + RestPayloads(c, nals, waiting) ==
            if |n| > c.maxPayload
            then ((sent + Flushed(c, waiting)) + FuFrom(n, 0, MaxFragment(c))) + RestPayloads(c, rest, [])
            else if waiting == [] then sent + RestPayloads(c, rest, [n])
            else if StapSize(waiting) + |n| + 2 <= c.maxPayload then sent + RestPayloads(c, rest, waiting + [n])
            else (sent + Flushed(c, waiting)) + RestPayloads(c, rest, [n])
  {
    hide AllPayloads, FlushGroup, FuFrom, MaxFragment, StapSize, PaddedSize;
    var n, rest, mf := nals[0], nals[1..], MaxFragment(c);
    MaxFragmentPositive(c);
    FlushGroupNals(waiting);
    PlanNoneEmpty(rest, [], c.maxPayload);
    PlanNoneEmpty(rest, [n], c.maxPayload);
    OneGroup(Fu(n), mf);
    AllPayloadsAppend(FlushGroup(waiting), [Fu(n)], mf);
    AllPayloadsAppend(FlushGroup(waiting) + [Fu(n)], Plan(rest, [], c.maxPayload), mf);
    AllPayloadsAppend(FlushGroup(waiting), Plan(rest, [n], c.maxPayload), mf);
    var f, g, r := Flushed(c, waiting), FuFrom(n, 0, mf), RestPayloads(c, rest, []);
    assert sent + ((f + g) + r) == ((sent + f) + g) + r;
    assert sent + (f + RestPayloads(c, rest, [n])) == (sent + f) + RestPayloads(c, rest, [n]);
  }

  lemma PlanEnds(c: Config, waiting: seq<bytes>)
    requires Usable(c) && NoneEmpty(waiting)
    ensures RestPayloads(c, [], waiting) == Flushed(c, waiting)
    ensures waiting == [] ==> Flushed(c, waiting) == []
  {
    hide PaddedSize, MaxFragment;
  }

  lemma StapSizeSnoc(waiting: seq<bytes>, n: bytes)
    ensures StapSize([n]) == |n| + 3 && StapSize(waiting + [n]) == StapSize(waiting) + |n| + 2
  {
    assert (waiting + [n])[..|waiting|] == waiting && [n][..0] == [];
    assert StapSize([]) == 1;
  }
}
