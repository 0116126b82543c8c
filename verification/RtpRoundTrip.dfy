/** Packetizer, packet parser and depacketizer against each other. */
module RtpRoundTrip {
  import opened Bytes
  import opened Sequences
  import opened AnnexB
  import opened RtpHeaderExtension
  import opened RtpPacket
  import opened RtpH264Packetizer
  import opened FrameAssembly
  import opened FrameStream
  import D = RtpH264Depacketizer

  // ----------------------------------------------------------------- header parsing

  /** The bytes of a packet header, field by field. */
  lemma HeaderFields(c: Config, marker: bool, seqNo: uint16, ts: uint32, payload: bytes)
    requires Usable(c)
    ensures var data := PacketHeader(c, marker, seqNo, ts) + payload;
            && |data| >= MIN_HEADER_SIZE
            && FixedHeader(data) == HeaderView(2, false, c.ext != [], marker, c.payloadType % 128, seqNo, ts, c.ssrc)
            && CsrcCount(data) == 0
            && data[MIN_HEADER_SIZE..] == Serialized(c.ext) + payload
  {
    hide Serialized, PaddedSize, ContentSize;
    var data := PacketHeader(c, marker, seqNo, ts) + payload;
    assert data[2..4] == BE16(seqNo) && data[4..8] == BE32(ts) && data[8..12] == BE32(c.ssrc);
    RoundTripBE32(ts);
    RoundTripBE32(c.ssrc);
    assert data[1] / 128 == 1 <==> marker;
    assert data[MIN_HEADER_SIZE..] == Serialized(c.ext) + payload;
  }

  /** Every packet the packetizer writes is accepted, with its own header fields and payload. */
  lemma PacketIsParsed(c: Config, marker: bool, seqNo: uint16, ts: uint32, payload: bytes)
    requires Usable(c)
    ensures View(PacketHeader(c, marker, seqNo, ts) + payload)
         == ViewOk(HeaderView(2, false, c.ext != [], marker, c.payloadType % 128, seqNo, ts, c.ssrc), payload)
  {
    hide PacketHeader, FixedHeader, CsrcCount;
    HeaderFields(c, marker, seqNo, ts, payload);
    var data := PacketHeader(c, marker, seqNo, ts) + payload;
    if c.ext == [] {
      assert Serialized(c.ext) + payload == payload;
      assert data[12..|data|] == data[12..];
    } else {
      ExtensionIsSkipped(c, data, payload);
    }
  }

  /** The announced extension length leads exactly behind the extension, and the words inside parse
      back to its elements. */
  lemma ExtensionIsSkipped(c: Config, data: bytes, payload: bytes)
    requires Usable(c) && c.ext != [] && |data| >= MIN_HEADER_SIZE && CsrcCount(data) == 0
    requires data[MIN_HEADER_SIZE..] == Serialized(c.ext) + payload
    ensures CsrcEnd(data) + 4 <= |data| && HeaderEnd(data) <= |data|
    ensures data[HeaderEnd(data)..|data|] == payload
    ensures Parsed(data[CsrcEnd(data) + 4..HeaderEnd(data)]) == c.ext
    ensures FromBE16(data[CsrcEnd(data)..CsrcEnd(data) + 2]) == 0xBEDE
  {
    hide CsrcCount, Parsed, PaddedSize, ContentSize, Serialized, Body;
    var words := PaddedSize(ContentSize(c.ext)) / 4;
    SerializedLength(c.ext);
    PaddedFacts(ContentSize(c.ext));
    SerializedParts(c.ext);
    var body := Body(c.ext);
    assert Serialized(c.ext) + payload == [0xBE, 0xDE] + (BE16(words) + (body + payload));
    SplitTail(data, 12, [0xBE, 0xDE], BE16(words) + (body + payload));
    SplitTail(data, 14, BE16(words), body + payload);
    SplitTail(data, 16, body, payload);
    assert HeaderEnd(data) == 16 + |body|;
  }

  lemma SerializedParts(es: seq<Element>)
    requires AllAcceptable(es) && es != [] && PaddedSize(ContentSize(es)) / 4 < 0x1_0000
    ensures Serialized(es) == [0xBE, 0xDE] + BE16(PaddedSize(ContentSize(es)) / 4) + Body(es)
    ensures Parsed(Body(es)) == es
  {
    hide Parsed, PaddedSize, ContentSize, Content, BE16, Zeros;
    BodyParsed(es);
    assert PaddedSize(ContentSize(es)) / 4 % 0x1_0000 == PaddedSize(ContentSize(es)) / 4;
  }

  lemma BodyParsed(es: seq<Element>)
    requires AllAcceptable(es)
    ensures Parsed(Body(es)) == es
  {
    hide Parsed, PaddedSize, ContentSize, Content, Zeros;
    PaddedFacts(ContentSize(es));
    ParsedContent(es, PaddedSize(ContentSize(es)) - ContentSize(es));
  }

  // --------------------------------------------------------------- undoing one group

  predicate IsIdr(nal: bytes) {
    nal != [] && NalType(nal) == D.TYPE_IDR
  }

  predicate AnyIdr(nals: seq<bytes>) {
    exists i | 0 <= i < |nals| :: IsIdr(nals[i])
  }

  /** A NAL unit as RFC 6184 lets it be packetized: forbidden bit zero, type 1 to 23. */
  predicate Sendable(nal: bytes) {
    nal != [] && nal[0] < 128 && 1 <= NalType(nal) <= 23
  }

  predicate AllSendable(nals: seq<bytes>) {
    forall i | 0 <= i < |nals| :: Sendable(nals[i])
  }

  /** What the plan guarantees for each of its groups. */
  predicate GroupFits(g: Group, maxPayload: nat) {
    && AllSendable(NalsOf(g))
    && match g
       case Single(n) => |n| <= maxPayload
       case Stap(ns) => |ns| >= 2 && StapSize(ns) <= maxPayload
       case Fu(n) => |n| > maxPayload
  }

  predicate GroupsFit(gs: seq<Group>, maxPayload: nat) {
    forall i | 0 <= i < |gs| :: GroupFits(gs[i], maxPayload)
  }

  predicate WaitingFits(waiting: seq<bytes>, maxPayload: nat) {
    && AllSendable(waiting)
    && (|waiting| == 1 ==> |waiting[0]| <= maxPayload)
    && (|waiting| >= 2 ==> StapSize(waiting) <= maxPayload)
  }

  lemma {:induction false} PlanFits(nals: seq<bytes>, waiting: seq<bytes>, maxPayload: nat)
    requires AllSendable(nals) && WaitingFits(waiting, maxPayload)
    ensures GroupsFit(Plan(nals, waiting, maxPayload), maxPayload)
  {
    hide Sendable;
    if nals != [] {
      var n, rest := nals[0], nals[1..];
      StapSizeSnoc(waiting, n);
      if |n| > maxPayload {
        PlanFits(rest, [], maxPayload);
      } else if waiting == [] {
        PlanFits(rest, [n], maxPayload);
      } else if StapSize(waiting) + |n| + 2 <= maxPayload {
        PlanFits(rest, waiting + [n], maxPayload);
      } else {
        PlanFits(rest, [n], maxPayload);
      }
    }
  }

  /** The assembly with whole units added. */
  function WithUnits(a: Assembly, nals: seq<bytes>): Assembly {
    a.(frame := a.frame + Join(nals), hasKeyFrame := a.hasKeyFrame || AnyIdr(nals))
  }

  /** Too short for the unit it announces. */
  predicate Torn(rest: bytes) {
    |rest| < 2 || |rest| - 2 < FromBE16(rest[..2])
  }

  /** An aggregate gives its whole units, and a torn rest behind them nothing. */
  lemma {:induction false} StapUndone(a: Assembly, nals: seq<bytes>, rest: bytes)
    requires NoneEmpty(nals) && (forall i | 0 <= i < |nals| :: |nals[i]| < 0x1_0000) && Torn(rest)
    ensures D.StapFrom(a, StapBody(nals) + rest) == WithUnits(a, nals)
    decreases |nals|
  {
    hide WithUnits, BE16, FromBE16, StapBody, D.StapFrom, Torn;
    if nals == [] {
      NothingAdded(a);
      Empty(rest);
      TornIsDropped(a, rest);
    } else {
      var n, others := nals[0], nals[1..];
      StapFront(nals, rest);
      StapTaken(a, n, StapBody(others) + rest);
      StapUndone(WithUnits(a, [n]), others, rest);
      UnitsAdded(a, n, others);
      assert nals == [n] + others;
    }
  }

  lemma NothingAdded(a: Assembly)
    ensures StapBody([]) == [] && WithUnits(a, []) == a
  {
    Empty(a.frame);
  }

  lemma TornIsDropped(a: Assembly, rest: bytes)
    requires Torn(rest)
    ensures D.StapFrom(a, rest) == a
  {
  }

  lemma StapTaken(a: Assembly, n: bytes, behind: bytes)
    requires n != [] && |n| < 0x1_0000
    ensures D.StapFrom(a, BE16(|n|) + (n + behind)) == D.StapFrom(WithUnits(a, [n]), behind)
  {
    hide BE16, FromBE16, WithUnits;
    var body := BE16(|n|) + (n + behind);
    assert body[0..] == body;
    SplitTail(body, 0, BE16(|n|), n + behind);
    SplitTail(body, 2, n, behind);
    RoundTripBE16(|n|);
    UnitAdded(a, n);
  }

  lemma UnitAdded(a: Assembly, n: bytes)
    ensures D.AppendUnit(a, n, IsIdr(n)) == WithUnits(a, [n])
  {
    JoinOne(n);
    Assoc(a.frame, START_CODE, n);
  }

  lemma UnitsAdded(a: Assembly, n: bytes, others: seq<bytes>)
    ensures WithUnits(WithUnits(a, [n]), others) == WithUnits(a, [n] + others)
  {
    hide IsIdr, AnyIdr;
    JoinAppend([n], others);
    Assoc(a.frame, Join([n]), Join(others));
  }

  lemma StapFront(nals: seq<bytes>, rest: bytes)
    requires nals != [] && |nals[0]| < 0x1_0000
    ensures var body := StapBody(nals) + rest;
            body[0..] == body == BE16(|nals[0]|) + (nals[0] + (StapBody(nals[1..]) + rest))
  {
    hide BE16;
    var n, others := nals[0], StapBody(nals[1..]);
    assert |n| % 0x1_0000 == |n|;
    Assoc(BE16(|n|) + n, others, rest);
    Assoc(BE16(|n|), n, others + rest);
  }

  lemma AnyIdrFront(n: bytes, others: seq<bytes>)
    ensures AnyIdr([n] + others) <==> IsIdr(n) || AnyIdr(others)
  {
    var all := [n] + others;
    assert forall i | 0 <= i < |others| :: all[i + 1] == others[i];
    if AnyIdr(others) {
      var i :| 0 <= i < |others| && IsIdr(others[i]);
      assert IsIdr(all[i + 1]);
    }
    if IsIdr(n) {
      assert IsIdr(all[0]);
    }
  }

  /** In the middle of a fragmented unit: the accumulator holds what has arrived. */
  lemma {:induction false} FuUndone(a: Assembly, nal: bytes, off: nat, max: nat)
    requires |nal| >= 2 && nal[0] < 128 && max > 0 && off < |nal| - 1
    requires off > 0 ==> a.inFragmentation && a.accumulator == START_CODE + nal[..1 + off]
    ensures var end := Fold(D.Handler(), a, FuFrom(nal, off, max));
            && Idle(end) && end.frame == a.frame + START_CODE + nal
            && end.hasKeyFrame == (a.hasKeyFrame || (off == 0 && IsIdr(nal)))
    decreases |nal| - off
  {
    var size := FragmentSize(nal, off, max);
    var payload := FuPayload(nal, off, size);
    var a1 := D.Dispatch(a, payload);
    FragmentDispatched(a, nal, off, size);
    var rest := FuFrom(nal, off + size, max);
    assert FuFrom(nal, off, max) == [payload] + rest;
    hide FuPayload, FuFrom, D.Dispatch, FragmentSize;
    assert Fold(D.Handler(), a, [payload] + rest) == Fold(D.Handler(), a1, rest) by {
      assert ([payload] + rest)[1..] == rest;
    }
    if off + size < |nal| - 1 {
      FuUndone(a1, nal, off + size, max);
    } else {
      assert rest == [] by { NoFragmentsLeft(nal, off + size, max); }
    }
  }

  lemma NoFragmentsLeft(nal: bytes, off: nat, max: nat)
    requires nal != [] && max > 0 && off >= |nal| - 1
    ensures FuFrom(nal, off, max) == []
  {
  }

  /** Packet types that non-interleaved mode does not have change nothing. */
  lemma OthersAreIgnored(a: Assembly, payload: bytes)
    requires payload == [] || payload[0] % 32 in {0, 25, 26, 27, 29, 30, 31}
    ensures D.Dispatch(a, payload) == a
  {
  }

  /** When the first fragment of a unit is lost, the others leave nothing behind. */
  lemma {:induction false} WithoutItsFirst(a: Assembly, nal: bytes, off: nat, max: nat)
    requires |nal| >= 2 && nal[0] < 128 && max > 0 && 0 < off && !a.inFragmentation
    ensures Fold(D.Handler(), a, FuFrom(nal, off, max)) == a
    decreases |nal| - off
  {
    hide FuPayload;
    if off < |nal| - 1 {
      var size := FragmentSize(nal, off, max);
      FragmentFields(nal, off, size);
      WithoutItsFirst(a, nal, off + size, max);
      FoldFront(D.Handler(), a, FuPayload(nal, off, size), FuFrom(nal, off + size, max));
    } else {
      NoFragmentsLeft(nal, off, max);
    }
  }

  /** What the depacketizer reads off the first two bytes of a fragment. */
  lemma FragmentFields(nal: bytes, off: nat, size: nat)
    requires |nal| >= 2 && nal[0] < 128 && 0 < size && off + size <= |nal| - 1
    ensures var payload := FuPayload(nal, off, size);
            && |payload| >= 2 && payload[2..] == nal[1 + off..1 + off + size]
            && payload[0] % 32 == D.TYPE_FU_A && payload[0] / 32 * 32 + payload[1] % 32 == nal[0]
            && payload[1] % 32 == nal[0] % 32
            && (payload[1] / 128 == 1 <==> off == 0)
            && (payload[1] / 64 % 2 == 1 <==> off + size == |nal| - 1)
  {
    FirstByte(nal[0]);
  }

  lemma FirstByte(b: byte)
    requires b < 128
    ensures b / 32 % 4 * 32 + b % 32 == b
  {
  }

  /** One more piece of a unit behind those accumulated. */
  lemma PieceAdded(nal: bytes, off: nat, size: nat)
    requires 1 + off + size <= |nal|
    ensures START_CODE + nal[..1 + off] + nal[1 + off..1 + off + size] == START_CODE + nal[..1 + off + size]
  {
    Assoc(START_CODE, nal[..1 + off], nal[1 + off..1 + off + size]);
    assert nal[..1 + off] + nal[1 + off..1 + off + size] == nal[..1 + off + size];
  }

  lemma FragmentDispatched(a: Assembly, nal: bytes, off: nat, size: nat)
    requires |nal| >= 2 && nal[0] < 128 && 0 < size && off + size <= |nal| - 1
    requires off > 0 ==> a.inFragmentation && a.accumulator == START_CODE + nal[..1 + off]
    ensures var a1 := D.Dispatch(a, FuPayload(nal, off, size));
            && a1.hasKeyFrame == (a.hasKeyFrame || (off == 0 && IsIdr(nal)))
            && if off + size == |nal| - 1 then Idle(a1) && a1.frame == a.frame + START_CODE + nal
               else a1.frame == a.frame && a1.inFragmentation && a1.accumulator == START_CODE + nal[..1 + off + size]
  {
    hide FuPayload;
    var payload := FuPayload(nal, off, size);
    FragmentFields(nal, off, size);
    assert nal[..1] == [nal[0]];
    var begun := D.FuOpened(a, payload);
    assert begun.inFragmentation && begun.accumulator == START_CODE + nal[..1 + off];
    PieceAdded(nal, off, size);
    assert nal[..|nal|] == nal;
    Assoc(a.frame, START_CODE, nal);
  }

  lemma {:induction false} StapSizeBounds(nals: seq<bytes>, i: nat)
    requires i < |nals|
    ensures |nals[i]| < StapSize(nals)
  {
    var n := |nals| - 1;
    if i < n {
      StapSizeBounds(nals[..n], i);
    } else {
      StapSizePositive(nals[..n]);
    }
  }

  lemma {:induction false} StapSizePositive(nals: seq<bytes>)
    ensures StapSize(nals) >= 1
  {
    if nals != [] { StapSizePositive(nals[..|nals| - 1]); }
  }

  lemma SendableNotEmpty(nals: seq<bytes>)
    requires AllSendable(nals)
    ensures NoneEmpty(nals)
  {
  }

  lemma SingleUndone(a: Assembly, n: bytes)
    requires Sendable(n)
    ensures Fold(D.Handler(), a, [n]) == WithUnits(a, [n])
  {
    JoinOne(n);
    assert [n][1..] == [];
    assert a.frame + (START_CODE + n) == a.frame + START_CODE + n;
  }

  lemma AggregateUndone(a: Assembly, ns: seq<bytes>, maxPayload: nat)
    requires AllSendable(ns) && NoneEmpty(ns) && StapSize(ns) <= maxPayload < 0x1_0000
    ensures Fold(D.Handler(), a, [StapPayload(ns)]) == WithUnits(a, ns)
  {
    hide D.StapFrom, StapSize, WithUnits, Sendable, StapBody;
    forall i | 0 <= i < |ns| ensures |ns[i]| < 0x1_0000 { StapSizeBounds(ns, i); }
    StapUndone(a, ns, []);
    Empty(StapBody(ns));
    assert StapPayload(ns)[1..] == StapBody(ns);
    assert [StapPayload(ns)][1..] == [];
  }

  lemma FragmentedUndone(a: Assembly, n: bytes, max: nat)
    requires Sendable(n) && Idle(a) && |n| >= 2 && max > 0
    ensures Fold(D.Handler(), a, FuFrom(n, 0, max)) == WithUnits(a, [n])
  {
    hide FuFrom, Fold;
    FuUndone(a, n, 0, max);
    JoinOne(n);
    assert a.frame + (START_CODE + n) == a.frame + START_CODE + n;
  }

  /** The depacketizer undoes every group the packetizer makes. */
  lemma GroupUndone(a: Assembly, g: Group, c: Config)
    requires Usable(c) && Idle(a) && GroupFits(g, c.maxPayload)
    ensures NoneEmpty(NalsOf(g)) && 0 < MaxFragment(c)
    ensures Fold(D.Handler(), a, Payloads(g, MaxFragment(c))) == WithUnits(a, NalsOf(g))
  {
    hide PaddedSize, Fold, WithUnits, Sendable, FuFrom, StapPayload, StapSize, Idle;
    assert NoneEmpty(NalsOf(g)) by { SendableNotEmpty(NalsOf(g)); }
    MaxFragmentPositive(c);
    match g {
      case Single(n) =>
        assert Sendable(NalsOf(g)[0]);
        SingleUndone(a, n);
      case Stap(ns) =>
        AggregateUndone(a, ns, c.maxPayload);
      case Fu(n) =>
        assert Sendable(NalsOf(g)[0]);
        FragmentedUndone(a, n, MaxFragment(c));
    }
  }

  lemma JoinOne(n: bytes)
    ensures Join([n]) == START_CODE + n && (AnyIdr([n]) <==> IsIdr(n))
  {
    assert [n][1..] == [] && [n][0] == n;
  }

  lemma {:induction false} JoinAppend(a: seq<bytes>, b: seq<bytes>)
    ensures Join(a + b) == Join(a) + Join(b)
    ensures AnyIdr(a + b) <==> AnyIdr(a) || AnyIdr(b)
  {
    hide IsIdr, AnyIdr;
    if a == [] {
      Empty(b);
      Empty(Join(b));
      NothingJoined();
    } else {
      Front(a, b);
      JoinAppend(a[1..], b);
      Assoc(START_CODE + a[0], Join(a[1..]), Join(b));
      AnyIdrFront(a[0], a[1..]);
      AnyIdrFront(a[0], a[1..] + b);
      assert a == [a[0]] + a[1..] && a + b == [a[0]] + (a[1..] + b);
    }
  }

  /** ... and so every frame. */
  lemma {:induction false} GroupsUndone(a: Assembly, gs: seq<Group>, c: Config)
    requires Usable(c) && Idle(a) && GroupsFit(gs, c.maxPayload)
    ensures AllNoneEmpty(gs) && 0 < MaxFragment(c)
    ensures Fold(D.Handler(), a, AllPayloads(gs, MaxFragment(c))) == WithUnits(a, AllNals(gs))
    decreases |gs|
  {
    hide GroupFits, Payloads, PaddedSize, MaxFragment, Join, AnyIdr;
    forall i | 0 <= i < |gs| ensures NoneEmpty(NalsOf(gs[i])) { GroupUndone(a, gs[i], c); }
    MaxFragmentPositive(c);
    if gs == [] {
      NothingJoined();
      assert a.frame + [] == a.frame;
    } else {
      var mf, first := MaxFragment(c), NalsOf(gs[0]);
      GroupUndone(a, gs[0], c);
      var a1 := WithUnits(a, first);
      GroupsUndone(a1, gs[1..], c);
      FoldAppend(D.Handler(), a, Payloads(gs[0], mf), AllPayloads(gs[1..], mf));
      JoinAppend(first, AllNals(gs[1..]));
      assert a.frame + (Join(first) + Join(AllNals(gs[1..]))) == (a.frame + Join(first)) + Join(AllNals(gs[1..]));
    }
  }

  lemma NothingJoined()
    ensures Join([]) == [] && !AnyIdr([])
  {
  }

  lemma FrameUndone(a: Assembly, nals: seq<bytes>, c: Config)
    requires Usable(c) && Idle(a) && AllSendable(nals)
    ensures NoneEmpty(nals)
    ensures Fold(D.Handler(), a, FramePayloads(c, nals)) == WithUnits(a, nals)
  {
    hide PaddedSize, MaxFragment, Plan, AllPayloads, WithUnits;
    SendableNotEmpty(nals);
    PlanFits(nals, [], c.maxPayload);
    GroupsUndone(a, Plan(nals, [], c.maxPayload), c);
    PlanKeepsNals(nals, [], c.maxPayload);
    assert [] + nals == nals;
  }

  // --------------------------------------------------------------------- whole runs

  /** A frame, and how the packetizer is set when it gets it: the settings of the object, and the header extension
      of the call. */
  datatype MediaFrame = MediaFrame(data: bytes, ts: uint32, config: Config)

  predicate FrameSendable(f: MediaFrame) {
    Usable(f.config) && AllSendable(Units(f.data))
  }

  predicate FramesSendable(fs: seq<MediaFrame>) {
    forall i | 0 <= i < |fs| :: FrameSendable(fs[i])
  }

  lemma SendableUnits(f: MediaFrame)
    requires FrameSendable(f)
    ensures NoneEmpty(Units(f.data))
  {
    SendableNotEmpty(Units(f.data));
  }

  function PayloadsFor(f: MediaFrame): seq<bytes>
    requires FrameSendable(f)
  {
    SendableUnits(f);
    FramePayloads(f.config, Units(f.data))
  }

  /** The packets that one packetize call puts out. */
  function PacketsFor(seqNo: uint16, f: MediaFrame): seq<bytes>
    requires FrameSendable(f)
  {
    Packetized(f.config, seqNo, f.ts, PayloadsFor(f), true)
  }

  /** The packets that successive packetize calls put out for a list of frames. */
  function Sent(seqNo: uint16, fs: seq<MediaFrame>): seq<bytes>
    requires FramesSendable(fs)
    decreases |fs|
  {
    if fs == [] then [] else
      PacketsFor(seqNo, fs[0]) + Sent((seqNo + |PayloadsFor(fs[0])|) % 0x1_0000, fs[1..])
  }

  /** A packet as the depacketizer gets it: parsed, and dropped if refused. */
  function ArrivedOne(packet: bytes): seq<Arrival> {
    match View(packet)
    case ViewOk(h, payload) => [Arrival(h.timestamp, h.marker, payload)]
    case ViewError(_) => []
  }

  function Arrived(packets: seq<bytes>): seq<Arrival> {
    if packets == [] then [] else
      ArrivedOne(packets[0]) + Arrived(packets[1..])
  }

  /** What the depacketizer says to the packets of one frame: nothing until the last, then the frame in
      normal form, a key frame exactly if an IDR slice is in it. */
  function Answers(f: MediaFrame): seq<Output>
    requires FrameSendable(f)
  {
    var n := |PayloadsFor(f)|;
    if n == 0 then [] else Quiet(n - 1) + [Frame(Join(Units(f.data)), AnyIdr(Units(f.data)))]
  }

  function AllAnswers(fs: seq<MediaFrame>): seq<Output>
    requires FramesSendable(fs)
  {
    if fs == [] then [] else Answers(fs[0]) + AllAnswers(fs[1..])
  }

  lemma {:induction false} ArrivedPackets(c: Config, seqNo: uint16, ts: uint32, payloads: seq<bytes>, mark: bool)
    requires Usable(c)
    ensures Arrived(Packetized(c, seqNo, ts, payloads, mark)) == Stamped(ts, payloads, mark)
    decreases |payloads|
  {
    hide PacketHeader, View, PaddedSize, ContentSize;
    if payloads != [] {
      var ps := Packetized(c, seqNo, ts, payloads, mark);
      PacketIsParsed(c, mark && |payloads| == 1, seqNo, ts, payloads[0]);
      assert ps[0] == PacketHeader(c, mark && |payloads| == 1, seqNo, ts) + payloads[0];
      assert ps[1..] == Packetized(c, (seqNo + 1) % 0x1_0000, ts, payloads[1..], mark);
      ArrivedPackets(c, (seqNo + 1) % 0x1_0000, ts, payloads[1..], mark);
    }
  }

  lemma {:induction false} ArrivedAppend(a: seq<bytes>, b: seq<bytes>)
    ensures Arrived(a + b) == Arrived(a) + Arrived(b)
  {
    hide View, Arrived;
    if a == [] {
      Empty(b);
      ArrivedFront([]);
      Empty(Arrived(b));
    } else {
      Front(a, b);
      ArrivedFront(a);
      ArrivedFront(a + b);
      ArrivedAppend(a[1..], b);
      Assoc(ArrivedOne(a[0]), Arrived(a[1..]), Arrived(b));
    }
  }

  lemma ArrivedFront(packets: seq<bytes>)
    ensures Arrived(packets) == if packets == [] then [] else ArrivedOne(packets[0]) + Arrived(packets[1..])
  {
  }

  lemma {:induction false} FramePayloadsGood(gs: seq<Group>, c: Config)
    requires Usable(c) && GroupsFit(gs, c.maxPayload) && AllNoneEmpty(gs) && 0 < MaxFragment(c)
    ensures PayloadsGood(D.Handler(), AllPayloads(gs, MaxFragment(c)))
    ensures gs != [] ==> AllPayloads(gs, MaxFragment(c)) != []
  {
    hide PaddedSize, MaxFragment, FuPayload;
    if gs != [] {
      FramePayloadsGood(gs[1..], c);
      assert GroupFits(gs[0], c.maxPayload);
      if gs[0].Fu? {
        FragmentsGood(gs[0].nal, 0, MaxFragment(c));
      }
    }
  }

  lemma {:induction false} FragmentsGood(nal: bytes, off: nat, max: nat)
    requires nal != [] && max > 0
    ensures PayloadsGood(D.Handler(), FuFrom(nal, off, max))
    ensures off < |nal| - 1 ==> FuFrom(nal, off, max) != []
    decreases |nal| - off
  {
    if off < |nal| - 1 {
      FragmentsGood(nal, off + FragmentSize(nal, off, max), max);
    }
  }

  /** One frame, sent and received. */
  lemma FrameReceived(seqNo: uint16, f: MediaFrame, s: State) returns (s': State)
    requires FrameSendable(f) && Resting(s)
    ensures Resting(s')
    ensures Run(D.Handler(), s, Arrived(PacketsFor(seqNo, f))) == (Answers(f), s')
  {
    hide PaddedSize, MaxFragment, Packetized, Plan, AllPayloads, Fold, Join, AnyIdr, Units, D.Dispatch;
    SendableUnits(f);
    var c, nals, payloads := f.config, Units(f.data), PayloadsFor(f);
    ArrivedPackets(c, seqNo, f.ts, payloads, true);
    PlanFits(nals, [], c.maxPayload);
    PlanNoneEmpty(nals, [], c.maxPayload);
    MaxFragmentPositive(c);
    FramePayloadsGood(Plan(nals, [], c.maxPayload), c);
    PlanKeepsNals(nals, [], c.maxPayload);
    FrameUndone(s.asm, nals, c);
    if nals == [] {
      NoUnits(c);
      s' := s;
    } else {
      PlanNotEmpty(nals, c.maxPayload);
      JoinNotEmpty(nals);
      FrameRun(D.Handler(), s, f.ts, payloads, true);
      s' := s.(asm := TakeFrame(Fold(D.Handler(), s.asm, payloads)), lastTimestamp := f.ts);
      assert [] + Join(nals) == Join(nals);
    }
  }

  /** A frame on the wire, its marker as it arrives. */
  function OnTheWire(f: MediaFrame, marked: bool): SentFrame
    requires FrameSendable(f)
  {
    SentFrame(f.ts, PayloadsFor(f), marked, Join(Units(f.data)), AnyIdr(Units(f.data)))
  }

  /** A fresh depacketizer makes exactly the frame of its payloads, in normal form. */
  lemma FrameAssembles(f: MediaFrame, marked: bool)
    requires FrameSendable(f) && Units(f.data) != []
    ensures Assembles(D.Handler(), OnTheWire(f, marked))
  {
    hide PaddedSize, MaxFragment, Plan, AllPayloads, Fold, Join, AnyIdr, Units, D.Dispatch;
    SendableUnits(f);
    var c, nals := f.config, Units(f.data);
    PlanFits(nals, [], c.maxPayload);
    PlanNoneEmpty(nals, [], c.maxPayload);
    MaxFragmentPositive(c);
    FramePayloadsGood(Plan(nals, [], c.maxPayload), c);
    FrameUndone(RESET.asm, nals, c);
    PlanNotEmpty(nals, c.maxPayload);
    JoinNotEmpty(nals);
    Empty(Join(nals));
  }

  function AllOnTheWire(fs: seq<MediaFrame>, marks: seq<bool>): seq<SentFrame>
    requires FramesSendable(fs) && |marks| == |fs|
  {
    seq(|fs|, i requires 0 <= i < |fs| => OnTheWire(fs[i], marks[i]))
  }

  /** Whichever markers are lost: if the timestamps of frames without a marker are not 0 and differ from the next,
      all frames come out, in order, in normal form and with the right key-frame flag, the last one perhaps only
      when the next packet arrives. */
  lemma LostMarkers(fs: seq<MediaFrame>, marks: seq<bool>)
    requires FramesSendable(fs) && |marks| == |fs| && (forall i | 0 <= i < |fs| :: Units(fs[i].data) != [])
    requires Delimited(AllOnTheWire(fs, marks))
    ensures var sent := AllOnTheWire(fs, marks);
            var (outs, end) := Run(D.Handler(), RESET, Stream(sent));
            HandedOut(outs) + StillHeld(end) == FramesOf(sent) && |StillHeld(end)| <= 1
  {
    hide FrameSendable, Assembles, OnTheWire, Run;
    var sent := AllOnTheWire(fs, marks);
    forall i | 0 <= i < |sent| ensures Assembles(D.Handler(), sent[i]) { FrameAssembles(fs[i], marks[i]); }
    FramesAreCut(D.Handler(), sent);
  }

  lemma PlanNotEmpty(nals: seq<bytes>, maxPayload: nat)
    requires nals != []
    ensures Plan(nals, [], maxPayload) != []
  {
    PlanKeepsNals(nals, [], maxPayload);
  }

  lemma JoinNotEmpty(nals: seq<bytes>)
    requires nals != []
    ensures Join(nals) != []
  {
  }

  /** RTP round trip: for every list of sendable frames, each with its own header extension or none, the
      parsed packets in order make the depacketizer answer exactly at each frame's last packet, with
      the frame's units in normal form and the right key-frame flag. */
  lemma RoundTrip(seqNo: uint16, fs: seq<MediaFrame>)
    requires FramesSendable(fs)
    ensures Run(D.Handler(), RESET, Arrived(Sent(seqNo, fs))).0 == AllAnswers(fs)
    ensures Resting(Run(D.Handler(), RESET, Arrived(Sent(seqNo, fs))).1)
  {
    RoundTripFrom(seqNo, fs, RESET);
  }

  lemma {:induction false} RoundTripFrom(seqNo: uint16, fs: seq<MediaFrame>, s: State)
    requires FramesSendable(fs) && Resting(s)
    ensures Run(D.Handler(), s, Arrived(Sent(seqNo, fs))).0 == AllAnswers(fs)
    ensures Resting(Run(D.Handler(), s, Arrived(Sent(seqNo, fs))).1)
    decreases |fs|
  {
    hide Resting, FrameSendable, PayloadsFor, PacketsFor, Answers, Run, Arrived;
    if fs == [] {
      NothingReceived(s);
    } else {
      var first, seqNo' := PacketsFor(seqNo, fs[0]), (seqNo + |PayloadsFor(fs[0])|) % 0x1_0000;
      var later := Sent(seqNo', fs[1..]);
      var s' := FrameReceived(seqNo, fs[0], s);
      RoundTripFrom(seqNo', fs[1..], s');
      ArrivedAppend(first, later);
      RunAppend(D.Handler(), s, Arrived(first), Arrived(later));
    }
  }

  lemma NothingReceived(s: State)
    ensures Run(D.Handler(), s, Arrived([])) == ([], s)
  {
  }
}
