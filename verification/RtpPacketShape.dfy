/** The shape of what the packetizer sends: sizes, marker bits, sequence numbers and fragment flags. */
module RtpPacketShape {
  import opened Bytes
  import opened Sequences
  import opened AnnexB
  import opened RtpHeaderExtension
  import opened RtpPacket
  import opened RtpH264Packetizer
  import opened RtpRoundTrip

  // -------------------------------------------------------------------- fragments

  predicate StartBit(payload: bytes)
    requires |payload| >= 2
  {
    payload[1] / 128 == 1
  }

  predicate EndBit(payload: bytes)
    requires |payload| >= 2
  {
    payload[1] / 64 % 2 == 1
  }

  /** One FU-A payload of a unit. */
  predicate IsFragmentOf(payload: bytes, nal: bytes, max: nat) {
    && nal != [] && 2 < |payload| <= max + 2
    && payload[0] % 32 == NAL_FU_A && payload[0] / 32 == nal[0] / 32 % 4
    && payload[1] % 32 == NalType(nal)
  }

  function Bodies(payloads: seq<bytes>): bytes
    requires forall i | 0 <= i < |payloads| :: |payloads[i]| >= 2
  {
    if payloads == [] then [] else payloads[0][2..] + Bodies(payloads[1..])
  }

  lemma FragmentShape(nal: bytes, off: nat, size: nat, max: nat)
    requires |nal| >= 2 && 0 < size <= max && off + size <= |nal| - 1
    ensures var payload := FuPayload(nal, off, size);
            && IsFragmentOf(payload, nal, max)
            && (StartBit(payload) <==> off == 0)
            && (EndBit(payload) <==> off + size == |nal| - 1)
            && payload[2..] == nal[1 + off..1 + off + size]
  {
  }

  lemma {:induction false} FragmentsFrom(nal: bytes, off: nat, max: nat)
    requires |nal| >= 2 && max > 0 && off <= |nal| - 1
    ensures var ps := FuFrom(nal, off, max);
            && (forall i | 0 <= i < |ps| ::
                  && IsFragmentOf(ps[i], nal, max)
                  && (StartBit(ps[i]) <==> off == 0 && i == 0)
                  && (EndBit(ps[i]) <==> i == |ps| - 1))
            && Bodies(ps) == nal[1 + off..]
            && (ps == [] <==> off == |nal| - 1)
    decreases |nal| - off
  {
    hide FuPayload, IsFragmentOf, StartBit, EndBit;
    if off < |nal| - 1 {
      var size := FragmentSize(nal, off, max);
      FragmentShape(nal, off, size, max);
      FragmentsFrom(nal, off + size, max);
      var first, rest := FuPayload(nal, off, size), FuFrom(nal, off + size, max);
      LongEnough(first, nal, max);
      assert nal[1 + off..] == nal[1 + off..1 + off + size] + nal[1 + off + size..];
      assert ([first] + rest)[1..] == rest;
    }
  }

  lemma LongEnough(payload: bytes, nal: bytes, max: nat)
    requires IsFragmentOf(payload, nal, max)
    ensures |payload| >= 2
  {
  }

  /** Fragmentation, section 5.8 of RFC 6184: a unit above the payload limit makes at least two fragments,
      the start bit is on the first and the end bit on the last and nowhere else, so never both on one,
      every fragment names type and importance of the unit, and the bodies together are the unit
      behind its header byte. */
  lemma FragmentationIsSound(c: Config, nal: bytes)
    requires Usable(c) && |nal| > c.maxPayload
    ensures 0 < MaxFragment(c)
    ensures var ps := FuFrom(nal, 0, MaxFragment(c));
            && |ps| >= 2
            && (forall i | 0 <= i < |ps| ::
                  && IsFragmentOf(ps[i], nal, MaxFragment(c))
                  && (StartBit(ps[i]) <==> i == 0)
                  && (EndBit(ps[i]) <==> i == |ps| - 1))
            && Bodies(ps) == nal[1..]
  {
    hide FuFrom, IsFragmentOf, StartBit, EndBit, PaddedSize, MaxFragment, Bodies;
    MaxFragmentPositive(c);
    LargeUnitFragments(c, nal);
    FragmentsFrom(nal, 0, MaxFragment(c));
  }

  /** Every fragment but the last fills its packet; beside an extension that leaves no room it carries one byte. */
  lemma FragmentsFill(c: Config, nal: bytes, i: nat)
    requires Usable(c) && |nal| > c.maxPayload
    requires 0 < MaxFragment(c) && i + 1 < |FuFrom(nal, 0, MaxFragment(c))|
    ensures var payload, extSize := FuFrom(nal, 0, MaxFragment(c))[i], SerializedSize(c.ext) % 0x1_0000;
            if extSize + 2 < c.maxPayload then |payload| + extSize == c.maxPayload else |payload| == 3
  {
    hide PaddedSize, ContentSize, FuFrom;
    FragmentsFillFrom(nal, 0, MaxFragment(c), i);
  }

  lemma {:induction false} FragmentsFillFrom(nal: bytes, off: nat, max: nat, i: nat)
    requires |nal| >= 2 && max > 0 && off <= |nal| - 1 && i + 1 < |FuFrom(nal, off, max)|
    ensures |FuFrom(nal, off, max)[i]| == max + 2
    decreases |nal| - off
  {
    if i > 0 {
      FragmentsFillFrom(nal, off + FragmentSize(nal, off, max), max, i - 1);
    }
  }

  // ------------------------------------------------------------------- aggregation

  /** Section 5.7.1 of RFC 6184: an aggregate has type 24 and the highest importance of its units, each of which
      is behind its size. */
  lemma AggregateHeader(nals: seq<bytes>)
    requires nals != [] && NoneEmpty(nals)
    ensures var header := StapPayload(nals)[0];
            && header / 128 == 0 && header % 32 == 24
            && (forall i | 0 <= i < |nals| :: nals[i][0] / 32 % 4 <= header / 32)
            && (exists i | 0 <= i < |nals| :: nals[i][0] / 32 % 4 == header / 32)
  {
    hide StapBody, MaxNri;
    HighestImportance(nals);
    var i := MostImportant(nals);
  }

  lemma {:induction false} HighestImportance(nals: seq<bytes>)
    requires NoneEmpty(nals)
    ensures forall i | 0 <= i < |nals| :: nals[i][0] / 32 % 4 * 32 <= MaxNri(nals)
  {
    if nals != [] {
      var init := nals[..|nals| - 1];
      HighestImportance(init);
      forall i | 0 <= i < |nals| ensures nals[i][0] / 32 % 4 * 32 <= MaxNri(nals) {
        if i < |init| { assert nals[i] == init[i]; }
      }
    }
  }

  lemma {:induction false} MostImportant(nals: seq<bytes>) returns (i: nat)
    requires nals != [] && NoneEmpty(nals)
    ensures i < |nals| && nals[i][0] / 32 % 4 * 32 == MaxNri(nals)
  {
    var init, last := nals[..|nals| - 1], nals[|nals| - 1];
    i := |nals| - 1;
    if Nri(last) <= MaxNri(init) && init != [] {
      i := MostImportant(init);
    }
  }

  /** No unit that still fitted into the aggregate before it is sent elsewhere. */
  predicate NoRoomBetween(g: Group, next: Group, maxPayload: nat) {
    !g.Fu? && !next.Fu? ==> NalsOf(next) != [] && 1 + |StapBody(NalsOf(g) + [NalsOf(next)[0]])| > maxPayload
  }

  predicate IsGreedy(gs: seq<Group>, maxPayload: nat) {
    forall i | 0 <= i < |gs| - 1 :: NoRoomBetween(gs[i], gs[i + 1], maxPayload)
  }

  /** The first group begins with the units that wait. */
  predicate BeginsWith(gs: seq<Group>, waiting: seq<bytes>) {
    waiting != [] ==> gs != [] && !gs[0].Fu? && waiting <= NalsOf(gs[0])
  }

  lemma {:induction false} GreedyFrom(nals: seq<bytes>, waiting: seq<bytes>, maxPayload: nat)
    ensures IsGreedy(Plan(nals, waiting, maxPayload), maxPayload)
    ensures BeginsWith(Plan(nals, waiting, maxPayload), waiting)
    decreases |nals|
  {
    hide StapSize, StapBody, NoRoomBetween;
    if nals != [] {
      var n, rest := nals[0], nals[1..];
      if |n| > maxPayload {
        GreedyFrom(rest, [], maxPayload);
        var later := Plan(rest, [], maxPayload);
        FragmentedIsApart([Fu(n)], later, maxPayload);
        FragmentedIsApart(FlushGroup(waiting), [Fu(n)] + later, maxPayload);
        Assoc(FlushGroup(waiting), [Fu(n)], later);
      } else if waiting == [] {
        GreedyFrom(rest, [n], maxPayload);
      } else if StapSize(waiting) + |n| + 2 <= maxPayload {
        GreedyFrom(rest, waiting + [n], maxPayload);
        assert waiting <= waiting + [n];
      } else {
        GreedyFrom(rest, [n], maxPayload);
        var later := Plan(rest, [n], maxPayload);
        StapBodySize(waiting);
        StapBodySnoc(waiting, n);
        GroupIsFull(waiting, n, later, maxPayload);
      }
    }
  }

  /** Beside a fragmented unit there is nothing to show. */
  lemma FragmentedIsApart(front: seq<Group>, later: seq<Group>, maxPayload: nat)
    requires |front| <= 1 && IsGreedy(later, maxPayload)
    requires front != [] && later != [] ==> front[0].Fu? || later[0].Fu?
    ensures IsGreedy(front + later, maxPayload)
  {
    hide StapBody;
    var all := front + later;
    forall i | 0 <= i < |all| - 1 ensures NoRoomBetween(all[i], all[i + 1], maxPayload) {
      if i >= |front| {
        assert NoRoomBetween(later[i - |front|], later[i + 1 - |front|], maxPayload);
      }
    }
  }

  lemma GroupIsFull(waiting: seq<bytes>, n: bytes, later: seq<Group>, maxPayload: nat)
    requires waiting != [] && IsGreedy(later, maxPayload) && BeginsWith(later, [n])
    requires 1 + |StapBody(waiting + [n])| > maxPayload
    ensures IsGreedy(FlushGroup(waiting) + later, maxPayload)
    ensures BeginsWith(FlushGroup(waiting) + later, waiting)
  {
    hide StapBody;
    var g := FlushGroup(waiting)[0];
    var all := FlushGroup(waiting) + later;
    assert NalsOf(g) == waiting && NalsOf(later[0])[0] == [n][0];
    forall i | 0 <= i < |all| - 1 ensures NoRoomBetween(all[i], all[i + 1], maxPayload) {
      if i > 0 { assert NoRoomBetween(later[i - 1], later[i], maxPayload); }
    }
  }

  /** Units that fit together are sent together, and only what is above the limit is fragmented. */
  lemma UnitsShareAggregates(nals: seq<bytes>, maxPayload: nat)
    ensures var gs := Plan(nals, [], maxPayload);
            && IsGreedy(gs, maxPayload)
            && OnlyLargeCut(gs, maxPayload)
  {
    hide Plan;
    GreedyFrom(nals, [], maxPayload);
    OnlyLargeAreCut(nals, [], maxPayload);
  }

  predicate OnlyLargeCut(gs: seq<Group>, maxPayload: nat) {
    forall i | 0 <= i < |gs| && gs[i].Fu? :: |gs[i].nal| > maxPayload
  }

  lemma {:induction false} OnlyLargeAreCut(nals: seq<bytes>, waiting: seq<bytes>, maxPayload: nat)
    ensures OnlyLargeCut(Plan(nals, waiting, maxPayload), maxPayload)
    decreases |nals|
  {
    hide StapSize;
    if nals != [] {
      var n, rest, front := nals[0], nals[1..], FlushGroup(waiting);
      if |n| > maxPayload {
        OnlyLargeAreCut(rest, [], maxPayload);
        assert OnlyLargeCut(front + [Fu(n)], maxPayload);
        assert OnlyLargeCut(front + [Fu(n)] + Plan(rest, [], maxPayload), maxPayload);
      } else if waiting != [] && StapSize(waiting) + |n| + 2 <= maxPayload {
        OnlyLargeAreCut(rest, waiting + [n], maxPayload);
      } else {
        OnlyLargeAreCut(rest, [n], maxPayload);
      }
    }
  }

  // ---------------------------------------------------------------------- packets

  predicate PayloadsFit(payloads: seq<bytes>, maxPayload: nat) {
    forall i | 0 <= i < |payloads| :: |payloads[i]| <= maxPayload
  }

  lemma {:induction false} StapBodySize(nals: seq<bytes>)
    ensures |StapBody(nals)| + 1 == StapSize(nals)
  {
    if nals != [] {
      var init, last := nals[..|nals| - 1], nals[|nals| - 1];
      StapBodySize(init);
      StapBodySnoc(init, last);
      assert nals == init + [last];
    }
  }

  lemma {:induction false} StapBodySnoc(nals: seq<bytes>, n: bytes)
    ensures |StapBody(nals + [n])| == |StapBody(nals)| + 2 + |n|
  {
    if nals == [] {
      assert [n][1..] == [];
    } else {
      assert (nals + [n])[1..] == nals[1..] + [n];
      StapBodySnoc(nals[1..], n);
    }
  }

  lemma GroupPayloadsFit(g: Group, c: Config)
    requires Usable(c) && GroupFits(g, c.maxPayload) && NoneEmpty(NalsOf(g)) && 0 < MaxFragment(c)
    ensures PayloadsFit(Payloads(g, MaxFragment(c)), c.maxPayload)
  {
    hide PaddedSize, FuFrom, IsFragmentOf, Bodies;
    match g {
      case Single(n) =>
      case Stap(ns) => StapBodySize(ns);
      case Fu(n) =>
        FragmentationIsSound(c, n);
        var ps := FuFrom(n, 0, MaxFragment(c));
        forall i | 0 <= i < |ps| ensures |ps[i]| <= c.maxPayload { FragmentSizeBound(ps[i], n, c); }
    }
  }

  lemma FragmentSizeBound(payload: bytes, nal: bytes, c: Config)
    requires Usable(c) && IsFragmentOf(payload, nal, MaxFragment(c))
    ensures |payload| <= c.maxPayload
  {
    hide PaddedSize;
  }

  lemma {:induction false} PlanPayloadsFit(gs: seq<Group>, c: Config)
    requires Usable(c) && GroupsFit(gs, c.maxPayload) && AllNoneEmpty(gs) && 0 < MaxFragment(c)
    ensures PayloadsFit(AllPayloads(gs, MaxFragment(c)), c.maxPayload)
  {
    hide PaddedSize, MaxFragment, Payloads, GroupFits;
    if gs != [] {
      GroupPayloadsFit(gs[0], c);
      PlanPayloadsFit(gs[1..], c);
    }
  }

  predicate AnyLonger(ps: seq<bytes>, limit: int) {
    exists i | 0 <= i < |ps| :: |ps[i]| > limit
  }

  /** With the extension, a payload of this group makes a packet above the size setting: single units and
      aggregates are sized without the extension, and a fragment has at least three bytes. */
  predicate TooLong(c: Config, g: Group)
    requires AllAcceptable(c.ext)
  {
    match g
    case Single(n) => |n| + SerializedSize(c.ext) > c.maxPayload
    case Stap(ns) => StapSize(ns) + SerializedSize(c.ext) > c.maxPayload
    case Fu(n) => 3 + SerializedSize(c.ext) > c.maxPayload
  }

  predicate AnyTooLong(c: Config, gs: seq<Group>)
    requires AllAcceptable(c.ext)
  {
    exists j | 0 <= j < |gs| :: TooLong(c, gs[j])
  }

  lemma RoomExactly(c: Config)
    requires Usable(c)
    ensures MaxFragment(c) + 2 + SerializedSize(c.ext) > c.maxPayload <==> 3 + SerializedSize(c.ext) > c.maxPayload
  {
    hide PaddedSize, ContentSize;
  }

  /** The first fragment is the longest. */
  lemma LongestFragment(nal: bytes, max: nat)
    requires 0 < max < |nal| - 1
    ensures var ps := FuFrom(nal, 0, max); ps != [] && |ps[0]| == max + 2
  {
  }

  lemma GroupTooLong(g: Group, c: Config)
    requires Usable(c) && GroupFits(g, c.maxPayload) && NoneEmpty(NalsOf(g)) && 0 < MaxFragment(c)
    ensures AnyLonger(Payloads(g, MaxFragment(c)), c.maxPayload - SerializedSize(c.ext)) <==> TooLong(c, g)
  {
    hide PaddedSize, ContentSize, SerializedSize, FuFrom, Bodies, StapSize, StapBody, MaxNri, MaxFragment;
    var ps, limit := Payloads(g, MaxFragment(c)), c.maxPayload - SerializedSize(c.ext);
    match g {
      case Single(n) => OneLonger(n, limit);
      case Stap(ns) =>
        StapBodySize(ns);
        OneLonger(StapPayload(ns), limit);
      case Fu(n) =>
        FragmentationIsSound(c, n);
        MaxFragmentPositive(c);
        RoomExactly(c);
        LongestFragment(n, MaxFragment(c));
        if TooLong(c, g) {
          assert |ps[0]| > limit;
        }
    }
  }

  lemma OneLonger(p: bytes, limit: int)
    ensures AnyLonger([p], limit) <==> |p| > limit
  {
    assert [p][0] == p;
  }

  lemma LongerAppend(a: seq<bytes>, b: seq<bytes>, limit: int)
    ensures AnyLonger(a + b, limit) <==> AnyLonger(a, limit) || AnyLonger(b, limit)
  {
    assert forall i | 0 <= i < |a| :: (a + b)[i] == a[i];
    assert forall i | 0 <= i < |b| :: (a + b)[|a| + i] == b[i];
    if AnyLonger(a + b, limit) {
      var i :| 0 <= i < |a + b| && |(a + b)[i]| > limit;
      assert if i < |a| then |a[i]| > limit else |b[i - |a|]| > limit;
    }
  }

  lemma TooLongFront(c: Config, gs: seq<Group>)
    requires AllAcceptable(c.ext) && gs != []
    ensures AnyTooLong(c, gs) <==> TooLong(c, gs[0]) || AnyTooLong(c, gs[1..])
  {
    hide TooLong;
    if AnyTooLong(c, gs) {
      var j :| 0 <= j < |gs| && TooLong(c, gs[j]);
      if j > 0 { assert gs[1..][j - 1] == gs[j]; }
    }
    if AnyTooLong(c, gs[1..]) {
      var j :| 0 <= j < |gs[1..]| && TooLong(c, gs[1..][j]);
      assert gs[j + 1] == gs[1..][j];
    }
  }

  lemma {:induction false} PlanTooLong(gs: seq<Group>, c: Config)
    requires Usable(c) && GroupsFit(gs, c.maxPayload) && AllNoneEmpty(gs) && 0 < MaxFragment(c)
    ensures AnyLonger(AllPayloads(gs, MaxFragment(c)), c.maxPayload - SerializedSize(c.ext)) <==> AnyTooLong(c, gs)
  {
    hide PaddedSize, ContentSize, SerializedSize, MaxFragment, Payloads, GroupFits, AnyLonger, TooLong, AnyTooLong;
    if gs == [] {
      NothingTooLong(c, c.maxPayload - SerializedSize(c.ext));
    } else {
      GroupTooLong(gs[0], c);
      PlanTooLong(gs[1..], c);
      LongerAppend(Payloads(gs[0], MaxFragment(c)), AllPayloads(gs[1..], MaxFragment(c)),
                   c.maxPayload - SerializedSize(c.ext));
      TooLongFront(c, gs);
    }
  }

  lemma NothingTooLong(c: Config, limit: int)
    requires AllAcceptable(c.ext)
    ensures !AnyLonger([], limit) && !AnyTooLong(c, [])
  {
  }

  /** Sizes and marks of the packets of one frame: without an extension no packet exceeds the size setting,
      with one it exceeds it by no more than the extension; the marker is on the last packet and on no
      other; sequence numbers count up modulo 2^16. */
  lemma PacketsOfFrame(seqNo: uint16, f: MediaFrame)
    requires FrameSendable(f)
    ensures var c, ps := f.config, PacketsFor(seqNo, f);
            forall i | 0 <= i < |ps| ::
              && RTP_HEADER_SIZE <= |ps[i]| <= RTP_HEADER_SIZE + SerializedSize(c.ext) + c.maxPayload
              && View(ps[i]).ViewOk?
              && (View(ps[i]).header.marker <==> i == |ps| - 1)
              && View(ps[i]).header.sequenceNumber == (seqNo + i) % 0x1_0000
              && View(ps[i]).header.timestamp == f.ts
  {
    hide PaddedSize, View, ContentSize, Units, Serialized, SerializedSize, PayloadsFor, AllSendable;
    PayloadsOfFrame(f);
    var c, ps, payloads := f.config, PacketsFor(seqNo, f), PayloadsFor(f);
    forall i | 0 <= i < |ps|
      ensures RTP_HEADER_SIZE <= |ps[i]| <= RTP_HEADER_SIZE + SerializedSize(c.ext) + c.maxPayload
      ensures View(ps[i]).ViewOk?
      ensures View(ps[i]).header.marker <==> i == |ps| - 1
      ensures View(ps[i]).header.sequenceNumber == (seqNo + i) % 0x1_0000
      ensures View(ps[i]).header.timestamp == f.ts
    {
      PacketIsParsed(c, i == |ps| - 1, (seqNo + i) % 0x1_0000, f.ts, payloads[i]);
      PacketSize(c, i == |ps| - 1, (seqNo + i) % 0x1_0000, f.ts, payloads[i]);
    }
  }

  lemma PacketSize(c: Config, marker: bool, seqNo: uint16, ts: uint32, payload: bytes)
    requires AllAcceptable(c.ext)
    ensures |PacketHeader(c, marker, seqNo, ts) + payload| == RTP_HEADER_SIZE + SerializedSize(c.ext) + |payload|
  {
    hide Serialized, SerializedSize;
    SerializedLength(c.ext);
  }

  lemma PayloadsOfFrame(f: MediaFrame)
    requires FrameSendable(f)
    ensures PayloadsFit(PayloadsFor(f), f.config.maxPayload)
    ensures AnyLonger(PayloadsFor(f), f.config.maxPayload - SerializedSize(f.config.ext))
       <==> AnyTooLong(f.config, Plan(Units(f.data), [], f.config.maxPayload))
  {
    hide PaddedSize, MaxFragment, Plan, AllPayloads, ContentSize, SerializedSize, Units, AnyLonger, AnyTooLong,
      PayloadsFit;
    var c, nals := f.config, Units(f.data);
    PlanFits(nals, [], c.maxPayload);
    SendableUnits(f);
    PlanNoneEmpty(nals, [], c.maxPayload);
    MaxFragmentPositive(c);
    PlanPayloadsFit(Plan(nals, [], c.maxPayload), c);
    PlanTooLong(Plan(nals, [], c.maxPayload), c);
  }

  /** Exactly when a frame has a packet above the size setting: one of its groups is too long for the room that
      the extension leaves.  Without an extension that never happens. */
  lemma OversizedExactly(seqNo: uint16, f: MediaFrame)
    requires FrameSendable(f)
    ensures AnyLonger(PacketsFor(seqNo, f), RTP_HEADER_SIZE + f.config.maxPayload)
       <==> AnyTooLong(f.config, Plan(Units(f.data), [], f.config.maxPayload))
    ensures f.config.ext == [] ==> !AnyLonger(PacketsFor(seqNo, f), RTP_HEADER_SIZE + f.config.maxPayload)
  {
    hide PaddedSize, ContentSize, SerializedSize, Units, Plan, AnyTooLong, PacketHeader, PayloadsFor, AllSendable;
    PayloadsOfFrame(f);
    var c, ps, payloads := f.config, PacketsFor(seqNo, f), PayloadsFor(f);
    var limit := c.maxPayload - SerializedSize(c.ext);
    forall i | 0 <= i < |ps|
      ensures |ps[i]| > RTP_HEADER_SIZE + c.maxPayload <==> |payloads[i]| > limit
    {
      PacketSize(c, i == |ps| - 1, (seqNo + i) % 0x1_0000, f.ts, payloads[i]);
    }
    SameSizes(ps, RTP_HEADER_SIZE + c.maxPayload, payloads, limit);
    if c.ext == [] {
      NoExtensionNoSize();
      assert !AnyLonger(payloads, limit);
    }
  }

  lemma NoExtensionNoSize()
    ensures SerializedSize([]) == 0
  {
  }

  lemma SameSizes(a: seq<bytes>, x: int, b: seq<bytes>, y: int)
    requires |a| == |b| && forall i | 0 <= i < |a| :: |a[i]| > x <==> |b[i]| > y
    ensures AnyLonger(a, x) <==> AnyLonger(b, y)
  {
    if AnyLonger(a, x) {
      var i :| 0 <= i < |a| && |a[i]| > x;
      assert |b[i]| > y;
    }
    if AnyLonger(b, y) {
      var i :| 0 <= i < |b| && |b[i]| > y;
      assert |a[i]| > x;
    }
  }

  lemma OnePerPayload(seqNo: uint16, f: MediaFrame)
    requires FrameSendable(f)
    ensures |PacketsFor(seqNo, f)| == |PayloadsFor(f)|
  {
    hide PacketHeader, PayloadsFor;
  }

  /** Across frames: the i-th packet of a run carries the i-th sequence number, modulo 2^16, whatever extensions
      the frames have. */
  lemma {:induction false} SequenceNumbers(seqNo: uint16, fs: seq<MediaFrame>, i: nat)
    requires FramesSendable(fs) && i < |Sent(seqNo, fs)|
    ensures View(Sent(seqNo, fs)[i]).ViewOk?
    ensures View(Sent(seqNo, fs)[i]).header.sequenceNumber == (seqNo + i) % 0x1_0000
    decreases |fs|
  {
    hide View, PacketsFor, PayloadsFor, FrameSendable;
    var n := |PayloadsFor(fs[0])|;
    PacketsOfFrame(seqNo, fs[0]);
    OnePerPayload(seqNo, fs[0]);
    if i >= n {
      var later := (seqNo + n) % 0x1_0000;
      assert Sent(seqNo, fs)[i] == Sent(later, fs[1..])[i - n];
      NumbersAdd(seqNo, n, i - n);
      SequenceNumbers(later, fs[1..], i - n);
    }
  }
}
