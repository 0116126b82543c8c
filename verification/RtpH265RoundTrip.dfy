/** H.265 payloads as RFC 7798 has a sender make them, against the depacketizer. */
module RtpH265RoundTrip {
  import opened Bytes
  import opened Sequences
  import opened AnnexB
  import opened FrameAssembly
  import opened FrameStream
  import D = RtpH265Depacketizer

  // ------------------------------------------------------------------ the sender's side

  /** The six type bits of a payload header, section 1.1.4 of RFC 7798. */
  function TypeOf(header: byte): nat {
    header / 2 % 64
  }

  /** The first byte of a payload header with another type in it. */
  function WithType(header: byte, t: nat): byte
    requires t < 64
  {
    header / 128 * 128 + t * 2 + header % 2
  }

  /** A NAL unit that may be sent: its two header bytes, and a type that no packet structure has. */
  predicate Unit(nal: bytes) {
    |nal| >= 2 && TypeOf(nal[0]) <= 47
  }

  predicate AllUnits(nals: seq<bytes>) {
    forall i | 0 <= i < |nals| :: Unit(nals[i])
  }

  /** A unit alone, units aggregated behind a payload header of type 48, or one unit cut into pieces. */
  datatype Group = Single(nal: bytes) | Ap(header: bytes, nals: seq<bytes>) | Fu(nal: bytes, pieces: seq<bytes>)

  predicate Allowed(g: Group) {
    match g
    case Single(n) => Unit(n)
    case Ap(header, ns) =>
      && |header| == 2 && TypeOf(header[0]) == 48
      && ns != [] && AllUnits(ns) && (forall i | 0 <= i < |ns| :: |ns[i]| < 0x1_0000)
    case Fu(n, pieces) => Unit(n) && pieces != [] && Concat(pieces) == n[2..]
  }

  predicate AllAllowed(gs: seq<Group>) {
    forall i | 0 <= i < |gs| :: Allowed(gs[i])
  }

  function UnitsOfGroup(g: Group): seq<bytes> {
    match g case Single(n) => [n] case Ap(_, ns) => ns case Fu(n, _) => [n]
  }

  function UnitsOfGroups(gs: seq<Group>): seq<bytes> {
    if gs == [] then [] else UnitsOfGroup(gs[0]) + UnitsOfGroups(gs[1..])
  }

  /** Section 4.4.2: each unit behind its size. */
  function ApBody(nals: seq<bytes>): bytes
    requires forall i | 0 <= i < |nals| :: |nals[i]| < 0x1_0000
  {
    if nals == [] then [] else BE16(|nals[0]|) + (nals[0] + ApBody(nals[1..]))
  }

  /** Section 4.4.3: the unit's header bytes with type 49, the fragmentation header with start bit, end bit and the
      unit's type, and a piece of what is behind the unit's header. */
  function FuPayload(nal: bytes, piece: bytes, first: bool, last: bool): bytes
    requires Unit(nal)
  {
    [WithType(nal[0], 49), nal[1], (if first then 128 else 0) + (if last then 64 else 0) + TypeOf(nal[0])] + piece
  }

  function FuPayloads(nal: bytes, pieces: seq<bytes>, first: bool): seq<bytes>
    requires Unit(nal)
  {
    if pieces == [] then [] else
      [FuPayload(nal, pieces[0], first, |pieces| == 1)] + FuPayloads(nal, pieces[1..], false)
  }

  function Payloads(g: Group): seq<bytes>
    requires Allowed(g)
  {
    match g
    case Single(n) => [n]
    case Ap(header, ns) => [header + ApBody(ns)]
    case Fu(n, pieces) => FuPayloads(n, pieces, true)
  }

  function AllPayloads(gs: seq<Group>): seq<bytes>
    requires AllAllowed(gs)
  {
    if gs == [] then [] else Payloads(gs[0]) + AllPayloads(gs[1..])
  }

  /** Random access pictures (types 16 to 21) and parameter sets (32 to 34). */
  predicate IsKey(nal: bytes) {
    |nal| >= 2 && (TypeOf(nal[0]) in {16, 17, 18, 19, 20, 21} || TypeOf(nal[0]) in {32, 33, 34})
  }

  predicate AnyKey(nals: seq<bytes>) {
    exists i | 0 <= i < |nals| :: IsKey(nals[i])
  }

  // ------------------------------------------------------------------- the other side

  /** The assembly with whole units added. */
  function WithUnits(a: Assembly, nals: seq<bytes>): Assembly {
    a.(frame := a.frame + Join(nals), hasKeyFrame := a.hasKeyFrame || AnyKey(nals))
  }

  lemma AnyKeyFront(n: bytes, others: seq<bytes>)
    ensures AnyKey([n] + others) <==> IsKey(n) || AnyKey(others)
  {
    hide IsKey;
    var all := [n] + others;
    assert all[0] == n && forall i | 0 <= i < |others| :: all[i + 1] == others[i];
    if AnyKey(others) {
      var i :| 0 <= i < |others| && IsKey(others[i]);
      assert IsKey(all[i + 1]);
    }
  }

  lemma NothingJoined()
    ensures Join([]) == [] && !AnyKey([])
  {
  }

  lemma JoinOne(n: bytes)
    ensures Join([n]) == START_CODE + n && (AnyKey([n]) <==> IsKey(n))
  {
    assert [n][1..] == [] && [n][0] == n;
  }

  lemma {:induction false} JoinAppend(a: seq<bytes>, b: seq<bytes>)
    ensures Join(a + b) == Join(a) + Join(b)
    ensures AnyKey(a + b) <==> AnyKey(a) || AnyKey(b)
  {
    hide IsKey, AnyKey;
    if a == [] {
      Empty(b);
      Empty(Join(b));
      NothingJoined();
    } else {
      Front(a, b);
      JoinAppend(a[1..], b);
      Assoc(START_CODE + a[0], Join(a[1..]), Join(b));
      AnyKeyFront(a[0], a[1..]);
      AnyKeyFront(a[0], a[1..] + b);
      assert a == [a[0]] + a[1..] && a + b == [a[0]] + (a[1..] + b);
    }
  }

  lemma UnitAdded(a: Assembly, n: bytes)
    requires Unit(n)
    ensures D.AppendUnit(a, n) == WithUnits(a, [n])
  {
    JoinOne(n);
    Assoc(a.frame, START_CODE, n);
  }

  lemma TypesAgree(header: byte)
    ensures D.NalType(header) == TypeOf(header)
  {
  }

  lemma SingleUndone(a: Assembly, n: bytes)
    requires Unit(n)
    ensures D.Dispatch(a, n) == WithUnits(a, [n])
  {
    hide D.AppendUnit, WithUnits;
    UnitAdded(a, n);
  }

  /** Too short for the unit it announces. */
  predicate Torn(rest: bytes) {
    |rest| < 2 || |rest| - 2 < FromBE16(rest[..2])
  }

  /** An aggregate gives its whole units, and a torn rest behind them nothing. */
  lemma {:induction false} ApUndone(a: Assembly, nals: seq<bytes>, rest: bytes)
    requires AllUnits(nals) && (forall i | 0 <= i < |nals| :: |nals[i]| < 0x1_0000) && Torn(rest)
    ensures D.ApFrom(a, ApBody(nals) + rest) == WithUnits(a, nals)
    decreases |nals|
  {
    hide D.AppendUnit, BE16, FromBE16, Join, AnyKey, Unit;
    if nals == [] {
      NothingJoined();
      Empty(a.frame);
      Empty(rest);
    } else {
      var n, others := nals[0], nals[1..];
      var body, behind := ApBody(nals) + rest, ApBody(others) + rest;
      Assoc(BE16(|n|), n + ApBody(others), rest);
      Assoc(n, ApBody(others), rest);
      assert body[0..] == body;
      SplitTail(body, 0, BE16(|n|), n + behind);
      SplitTail(body, 2, n, behind);
      RoundTripBE16(|n|);
      UnitAdded(a, n);
      ApUndone(WithUnits(a, [n]), others, rest);
      JoinAppend([n], others);
      assert [n] + others == nals;
      Assoc(a.frame, Join([n]), Join(others));
    }
  }

  lemma AggregateUndone(a: Assembly, header: bytes, nals: seq<bytes>)
    requires Allowed(Ap(header, nals))
    ensures D.Dispatch(a, header + ApBody(nals)) == WithUnits(a, nals)
  {
    hide D.ApFrom, WithUnits, ApBody;
    var payload := header + ApBody(nals);
    assert payload[0] == header[0] && payload[2..] == ApBody(nals);
    ApUndone(a, nals, []);
    Empty(ApBody(nals));
  }

  /** What the depacketizer reads off the first three bytes of a fragment. */
  lemma FragmentFields(nal: bytes, piece: bytes, first: bool, last: bool)
    requires Unit(nal)
    ensures var payload := FuPayload(nal, piece, first, last);
            && |payload| == 3 + |piece| && payload[3..] == piece
            && D.NalType(payload[0]) == 49 && payload[1] == nal[1]
            && (payload[2] / 128 == 1 <==> first) && (payload[2] / 64 % 2 == 1 <==> last)
            && payload[2] % 64 == TypeOf(nal[0])
            && D.RebuiltByte(payload[0], TypeOf(nal[0])) == nal[0]
  {
    HeaderRebuilt(nal[0]);
  }

  lemma HeaderRebuilt(b: byte)
    requires TypeOf(b) <= 47
    ensures var h := WithType(b, 49);
            h / 2 % 64 == 49 && h / 128 == b / 128 && h % 2 == b % 2
    ensures b / 128 * 128 + b % 2 + 2 * TypeOf(b) == b
  {
    var top, low := b / 128, b % 2;
    assert b == b / 2 * 2 + low && b / 2 == b / 128 * 64 + b / 2 % 64;
    var h := WithType(b, 49);
    assert h == 2 * (64 * top + 49) + low;
    assert h / 2 == 64 * top + 49;
    assert h / 128 == h / 2 / 64;
  }

  /** One fragment: the first opens the unit, each adds its piece, the last closes the unit. */
  lemma FragmentDispatched(a: Assembly, nal: bytes, done: bytes, piece: bytes, first: bool, last: bool)
    requires Unit(nal)
    requires if first then done == [] else a.inFragmentation && a.accumulator == START_CODE + (nal[..2] + done)
    ensures D.Dispatch(a, FuPayload(nal, piece, first, last)) ==
            var key := a.hasKeyFrame || (first && IsKey(nal));
            var acc := START_CODE + (nal[..2] + (done + piece));
            if last then Assembly(a.frame + acc, [], false, key) else Assembly(a.frame, acc, true, key)
  {
    hide FuPayload, D.RebuiltByte;
    var payload := FuPayload(nal, piece, first, last);
    FragmentFields(nal, piece, first, last);
    assert nal[..2] == [nal[0], nal[1]];
    Empty(piece);
    Assoc(START_CODE, nal[..2] + done, piece);
    Assoc(nal[..2], done, piece);
    Empty(nal[..2]);
  }

  /** The fragments of a unit from some piece on, the earlier ones being in the accumulator. */
  lemma {:induction false} FuUndone(a: Assembly, nal: bytes, done: bytes, pieces: seq<bytes>, first: bool)
    requires Unit(nal) && pieces != [] && done + Concat(pieces) == nal[2..]
    requires if first then done == [] else a.inFragmentation && a.accumulator == START_CODE + (nal[..2] + done)
    ensures Fold(D.Handler(), a, FuPayloads(nal, pieces, first))
         == Assembly(a.frame + (START_CODE + nal), [], false, a.hasKeyFrame || (first && IsKey(nal)))
    decreases |pieces|
  {
    hide FuPayload, D.Dispatch, Fold, IsKey;
    var piece, rest := pieces[0], pieces[1..];
    var last := rest == [];
    var payload := FuPayload(nal, piece, first, last);
    FragmentDispatched(a, nal, done, piece, first, last);
    var a1 := D.Dispatch(a, payload);
    FoldFront(D.Handler(), a, payload, FuPayloads(nal, rest, false));
    Assoc(done, piece, Concat(rest));
    if last {
      Empty(done + piece);
      assert nal[..2] + nal[2..] == nal;
      NothingFolded(a1);
    } else {
      FuUndone(a1, nal, done + piece, rest, false);
    }
  }

  lemma NothingFolded(a: Assembly)
    ensures Fold(D.Handler(), a, []) == a
  {
  }

  lemma OneFolded(a: Assembly, payload: bytes)
    ensures Fold(D.Handler(), a, [payload]) == D.Dispatch(a, payload)
  {
    assert [payload][1..] == [];
  }

  lemma GroupUndone(a: Assembly, g: Group)
    requires Allowed(g) && Idle(a)
    ensures Fold(D.Handler(), a, Payloads(g)) == WithUnits(a, UnitsOfGroup(g))
  {
    hide D.Dispatch, Fold, ApBody, FuPayloads, Join, AnyKey, IsKey;
    match g
    case Single(n) =>
      SingleUndone(a, n);
      OneFolded(a, n);
    case Ap(header, ns) =>
      AggregateUndone(a, header, ns);
      OneFolded(a, header + ApBody(ns));
    case Fu(n, pieces) =>
      Empty(Concat(pieces));
      FuUndone(a, n, [], pieces, true);
      JoinOne(n);
  }

  lemma {:induction false} GroupsUndone(a: Assembly, gs: seq<Group>)
    requires AllAllowed(gs) && Idle(a)
    ensures Fold(D.Handler(), a, AllPayloads(gs)) == WithUnits(a, UnitsOfGroups(gs))
    decreases |gs|
  {
    hide Allowed, Payloads, Join, AnyKey, UnitsOfGroup, Fold;
    if gs == [] {
      NothingJoined();
      NothingFolded(a);
      Empty(a.frame);
    } else {
      var first, others := UnitsOfGroup(gs[0]), UnitsOfGroups(gs[1..]);
      GroupUndone(a, gs[0]);
      GroupsUndone(WithUnits(a, first), gs[1..]);
      FoldAppend(D.Handler(), a, Payloads(gs[0]), AllPayloads(gs[1..]));
      JoinAppend(first, others);
      Assoc(a.frame, Join(first), Join(others));
    }
  }

  // --------------------------------------------------------------------- whole streams

  /** A frame as a sender puts it on the wire: any grouping of its units that the standard allows. */
  datatype MediaFrame = MediaFrame(ts: uint32, groups: seq<Group>)

  predicate FrameSendable(f: MediaFrame) {
    f.groups != [] && AllAllowed(f.groups)
  }

  predicate FramesSendable(fs: seq<MediaFrame>) {
    forall i | 0 <= i < |fs| :: FrameSendable(fs[i])
  }

  function OnTheWire(f: MediaFrame, marked: bool): SentFrame
    requires FrameSendable(f)
  {
    var nals := UnitsOfGroups(f.groups);
    SentFrame(f.ts, AllPayloads(f.groups), marked, Join(nals), AnyKey(nals))
  }

  function AllOnTheWire(fs: seq<MediaFrame>, marks: seq<bool>): seq<SentFrame>
    requires FramesSendable(fs) && |marks| == |fs|
  {
    seq(|fs|, i requires 0 <= i < |fs| => OnTheWire(fs[i], marks[i]))
  }

  lemma {:induction false} FragmentsAreLong(nal: bytes, pieces: seq<bytes>, first: bool)
    requires Unit(nal)
    ensures PayloadsGood(D.Handler(), FuPayloads(nal, pieces, first)) && |FuPayloads(nal, pieces, first)| == |pieces|
    decreases |pieces|
  {
    if pieces != [] { FragmentsAreLong(nal, pieces[1..], false); }
  }

  lemma {:induction false} PayloadsAreLong(gs: seq<Group>)
    requires AllAllowed(gs)
    ensures PayloadsGood(D.Handler(), AllPayloads(gs)) && |AllPayloads(gs)| >= |gs| && |UnitsOfGroups(gs)| >= |gs|
    decreases |gs|
  {
    hide ApBody, FuPayloads;
    if gs != [] {
      PayloadsAreLong(gs[1..]);
      assert Allowed(gs[0]);
      if gs[0].Fu? { FragmentsAreLong(gs[0].nal, gs[0].pieces, true); }
    }
  }

  /** A fresh depacketizer makes of the payloads exactly the join of the frame's units, a keyframe exactly if one of
      them is a random access picture or a parameter set. */
  lemma FrameAssembles(f: MediaFrame, marked: bool)
    requires FrameSendable(f)
    ensures Assembles(D.Handler(), OnTheWire(f, marked))
  {
    hide AllPayloads, UnitsOfGroups, AnyKey, Fold, AllAllowed, D.Dispatch;
    PayloadsAreLong(f.groups);
    GroupsUndone(RESET.asm, f.groups);
    Empty(Join(UnitsOfGroups(f.groups)));
  }

  lemma AllAssembled(fs: seq<MediaFrame>, marks: seq<bool>)
    requires FramesSendable(fs) && |marks| == |fs|
    ensures AllAssemble(D.Handler(), AllOnTheWire(fs, marks))
  {
    hide FrameSendable, Assembles, OnTheWire;
    forall i | 0 <= i < |fs| ensures Assembles(D.Handler(), AllOnTheWire(fs, marks)[i]) {
      FrameAssembles(fs[i], marks[i]);
    }
  }

  /** Every stream of H.265 frames, however their units are grouped and cut: each frame comes out at its marker, as
      the join of its units and with the right keyframe flag. */
  lemma RoundTrip(fs: seq<MediaFrame>)
    requires FramesSendable(fs)
    ensures var sent := AllOnTheWire(fs, seq(|fs|, i => true));
            && (forall i | 0 <= i < |sent| :: sent[i].payloads != [])
            && Run(D.Handler(), RESET, Stream(sent)).0 == MarkerAnswers(sent)
            && Resting(Run(D.Handler(), RESET, Stream(sent)).1)
  {
    hide FrameSendable, Fold, PayloadsGood, Run, MarkerAnswers, Resting, Stream;
    var marks := seq(|fs|, i => true);
    var sent := AllOnTheWire(fs, marks);
    AllAssembled(fs, marks);
    forall i | 0 <= i < |sent| ensures sent[i].payloads != [] && sent[i].marked {
      assert Assembles(D.Handler(), sent[i]);
    }
    MarkedFramesAtOnce(D.Handler(), sent);
  }

  /** Whichever markers are lost, as for H.264. */
  lemma LostMarkers(fs: seq<MediaFrame>, marks: seq<bool>)
    requires FramesSendable(fs) && |marks| == |fs| && Delimited(AllOnTheWire(fs, marks))
    ensures var sent := AllOnTheWire(fs, marks);
            var (outs, end) := Run(D.Handler(), RESET, Stream(sent));
            HandedOut(outs) + StillHeld(end) == FramesOf(sent) && |StillHeld(end)| <= 1
  {
    hide FrameSendable, Assembles, OnTheWire, Run;
    AllAssembled(fs, marks);
    FramesAreCut(D.Handler(), AllOnTheWire(fs, marks));
  }

  /** Types above the fragmentation units' and payloads without a whole header change nothing. */
  lemma OthersAreIgnored(a: Assembly, payload: bytes)
    requires |payload| < 2 || TypeOf(payload[0]) > 49
    ensures D.Dispatch(a, payload) == a
  {
  }

  /** When the first fragment of a unit is lost, the others leave nothing behind. */
  lemma {:induction false} WithoutItsFirst(a: Assembly, nal: bytes, pieces: seq<bytes>)
    requires Unit(nal) && !a.inFragmentation
    ensures Fold(D.Handler(), a, FuPayloads(nal, pieces, false)) == a
    decreases |pieces|
  {
    hide FuPayload;
    if pieces != [] {
      FragmentFields(nal, pieces[0], false, |pieces| == 1);
      WithoutItsFirst(a, nal, pieces[1..]);
      FoldFront(D.Handler(), a, FuPayload(nal, pieces[0], false, |pieces| == 1), FuPayloads(nal, pieces[1..], false));
    }
  }
}
