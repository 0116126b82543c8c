/** Streams of whole frames through the pending-frame state machine, for any payload handler: where frames end, in
    which order they come out, and with which flag, whether their markers arrive or not. */
module FrameStream {
  import opened Bytes
  import opened Sequences
  import opened FrameAssembly

  /** Dispatching payloads one behind the other. */
  function Fold(c: Codec, a: Assembly, payloads: seq<bytes>): Assembly
    decreases payloads
  {
    if payloads == [] then a else Fold(c, c.dispatch(a, payloads[0]), payloads[1..])
  }

  lemma {:induction false} FoldAppend(c: Codec, a: Assembly, xs: seq<bytes>, ys: seq<bytes>)
    ensures Fold(c, a, xs + ys) == Fold(c, Fold(c, a, xs), ys)
    decreases xs
  {
    if xs == [] {
      assert xs + ys == ys;
    } else {
      assert (xs + ys)[0] == xs[0] && (xs + ys)[1..] == xs[1..] + ys;
      FoldAppend(c, c.dispatch(a, xs[0]), xs[1..], ys);
    }
  }

  lemma FoldFront(c: Codec, a: Assembly, p: bytes, rest: seq<bytes>)
    ensures Fold(c, a, [p] + rest) == Fold(c, c.dispatch(a, p), rest)
  {
    assert ([p] + rest)[0] == p && ([p] + rest)[1..] == rest;
  }

  /** No fragmented unit is under way. */
  predicate Idle(a: Assembly) {
    !a.inFragmentation && a.accumulator == []
  }

  /** Between frames that all had their marker the depacketizer holds nothing. */
  predicate Resting(s: State) {
    Idle(s.asm) && s.asm.frame == [] && !s.asm.hasKeyFrame && !s.hasPending
  }

  function Quiet(n: nat): (s: seq<Output>)
    ensures |s| == n
  {
    seq(n, i => NoFrame)
  }

  /** Packets of one timestamp, the marker on the last if set. */
  function Stamped(ts: uint32, payloads: seq<bytes>, mark: bool): seq<Arrival> {
    if payloads == [] then [] else
      [Arrival(ts, mark && |payloads| == 1, payloads[0])] + Stamped(ts, payloads[1..], mark)
  }

  predicate PayloadsGood(c: Codec, payloads: seq<bytes>) {
    forall i | 0 <= i < |payloads| :: |payloads[i]| >= c.minPayload
  }

  lemma {:induction false} RunAppend(c: Codec, s: State, a: seq<Arrival>, b: seq<Arrival>)
    ensures var (outs1, mid) := Run(c, s, a);
            var (outs2, end) := Run(c, mid, b);
            Run(c, s, a + b) == (outs1 + outs2, end)
    decreases a
  {
    hide Process;
    if a == [] {
      assert a + b == b;
      assert [] + Run(c, s, b).0 == Run(c, s, b).0;
    } else {
      assert (a + b)[0] == a[0] && (a + b)[1..] == a[1..] + b;
      var (s1, out) := Process(c, s, a[0].ts, a[0].marker, a[0].payload);
      RunAppend(c, s1, a[1..], b);
      var (outs1, mid) := Run(c, s1, a[1..]);
      assert [out] + (outs1 + Run(c, mid, b).0) == ([out] + outs1) + Run(c, mid, b).0;
    }
  }

  /** What the last packet of a frame brings out, and what stays. */
  function LastOutput(end: Assembly, marked: bool): Output {
    if marked then Frame(end.frame, end.hasKeyFrame) else NoFrame
  }

  function LeftBehind(end: Assembly, marked: bool): Assembly {
    if marked then TakeFrame(end) else end
  }

  /** The packets of one frame, from its first or from a later one on. */
  lemma {:induction false} FrameRun(c: Codec, s: State, ts: uint32, payloads: seq<bytes>, marked: bool)
    requires payloads != [] && PayloadsGood(c, payloads)
    requires !s.hasPending && (s.asm.frame == [] || s.lastTimestamp == ts || s.lastTimestamp == 0)
    requires Fold(c, s.asm, payloads).frame != []
    ensures var end := Fold(c, s.asm, payloads);
            Run(c, s, Stamped(ts, payloads, marked)) ==
            (Quiet(|payloads| - 1) + [LastOutput(end, marked)],
             s.(asm := LeftBehind(end, marked), lastTimestamp := ts))
    decreases |payloads|
  {
    var p, rest := payloads[0], payloads[1..];
    var packets := Stamped(ts, payloads, marked);
    var a1 := c.dispatch(s.asm, p);
    assert packets[1..] == Stamped(ts, rest, marked);
    if rest == [] {
      assert Fold(c, s.asm, payloads) == a1;
      var out := LastOutput(a1, marked);
      assert Quiet(0) + [out] == [out] && [out] + [] == [out];
      assert packets[1..] == [];
      assert Run(c, s, packets) == ([out], s.(asm := LeftBehind(a1, marked), lastTimestamp := ts));
    } else {
      FrameRun(c, s.(asm := a1, lastTimestamp := ts), ts, rest, marked);
      var last := LastOutput(Fold(c, s.asm, payloads), marked);
      assert [NoFrame] + Quiet(|rest| - 1) == Quiet(|payloads| - 1);
      assert [NoFrame] + (Quiet(|rest| - 1) + [last]) == Quiet(|payloads| - 1) + [last];
    }
  }

  // ------------------------------------------------------------------------ streams

  /** A frame on the wire: its payloads, whether the marker of its last packet is set, and the frame meant. */
  datatype SentFrame = SentFrame(ts: uint32, payloads: seq<bytes>, marked: bool, data: bytes, keyFrame: bool)

  /** A handler with nothing in hand makes the frame of the payloads and has nothing else in hand then. */
  predicate Assembles(c: Codec, f: SentFrame) {
    && f.payloads != [] && f.data != [] && PayloadsGood(c, f.payloads)
    && Fold(c, RESET.asm, f.payloads) == Assembly(f.data, [], false, f.keyFrame)
  }

  predicate AllAssemble(c: Codec, fs: seq<SentFrame>) {
    forall i | 0 <= i < |fs| :: Assembles(c, fs[i])
  }

  /** A frame without a marker has another timestamp than the one behind it, and a timestamp other than 0,
      which stands for none. */
  predicate Delimited(fs: seq<SentFrame>) {
    forall i | 0 <= i < |fs| && !fs[i].marked :: fs[i].ts != 0 && (i + 1 < |fs| ==> fs[i + 1].ts != fs[i].ts)
  }

  function Stream(fs: seq<SentFrame>): seq<Arrival> {
    if fs == [] then [] else Stamped(fs[0].ts, fs[0].payloads, fs[0].marked) + Stream(fs[1..])
  }

  function FramesOf(fs: seq<SentFrame>): seq<Output> {
    if fs == [] then [] else [Frame(fs[0].data, fs[0].keyFrame)] + FramesOf(fs[1..])
  }

  /** The frames among the outputs. */
  function HandedOut(outs: seq<Output>): seq<Output> {
    if outs == [] then [] else (if outs[0].Frame? then [outs[0]] else []) + HandedOut(outs[1..])
  }

  /** The frames still in the machine: the one that waits, and the one that nothing has ended yet. */
  function StillHeld(s: State): seq<Output> {
    (if s.hasPending then [Frame(s.pending, s.pendingKey)] else [])
    + (if s.asm.frame != [] then [Frame(s.asm.frame, s.asm.hasKeyFrame)] else [])
  }

  /** Between frames, the next of which has the given timestamp. */
  predicate Between(s: State, nextTs: uint32) {
    && Idle(s.asm) && Ordered(s)
    && (s.asm.frame == [] ==> !s.asm.hasKeyFrame)
    && (s.asm.frame != [] ==> s.lastTimestamp != 0 && s.lastTimestamp != nextTs)
  }

  lemma {:induction false} HandedOutAppend(a: seq<Output>, b: seq<Output>)
    ensures HandedOut(a + b) == HandedOut(a) + HandedOut(b)
  {
    if a == [] {
      Empty(b);
      Empty(HandedOut(b));
    } else {
      Front(a, b);
      HandedOutAppend(a[1..], b);
      Assoc(if a[0].Frame? then [a[0]] else [], HandedOut(a[1..]), HandedOut(b));
    }
  }

  lemma {:induction false} NothingHandedOut(n: nat)
    ensures HandedOut(Quiet(n)) == []
  {
    if n > 0 {
      assert Quiet(n)[1..] == Quiet(n - 1);
      NothingHandedOut(n - 1);
    }
  }

  lemma OneHandedOut(out: Output)
    ensures HandedOut([out]) == if out.Frame? then [out] else []
  {
    assert [out][1..] == [];
  }

  lemma HeldIsOne(s: State)
    requires Ordered(s)
    ensures |StillHeld(s)| <= 1
  {
  }

  /** What the machine says to the first packet of a frame: what it still held comes out, if anything. */
  lemma FirstPacket(c: Codec, s: State, ts: uint32, marker: bool, p: bytes)
    requires Between(s, ts) && |p| >= c.minPayload
    ensures var (s', out) := Process(c, s, ts, marker, p);
            var a := c.dispatch(RESET.asm, p);
            var done := marker && a.frame != [];
            if StillHeld(s) == [] then
              s'.asm == LeftBehind(a, done) && s'.lastTimestamp == ts && !s'.hasPending && out == LastOutput(a, done)
            else
              && [out] == StillHeld(s) && s'.asm == LeftBehind(a, done) && s'.lastTimestamp == ts
              && (s'.hasPending <==> done) && (done ==> s'.pending == a.frame && s'.pendingKey == a.hasKeyFrame)
  {
    assert TakeFrame(s.asm) == RESET.asm;
    assert s.asm.frame == [] ==> s.asm == RESET.asm;
    Empty(StillHeld(s));
  }

  /** One frame: what the machine held before it comes out, and then either the frame or it is held. */
  lemma FramePasses(c: Codec, s: State, f: SentFrame) returns (s': State, outs: seq<Output>)
    requires Between(s, f.ts) && Assembles(c, f)
    ensures Run(c, s, Stamped(f.ts, f.payloads, f.marked)) == (outs, s')
    ensures HandedOut(outs) + StillHeld(s') == StillHeld(s) + [Frame(f.data, f.keyFrame)]
    ensures Idle(s'.asm) && Ordered(s') && (s'.asm.frame == [] ==> !s'.asm.hasKeyFrame)
    ensures s'.asm.frame != [] ==> !f.marked && s'.lastTimestamp == f.ts
  {
    hide Process, Ordered, Between, Fold, PayloadsGood, StillHeld, HandedOut, Idle;
    var p, rest := f.payloads[0], f.payloads[1..];
    var packets := Stamped(f.ts, f.payloads, f.marked);
    var marker := f.marked && rest == [];
    assert packets[0] == Arrival(f.ts, marker, p) && packets[1..] == Stamped(f.ts, rest, f.marked);
    var (s1, out) := Process(c, s, f.ts, marker, p);
    if rest == [] {
      s', outs := s1, [out];
      assert Run(c, s1, packets[1..]) == ([], s1);
      Empty([out]);
      OneFramePasses(c, s, s', out, f);
    } else {
      var last := LastOutput(End(f), f.marked);
      s' := RestPasses(c, s, s1, out, f);
      outs := [out] + (Quiet(|rest| - 1) + [last]);
      HandedOutAppend([out], Quiet(|rest| - 1) + [last]);
      HandedOutAppend(Quiet(|rest| - 1), [last]);
      NothingHandedOut(|rest| - 1);
      Empty(HandedOut([last]));
    }
  }

  function End(f: SentFrame): Assembly {
    Assembly(f.data, [], false, f.keyFrame)
  }

  lemma RestPasses(c: Codec, s: State, s1: State, out: Output, f: SentFrame) returns (s': State)
    requires Between(s, f.ts) && Assembles(c, f) && |f.payloads| > 1
    requires Process(c, s, f.ts, false, f.payloads[0]) == (s1, out)
    ensures Run(c, s1, Stamped(f.ts, f.payloads[1..], f.marked))
         == (Quiet(|f.payloads| - 2) + [LastOutput(End(f), f.marked)], s')
    ensures HandedOut([out]) + HandedOut([LastOutput(End(f), f.marked)]) + StillHeld(s')
         == StillHeld(s) + [Frame(f.data, f.keyFrame)]
    ensures Idle(s'.asm) && Ordered(s') && (s'.asm.frame == [] ==> !s'.asm.hasKeyFrame)
    ensures s'.asm.frame != [] ==> !f.marked && s'.lastTimestamp == f.ts
  {
    hide Process, Run, Stamped, Fold, HandedOut, StillHeld;
    var rest := f.payloads[1..];
    FirstPacket(c, s, f.ts, false, f.payloads[0]);
    FoldFront(c, RESET.asm, f.payloads[0], rest);
    assert f.payloads == [f.payloads[0]] + rest;
    assert s1.asm == c.dispatch(RESET.asm, f.payloads[0]);
    FrameRun(c, s1, f.ts, rest, f.marked);
    s' := s1.(asm := LeftBehind(End(f), f.marked), lastTimestamp := f.ts);
    OneHandedOut(out);
    ThenTheFrame(s, out, s', f);
  }

  /** First what was held, then the frame, or the frame is what is held now. */
  lemma ThenTheFrame(s: State, out: Output, s': State, f: SentFrame)
    requires if StillHeld(s) == [] then out == NoFrame else [out] == StillHeld(s)
    requires s'.asm == LeftBehind(End(f), f.marked) && !s'.hasPending && f.data != []
    ensures HandedOut([out]) + HandedOut([LastOutput(End(f), f.marked)]) + StillHeld(s')
         == StillHeld(s) + [Frame(f.data, f.keyFrame)]
  {
    OneHandedOut(out);
    OneHandedOut(LastOutput(End(f), f.marked));
    assert StillHeld(s) != [] ==> StillHeld(s)[0].Frame?;
  }

  lemma OneFramePasses(c: Codec, s: State, s': State, out: Output, f: SentFrame)
    requires Between(s, f.ts) && Assembles(c, f) && |f.payloads| == 1
    requires Process(c, s, f.ts, f.marked, f.payloads[0]) == (s', out)
    ensures HandedOut([out]) + StillHeld(s') == StillHeld(s) + [Frame(f.data, f.keyFrame)]
    ensures Idle(s'.asm) && Ordered(s') && (s'.asm.frame == [] ==> !s'.asm.hasKeyFrame)
    ensures s'.asm.frame != [] ==> !f.marked && s'.lastTimestamp == f.ts
  {
    hide Process;
    FirstPacket(c, s, f.ts, f.marked, f.payloads[0]);
    assert f.payloads[1..] == [];
    assert Fold(c, RESET.asm, f.payloads) == c.dispatch(RESET.asm, f.payloads[0]);
    OneHandedOut(out);
  }

  /** For any handler and any stream of whole frames, whether their markers arrive or not: the frames that are
      handed out, and then the one that is still held, are exactly the frames sent, in order, each with its own
      keyframe flag.  A frame without a marker ends where the timestamp changes. */
  lemma FramesAreCut(c: Codec, fs: seq<SentFrame>)
    requires AllAssemble(c, fs) && Delimited(fs)
    ensures var (outs, end) := Run(c, RESET, Stream(fs));
            && HandedOut(outs) + StillHeld(end) == FramesOf(fs) && |StillHeld(end)| <= 1
            && Idle(end.asm)
  {
    FramesAreCutFrom(c, RESET, fs);
    var (outs, end) := Run(c, RESET, Stream(fs));
    assert StillHeld(RESET) == [];
    Empty(FramesOf(fs));
    HeldIsOne(end);
  }

  lemma {:induction false} FramesAreCutFrom(c: Codec, s: State, fs: seq<SentFrame>)
    requires AllAssemble(c, fs) && Delimited(fs)
    requires Idle(s.asm) && Ordered(s) && (s.asm.frame == [] ==> !s.asm.hasKeyFrame)
    requires fs != [] ==> Between(s, fs[0].ts)
    ensures var (outs, end) := Run(c, s, Stream(fs));
            && HandedOut(outs) + StillHeld(end) == StillHeld(s) + FramesOf(fs)
            && Idle(end.asm) && Ordered(end)
    decreases |fs|
  {
    hide Run, Assembles, StillHeld, Stamped;
    if fs == [] {
      NothingArrives(c, s);
      Empty(StillHeld(s));
    } else {
      var f, rest := fs[0], fs[1..];
      var first, later := Stamped(f.ts, f.payloads, f.marked), Stream(rest);
      var s', outs := FramePasses(c, s, f);
      assert Delimited(rest) by { assert forall i | 0 <= i < |rest| :: rest[i] == fs[i + 1]; }
      assert rest != [] ==> rest[0] == fs[1];
      FramesAreCutFrom(c, s', rest);
      RunAppend(c, s, first, later);
      var (outs', end) := Run(c, s', later);
      HandedOutAppend(outs, outs');
      Assoc(HandedOut(outs), HandedOut(outs'), StillHeld(end));
      Assoc(HandedOut(outs), StillHeld(s'), FramesOf(rest));
      Assoc(StillHeld(s), [Frame(f.data, f.keyFrame)], FramesOf(rest));
    }
  }

  lemma NothingArrives(c: Codec, s: State)
    ensures Run(c, s, []) == ([], s) && HandedOut([]) == []
  {
  }

  // ------------------------------------------------------------- when frames are merged

  lemma {:induction false} FoldBehind(c: Codec, a: Assembly, payloads: seq<bytes>)
    requires AppendsOnly(c)
    ensures var plain := Fold(c, TakeFrame(a), payloads);
            Fold(c, a, payloads)
            == plain.(frame := a.frame + plain.frame, hasKeyFrame := a.hasKeyFrame || plain.hasKeyFrame)
    decreases payloads
  {
    hide AppendsOnly;
    if payloads == [] {
      Empty(a.frame);
    } else {
      var p, rest := payloads[0], payloads[1..];
      DispatchOn(c, a, p);
      var plain := c.dispatch(TakeFrame(a), p);
      var behind := Fold(c, TakeFrame(plain), rest);
      FoldBehind(c, c.dispatch(a, p), rest);
      FoldBehind(c, plain, rest);
      Assoc(a.frame, plain.frame, behind.frame);
    }
  }

  /** Two frames of which the first has lost its marker are told apart exactly if its timestamp is not 0 and the
      second has another one; if not, they come out as one frame. */
  lemma ToldApartExactly(c: Codec, f: SentFrame, g: SentFrame)
    requires AppendsOnly(c) && Assembles(c, f) && Assembles(c, g) && !f.marked && g.marked
    ensures var (outs, end) := Run(c, RESET, Stream([f, g]));
            HandedOut(outs) + StillHeld(end) ==
            if f.ts != 0 && f.ts != g.ts then [Frame(f.data, f.keyFrame), Frame(g.data, g.keyFrame)]
            else [Frame(f.data + g.data, f.keyFrame || g.keyFrame)]
  {
    hide AppendsOnly, Run, Assembles, StillHeld, Stamped, HandedOut;
    TwoFrames(f, g);
    if f.ts != 0 && f.ts != g.ts {
      FramesAreCut(c, [f, g]);
    } else {
      Merged(c, f, g);
      RunAppend(c, RESET, Stamped(f.ts, f.payloads, false), Stamped(g.ts, g.payloads, true));
    }
  }

  lemma TwoFrames(f: SentFrame, g: SentFrame)
    ensures Stream([f, g]) == Stamped(f.ts, f.payloads, f.marked) + Stamped(g.ts, g.payloads, g.marked)
    ensures FramesOf([f, g]) == [Frame(f.data, f.keyFrame), Frame(g.data, g.keyFrame)]
  {
    hide Stamped;
    assert [f, g][1..] == [g] && [g][1..] == [];
    Empty(Stamped(g.ts, g.payloads, g.marked));
    assert Stream([g]) == Stamped(g.ts, g.payloads, g.marked);
    assert FramesOf([g]) == [Frame(g.data, g.keyFrame)];
  }

  lemma Merged(c: Codec, f: SentFrame, g: SentFrame)
    requires AppendsOnly(c) && Assembles(c, f) && Assembles(c, g)
    requires f.ts == 0 || f.ts == g.ts
    ensures var (outs1, mid) := Run(c, RESET, Stamped(f.ts, f.payloads, false));
            var (outs2, end) := Run(c, mid, Stamped(g.ts, g.payloads, true));
            HandedOut(outs1 + outs2) + StillHeld(end) == [Frame(f.data + g.data, f.keyFrame || g.keyFrame)]
  {
    hide AppendsOnly, Run, Stamped, HandedOut;
    FrameRun(c, RESET, f.ts, f.payloads, false);
    var mid := RESET.(asm := End(f), lastTimestamp := f.ts);
    FoldBehind(c, End(f), g.payloads);
    assert TakeFrame(End(f)) == RESET.asm;
    var whole := Assembly(f.data + g.data, [], false, f.keyFrame || g.keyFrame);
    FrameRun(c, mid, g.ts, g.payloads, true);
    var n, m, out := |f.payloads| - 1, |g.payloads| - 1, LastOutput(whole, true);
    HandedOutAppend(Quiet(n) + [NoFrame], Quiet(m) + [out]);
    HandedOutAppend(Quiet(n), [NoFrame]);
    HandedOutAppend(Quiet(m), [out]);
    NothingHandedOut(n);
    NothingHandedOut(m);
    OneHandedOut(NoFrame);
    OneHandedOut(out);
    Empty([out]);
  }

  // ---------------------------------------------------------------- all with markers

  /** What a machine at rest says to a frame with its marker: nothing until the last packet, then the frame. */
  function MarkerAnswer(f: SentFrame): seq<Output>
    requires f.payloads != []
  {
    Quiet(|f.payloads| - 1) + [Frame(f.data, f.keyFrame)]
  }

  lemma MarkedFrame(c: Codec, s: State, f: SentFrame) returns (s': State)
    requires Resting(s) && Assembles(c, f) && f.marked
    ensures Run(c, s, Stamped(f.ts, f.payloads, true)) == (MarkerAnswer(f), s') && Resting(s')
  {
    assert s.asm == RESET.asm;
    FrameRun(c, s, f.ts, f.payloads, true);
    s' := Run(c, s, Stamped(f.ts, f.payloads, true)).1;
  }

  function MarkerAnswers(fs: seq<SentFrame>): seq<Output>
    requires forall i | 0 <= i < |fs| :: fs[i].payloads != []
  {
    if fs == [] then [] else MarkerAnswer(fs[0]) + MarkerAnswers(fs[1..])
  }

  /** If all markers arrive, each frame comes out at its own last packet, whatever the timestamps. */
  lemma MarkedFramesAtOnce(c: Codec, fs: seq<SentFrame>)
    requires AllAssemble(c, fs) && forall i | 0 <= i < |fs| :: fs[i].marked
    ensures Run(c, RESET, Stream(fs)).0 == MarkerAnswers(fs) && Resting(Run(c, RESET, Stream(fs)).1)
  {
    MarkedFramesFrom(c, RESET, fs);
  }

  lemma {:induction false} MarkedFramesFrom(c: Codec, s: State, fs: seq<SentFrame>)
    requires Resting(s) && AllAssemble(c, fs) && forall i | 0 <= i < |fs| :: fs[i].marked
    ensures Run(c, s, Stream(fs)).0 == MarkerAnswers(fs) && Resting(Run(c, s, Stream(fs)).1)
    decreases |fs|
  {
    hide Run, Resting, Stamped, MarkerAnswer;
    if fs == [] {
      NothingArrives(c, s);
    } else {
      var s' := MarkedFrame(c, s, fs[0]);
      MarkedFramesFrom(c, s', fs[1..]);
      RunAppend(c, s, Stamped(fs[0].ts, fs[0].payloads, true), Stream(fs[1..]));
    }
  }
}
