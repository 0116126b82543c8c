/** The state machine that the H.264 and H.265 depacketizers share: packets are dispatched into a frame
    buffer, a marker or a new timestamp completes a frame, and a frame that completes while another is
    being returned waits in a pending slot (nxnet/rtp/rtp_h264_depacketizer.cpp:17-91 and
    nxnet/rtp/rtp_h265_depacketizer.cpp:17-92). */
module FrameAssembly {
  import opened Bytes

  /** What the payload handlers work on. */
  datatype Assembly = Assembly(frame: bytes, accumulator: bytes, inFragmentation: bool, hasKeyFrame: bool)

  datatype State = State(asm: Assembly, lastTimestamp: uint32, hasPending: bool, pending: bytes, pendingKey: bool)

  datatype Output = NoFrame | Frame(data: bytes, keyFrame: bool)

  /** A payload handler together with the payload length below which a packet is ignored. */
  datatype Codec = Codec(dispatch: (Assembly, bytes) -> Assembly, minPayload: nat)

  const RESET := State(Assembly([], [], false, false), 0, false, [], false)

  function TakeFrame(a: Assembly): Assembly {
    a.(frame := [], hasKeyFrame := false)
  }

  /** After a frame has been handed out: the packet is dispatched, and if it completes its own frame
      as well, that frame waits. */
  function DispatchBehindOutput(c: Codec, s: State, ts: uint32, marker: bool, payload: bytes): State {
    var a := c.dispatch(s.asm, payload);
    if marker && a.frame != []
    then State(TakeFrame(a), ts, true, a.frame, a.hasKeyFrame)
    else s.(asm := a, lastTimestamp := ts)
  }

  /** process_packet. */
  function Process(c: Codec, s: State, ts: uint32, marker: bool, payload: bytes): (State, Output) {
    if |payload| < c.minPayload then (s, NoFrame)
    else if s.lastTimestamp != 0 && ts != s.lastTimestamp && s.asm.frame != [] then
      (DispatchBehindOutput(c, s.(asm := TakeFrame(s.asm)), ts, marker, payload),
       Frame(s.asm.frame, s.asm.hasKeyFrame))
    else if s.hasPending then
      (DispatchBehindOutput(c, s.(hasPending := false, pending := []), ts, marker, payload),
       Frame(s.pending, s.pendingKey))
    else
      var a := c.dispatch(s.asm, payload);
      if marker && a.frame != []
      then (s.(asm := TakeFrame(a), lastTimestamp := ts), Frame(a.frame, a.hasKeyFrame))
      else (s.(asm := a, lastTimestamp := ts), NoFrame)
  }

  datatype Arrival = Arrival(ts: uint32, marker: bool, payload: bytes)

  /** All outputs of a run, and where it ends. */
  function Run(c: Codec, s: State, packets: seq<Arrival>): (seq<Output>, State)
    decreases packets
  {
    if packets == [] then ([], s) else
      var p := packets[0];
      var (s', out) := Process(c, s, p.ts, p.marker, p.payload);
      var (outs, end) := Run(c, s', packets[1..]);
      ([out] + outs, end)
  }

  // ------------------------------------------------------------------ conservation

  /** A handler that only appends to the frame, and whose other effects do not look at the frame. */
  ghost predicate AppendsOnly(c: Codec) {
    forall a: Assembly, payload: bytes, front: bytes, key: bool :: AppendsOn(c, a, payload, front, key)
  }

  /** What the handlers add for one packet, seen apart from the frame they add it to. */
  function Handled(c: Codec, a: Assembly, p: Arrival): Assembly {
    if |p.payload| < c.minPayload then TakeFrame(a) else c.dispatch(TakeFrame(a), p.payload)
  }

  predicate AppendsOn(c: Codec, a: Assembly, payload: bytes, front: bytes, key: bool) {
    var plain := c.dispatch(TakeFrame(a), payload);
    c.dispatch(a.(frame := front, hasKeyFrame := key), payload)
    == plain.(frame := front + plain.frame, hasKeyFrame := key || plain.hasKeyFrame)
  }

  /** What a handler would have assembled if no frame were ever taken out. */
  function Assembled(c: Codec, a: Assembly, packets: seq<Arrival>): Assembly
    decreases packets
  {
    if packets == [] then a else
      Assembled(c, if |packets[0].payload| < c.minPayload then a else c.dispatch(a, packets[0].payload), packets[1..])
  }

  function BytesOf(outs: seq<Output>): bytes {
    if outs == [] then [] else (if outs[0].Frame? then outs[0].data else []) + BytesOf(outs[1..])
  }

  function PendingBytes(s: State): bytes {
    if s.hasPending then s.pending else []
  }

  /** Nothing waits behind an unfinished frame. */
  predicate Ordered(s: State) {
    s.hasPending ==> s.asm.frame == []
  }

  /** One packet: what was held and what the handler adds is what goes out and what is held then. */
  lemma ProcessConserves(c: Codec, s: State, p: Arrival)
    requires AppendsOnly(c) && Ordered(s)
    ensures var (s', out) := Process(c, s, p.ts, p.marker, p.payload);
            var added := Handled(c, s.asm, p);
            && Ordered(s')
            && PendingBytes(s) + s.asm.frame + added.frame == BytesOf([out]) + PendingBytes(s') + s'.asm.frame
            && s'.asm.accumulator == added.accumulator && s'.asm.inFragmentation == added.inFragmentation
  {
    hide AppendsOnly, AppendsOn, BytesOf;
    DispatchOn(c, s.asm, p.payload);
    var (s', out) := Process(c, s, p.ts, p.marker, p.payload);
    var added := Handled(c, s.asm, p);
    BytesOfOne(out);
    assert forall x: bytes :: [] + x == x && x + [] == x;
  }

  lemma BytesOfOne(out: Output)
    ensures BytesOf([out]) == if out.Frame? then out.data else []
  {
    assert [out][1..] == [];
  }

  lemma DispatchOn(c: Codec, a: Assembly, payload: bytes)
    requires AppendsOnly(c)
    ensures var plain := c.dispatch(TakeFrame(a), payload);
            c.dispatch(a, payload)
            == plain.(frame := a.frame + plain.frame, hasKeyFrame := a.hasKeyFrame || plain.hasKeyFrame)
  {
    assert AppendsOn(c, a, payload, a.frame, a.hasKeyFrame);
    assert a.(frame := a.frame, hasKeyFrame := a.hasKeyFrame) == a;
  }

  /** Conservation over arbitrary packets, with any loss, order, markers and timestamps: the frames
      handed out, then the pending frame, then the unfinished frame, are exactly the bytes the
      handlers assembled, in order. Nothing is lost, doubled or swapped. */
  lemma RunConserves(c: Codec, packets: seq<Arrival>)
    requires AppendsOnly(c)
    ensures var (outs, end) := Run(c, RESET, packets);
            && Ordered(end)
            && BytesOf(outs) + PendingBytes(end) + end.asm.frame == Assembled(c, RESET.asm, packets).frame
  {
    RunConservesFrom(c, RESET, packets, []);
    var (outs, end) := Run(c, RESET, packets);
    assert Reference(c, RESET, packets, [], false) == Assembled(c, RESET.asm, packets);
    assert [] + BytesOf(outs) == BytesOf(outs);
  }

  lemma {:induction false} RunConservesFrom(c: Codec, s: State, packets: seq<Arrival>, gone: bytes)
    requires AppendsOnly(c) && Ordered(s)
    ensures var (outs, end) := Run(c, s, packets);
            forall key :: Reference(c, s, packets, gone, key).frame
                       == gone + BytesOf(outs) + PendingBytes(end) + end.asm.frame
    ensures Ordered(Run(c, s, packets).1)
    decreases packets
  {
    hide AppendsOnly, Process;
    if packets != [] {
      var p := packets[0];
      var (s', out) := Process(c, s, p.ts, p.marker, p.payload);
      ProcessConserves(c, s, p);
      var gone' := gone + BytesOf([out]);
      RunConservesFrom(c, s', packets[1..], gone');
      var (outs, end) := Run(c, s', packets[1..]);
      OutputFront(out, outs);
      assert gone + (BytesOf([out]) + BytesOf(outs)) == gone' + BytesOf(outs);
      forall key
        ensures Reference(c, s, packets, gone, key).frame
             == gone + BytesOf(Run(c, s, packets).0) + PendingBytes(end) + end.asm.frame
      {
        var key' := ReferenceStep(c, s, packets, gone, key);
      }
    } else {
      assert gone + [] == gone;
    }
  }

  /** The handler state that has assembled everything gone, pending and unfinished. */
  function Reference(c: Codec, s: State, packets: seq<Arrival>, gone: bytes, key: bool): Assembly {
    Assembled(c, Assembly(gone + PendingBytes(s) + s.asm.frame, s.asm.accumulator, s.asm.inFragmentation, key), packets)
  }

  lemma ReferenceStep(c: Codec, s: State, packets: seq<Arrival>, gone: bytes, key: bool) returns (key': bool)
    requires AppendsOnly(c) && Ordered(s) && packets != []
    ensures var p := packets[0];
            var (s', out) := Process(c, s, p.ts, p.marker, p.payload);
            Reference(c, s, packets, gone, key) == Reference(c, s', packets[1..], gone + BytesOf([out]), key')
  {
    hide Process;
    var p := packets[0];
    var (s', out) := Process(c, s, p.ts, p.marker, p.payload);
    ProcessConserves(c, s, p);
    var front := gone + PendingBytes(s) + s.asm.frame;
    var a := Assembly(front, s.asm.accumulator, s.asm.inFragmentation, key);
    assert AppendsOn(c, s.asm, p.payload, front, key);
    var added := Handled(c, s.asm, p);
    key' := key || added.hasKeyFrame;
    var held := PendingBytes(s) + s.asm.frame;
    assert front == gone + held;
    assert (gone + held) + added.frame == gone + (held + added.frame);
    assert gone + (BytesOf([out]) + PendingBytes(s') + s'.asm.frame)
        == gone + BytesOf([out]) + PendingBytes(s') + s'.asm.frame;
    assert front + [] == front;
  }

  lemma OutputFront(out: Output, outs: seq<Output>)
    ensures BytesOf([out] + outs) == BytesOf([out]) + BytesOf(outs)
  {
    assert ([out] + outs)[1..] == outs && [out][1..] == [];
  }
}
