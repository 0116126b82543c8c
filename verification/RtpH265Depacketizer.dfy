/** Reassembling H.265 frames from RTP payloads, section 4.4 of RFC 7798
    (nxnet/rtp/rtp_h265_depacketizer.cpp): the second user of the pending-frame state machine. */
module RtpH265Depacketizer {
  import opened Bytes
  import opened AnnexB
  import opened FrameAssembly
  import opened Sequences

  const TYPE_AP := 48
  const TYPE_FU := 49

  // ---------------------------------------------------------------- specification

  function NalType(firstByte: byte): nat {
    firstByte / 2 % 64
  }

  /** Random access pictures and parameter sets. */
  predicate IsKeyFrameNal(t: nat) {
    16 <= t <= 21 || 32 <= t <= 34
  }

  predicate IsKeyFrameUnit(nal: bytes) {
    |nal| >= 2 && IsKeyFrameNal(NalType(nal[0]))
  }

  function AppendUnit(a: Assembly, nal: bytes): Assembly {
    a.(frame := a.frame + START_CODE + nal, hasKeyFrame := a.hasKeyFrame || IsKeyFrameUnit(nal))
  }

  /** The first byte of a fragmented unit: forbidden bit and layer bit of the payload header, type of
      the fragmentation header. */
  function RebuiltByte(first: byte, t: nat): byte
    requires t < 64
  {
    first / 128 * 128 + first % 2 + 2 * t
  }

  /** A fragment with the start bit opens the unit. */
  function FuOpened(a: Assembly, payload: bytes): Assembly
    requires |payload| >= 3
  {
    var t := payload[2] % 64;
    if payload[2] / 128 == 1
    then Assembly(a.frame, START_CODE + [RebuiltByte(payload[0], t), payload[1]], true,
                  a.hasKeyFrame || IsKeyFrameNal(t))
    else a
  }

  /** The fragment's body is accumulated; one with the end bit closes the unit. */
  function FuContinued(a: Assembly, payload: bytes): Assembly
    requires |payload| >= 3
  {
    if !a.inFragmentation then a else
      var acc := a.accumulator + payload[3..];
      if payload[2] / 64 % 2 == 1 then Assembly(a.frame + acc, [], false, a.hasKeyFrame) else a.(accumulator := acc)
  }

  function Fu(a: Assembly, payload: bytes): Assembly {
    if |payload| < 3 then a else FuContinued(FuOpened(a, payload), payload)
  }

  function ApFrom(a: Assembly, rest: bytes): Assembly
    decreases |rest|
  {
    if |rest| < 2 then a else
      var n := FromBE16(rest[..2]);
      if 2 + n > |rest| then a else ApFrom(AppendUnit(a, rest[2..2 + n]), rest[2 + n..])
  }

  /** dispatch_nal. */
  function Dispatch(a: Assembly, payload: bytes): Assembly {
    if |payload| < 2 then a else
      var t := NalType(payload[0]);
      if t == TYPE_FU then Fu(a, payload)
      else if t == TYPE_AP then ApFrom(a, payload[2..])
      else if t <= 47 then AppendUnit(a, payload)
      else a
  }

  function Handler(): Codec { Codec(Dispatch, 2) }

  // --------------------------------------------------------------- implementation

  class RtpH265Depacketizer {
    var accumulator: bytes
    var frameBuffer: bytes
    var pendingFrame: bytes
    var lastSeq: uint16
    var lastTimestamp: uint32
    var inFragmentation: bool
    var frameHasKeyFrame: bool
    var hasPending: bool
    var pendingKeyFrame: bool

    ghost function Asm(): Assembly
      reads this
    {
      Assembly(frameBuffer, accumulator, inFragmentation, frameHasKeyFrame)
    }

    ghost function View(): State
      reads this
    {
      State(Asm(), lastTimestamp, hasPending, if hasPending then pendingFrame else [], pendingKeyFrame)
    }

    constructor ()
      ensures View() == RESET
    {
      accumulator, frameBuffer, pendingFrame := [], [], [];
      lastSeq, lastTimestamp := 0, 0;
      inFragmentation, frameHasKeyFrame, hasPending, pendingKeyFrame := false, false, false, false;
    }

    method Reset()
      modifies this
      ensures View() == RESET
    {
      accumulator, frameBuffer, pendingFrame := [], [], [];
      lastSeq, lastTimestamp := 0, 0;
      inFragmentation, frameHasKeyFrame, hasPending, pendingKeyFrame := false, false, false, false;
    }

    method HandleSingleNal(payload: bytes)
      modifies `frameBuffer, `frameHasKeyFrame
      ensures Asm() == if |payload| < 2 then old(Asm()) else AppendUnit(old(Asm()), payload)
    {
      if |payload| < 2 {
        return;
      }
      if IsKeyFrameNal(NalType(payload[0])) {
        frameHasKeyFrame := true;
      }
      frameBuffer := frameBuffer + START_CODE;
      frameBuffer := frameBuffer + payload;
    }

    method HandleFu(payload: bytes)
      modifies `accumulator, `frameBuffer, `inFragmentation, `frameHasKeyFrame
      ensures Asm() == Fu(old(Asm()), payload)
    {
      if |payload| < 3 {
        return;
      }
      var fuHeader := payload[2];
      var start, end, nalType := fuHeader / 128 == 1, fuHeader / 64 % 2 == 1, fuHeader % 64;
      if start {
        accumulator := [];
        inFragmentation := true;
        accumulator := accumulator + START_CODE;
        accumulator := accumulator + [RebuiltByte(payload[0], nalType)];
        accumulator := accumulator + [payload[1]];
        assert accumulator == START_CODE + [RebuiltByte(payload[0], nalType), payload[1]];
        if IsKeyFrameNal(nalType) {
          frameHasKeyFrame := true;
        }
      }
      if !inFragmentation {
        return;
      }
      accumulator := accumulator + payload[3..];
      if end {
        inFragmentation := false;
        frameBuffer := frameBuffer + accumulator;
        accumulator := [];
      }
    }

    method HandleAp(payload: bytes)
      requires |payload| >= 2
      modifies `frameBuffer, `frameHasKeyFrame
      ensures Asm() == ApFrom(old(Asm()), payload[2..])
    {
      var offset := 2;
      while offset + 2 <= |payload|
        invariant 2 <= offset <= |payload|
        invariant ApFrom(Asm(), payload[offset..]) == ApFrom(old(Asm()), payload[2..])
        decreases |payload| - offset
      {
        ghost var rest, before := payload[offset..], Asm();
        var nalSize := FromBE16(payload[offset..offset + 2]);
        assert rest[..2] == payload[offset..offset + 2];
        offset := offset + 2;
        if offset + nalSize > |payload| {
          assert ApFrom(before, rest) == before;
          return;
        }
        var nal := payload[offset..offset + nalSize];
        assert nal == rest[2..2 + nalSize];
        if |nal| >= 2 {
          if IsKeyFrameNal(NalType(nal[0])) {
            frameHasKeyFrame := true;
          }
        }
        frameBuffer := frameBuffer + START_CODE;
        frameBuffer := frameBuffer + nal;
        offset := offset + nalSize;
        assert payload[offset..] == rest[2 + nalSize..];
        assert Asm() == AppendUnit(before, nal);
      }
    }

    method DispatchNal(payload: bytes)
      modifies `accumulator, `frameBuffer, `inFragmentation, `frameHasKeyFrame
      ensures Asm() == Dispatch(old(Asm()), payload)
    {
      hide Fu, ApFrom;
      if |payload| < 2 {
        return;
      }
      var nalType := NalType(payload[0]);
      if nalType == TYPE_FU {
        HandleFu(payload);
      } else if nalType == TYPE_AP {
        HandleAp(payload);
      } else if nalType <= 47 {
        HandleSingleNal(payload);
      }
    }

    /** Moves a completed frame into the pending slot. */
    method KeepPending(marker: bool)
      modifies `pendingFrame, `frameBuffer, `pendingKeyFrame, `frameHasKeyFrame, `hasPending
      ensures View() == if marker && old(frameBuffer) != []
                        then State(TakeFrame(old(Asm())), lastTimestamp, true, old(frameBuffer), old(frameHasKeyFrame))
                        else old(View())
    {
      if marker && frameBuffer != [] {
        pendingFrame, frameBuffer := frameBuffer, pendingFrame;
        pendingKeyFrame := frameHasKeyFrame;
        frameBuffer := [];
        frameHasKeyFrame := false;
        hasPending := true;
      }
    }

    /** Swaps the completed frame into the caller's buffer. */
    method CompleteFrame(given: bytes) returns (outFrame: bytes, outKeyFrame: bool)
      modifies `frameBuffer, `frameHasKeyFrame
      ensures outFrame == old(frameBuffer) && outKeyFrame == old(frameHasKeyFrame)
      ensures View() == old(View()).(asm := TakeFrame(old(Asm())))
    {
      outFrame, frameBuffer := frameBuffer, given;
      outKeyFrame := frameHasKeyFrame;
      frameBuffer := [];
      frameHasKeyFrame := false;
    }

    method AddPacket(ts: uint32, seqNo: uint16, payload: bytes)
      modifies `lastTimestamp, `lastSeq, `accumulator, `frameBuffer, `inFragmentation, `frameHasKeyFrame
      ensures View() == old(View()).(asm := Dispatch(old(Asm()), payload), lastTimestamp := ts)
    {
      hide Dispatch;
      lastTimestamp := ts;
      DispatchNal(payload);
      lastSeq := seqNo;
    }

    /** process_packet; the caller's frame buffer is swapped in and out. */
    method ProcessPacket(ts: uint32, seqNo: uint16, marker: bool, payload: bytes, given: bytes, givenKey: bool)
      returns (done: bool, outFrame: bytes, outKeyFrame: bool)
      modifies this
      ensures var (s, out) := Process(Handler(), old(View()), ts, marker, payload);
              && View() == s
              && (if out.Frame? then done && outFrame == out.data && outKeyFrame == out.keyFrame
                  else !done && outFrame == given && outKeyFrame == givenKey)
    {
      hide Dispatch;
      done, outFrame, outKeyFrame := false, given, givenKey;
      if |payload| < 2 {
        return;
      }
      if lastTimestamp != 0 && ts != lastTimestamp && frameBuffer != [] {
        outFrame, outKeyFrame := CompleteFrame(outFrame);
        AddPacket(ts, seqNo, payload);
        KeepPending(marker);
        return true, outFrame, outKeyFrame;
      }
      if hasPending {
        outFrame, pendingFrame := pendingFrame, outFrame;
        outKeyFrame := pendingKeyFrame;
        hasPending := false;
        AddPacket(ts, seqNo, payload);
        KeepPending(marker);
        return true, outFrame, outKeyFrame;
      }
      AddPacket(ts, seqNo, payload);
      if marker && frameBuffer != [] {
        outFrame, outKeyFrame := CompleteFrame(outFrame);
        return true, outFrame, outKeyFrame;
      }
    }
  }

  // -------------------------------------------------------------------- properties

  lemma UnitAppended(a: Assembly, nal: bytes, front: bytes, key: bool)
    ensures AppendUnit(a.(frame := front, hasKeyFrame := key), nal)
         == a.(frame := front + (START_CODE + nal), hasKeyFrame := key || IsKeyFrameUnit(nal))
    ensures AppendUnit(TakeFrame(a), nal) == a.(frame := START_CODE + nal, hasKeyFrame := IsKeyFrameUnit(nal))
  {
    hide IsKeyFrameUnit;
    Assoc(front, START_CODE, nal);
    Empty(START_CODE);
  }

  lemma {:induction false} ApAppends(a: Assembly, rest: bytes, front: bytes, key: bool)
    ensures var plain := ApFrom(TakeFrame(a), rest);
            ApFrom(a.(frame := front, hasKeyFrame := key), rest)
            == plain.(frame := front + plain.frame, hasKeyFrame := key || plain.hasKeyFrame)
    decreases |rest|
  {
    hide AppendUnit, IsKeyFrameUnit, FromBE16;
    if |rest| >= 2 && 2 + FromBE16(rest[..2]) <= |rest| {
      var n := FromBE16(rest[..2]);
      var nal, others := rest[2..2 + n], rest[2 + n..];
      var unit, isKey := START_CODE + nal, IsKeyFrameUnit(nal);
      UnitAppended(a, nal, front, key);
      ApAppends(a, others, front + unit, key || isKey);
      ApAppends(a, others, unit, isKey);
      Assoc(front, unit, ApFrom(TakeFrame(a), others).frame);
    } else {
      Empty(front);
    }
  }

  lemma OpenedAppends(a: Assembly, payload: bytes, front: bytes, key: bool)
    requires |payload| >= 3
    ensures var plain := FuOpened(TakeFrame(a), payload);
            && plain.frame == []
            && FuOpened(a.(frame := front, hasKeyFrame := key), payload)
               == plain.(frame := front, hasKeyFrame := key || plain.hasKeyFrame)
  {
  }

  lemma ContinuedAppends(a: Assembly, payload: bytes, front: bytes, key: bool)
    requires |payload| >= 3 && a.frame == []
    ensures var plain := FuContinued(a, payload);
            && plain.hasKeyFrame == a.hasKeyFrame
            && FuContinued(a.(frame := front, hasKeyFrame := key), payload)
               == plain.(frame := front + plain.frame, hasKeyFrame := key)
  {
    Empty(front);
    Empty(a.accumulator + payload[3..]);
  }

  lemma FuAppends(a: Assembly, payload: bytes, front: bytes, key: bool)
    ensures var plain := Fu(TakeFrame(a), payload);
            Fu(a.(frame := front, hasKeyFrame := key), payload)
            == plain.(frame := front + plain.frame, hasKeyFrame := key || plain.hasKeyFrame)
  {
    hide FuOpened, FuContinued;
    if |payload| < 3 {
      Empty(front);
    } else {
      OpenedAppends(a, payload, front, key);
      var plain := FuOpened(TakeFrame(a), payload);
      ContinuedAppends(plain, payload, front, key || plain.hasKeyFrame);
    }
  }

  /** The H.265 handlers only append, so RunConserves speaks about them. */
  lemma HandlerAppendsOnly()
    ensures AppendsOnly(Handler())
  {
    hide Fu, ApFrom, IsKeyFrameUnit, AppendUnit;
    forall a: Assembly, payload: bytes, front: bytes, key: bool
      ensures AppendsOn(Handler(), a, payload, front, key)
    {
      Empty(front);
      if |payload| >= 2 {
        FuAppends(a, payload, front, key);
        ApAppends(a, payload[2..], front, key);
        UnitAppended(a, payload, front, key);
      }
    }
  }

  /** Depacketizer conservation for H.265. */
  lemma H265Conserves(packets: seq<Arrival>)
    ensures var (outs, end) := Run(Handler(), RESET, packets);
            && Ordered(end)
            && BytesOf(outs) + PendingBytes(end) + end.asm.frame == Assembled(Handler(), RESET.asm, packets).frame
  {
    HandlerAppendsOnly();
    RunConserves(Handler(), packets);
  }
}
