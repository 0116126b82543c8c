/** Reassembling H.264 frames from RTP payloads (nxnet/rtp/rtp_h264_depacketizer.cpp). */
module RtpH264Depacketizer {
  import opened Bytes
  import opened AnnexB
  import opened FrameAssembly
  import opened Sequences

  const TYPE_IDR := 5
  const TYPE_STAP_A := 24
  const TYPE_FU_A := 28

  // ---------------------------------------------------------------- specification

  function AppendUnit(a: Assembly, nal: bytes, isKey: bool): Assembly {
    a.(frame := a.frame + START_CODE + nal, hasKeyFrame := a.hasKeyFrame || isKey)
  }

  /** A fragment with the start bit opens the unit. */
  function FuOpened(a: Assembly, payload: bytes): Assembly
    requires |payload| >= 2
  {
    var nalType := payload[1] % 32;
    if payload[1] / 128 == 1
    then Assembly(a.frame, START_CODE + [payload[0] / 32 * 32 + nalType], true, a.hasKeyFrame || nalType == TYPE_IDR)
    else a
  }

  /** The fragment's body is accumulated; one with the end bit closes the unit. */
  function FuContinued(a: Assembly, payload: bytes): Assembly
    requires |payload| >= 2
  {
    if !a.inFragmentation then a else
      var acc := a.accumulator + payload[2..];
      if payload[1] / 64 % 2 == 1 then Assembly(a.frame + acc, [], false, a.hasKeyFrame) else a.(accumulator := acc)
  }

  function FuA(a: Assembly, payload: bytes): Assembly {
    if |payload| < 2 then a else FuContinued(FuOpened(a, payload), payload)
  }

  function StapFrom(a: Assembly, rest: bytes): Assembly
    decreases |rest|
  {
    if |rest| < 2 then a else
      var n := FromBE16(rest[..2]);
      if 2 + n > |rest| then a else
        var nal := rest[2..2 + n];
        StapFrom(AppendUnit(a, nal, nal != [] && nal[0] % 32 == TYPE_IDR), rest[2 + n..])
  }

  /** dispatch_nal. */
  function Dispatch(a: Assembly, payload: bytes): Assembly {
    if payload == [] then a else
      var t := payload[0] % 32;
      if 1 <= t <= 23 then AppendUnit(a, payload, t == TYPE_IDR)
      else if t == TYPE_FU_A then FuA(a, payload)
      else if t == TYPE_STAP_A then StapFrom(a, payload[1..])
      else a
  }

  function Handler(): Codec { Codec(Dispatch, 1) }

  // --------------------------------------------------------------- implementation

  class RtpH264Depacketizer {
    var accumulator: bytes
    var frameBuffer: bytes
    var pendingFrame: bytes
    var lastSeq: uint16
    var lastTimestamp: uint32
    var inFragmentation: bool
    var frameHasKeyFrame: bool
    var hasPending: bool
    var pendingKeyFrame: bool

    ghost function Asm(): Assembly
      reads this
    {
      Assembly(frameBuffer, accumulator, inFragmentation, frameHasKeyFrame)
    }

    ghost function View(): State
      reads this
    {
      State(Asm(), lastTimestamp, hasPending, if hasPending then pendingFrame else [], pendingKeyFrame)
    }

    constructor ()
      ensures View() == RESET
    {
      accumulator, frameBuffer, pendingFrame := [], [], [];
      lastSeq, lastTimestamp := 0, 0;
      inFragmentation, frameHasKeyFrame, hasPending, pendingKeyFrame := false, false, false, false;
    }

    method Reset()
      modifies this
      ensures View() == RESET
    {
      accumulator, frameBuffer, pendingFrame := [], [], [];
      lastSeq, lastTimestamp := 0, 0;
      inFragmentation, frameHasKeyFrame, hasPending, pendingKeyFrame := false, false, false, false;
    }

    method HandleSingleNal(payload: bytes)
      requires payload != []
      modifies `frameBuffer, `frameHasKeyFrame
      ensures Asm() == AppendUnit(old(Asm()), payload, payload[0] % 32 == TYPE_IDR)
    {
      if payload[0] % 32 == TYPE_IDR {
        frameHasKeyFrame := true;
      }
      frameBuffer := frameBuffer + START_CODE;
      frameBuffer := frameBuffer + payload;
    }

    method HandleFuA(payload: bytes)
      modifies `accumulator, `frameBuffer, `inFragmentation, `frameHasKeyFrame
      ensures Asm() == FuA(old(Asm()), payload)
    {
      if |payload| < 2 {
        return;
      }
      var fuHeader := payload[1];
      var start, end, nalType := fuHeader / 128 == 1, fuHeader / 64 % 2 == 1, fuHeader % 32;
      if start {
        accumulator := [];
        inFragmentation := true;
        accumulator := accumulator + START_CODE;
        accumulator := accumulator + [payload[0] / 32 * 32 + nalType];
        assert accumulator == START_CODE + [payload[0] / 32 * 32 + nalType];
        if nalType == TYPE_IDR {
          frameHasKeyFrame := true;
        }
      }
      if !inFragmentation {
        return;
      }
      accumulator := accumulator + payload[2..];
      if end {
        inFragmentation := false;
        frameBuffer := frameBuffer + accumulator;
        accumulator := [];
      }
    }

    method HandleStapA(payload: bytes)
      requires payload != []
      modifies `frameBuffer, `frameHasKeyFrame
      ensures Asm() == StapFrom(old(Asm()), payload[1..])
    {
      var offset := 1;
      while offset + 2 <= |payload|
        invariant 1 <= offset <= |payload|
        invariant StapFrom(Asm(), payload[offset..]) == StapFrom(old(Asm()), payload[1..])
        decreases |payload| - offset
      {
        ghost var rest, before := payload[offset..], Asm();
        var nalSize := FromBE16(payload[offset..offset + 2]);
        assert rest[..2] == payload[offset..offset + 2];
        offset := offset + 2;
        if offset + nalSize > |payload| {
          assert StapFrom(before, rest) == before;
          return;
        }
        var nal := payload[offset..offset + nalSize];
        assert nal == rest[2..2 + nalSize];
        if nal != [] && nal[0] % 32 == TYPE_IDR {
          frameHasKeyFrame := true;
        }
        frameBuffer := frameBuffer + START_CODE;
        frameBuffer := frameBuffer + nal;
        offset := offset + nalSize;
        assert payload[offset..] == rest[2 + nalSize..];
        assert Asm() == AppendUnit(before, nal, nal != [] && nal[0] % 32 == TYPE_IDR);
      }
    }

    method DispatchNal(payload: bytes)
      modifies `accumulator, `frameBuffer, `inFragmentation, `frameHasKeyFrame
      ensures Asm() == Dispatch(old(Asm()), payload)
    {
      hide FuA, StapFrom;
      if payload == [] {
        return;
      }
      var nalType := payload[0] % 32;
      if 1 <= nalType <= 23 {
        HandleSingleNal(payload);
      } else if nalType == TYPE_FU_A {
        HandleFuA(payload);
      } else if nalType == TYPE_STAP_A {
        HandleStapA(payload);
      }
    }

    /** Moves a completed frame into the pending slot. */
    method KeepPending(marker: bool)
      modifies `pendingFrame, `frameBuffer, `pendingKeyFrame, `frameHasKeyFrame, `hasPending
      ensures View() == if marker && old(frameBuffer) != []
                        then State(TakeFrame(old(Asm())), lastTimestamp, true, old(frameBuffer), old(frameHasKeyFrame))
                        else old(View())
    {
      if marker && frameBuffer != [] {
        pendingFrame, frameBuffer := frameBuffer, pendingFrame;
        pendingKeyFrame := frameHasKeyFrame;
        frameBuffer := [];
        frameHasKeyFrame := false;
        hasPending := true;
      }
    }

    /** Swaps the completed frame into the caller's buffer. */
    method CompleteFrame(given: bytes) returns (outFrame: bytes, outKeyFrame: bool)
      modifies `frameBuffer, `frameHasKeyFrame
      ensures outFrame == old(frameBuffer) && outKeyFrame == old(frameHasKeyFrame)
      ensures View() == old(View()).(asm := TakeFrame(old(Asm())))
    {
      outFrame, frameBuffer := frameBuffer, given;
      outKeyFrame := frameHasKeyFrame;
      frameBuffer := [];
      frameHasKeyFrame := false;
    }

    method AddPacket(ts: uint32, seqNo: uint16, payload: bytes)
      modifies `lastTimestamp, `lastSeq, `accumulator, `frameBuffer, `inFragmentation, `frameHasKeyFrame
      ensures View() == old(View()).(asm := Dispatch(old(Asm()), payload), lastTimestamp := ts)
    {
      hide Dispatch;
      lastTimestamp := ts;
      DispatchNal(payload);
      lastSeq := seqNo;
    }

    /** process_packet; the caller's frame buffer is swapped in and out. */
    method ProcessPacket(ts: uint32, seqNo: uint16, marker: bool, payload: bytes, given: bytes, givenKey: bool)
      returns (done: bool, outFrame: bytes, outKeyFrame: bool)
      modifies this
      ensures var (s, out) := Process(Handler(), old(View()), ts, marker, payload);
              && View() == s
              && (if out.Frame? then done && outFrame == out.data && outKeyFrame == out.keyFrame
                  else !done && outFrame == given && outKeyFrame == givenKey)
    {
      hide Dispatch;
      done, outFrame, outKeyFrame := false, given, givenKey;
      if payload == [] {
        return;
      }
      if lastTimestamp != 0 && ts != lastTimestamp && frameBuffer != [] {
        outFrame, outKeyFrame := CompleteFrame(outFrame);
        AddPacket(ts, seqNo, payload);
        KeepPending(marker);
        return true, outFrame, outKeyFrame;
      }
      if hasPending {
        outFrame, pendingFrame := pendingFrame, outFrame;
        outKeyFrame := pendingKeyFrame;
        hasPending := false;
        AddPacket(ts, seqNo, payload);
        KeepPending(marker);
        return true, outFrame, outKeyFrame;
      }
      AddPacket(ts, seqNo, payload);
      if marker && frameBuffer != [] {
        outFrame, outKeyFrame := CompleteFrame(outFrame);
        return true, outFrame, outKeyFrame;
      }
    }
  }

  // -------------------------------------------------------------------- properties

  lemma UnitAppended(a: Assembly, nal: bytes, isKey: bool, front: bytes, key: bool)
    ensures AppendUnit(a.(frame := front, hasKeyFrame := key), nal, isKey)
         == a.(frame := front + (START_CODE + nal), hasKeyFrame := key || isKey)
    ensures AppendUnit(TakeFrame(a), nal, isKey) == a.(frame := START_CODE + nal, hasKeyFrame := isKey)
  {
    Assoc(front, START_CODE, nal);
    Empty(START_CODE);
  }

  lemma {:induction false} StapAppends(a: Assembly, rest: bytes, front: bytes, key: bool)
    ensures var plain := StapFrom(TakeFrame(a), rest);
            StapFrom(a.(frame := front, hasKeyFrame := key), rest)
            == plain.(frame := front + plain.frame, hasKeyFrame := key || plain.hasKeyFrame)
    decreases |rest|
  {
    hide AppendUnit, FromBE16;
    if |rest| >= 2 && 2 + FromBE16(rest[..2]) <= |rest| {
      var n := FromBE16(rest[..2]);
      var nal, others := rest[2..2 + n], rest[2 + n..];
      var isKey := nal != [] && nal[0] % 32 == TYPE_IDR;
      var unit := START_CODE + nal;
      UnitAppended(a, nal, isKey, front, key);
      StapAppends(a, others, front + unit, key || isKey);
      StapAppends(a, others, unit, isKey);
      Assoc(front, unit, StapFrom(TakeFrame(a), others).frame);
    } else {
      Empty(front);
    }
  }

  lemma OpenedAppends(a: Assembly, payload: bytes, front: bytes, key: bool)
    requires |payload| >= 2
    ensures var plain := FuOpened(TakeFrame(a), payload);
            && plain.frame == []
            && FuOpened(a.(frame := front, hasKeyFrame := key), payload)
               == plain.(frame := front, hasKeyFrame := key || plain.hasKeyFrame)
  {
  }

  lemma ContinuedAppends(a: Assembly, payload: bytes, front: bytes, key: bool)
    requires |payload| >= 2 && a.frame == []
    ensures var plain := FuContinued(a, payload);
            && plain.hasKeyFrame == a.hasKeyFrame
            && FuContinued(a.(frame := front, hasKeyFrame := key), payload)
               == plain.(frame := front + plain.frame, hasKeyFrame := key)
  {
    Empty(front);
    Empty(a.accumulator + payload[2..]);
  }

  lemma FuAppends(a: Assembly, payload: bytes, front: bytes, key: bool)
    ensures var plain := FuA(TakeFrame(a), payload);
            FuA(a.(frame := front, hasKeyFrame := key), payload)
            == plain.(frame := front + plain.frame, hasKeyFrame := key || plain.hasKeyFrame)
  {
    hide FuOpened, FuContinued;
    if |payload| < 2 {
      Empty(front);
    } else {
      OpenedAppends(a, payload, front, key);
      var plain := FuOpened(TakeFrame(a), payload);
      ContinuedAppends(plain, payload, front, key || plain.hasKeyFrame);
    }
  }

  /** The H.264 handlers only append, so RunConserves speaks about them. */
  lemma HandlerAppendsOnly()
    ensures AppendsOnly(Handler())
  {
    hide FuA, StapFrom, AppendUnit;
    forall a: Assembly, payload: bytes, front: bytes, key: bool
      ensures AppendsOn(Handler(), a, payload, front, key)
    {
      Empty(front);
      if payload != [] {
        FuAppends(a, payload, front, key);
        StapAppends(a, payload[1..], front, key);
        UnitAppended(a, payload, payload[0] % 32 == TYPE_IDR, front, key);
      }
    }
  }

  /** Depacketizer conservation for H.264. */
  lemma H264Conserves(packets: seq<Arrival>)
    ensures var (outs, end) := Run(Handler(), RESET, packets);
            && Ordered(end)
            && BytesOf(outs) + PendingBytes(end) + end.asm.frame == Assembled(Handler(), RESET.asm, packets).frame
  {
    HandlerAppendsOnly();
    RunConserves(Handler(), packets);
  }
}
