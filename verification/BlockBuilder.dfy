/** Grouping entries into blocks (nxcore/record/block_builder.cpp) under the limits of
    BasicBlockBuilderOptions (nxcore/record/block_builder_options.h). */
module BlockBuilder {
  import opened Bytes
  import opened RecordLayout

  datatype Options = Options(maxDuration: int64, maxSize: nat, maxCount: nat, rejectPast: bool)

  datatype Context = Context(startTs: int64, endTs: int64, count: nat, bytes: nat, hasKeyFrame: bool)

  const CLEAR := Context(0, 0, 0, 0, false)

  /** What a finished block is made of. */
  datatype Content = Content(header: BlockHeader, entries: seq<Entry>)

  datatype Builder = Builder(pending: seq<Entry>, ctx: Context, done: seq<Content>)

  datatype Op = Add(entry: Entry) | Flush | Pop

  // ---------------------------------------------------------------- specification

  predicate IsKeyFrame(e: Entry) {
    e.Video? && e.frameType == FRAME_I
  }

  function Quotient(a: nat, b: nat): nat
    requires b > 0
  {
    a / b
  }

  function BytesPerSample(e: Entry): nat
    requires e.Audio?
  {
    e.bitDepth as int / 8 * e.channels as int
  }

  /** Playing time of an audio entry in milliseconds, by its own account of its payload. */
  function Duration(e: Entry): nat {
    if e.Audio? && e.sampleRate > 0 && e.payloadSize > 0 && BytesPerSample(e) > 0
    then Quotient(Quotient(e.payloadSize, BytesPerSample(e)) * 1000, e.sampleRate)
    else 0
  }

  /** calculate_entry_end_timestamp: an audio entry ends after its playing time, any other where it starts. */
  function EndOf(e: Entry): (t: int)
    ensures t >= e.timestamp
  {
    e.timestamp + Duration(e)
  }

  function SizeOf(e: Entry): nat { e.headerSize + |e.payload| }

  function TotalSize(es: seq<Entry>): nat {
    if es == [] then 0 else TotalSize(es[..|es| - 1]) + SizeOf(es[|es| - 1])
  }

  /** What add_entry may be called with: a header inside its structure, no overflow of the 64-bit end
      time, and no overflow of the 32-bit block length. */
  predicate Addable(o: Options, e: Entry) {
    Storable(e) && EndOf(e) < 0x8000_0000_0000_0000 && o.maxSize + SizeOf(e) + 30 < 0x1_0000_0000
  }

  predicate Accepts(o: Options, s: Builder, e: Entry) {
    !o.rejectPast || s.ctx.count == 0 || e.timestamp >= s.ctx.startTs
  }

  predicate FinalizesBefore(o: Options, s: Builder, e: Entry) {
    s.pending != [] && s.ctx.count != 0 && EndOf(e) - s.ctx.startTs >= o.maxDuration
  }

  predicate IsFinished(o: Options, c: Context) {
    && c.count != 0
    && (|| (c.startTs >= 0 && c.endTs >= 0 && c.endTs - c.startTs >= o.maxDuration)
        || c.bytes >= o.maxSize
        || c.count >= o.maxCount)
  }

  function Pushed(s: Builder, e: Entry): Builder
    requires EndOf(e) < 0x8000_0000_0000_0000
  {
    var startTs := if s.pending == [] then e.timestamp else s.ctx.startTs;
    var endTs := if s.pending == [] then e.timestamp else s.ctx.endTs;
    Builder(s.pending + [e],
            Context(startTs, if EndOf(e) > endTs then EndOf(e) else endTs, |s.pending| + 1, s.ctx.bytes + SizeOf(e),
                    s.ctx.hasKeyFrame || IsKeyFrame(e)),
            s.done)
  }

  predicate Sorted(es: seq<Entry>) {
    forall i, j | 0 <= i < j < |es| :: es[i].timestamp <= es[j].timestamp
  }

  function Pressure(es: seq<Entry>, flags: uint32): uint32 {
    if es == [] then flags else Or32(Pressure(es[..|es| - 1], flags), es[|es| - 1].pressure)
  }

  function HeaderFor(c: Context, es: seq<Entry>): BlockHeader {
    BlockHeader(BLOCK_MAGIC, BLOCK_HEADER_SIZE, Pressure(es, if c.hasKeyFrame then 2 else 0),
                (TotalSize(es) + 30) % 0x1_0000_0000, c.startTs, c.endTs)
  }

  /** finalize_current_block: std::sort may order entries of equal timestamp in any way. */
  predicate Finalized(s: Builder, s': Builder) {
    && s'.pending == [] && s'.ctx == CLEAR
    && if s.pending == [] then s'.done == s.done else
         && |s'.done| == |s.done| + 1 && s'.done[..|s.done|] == s.done
         && var c := s'.done[|s.done|];
         && Sorted(c.entries) && multiset(c.entries) == multiset(s.pending) && |c.entries| == |s.pending|
         && c.header == HeaderFor(s.ctx, c.entries)
  }

  predicate AddedVia(o: Options, s: Builder, e: Entry, mid: Builder, s': Builder)
    requires EndOf(e) < 0x8000_0000_0000_0000
  {
    && (if FinalizesBefore(o, s, e) then Finalized(s, mid) else mid == s)
    && (if IsFinished(o, Pushed(mid, e).ctx) then Finalized(Pushed(mid, e), s') else s' == Pushed(mid, e))
  }

  ghost predicate Step(o: Options, s: Builder, op: Op, s': Builder) {
    match op
    case Add(e) =>
      && Addable(o, e)
      && (if Accepts(o, s, e) then exists mid :: AddedVia(o, s, e, mid, s') else s' == s)
    case Flush => Finalized(s, s')
    case Pop => s' == if s.done == [] then s else s.(done := s.done[1..])
  }

  // ------------------------------------------------------------------- properties

  predicate Covers(o: Options, startTs: int, endTs: int, es: seq<Entry>) {
    && (forall i | 0 <= i < |es| :: (o.rejectPast ==> startTs <= es[i].timestamp) && EndOf(es[i]) <= endTs)
    && (exists i | 0 <= i < |es| :: es[i].timestamp == startTs)
    && (exists i | 0 <= i < |es| :: EndOf(es[i]) == endTs)
  }

  predicate AnyKeyFrame(es: seq<Entry>) {
    exists i | 0 <= i < |es| :: IsKeyFrame(es[i])
  }

  predicate PressedKeyFrame(es: seq<Entry>) {
    exists i | 0 <= i < |es| :: HasKeyFrame(es[i].pressure)
  }

  predicate Fits(o: Options, es: seq<Entry>) {
    && AllStorable(es)
    && TotalSize(es) + 30 < 0x1_0000_0000
  }

  predicate OpensTooLong(o: Options, startTs: int, es: seq<Entry>) {
    exists i | 0 <= i < |es| :: es[i].timestamp == startTs && EndOf(es[i]) - startTs >= o.maxDuration
  }

  /** The interval reaches the duration limit exactly if an entry that opens it plays that long on its own. Of
      two or more entries that is possible only before the epoch, where the duration test is skipped. */
  predicate SpanKept(o: Options, startTs: int, endTs: int, es: seq<Entry>) {
    && (endTs - startTs >= o.maxDuration <==> OpensTooLong(o, startTs, es))
    && (|es| >= 2 && endTs - startTs >= o.maxDuration ==> startTs < 0)
  }

  predicate RestFits(o: Options, es: seq<Entry>, i: nat)
    requires i < |es|
  {
    TotalSize(es) - SizeOf(es[i]) < o.maxSize
  }

  /** Two or more entries stay below the size limit but for one of them, the last to arrive. */
  predicate SizeKept(o: Options, es: seq<Entry>) {
    |es| >= 2 ==> exists i | 0 <= i < |es| :: RestFits(o, es, i)
  }

  predicate CountKept(o: Options, es: seq<Entry>) {
    |es| <= 1 || |es| <= o.maxCount
  }

  /** Everything a finished block promises. The interval of its header starts at one of its entries
      (the earliest, if past entries are rejected) and ends where its last entry ends. */
  predicate GoodContent(o: Options, c: Content) {
    && c.entries != [] && Fits(o, c.entries)
    && Sorted(c.entries)
    && Covers(o, c.header.startTs, c.header.endTs, c.entries)
    && (o.rejectPast ==> c.header.startTs == c.entries[0].timestamp)
    && SpanKept(o, c.header.startTs, c.header.endTs, c.entries)
    && SizeKept(o, c.entries) && CountKept(o, c.entries)
    && (HasKeyFrame(c.header.flags) <==> AnyKeyFrame(c.entries) || PressedKeyFrame(c.entries))
    && c.header.magic == BLOCK_MAGIC && c.header.length == TotalSize(c.entries) + 30
  }

  /** The entries that wait, before or after the check that may close the block. */
  predicate GoodPending(o: Options, s: Builder) {
    && s.ctx.count == |s.pending|
    && (s.pending == [] ==> s.ctx == CLEAR)
    && (s.pending != [] ==>
          && Fits(o, s.pending)
          && s.ctx.bytes == TotalSize(s.pending)
          && Covers(o, s.ctx.startTs, s.ctx.endTs, s.pending)
          && SpanKept(o, s.ctx.startTs, s.ctx.endTs, s.pending)
          && SizeKept(o, s.pending) && CountKept(o, s.pending)
          && (s.ctx.hasKeyFrame <==> AnyKeyFrame(s.pending)))
  }

  predicate Inv(o: Options, s: Builder) {
    && GoodPending(o, s) && !IsFinished(o, s.ctx)
    && forall i | 0 <= i < |s.done| :: GoodContent(o, s.done[i])
  }

  /** The interval of the waiting entries and one more. */
  lemma PushKeepsInterval(o: Options, es: seq<Entry>, startTs: int, endTs: int, e: Entry)
    requires es != [] && Covers(o, startTs, endTs, es) && (o.rejectPast ==> startTs <= e.timestamp)
    ensures Covers(o, startTs, if EndOf(e) > endTs then EndOf(e) else endTs, es + [e])
  {
    hide EndOf;
    var longer := es + [e];
    assert longer[|es|] == e;
    var i :| 0 <= i < |es| && es[i].timestamp == startTs;
    var j :| 0 <= j < |es| && EndOf(es[j]) == endTs;
    assert longer[i] == es[i] && longer[j] == es[j];
  }

  /** An entry that does not reach the limit leaves the span as long as it was, as far as the limit goes. */
  lemma PushKeepsSpan(o: Options, es: seq<Entry>, startTs: int, endTs: int, e: Entry)
    requires es != [] && SpanKept(o, startTs, endTs, es) && EndOf(e) - startTs < o.maxDuration
    requires startTs >= 0 ==> endTs - startTs < o.maxDuration
    ensures SpanKept(o, startTs, if EndOf(e) > endTs then EndOf(e) else endTs, es + [e])
  {
    hide EndOf;
    var longer := es + [e];
    if OpensTooLong(o, startTs, es) {
      var i :| 0 <= i < |es| && es[i].timestamp == startTs && EndOf(es[i]) - startTs >= o.maxDuration;
      assert longer[i] == es[i];
    }
    if OpensTooLong(o, startTs, longer) {
      var i :| 0 <= i < |longer| && longer[i].timestamp == startTs && EndOf(longer[i]) - startTs >= o.maxDuration;
      assert longer[i] == es[i];
    }
  }

  lemma PushKeepsKeyFrame(es: seq<Entry>, e: Entry)
    ensures AnyKeyFrame(es + [e]) <==> AnyKeyFrame(es) || IsKeyFrame(e)
  {
    hide IsKeyFrame;
    var longer := es + [e];
    assert longer[|es|] == e;
    if AnyKeyFrame(es) {
      var k :| 0 <= k < |es| && IsKeyFrame(es[k]);
      assert longer[k] == es[k];
    }
  }

  lemma PushKeepsSize(o: Options, es: seq<Entry>, e: Entry)
    requires TotalSize(es) < o.maxSize
    ensures TotalSize(es + [e]) == TotalSize(es) + SizeOf(e) && SizeKept(o, es + [e])
  {
    hide SizeOf, TotalSize;
    TotalSizeSnoc(es, e);
    assert (es + [e])[|es|] == e;
    assert RestFits(o, es + [e], |es|);
  }

  /** An entry alone. */
  lemma OneIsGood(o: Options, e: Entry)
    requires Addable(o, e)
    ensures Covers(o, e.timestamp, EndOf(e), [e]) && SpanKept(o, e.timestamp, EndOf(e), [e])
    ensures SizeKept(o, [e]) && CountKept(o, [e]) && (AnyKeyFrame([e]) <==> IsKeyFrame(e))
    ensures AllStorable([e]) && TotalSize([e]) == SizeOf(e)
  {
    hide EndOf, IsKeyFrame, SizeOf, Storable;
    var es := [e];
    assert es[0] == e && es[..0] == [];
  }

  lemma OpenIsShort(o: Options, s: Builder)
    requires GoodPending(o, s) && !IsFinished(o, s.ctx) && s.pending != []
    ensures TotalSize(s.pending) < o.maxSize && |s.pending| + 1 <= o.maxCount
    ensures s.ctx.startTs >= 0 ==> s.ctx.endTs - s.ctx.startTs < o.maxDuration
  {
    hide EndOf, Fits, SpanKept, SizeKept, TotalSize;
    var i :| 0 <= i < |s.pending| && s.pending[i].timestamp == s.ctx.startTs;
    assert EndOf(s.pending[i]) >= s.ctx.startTs;
  }

  lemma PushKeepsPending(o: Options, s: Builder, e: Entry)
    requires GoodPending(o, s) && !IsFinished(o, s.ctx) && Addable(o, e) && Accepts(o, s, e)
    requires !FinalizesBefore(o, s, e)
    ensures GoodPending(o, Pushed(s, e))
  {
    hide EndOf, IsKeyFrame, Covers, SpanKept, SizeKept, AnyKeyFrame, SizeOf, TotalSize, Storable, IsFinished;
    if s.pending == [] {
      assert s.pending + [e] == [e];
      OneIsGood(o, e);
    } else {
      OpenIsShort(o, s);
      PushKeepsInterval(o, s.pending, s.ctx.startTs, s.ctx.endTs, e);
      PushKeepsSpan(o, s.pending, s.ctx.startTs, s.ctx.endTs, e);
      PushKeepsKeyFrame(s.pending, e);
      PushKeepsSize(o, s.pending, e);
    }
  }

  lemma {:induction false} PressureKeyFrame(es: seq<Entry>, flags: uint32)
    ensures HasKeyFrame(Pressure(es, flags)) <==> HasKeyFrame(flags) || PressedKeyFrame(es)
  {
    if es != [] {
      var init, last := es[..|es| - 1], es[|es| - 1];
      PressureKeyFrame(init, flags);
      BitOrKeyFrame(Pressure(init, flags), last.pressure);
      if PressedKeyFrame(init) {
        var i :| 0 <= i < |init| && HasKeyFrame(init[i].pressure);
        assert es[i] == init[i];
      }
      if PressedKeyFrame(es) && !HasKeyFrame(last.pressure) {
        var i :| 0 <= i < |es| && HasKeyFrame(es[i].pressure);
        assert es[i] == init[i];
      }
    }
  }

  /** The size sum does not depend on the order. */
  lemma {:induction false} TotalSizePermuted(a: seq<Entry>, b: seq<Entry>)
    requires multiset(a) == multiset(b)
    ensures TotalSize(a) == TotalSize(b)
    decreases |a|
  {
    if a == [] {
      assert |multiset(b)| == |b|;
    } else {
      hide SizeOf;
      var init, last := a[..|a| - 1], a[|a| - 1];
      var i := SameMembers(a, b, |a| - 1);
      TotalSizeWithout(b, i);
      var rest := b[..i] + b[i + 1..];
      RemoveOne(a, |a| - 1);
      RemoveOne(b, i);
      assert a[..|a| - 1] + a[|a|..] == init;
      assert multiset(init) == multiset(rest);
      TotalSizePermuted(init, rest);
    }
  }

  lemma RemoveOne(es: seq<Entry>, i: nat)
    requires i < |es|
    ensures multiset(es[..i] + es[i + 1..]) == multiset(es) - multiset{es[i]}
  {
    assert es == es[..i] + ([es[i]] + es[i + 1..]);
  }

  lemma {:induction false} TotalSizeWithout(es: seq<Entry>, i: nat)
    requires i < |es|
    ensures TotalSize(es) == TotalSize(es[..i] + es[i + 1..]) + SizeOf(es[i])
  {
    var n := |es| - 1;
    var rest := es[..i] + es[i + 1..];
    if i == n {
      assert rest == es[..n];
    } else {
      var init := es[..n];
      TotalSizeWithout(init, i);
      assert rest[..n - 1] == init[..i] + init[i + 1..];
      assert rest[n - 1] == es[n];
    }
  }

  lemma SameMembers(a: seq<Entry>, b: seq<Entry>, i: nat) returns (j: nat)
    requires multiset(a) == multiset(b) && i < |a|
    ensures j < |b| && b[j] == a[i]
  {
    assert a[i] in multiset(b);
    j :| 0 <= j < |b| && b[j] == a[i];
  }

  /** What holds of the waiting entries holds of any permutation of them. */
  lemma CoversPermuted(o: Options, startTs: int, endTs: int, a: seq<Entry>, b: seq<Entry>)
    requires multiset(a) == multiset(b) && Covers(o, startTs, endTs, a)
    ensures Covers(o, startTs, endTs, b)
  {
    forall i | 0 <= i < |b|
      ensures (o.rejectPast ==> startTs <= b[i].timestamp) && EndOf(b[i]) <= endTs
    {
      var j := SameMembers(b, a, i);
    }
    var i :| 0 <= i < |a| && a[i].timestamp == startTs;
    var i' := SameMembers(a, b, i);
    var j :| 0 <= j < |a| && EndOf(a[j]) == endTs;
    var j' := SameMembers(a, b, j);
  }

  lemma SpanPermuted(o: Options, startTs: int, endTs: int, a: seq<Entry>, b: seq<Entry>)
    requires multiset(a) == multiset(b) && |a| == |b| && SpanKept(o, startTs, endTs, a)
    ensures SpanKept(o, startTs, endTs, b)
  {
    hide EndOf;
    if OpensTooLong(o, startTs, a) {
      var i :| 0 <= i < |a| && a[i].timestamp == startTs && EndOf(a[i]) - startTs >= o.maxDuration;
      var j := SameMembers(a, b, i);
    }
    if OpensTooLong(o, startTs, b) {
      var i :| 0 <= i < |b| && b[i].timestamp == startTs && EndOf(b[i]) - startTs >= o.maxDuration;
      var j := SameMembers(b, a, i);
    }
  }

  lemma SizePermuted(o: Options, a: seq<Entry>, b: seq<Entry>)
    requires multiset(a) == multiset(b) && |a| == |b| && SizeKept(o, a)
    ensures TotalSize(a) == TotalSize(b) && SizeKept(o, b)
  {
    hide TotalSize, SizeOf;
    TotalSizePermuted(a, b);
    if |a| >= 2 {
      var i :| 0 <= i < |a| && RestFits(o, a, i);
      var j := SameMembers(a, b, i);
      assert RestFits(o, b, j);
    }
  }

  lemma KeyFramePermuted(a: seq<Entry>, b: seq<Entry>)
    requires multiset(a) == multiset(b) && AnyKeyFrame(a)
    ensures AnyKeyFrame(b)
  {
    var i :| 0 <= i < |a| && IsKeyFrame(a[i]);
    var j := SameMembers(a, b, i);
  }

  /** Sorting keeps everything that the waiting entries promise. */
  lemma SortedIsGood(o: Options, s: Builder, es: seq<Entry>)
    requires GoodPending(o, s) && s.pending != []
    requires Sorted(es) && multiset(es) == multiset(s.pending) && |es| == |s.pending|
    ensures GoodContent(o, Content(HeaderFor(s.ctx, es), es))
  {
    hide EndOf, HasKeyFrame, Or32, Pressure, TotalSize, SizeOf, Covers, SpanKept, SizeKept, AnyKeyFrame,
      PressedKeyFrame, Storable;
    CoversPermuted(o, s.ctx.startTs, s.ctx.endTs, s.pending, es);
    SpanPermuted(o, s.ctx.startTs, s.ctx.endTs, s.pending, es);
    SizePermuted(o, s.pending, es);
    forall i | 0 <= i < |es| ensures Storable(es[i]) {
      var j := SameMembers(es, s.pending, i);
    }
    if AnyKeyFrame(s.pending) { KeyFramePermuted(s.pending, es); }
    if AnyKeyFrame(es) { KeyFramePermuted(es, s.pending); }
    PressureKeyFrame(es, if s.ctx.hasKeyFrame then 2 else 0);
    KeyFrameBit();
    if o.rejectPast { StartsFirst(o, s.ctx.startTs, s.ctx.endTs, es); }
  }

  lemma StartsFirst(o: Options, startTs: int, endTs: int, es: seq<Entry>)
    requires o.rejectPast && es != [] && Sorted(es) && Covers(o, startTs, endTs, es)
    ensures es[0].timestamp == startTs
  {
    hide EndOf;
    var i :| 0 <= i < |es| && es[i].timestamp == startTs;
  }

  lemma FinalizeKeepsGood(o: Options, s: Builder, s': Builder)
    requires GoodPending(o, s) && Finalized(s, s')
    requires forall i | 0 <= i < |s.done| :: GoodContent(o, s.done[i])
    ensures Inv(o, s')
  {
    hide HeaderFor, Sorted, GoodContent;
    if s.pending != [] {
      var c := s'.done[|s.done|];
      assert c == Content(HeaderFor(s.ctx, c.entries), c.entries);
      SortedIsGood(o, s, c.entries);
      forall i | 0 <= i < |s'.done| ensures GoodContent(o, s'.done[i]) {
        if i < |s.done| { assert s'.done[i] == s'.done[..|s.done|][i]; }
      }
    }
  }

  lemma KeyFrameBit()
    ensures HasKeyFrame(2) && !HasKeyFrame(0)
  {
  }

  /** Every operation keeps the invariant. */
  lemma StepKeepsInv(o: Options, s: Builder, op: Op, s': Builder)
    requires Inv(o, s) && Step(o, s, op, s')
    ensures Inv(o, s')
  {
    hide GoodPending, GoodContent, Finalized, Pushed, IsFinished;
    match op
    case Add(e) =>
      if Accepts(o, s, e) {
        var mid :| AddedVia(o, s, e, mid, s');
        if FinalizesBefore(o, s, e) {
          FinalizeKeepsGood(o, s, mid);
          ClearAccepts(o, s, mid, e);
        }
        PushKeepsPending(o, mid, e);
        assert Pushed(mid, e).done == mid.done by { PushedDone(mid, e); }
        if IsFinished(o, Pushed(mid, e).ctx) {
          FinalizeKeepsGood(o, Pushed(mid, e), s');
        }
      }
    case Flush => FinalizeKeepsGood(o, s, s');
    case Pop => if s.done != [] { PopKeepsInv(o, s); }
  }

  lemma PopKeepsInv(o: Options, s: Builder)
    requires Inv(o, s) && s.done != []
    ensures Inv(o, s.(done := s.done[1..]))
  {
    hide GoodContent, Fits, Covers;
  }

  lemma PushedDone(s: Builder, e: Entry)
    requires EndOf(e) < 0x8000_0000_0000_0000
    ensures Pushed(s, e).done == s.done
  {
  }

  lemma ClearAccepts(o: Options, s: Builder, mid: Builder, e: Entry)
    requires Finalized(s, mid)
    ensures Accepts(o, mid, e) && !FinalizesBefore(o, mid, e)
  {
  }

  // ------------------------------------------------------------------------- runs

  datatype Move = Move(op: Op, after: Builder)

  ghost predicate IsRun(o: Options, s: Builder, moves: seq<Move>)
    decreases moves
  {
    moves != [] ==> Step(o, s, moves[0].op, moves[0].after) && IsRun(o, moves[0].after, moves[1..])
  }

  function Last(s: Builder, moves: seq<Move>): Builder {
    if moves == [] then s else moves[|moves| - 1].after
  }

  /** The entries that a run took in, and those that left it inside popped blocks. */
  function Accepted(o: Options, s: Builder, moves: seq<Move>): multiset<Entry>
    decreases moves
  {
    if moves == [] then multiset{} else AcceptedBy(o, s, moves[0].op) + Accepted(o, moves[0].after, moves[1..])
  }

  function Popped(s: Builder, moves: seq<Move>): multiset<Entry>
    decreases moves
  {
    if moves == [] then multiset{} else PoppedBy(s, moves[0].op) + Popped(moves[0].after, moves[1..])
  }

  function AcceptedBy(o: Options, s: Builder, op: Op): multiset<Entry> {
    if op.Add? && Accepts(o, s, op.entry) then multiset{op.entry} else multiset{}
  }

  function PoppedBy(s: Builder, op: Op): multiset<Entry> {
    if op.Pop? && s.done != [] then multiset(s.done[0].entries) else multiset{}
  }

  function InBlocks(cs: seq<Content>): multiset<Entry> {
    if cs == [] then multiset{} else multiset(cs[0].entries) + InBlocks(cs[1..])
  }

  lemma {:induction false} InBlocksSnoc(cs: seq<Content>, c: Content)
    ensures InBlocks(cs + [c]) == InBlocks(cs) + multiset(c.entries)
  {
    if cs != [] {
      assert (cs + [c])[1..] == cs[1..] + [c];
      InBlocksSnoc(cs[1..], c);
    } else {
      assert [c][1..] == [];
    }
  }

  function Held(s: Builder): multiset<Entry> {
    InBlocks(s.done) + multiset(s.pending)
  }

  lemma FinalizeKeepsHeld(s: Builder, s': Builder)
    requires Finalized(s, s')
    ensures Held(s') == Held(s)
  {
    hide HeaderFor, Sorted;
    if s.pending != [] {
      assert s'.done == s.done + [s'.done[|s.done|]];
      InBlocksSnoc(s.done, s'.done[|s.done|]);
    }
  }

  lemma PushHolds(s: Builder, e: Entry)
    requires EndOf(e) < 0x8000_0000_0000_0000
    ensures Held(Pushed(s, e)) == Held(s) + multiset{e}
  {
  }

  lemma AddConserves(o: Options, s: Builder, e: Entry, mid: Builder, s': Builder)
    requires EndOf(e) < 0x8000_0000_0000_0000 && AddedVia(o, s, e, mid, s')
    ensures Held(s') == Held(s) + multiset{e}
  {
    hide Finalized, IsFinished, FinalizesBefore, Pushed, Held;
    if FinalizesBefore(o, s, e) { FinalizeKeepsHeld(s, mid); }
    PushHolds(mid, e);
    if IsFinished(o, Pushed(mid, e).ctx) { FinalizeKeepsHeld(Pushed(mid, e), s'); }
  }

  lemma StepConserves(o: Options, s: Builder, op: Op, s': Builder)
    requires Step(o, s, op, s')
    ensures Held(s) + AcceptedBy(o, s, op) == PoppedBy(s, op) + Held(s')
  {
    hide Finalized, IsFinished, FinalizesBefore, Pushed;
    match op
    case Add(e) =>
      if Accepts(o, s, e) {
        var mid :| AddedVia(o, s, e, mid, s');
        AddConserves(o, s, e, mid, s');
      }
    case Flush => FinalizeKeepsHeld(s, s');
    case Pop =>
  }

  /** Block building over any run from an empty builder: every block in the builder is good at every
      moment, and each accepted entry is in exactly one place, in a popped block, in a finished block
      or among the waiting entries. */
  lemma RunKeepsEverything(o: Options, moves: seq<Move>)
    requires IsRun(o, EMPTY, moves)
    ensures Inv(o, Last(EMPTY, moves))
    ensures Accepted(o, EMPTY, moves) == Popped(EMPTY, moves) + Held(Last(EMPTY, moves))
  {
    hide Inv, Held, IsRun;
    EmptyIsGood(o);
    RunFromKeeps(o, EMPTY, moves);
  }

  // An audio entry of 100 ms and a user entry, both one millisecond before the epoch, under a limit of 10 ms.
  const LATE := Options(10, 1000, 10, true)
  const LONG := Audio(0, 23, -1, 1, 1, 8, 1000, 100, seq(100, i => 0), 0)
  const SHORT := User(0, 20, -1, 0, (0, 0, 0), 0, [], 0)
  const ONE_WAITS := Builder([LONG], Context(-1, 99, 1, 123, false), [])
  const TWO_WAIT := Builder([LONG, SHORT], Context(-1, 99, 2, 143, false), [])

  lemma LateSteps()
    ensures EndOf(LONG) == 99 && EndOf(SHORT) == -1
    ensures Step(LATE, EMPTY, Add(LONG), ONE_WAITS)
    ensures Step(LATE, ONE_WAITS, Add(SHORT), TWO_WAIT)
  {
    assert BytesPerSample(LONG) == 1 && Quotient(100, 1) == 100 && Quotient(100 * 1000, 1000) == 100;
    hide Finalized, Duration;
    assert EndOf(LONG) == 99 && EndOf(SHORT) == -1;
    assert AddedVia(LATE, EMPTY, LONG, EMPTY, ONE_WAITS);
    assert AddedVia(LATE, ONE_WAITS, SHORT, ONE_WAITS, TWO_WAIT);
  }

  /** The duration limit over whole runs: a finished block reaches it exactly if an entry that opens it plays that
      long on its own, and a block of two or more entries only if it starts before the epoch. So it is enough
      to give the builder no entry that starts before the epoch and plays as long as the limit. */
  lemma OverrunsExactly(o: Options, moves: seq<Move>, i: nat)
    requires IsRun(o, EMPTY, moves) && i < |Last(EMPTY, moves).done|
    ensures var c := Last(EMPTY, moves).done[i];
            && (c.header.endTs - c.header.startTs >= o.maxDuration <==> OpensTooLong(o, c.header.startTs, c.entries))
            && (|c.entries| >= 2 && OpensTooLong(o, c.header.startTs, c.entries) ==> c.header.startTs < 0)
            && (|c.entries| >= 2 && (forall e | e in c.entries :: e.timestamp < 0 ==> Duration(e) < o.maxDuration) ==>
                  c.header.endTs - c.header.startTs < o.maxDuration)
  {
    hide IsRun, Last, GoodPending, IsFinished, Covers, SizeKept, CountKept, Duration, Fits, Sorted, AnyKeyFrame,
      PressedKeyFrame;
    RunKeepsEverything(o, moves);
    assert GoodContent(o, Last(EMPTY, moves).done[i]);
  }

  /** A run that does overrun: with a start before the epoch the duration test is skipped, so a long audio
      entry stays open and a second entry joins it. */
  lemma NegativeStartOverruns() returns (moves: seq<Move>, c: Content)
    ensures IsRun(LATE, EMPTY, moves) && c in Last(EMPTY, moves).done
    ensures LATE.rejectPast && |c.entries| >= 2 && c.header.startTs < 0
    ensures c.header.endTs - c.header.startTs >= LATE.maxDuration
  {
    hide AddedVia, Accepts, Addable, HeaderFor;
    LateSteps();
    c := Content(HeaderFor(TWO_WAIT.ctx, [LONG, SHORT]), [LONG, SHORT]);
    assert c.header.endTs == 99 && c.header.startTs == -1 by { HeaderTimes(TWO_WAIT.ctx, [LONG, SHORT]); }
    var s3 := Builder([], CLEAR, [c]);
    moves := [Move(Add(LONG), ONE_WAITS), Move(Add(SHORT), TWO_WAIT), Move(Flush, s3)];
    assert Step(LATE, TWO_WAIT, Flush, s3);
    ThreeSteps(LATE, EMPTY, moves[0], moves[1], moves[2]);
  }

  lemma ThreeSteps(o: Options, s: Builder, a: Move, b: Move, c: Move)
    requires Step(o, s, a.op, a.after) && Step(o, a.after, b.op, b.after) && Step(o, b.after, c.op, c.after)
    ensures IsRun(o, s, [a, b, c])
  {
    hide Step;
    assert [a, b, c][1..] == [b, c] && [b, c][1..] == [c] && [c][1..] == [];
    assert IsRun(o, b.after, [c]);
    assert IsRun(o, a.after, [b, c]);
  }

  lemma HeaderTimes(c: Context, es: seq<Entry>)
    ensures HeaderFor(c, es).startTs == c.startTs && HeaderFor(c, es).endTs == c.endTs
  {
  }

  lemma EmptyIsGood(o: Options)
    ensures Inv(o, EMPTY) && Held(EMPTY) == multiset{}
  {
  }

  const EMPTY := Builder([], CLEAR, [])

  lemma {:induction false} RunFromKeeps(o: Options, s: Builder, moves: seq<Move>)
    requires Inv(o, s) && IsRun(o, s, moves)
    ensures Inv(o, Last(s, moves))
    ensures Held(s) + Accepted(o, s, moves) == Popped(s, moves) + Held(Last(s, moves))
    decreases moves
  {
    hide Inv, Step, Held, AcceptedBy, PoppedBy;
    if moves != [] {
      StepKeepsInv(o, s, moves[0].op, moves[0].after);
      StepConserves(o, s, moves[0].op, moves[0].after);
      RunFromKeeps(o, moves[0].after, moves[1..]);
      var in0, in1 := AcceptedBy(o, s, moves[0].op), Accepted(o, moves[0].after, moves[1..]);
      var out0, out1 := PoppedBy(s, moves[0].op), Popped(moves[0].after, moves[1..]);
      var end := Held(Last(moves[0].after, moves[1..]));
      calc {
        Held(s) + (in0 + in1);
        (Held(s) + in0) + in1;
        (out0 + Held(moves[0].after)) + in1;
        out0 + (Held(moves[0].after) + in1);
        out0 + (out1 + end);
        (out0 + out1) + end;
      }
      assert Last(s, moves) == Last(moves[0].after, moves[1..]);
    }
  }

  // ------------------------------------------------------------- when a block is closed

  lemma DivisionBounds(n: nat, d: nat, q: nat)
    requires d > 0 && q == n / d
    ensures q * d <= n < (q + 1) * d
  {
    assert n == q * d + n % d;
    assert (q + 1) * d == q * d + d;
  }

  lemma QuotientIs(n: nat, d: nat, q: nat)
    requires q * d <= n < (q + 1) * d
    ensures d > 0 && n / d == q
  {
    assert (q + 1) * d == q * d + d;
    var r := n / d;
    DivisionBounds(n, d, r);
    if r < q { ProductUpTo(r + 1, q, d); }
    if r > q { ProductUpTo(q + 1, r, d); }
  }

  lemma ProductUpTo(a: nat, b: nat, k: nat)
    requires a <= b
    ensures a * k <= b * k
  {
  }

  /** An audio entry of n whole samples, each of so many channels of b whole bytes, plays n / sampleRate seconds,
      truncated to milliseconds; a rest that makes no whole sample does not count. */
  lemma PlayingTime(e: Entry, n: nat, b: nat)
    requires e.Audio? && e.sampleRate > 0 && e.payloadSize > 0
    requires 8 * b <= e.bitDepth as int < 8 * b + 8
    requires n * (b * e.channels as int) <= e.payloadSize < (n + 1) * (b * e.channels as int)
    ensures EndOf(e) == e.timestamp + Duration(e)
    ensures Duration(e) * e.sampleRate <= 1000 * n < (Duration(e) + 1) * e.sampleRate
  {
    var size := b * e.channels as int;
    QuotientIs(e.payloadSize, size, n);
    assert BytesPerSample(e) == size;
    DivisionBounds(n * 1000, e.sampleRate, Duration(e));
  }

  lemma OthersEndAtOnce(e: Entry)
    requires !e.Audio? || e.sampleRate == 0 || e.payloadSize == 0 || e.bitDepth < 8 || e.channels == 0
    ensures EndOf(e) == e.timestamp
  {
  }

  predicate ReachesDuration(o: Options, es: seq<Entry>)
    requires es != []
  {
    exists i | 0 <= i < |es| :: EndOf(es[i]) - es[0].timestamp >= o.maxDuration
  }

  /** The entries, in order of arrival, have reached a limit: their number, their bytes, or the time from the first
      to arrive to the last end, unless that begins before the epoch. */
  predicate LimitReached(o: Options, es: seq<Entry>)
    requires es != []
  {
    || |es| >= o.maxCount
    || TotalSize(es) >= o.maxSize
    || (es[0].timestamp >= 0 && ReachesDuration(o, es))
  }

  /** An entry would end too late behind those that wait. */
  predicate TooLate(o: Options, waiting: seq<Entry>, e: Entry) {
    waiting != [] && EndOf(e) - waiting[0].timestamp >= o.maxDuration
  }

  /** An entry is refused if past entries are and it is older than the first that waits. */
  predicate Refused(o: Options, waiting: seq<Entry>, e: Entry) {
    o.rejectPast && waiting != [] && e.timestamp < waiting[0].timestamp
  }

  predicate StartIsFirst(s: Builder) {
    s.pending != [] ==> s.ctx.startTs == s.pending[0].timestamp
  }

  /** The newest block is made of these entries. */
  predicate ClosedWith(before: seq<Content>, after: seq<Content>, es: seq<Entry>) {
    && |after| == |before| + 1 && after[..|before|] == before
    && multiset(after[|before|].entries) == multiset(es)
  }

  /** What one call does, told by the entries alone. */
  ghost predicate ClosesExactly(o: Options, s: Builder, op: Op, s': Builder) {
    match op
    case Add(e) =>
      if Refused(o, s.pending, e) then s' == s else
        var late := TooLate(o, s.pending, e);
        var es := if late then [e] else s.pending + [e];
        && (if late then exists middle :: ClosedWith(s.done, middle, s.pending) && Puts(o, middle, es, s')
            else Puts(o, s.done, es, s'))
    case Flush =>
      s'.pending == [] && if s.pending == [] then s'.done == s.done else ClosedWith(s.done, s'.done, s.pending)
    case Pop => s'.pending == s.pending && s'.done == if s.done == [] then [] else s.done[1..]
  }

  /** The entries wait on, or make a block if they have reached a limit. */
  predicate Puts(o: Options, done: seq<Content>, es: seq<Entry>, s': Builder)
    requires es != []
  {
    if LimitReached(o, es) then s'.pending == [] && ClosedWith(done, s'.done, es)
    else s'.pending == es && s'.done == done
  }

  lemma StepKeepsStart(o: Options, s: Builder, op: Op, s': Builder)
    requires StartIsFirst(s) && Step(o, s, op, s')
    ensures StartIsFirst(s')
  {
    hide IsFinished, EndOf, HeaderFor, Sorted, FinalizesBefore, Addable;
    match op
    case Add(e) =>
      if Accepts(o, s, e) {
        var mid :| EndOf(e) < 0x8000_0000_0000_0000 && AddedVia(o, s, e, mid, s');
      }
    case Flush =>
    case Pop =>
  }

  /** The context of good entries has reached a limit exactly if the entries have. */
  lemma FinishedIsLimit(o: Options, s: Builder)
    requires GoodPending(o, s) && s.pending != [] && StartIsFirst(s)
    ensures IsFinished(o, s.ctx) <==> LimitReached(o, s.pending)
  {
    hide EndOf, TotalSize, Fits, SpanKept, SizeKept, CountKept, AnyKeyFrame;
    var es, endTs := s.pending, s.ctx.endTs;
    var j :| 0 <= j < |es| && EndOf(es[j]) == endTs;
    assert EndOf(es[0]) >= es[0].timestamp && EndOf(es[0]) <= endTs;
    if ReachesDuration(o, es) {
      var i :| 0 <= i < |es| && EndOf(es[i]) - es[0].timestamp >= o.maxDuration;
      assert EndOf(es[i]) <= endTs;
    }
    if endTs - es[0].timestamp >= o.maxDuration {
      assert EndOf(es[j]) - es[0].timestamp >= o.maxDuration;
    }
  }

  lemma FinalizedCloses(s: Builder, s': Builder)
    requires Finalized(s, s')
    ensures s'.pending == [] && if s.pending == [] then s'.done == s.done else ClosedWith(s.done, s'.done, s.pending)
  {
  }

  lemma PushFacts(s: Builder, e: Entry)
    requires EndOf(e) < 0x8000_0000_0000_0000
    ensures Pushed(s, e).pending == s.pending + [e] && Pushed(s, e).done == s.done
    ensures StartIsFirst(s) ==> StartIsFirst(Pushed(s, e))
  {
    hide EndOf;
  }

  lemma PushPuts(o: Options, mid: Builder, e: Entry, s': Builder)
    requires GoodPending(o, mid) && !IsFinished(o, mid.ctx) && Addable(o, e) && Accepts(o, mid, e)
    requires !FinalizesBefore(o, mid, e) && StartIsFirst(mid)
    requires if IsFinished(o, Pushed(mid, e).ctx) then Finalized(Pushed(mid, e), s') else s' == Pushed(mid, e)
    ensures Puts(o, mid.done, mid.pending + [e], s')
  {
    hide GoodPending, Pushed, IsFinished, Finalized, LimitReached, ClosedWith, StartIsFirst, Accepts, FinalizesBefore;
    var pushed := Pushed(mid, e);
    PushKeepsPending(o, mid, e);
    PushFacts(mid, e);
    FinishedIsLimit(o, pushed);
    if IsFinished(o, pushed.ctx) { FinalizedCloses(pushed, s'); }
  }

  /** One call closes a block exactly when a limit asks for it, or a flush. */
  lemma StepClosesExactly(o: Options, s: Builder, op: Op, s': Builder)
    requires Inv(o, s) && StartIsFirst(s) && Step(o, s, op, s')
    ensures ClosesExactly(o, s, op, s')
  {
    hide GoodContent, IsFinished, Finalized, ClosedWith, Puts, EndOf, Pushed;
    match op
    case Add(e) =>
      GoodCounts(o, s);
      if Accepts(o, s, e) {
        var mid :| EndOf(e) < 0x8000_0000_0000_0000 && AddedVia(o, s, e, mid, s');
        if FinalizesBefore(o, s, e) {
          FinalizeKeepsGood(o, s, mid);
          FinalizedCloses(s, mid);
          ClearAccepts(o, s, mid, e);
          PushPuts(o, mid, e, s');
          Alone(e);
          assert ClosedWith(s.done, mid.done, s.pending) && Puts(o, mid.done, [e], s');
        } else {
          PushPuts(o, s, e, s');
        }
      }
    case Flush => FinalizedCloses(s, s');
    case Pop =>
  }

  lemma Alone(e: Entry)
    ensures [] + [e] == [e]
  {
  }

  lemma GoodCounts(o: Options, s: Builder)
    requires Inv(o, s)
    ensures s.ctx.count == |s.pending|
  {
  }

  /** Over every run, at every call: entries are refused, held and closed into blocks exactly as the limits say. */
  lemma {:induction false} RunClosesExactly(o: Options, s: Builder, moves: seq<Move>, i: nat)
    requires Inv(o, s) && StartIsFirst(s) && IsRun(o, s, moves) && i < |moves|
    ensures ClosesExactly(o, if i == 0 then s else moves[i - 1].after, moves[i].op, moves[i].after)
    decreases moves
  {
    hide Inv, Step, ClosesExactly, StartIsFirst;
    StepClosesExactly(o, s, moves[0].op, moves[0].after);
    if i > 0 {
      StepKeepsInv(o, s, moves[0].op, moves[0].after);
      StepKeepsStart(o, s, moves[0].op, moves[0].after);
      RunClosesExactly(o, moves[0].after, moves[1..], i - 1);
    }
  }

  lemma BlocksCloseExactly(o: Options, moves: seq<Move>, i: nat)
    requires IsRun(o, EMPTY, moves) && i < |moves|
    ensures ClosesExactly(o, if i == 0 then EMPTY else moves[i - 1].after, moves[i].op, moves[i].after)
  {
    hide IsRun, Inv, ClosesExactly;
    EmptyIsGood(o);
    RunClosesExactly(o, EMPTY, moves, i);
  }

  // --------------------------------------------------------------- implementation

  function Offsets(es: seq<Entry>, off: nat): seq<nat> {
    if es == [] then [] else [off] + Offsets(es[1..], off + SizeOf(es[0]))
  }

  /** The serialized block that stands for a content. */
  function Image(c: Content): DataBlock
    requires AllStorable(c.entries)
  {
    DataBlock(Some(c.header), BlockBytes(c.header, c.entries), Offsets(c.entries, BLOCK_HEADER_SIZE))
  }

  lemma {:induction false} EntriesBytesSnoc(es: seq<Entry>, e: Entry)
    requires AllStorable(es + [e])
    ensures AllStorable(es)
    ensures Storable(e)
    ensures EntriesBytes(es + [e]) == EntriesBytes(es) + EntryBytes(e)
  {
    hide EntryBytes, Storable;
    forall i | 0 <= i < |es| ensures Storable(es[i]) { assert es[i] == (es + [e])[i]; }
    assert e == (es + [e])[|es|];
    if es == [] {
      assert [e][1..] == [];
      assert EntryBytes(e) + [] == EntryBytes(e);
    } else {
      assert (es + [e])[1..] == es[1..] + [e];
      EntriesBytesSnoc(es[1..], e);
      var first, middle := EntryBytes(es[0]), EntriesBytes(es[1..]);
      assert first + (middle + EntryBytes(e)) == (first + middle) + EntryBytes(e);
    }
  }

  lemma {:induction false} EntriesBytesSize(es: seq<Entry>)
    requires AllStorable(es)
    ensures |EntriesBytes(es)| == TotalSize(es)
  {
    if es != [] {
      var init, last := es[..|es| - 1], es[|es| - 1];
      assert es == init + [last];
      EntriesBytesSnoc(init, last);
      EntriesBytesSize(init);
    }
  }

  lemma {:induction false} OffsetsSnoc(es: seq<Entry>, e: Entry, off: nat)
    ensures Offsets(es + [e], off) == Offsets(es, off) + [off + TotalSize(es)]
  {
    hide SizeOf;
    if es == [] {
      assert [e][1..] == [];
    } else {
      assert (es + [e])[1..] == es[1..] + [e];
      OffsetsSnoc(es[1..], e, off + SizeOf(es[0]));
      TotalSizeFront(es);
    }
  }

  lemma {:induction false} TotalSizeFront(es: seq<Entry>)
    requires es != []
    ensures TotalSize(es) == SizeOf(es[0]) + TotalSize(es[1..])
  {
    TotalSizeWithout(es, 0);
    assert es[..0] + es[1..] == es[1..];
  }

  /** memcpy into the serialization buffer. */
  method Copy(base: array<byte>, at: nat, s: bytes)
    requires at + |s| <= base.Length
    modifies base
    ensures base[..at] == old(base[..at])
    ensures base[at..at + |s|] == s
    ensures base[..at + |s|] == old(base[..at]) + s
  {
    forall i | 0 <= i < |s| {
      base[at + i] := s[i];
    }
    assert base[..at + |s|] == base[..at] + base[at..at + |s|];
  }

  function InsertSorted(sorted: seq<Entry>, e: Entry): (longer: seq<Entry>)
    requires Sorted(sorted)
    ensures Sorted(longer) && multiset(longer) == multiset(sorted) + multiset{e} && |longer| == |sorted| + 1
    ensures forall x | x in longer :: x == e || x in sorted
  {
    var n := |sorted| - 1;
    if n < 0 || sorted[n].timestamp <= e.timestamp then sorted + [e] else
      assert sorted == sorted[..n] + [sorted[n]];
      var front := InsertSorted(sorted[..n], e);
      assert forall i | 0 <= i < |front| :: front[i].timestamp <= sorted[n].timestamp by {
        forall i | 0 <= i < |front| ensures front[i].timestamp <= sorted[n].timestamp {
          assert front[i] in front;
        }
      }
      front + [sorted[n]]
  }

  /** Stands for std::sort, of which only this much is used. */
  method SortByTimestamp(es: seq<Entry>) returns (sorted: seq<Entry>)
    ensures Sorted(sorted) && multiset(sorted) == multiset(es) && |sorted| == |es|
  {
    hide Sorted;
    sorted := [];
    assert Sorted(sorted) by { NothingIsSorted(); }
    for i := 0 to |es|
      invariant Sorted(sorted) && multiset(sorted) == multiset(es[..i]) && |sorted| == i
    {
      assert es[..i + 1] == es[..i] + [es[i]];
      sorted := InsertSorted(sorted, es[i]);
    }
    assert es[..|es|] == es;
  }

  lemma NothingIsSorted()
    ensures Sorted([])
  {
  }

  method CopyEntry(base: array<byte>, at: nat, e: Entry)
    requires Storable(e) && at + SizeOf(e) <= base.Length
    modifies base
    ensures base[..at + SizeOf(e)] == old(base[..at]) + EntryBytes(e)
  {
    hide EntryStruct;
    EntryParts(e);
    var header := EntryStruct(e)[..e.headerSize];
    Copy(base, at, header);
    if e.payload != [] {
      Copy(base, at + e.headerSize, e.payload);
    }
    assert old(base[..at]) + (header + e.payload) == (old(base[..at]) + header) + e.payload;
  }

  /** The serialization loop: header, entries, end magic, written one behind the other. */
  method Serialize(header: BlockHeader, es: seq<Entry>) returns (block: DataBlock)
    requires AllStorable(es)
    requires header.length == TotalSize(es) + 30
    ensures block == Image(Content(header, es))
  {
    hide EncodeBlockHeader, EntryBytes, AllStorable, Storable, SizeOf, TotalSize, EntriesBytes, Offsets, Image, LE16;
    var base := new byte[header.length](_ => 0);
    Copy(base, 0, EncodeBlockHeader(header));
    var writeOffset := BLOCK_HEADER_SIZE;
    var entries: seq<nat> := [];
    NoEntries();
    assert es[..0] == [];
    for k := 0 to |es|
      invariant AllStorable(es[..k])
      invariant writeOffset == BLOCK_HEADER_SIZE + TotalSize(es[..k]) <= base.Length - 2
      invariant base[..writeOffset] == EncodeBlockHeader(header) + EntriesBytes(es[..k])
      invariant entries == Offsets(es[..k], BLOCK_HEADER_SIZE)
    {
      PrefixParts(EncodeBlockHeader(header), es, k);
      CopyEntry(base, writeOffset, es[k]);
      entries := entries + [writeOffset];
      writeOffset := writeOffset + SizeOf(es[k]);
    }
    assert es[..|es|] == es;
    Copy(base, writeOffset, LE16(BLOCK_END_MAGIC));
    ImageParts(header, es);
    assert base[..] == base[..writeOffset + 2];
    block := DataBlock(Some(header), base[..], entries);
  }

  lemma PrefixParts(front: bytes, es: seq<Entry>, k: nat)
    requires k < |es| && AllStorable(es)
    ensures Storable(es[k]) && AllStorable(es[..k]) && AllStorable(es[..k + 1])
    ensures TotalSize(es[..k + 1]) == TotalSize(es[..k]) + SizeOf(es[k]) <= TotalSize(es)
    ensures front + EntriesBytes(es[..k + 1]) == front + EntriesBytes(es[..k]) + EntryBytes(es[k])
    ensures Offsets(es[..k + 1], BLOCK_HEADER_SIZE)
         == Offsets(es[..k], BLOCK_HEADER_SIZE) + [BLOCK_HEADER_SIZE + TotalSize(es[..k])]
  {
    hide EntryBytes, AllStorable, Storable, SizeOf, TotalSize, EntriesBytes, Offsets;
    PrefixStorable(es, k);
    var init, last := es[..k], es[k];
    assert es[..k + 1] == init + [last];
    BytesBehind(front, init, last);
    OffsetsSnoc(init, last, BLOCK_HEADER_SIZE);
    TotalSizeSnoc(init, last);
    TotalSizePrefix(es, k + 1);
  }

  lemma BytesBehind(front: bytes, init: seq<Entry>, last: Entry)
    requires Storable(last) && AllStorable(init)
    ensures AllStorable(init + [last])
    ensures front + EntriesBytes(init + [last]) == front + EntriesBytes(init) + EntryBytes(last)
  {
    hide EntryBytes, Storable, EntriesBytes;
    EntriesBytesSnoc(init, last);
    var x, y := EntriesBytes(init), EntryBytes(last);
    assert front + (x + y) == front + x + y;
  }

  lemma PrefixStorable(es: seq<Entry>, k: nat)
    requires k < |es| && AllStorable(es)
    ensures Storable(es[k]) && AllStorable(es[..k]) && AllStorable(es[..k + 1])
  {
  }

  lemma ImageParts(header: BlockHeader, es: seq<Entry>)
    requires AllStorable(es)
    ensures Image(Content(header, es)) ==
            DataBlock(Some(header), EncodeBlockHeader(header) + EntriesBytes(es) + LE16(BLOCK_END_MAGIC),
                      Offsets(es, BLOCK_HEADER_SIZE))
  {
  }

  lemma TotalSizeSnoc(es: seq<Entry>, e: Entry)
    ensures TotalSize(es + [e]) == TotalSize(es) + SizeOf(e)
  {
    assert (es + [e])[..|es|] == es;
  }

  lemma NoEntries()
    ensures AllStorable([]) && TotalSize([]) == 0 && EntriesBytes([]) == [] && Offsets([], BLOCK_HEADER_SIZE) == []
  {
  }

  lemma EntryParts(e: Entry)
    requires Storable(e)
    ensures e.headerSize <= |EntryStruct(e)|
    ensures EntryBytes(e) == EntryStruct(e)[..e.headerSize] + e.payload
    ensures SizeOf(e) == e.headerSize + |e.payload| && |EntryBytes(e)| == SizeOf(e)
  {
  }

  lemma {:induction false} TotalSizePrefix(es: seq<Entry>, k: nat)
    requires k <= |es|
    ensures TotalSize(es[..k]) <= TotalSize(es)
    decreases |es|
  {
    if k < |es| {
      TotalSizePrefix(es[..|es| - 1], k);
      assert es[..|es| - 1][..k] == es[..k];
    } else {
      assert es[..k] == es;
    }
  }

  class BlockBuilder {
    const options: Options
    var pending: seq<Entry>
    var ctx: Context
    var blocks: seq<DataBlock>
    ghost var done: seq<Content>

    ghost function View(): Builder
      reads this
    {
      Builder(pending, ctx, done)
    }

    /** The invariant of the model, and the serialized blocks say what the finished contents say. */
    ghost predicate Valid()
      reads this
    {
      && Inv(options, View())
      && Serialized(blocks, done)
    }

    constructor (options: Options)
      ensures Valid() && this.options == options && View() == EMPTY
    {
      this.options := options;
      pending, ctx, blocks, done := [], CLEAR, [], [];
      new;
      EmptyIsGood(options);
    }

    method FinalizeCurrentBlock()
      requires GoodPending(options, View()) && Serialized(blocks, done)
      modifies this
      ensures Finalized(old(View()), View()) && Serialized(blocks, done)
    {
      hide EndOf, HasKeyFrame, Or32, Image;
      if pending == [] {
        ctx := CLEAR;
        return;
      }
      var sorted := SortByTimestamp(pending);
      TotalSizePermuted(pending, sorted);
      assert AllStorable(sorted) by {
        forall i | 0 <= i < |sorted| ensures Storable(sorted[i]) { var j := SameMembers(sorted, pending, i); }
      }
      var header := HeaderFor(ctx, sorted);
      var block := Serialize(header, sorted);
      blocks := blocks + [block];
      done := done + [Content(header, sorted)];
      pending, ctx := [], CLEAR;
    }

    /** The part of add_entry that updates the context and stores the entry. */
    method Push(e: Entry)
      requires EndOf(e) < 0x8000_0000_0000_0000
      modifies `pending, `ctx
      ensures View() == Pushed(old(View()), e)
    {
      hide EndOf;
      if pending == [] {
        ctx := ctx.(startTs := e.timestamp, endTs := e.timestamp);
      }
      var endTs := EndOf(e);
      if IsKeyFrame(e) {
        ctx := ctx.(hasKeyFrame := true);
      }
      if endTs > ctx.endTs {
        ctx := ctx.(endTs := endTs);
      }
      ctx := ctx.(bytes := ctx.bytes + SizeOf(e));
      pending := pending + [e];
      ctx := ctx.(count := |pending|);
    }

    method AddEntry(e: Entry) returns (accepted: bool)
      requires Valid() && Addable(options, e)
      modifies this
      ensures Valid() && Step(options, old(View()), Add(e), View())
      ensures accepted <==> Accepts(options, old(View()), e)
    {
      hide Inv, GoodPending, Finalized, EndOf, Serialized, Pushed, GoodContent;
      ghost var before := View();
      InvParts(options, before);
      accepted := !options.rejectPast || ctx.count == 0 || e.timestamp >= ctx.startTs;
      if !accepted {
        return;
      }
      ghost var mid := before;
      if pending != [] && FinalizesBefore(options, Builder(pending, ctx, []), e) {
        FinalizeCurrentBlock();
        mid := View();
        FinalizeKeepsGood(options, before, mid);
        InvParts(options, mid);
        ClearAccepts(options, before, mid, e);
      }
      PushKeepsPending(options, mid, e);
      Push(e);
      if IsFinished(options, ctx) {
        FinalizeCurrentBlock();
      }
      assert AddedVia(options, before, e, mid, View());
      StepKeepsInv(options, before, Add(e), View());
    }

    method FlushPending()
      requires Valid()
      modifies this
      ensures Valid() && Step(options, old(View()), Flush, View())
    {
      hide Inv, GoodPending, Finalized, Serialized;
      InvParts(options, View());
      FinalizeCurrentBlock();
      StepKeepsInv(options, old(View()), Flush, View());
    }

    method PopBlock() returns (block: DataBlock)
      requires Valid()
      modifies this
      ensures Valid() && Step(options, old(View()), Pop, View())
      ensures block == if old(done) == [] then NO_BLOCK else Image(old(done)[0])
    {
      hide Inv, Image;
      InvParts(options, View());
      if blocks == [] {
        return NO_BLOCK;
      }
      block := blocks[0];
      blocks := blocks[1..];
      done := done[1..];
      StepKeepsInv(options, old(View()), Pop, View());
    }
  }

  const NO_BLOCK := DataBlock(None, [], [])

  ghost predicate Serialized(blocks: seq<DataBlock>, done: seq<Content>) {
    && |blocks| == |done|
    && forall i | 0 <= i < |done| ::
         AllStorable(done[i].entries) && blocks[i] == Image(done[i])
  }

  lemma InvParts(o: Options, s: Builder)
    requires Inv(o, s)
    ensures GoodPending(o, s) && !IsFinished(o, s.ctx)
    ensures forall i | 0 <= i < |s.done| :: GoodContent(o, s.done[i])
  {
  }
}
