/** Appending blocks to segment files and rotating the files (nxcore/record/segment_builder.cpp). */
module SegmentBuilder {
  import opened Bytes
  import opened Sequences
  import opened RecordLayout
  import opened FileModel
  import opened SegmentFooter

  /** Header and first entry of a block lie inside its buffer, up to the byte behind BlockEntry. */
  predicate PointsInside(b: DataBlock) {
    b.header.Some? && b.serialized != [] ==>
      && |b.serialized| >= BLOCK_HEADER_SIZE
      && b.header.value == DecodeBlockHeader(b.serialized[..BLOCK_HEADER_SIZE])
      && (b.entries != [] ==> b.entries[0] + BLOCK_ENTRY_SIZE < |b.serialized|)
  }

  predicate Writable(b: DataBlock) {
    b.header.Some? && b.serialized != [] && PointsInside(b)
  }

  datatype Options = Options(channelId: int64, maxDuration: int64, maxSize: nat)

  datatype Context = Context(startTs: int64, endTs: int64, blockCount: nat, fileSize: nat)

  /** The segment being written: the bytes of its file, and what the builder keeps in memory. */
  datatype OpenSegment = OpenSegment(data: bytes, ctx: Context, index: seq<IndexEntry>)

  /** A closed file together with what on_segment_finished is told about it. */
  datatype Finished = Finished(data: bytes, ctx: Context, index: seq<IndexEntry>)

  datatype State = State(current: Option<OpenSegment>, finished: seq<Finished>)

  datatype WriteResult = Written(size: nat) | InvalidBlock | EmptyBlock

  // ---------------------------------------------------------------- specification

  function HeaderFor(o: Options): SegmentHeader {
    SegmentHeader(SEGMENT_MAGIC, SEGMENT_HEADER_SIZE, 2, o.channelId, 0)
  }

  /** Entry and codec type of a block's first entry, read through the entry pointer. */
  function WrittenInfo(b: DataBlock): (byte, byte)
    requires Writable(b)
  {
    if b.entries == [] then (0, 0) else
      var o := b.entries[0];
      (b.serialized[o], if StructSize(b.serialized[o]) != 0 then b.serialized[o + BLOCK_ENTRY_SIZE] else 0)
  }

  function WrittenIndexEntry(b: DataBlock, off: nat): IndexEntry
    requires Writable(b)
  {
    var h := b.header.value;
    IndexEntry(INDEX_MAGIC, EncodeIndexFlags(h.flags, WrittenInfo(b).0, WrittenInfo(b).1), h.startTs,
               off % 0x1_0000_0000_0000_0000)
  }

  /** Duration and size limits of BasicSegmentBuilderOptions. */
  predicate ShouldFinish(o: Options, startTs: int64, endTs: int64, fileSize: nat) {
    || (startTs >= 0 && endTs >= 0 && endTs - startTs >= o.maxDuration)
    || fileSize >= o.maxSize
  }

  function NewSegment(o: Options, ts: int64): OpenSegment {
    OpenSegment(EncodeSegmentHeader(HeaderFor(o)), Context(ts, ts, 0, SEGMENT_HEADER_SIZE), [])
  }

  function Append(s: OpenSegment, b: DataBlock): OpenSegment
    requires Writable(b)
  {
    var h := b.header.value;
    OpenSegment(
      s.data + b.serialized,
      Context(s.ctx.startTs, h.endTs, s.ctx.blockCount + 1, s.ctx.fileSize + |b.serialized|),
      if HasKeyFrame(h.flags) then s.index + [WrittenIndexEntry(b, |s.data|)] else s.index)
  }

  function CloseSegment(s: OpenSegment): Finished {
    Finished(s.data + FooterBytes(s.index),
             s.ctx.(fileSize := s.ctx.fileSize + INDEX_ENTRY_SIZE * |s.index| + FOOTER_SIZE),
             s.index)
  }

  function Close(s: State): State {
    match s.current
    case None => s
    case Some(seg) => State(None, s.finished + [CloseSegment(seg)])
  }

  function WriteTo(o: Options, s: State, b: DataBlock): State
    requires PointsInside(b)
  {
    if b.header.None? || b.serialized == [] then s else
      var h := b.header.value;
      var rotate := s.current.Some? &&
        ShouldFinish(o, s.current.value.ctx.startTs, h.endTs, s.current.value.ctx.fileSize + |b.serialized|);
      var s' := if rotate then Close(s) else s;
      var seg := if s'.current.Some? then s'.current.value else NewSegment(o, h.startTs);
      State(Some(Append(seg, b)), s'.finished)
  }

  function WriteOutcome(b: DataBlock): WriteResult {
    if b.header.None? then InvalidBlock else if b.serialized == [] then EmptyBlock else Written(|b.serialized|)
  }

  // --------------------------------------------------------------- implementation

  class SegmentBuilder {
    const options: Options
    var file: FileStream?
    var ctx: Context
    var index: seq<IndexEntry>
    /** Every file closed so far, in order, with the arguments of on_segment_finished. */
    var finished: seq<Finished>

    ghost predicate Valid()
      reads this, file
    {
      file != null ==> file.pos == |file.data|
    }

    ghost function View(): State
      reads this, file
    {
      State(if file == null then None else Some(OpenSegment(file.data, ctx, index)), finished)
    }

    constructor (options: Options)
      ensures this.options == options && Valid() && View() == State(None, [])
    {
      this.options := options;
      file, index, finished := null, [], [];
      ctx := Context(0, 0, 0, 0);
    }

    method CloseCurrentSegment()
      requires Valid()
      modifies this, file
      ensures Valid() && file == null && View() == Close(old(View()))
    {
      if file != null {
        WriteFooter(file, index);
        ctx := ctx.(fileSize := ctx.fileSize + INDEX_ENTRY_SIZE * |index| + FOOTER_SIZE);
        finished := finished + [Finished(file.data, ctx, index)];
        file := null;
      }
      index := [];
      ctx := Context(0, 0, 0, 0);
    }

    method CreateNewSegment(ts: int64)
      requires Valid()
      modifies this, file
      ensures Valid() && file != null && fresh(file)
      ensures View() == State(Some(NewSegment(options, ts)), Close(old(View())).finished)
    {
      if file != null {
        CloseCurrentSegment();
      }
      var created := new FileStream([]);
      created.Write(EncodeSegmentHeader(HeaderFor(options)));
      file := created;
      ctx := Context(ts, ts, 0, SEGMENT_HEADER_SIZE);
      index := [];
      assert file.data == EncodeSegmentHeader(HeaderFor(options));
    }

    method CheckAndRotateSegment(next: DataBlock)
      requires Valid() && file != null && Writable(next)
      modifies this, file
      ensures Valid() && file != null && (file == old(file) || fresh(file))
      ensures View() == if ShouldFinish(options, old(ctx.startTs), next.header.value.endTs,
                                        old(ctx.fileSize) + |next.serialized|)
                        then State(Some(NewSegment(options, next.header.value.startTs)), Close(old(View())).finished)
                        else old(View())
    {
      if ShouldFinish(options, ctx.startTs, next.header.value.endTs, ctx.fileSize + |next.serialized|) {
        CloseCurrentSegment();
        CreateNewSegment(next.header.value.startTs);
      }
    }

    method WriteBlock(b: DataBlock) returns (result: WriteResult)
      requires Valid() && PointsInside(b)
      modifies this, file
      ensures Valid() && (file == old(file) || fresh(file))
      ensures View() == WriteTo(options, old(View()), b)
      ensures result == WriteOutcome(b)
    {
      hide EncodeSegmentHeader, DecodeBlockHeader, CloseSegment, ShouldFinish, Append;
      if b.header.None? {
        return InvalidBlock;
      }
      if b.serialized == [] {
        return EmptyBlock;
      }
      var h := b.header.value;
      if file == null {
        CreateNewSegment(h.startTs);
      } else {
        CheckAndRotateSegment(b);
      }
      AppendBlock(b);
      return Written(|b.serialized|);
    }

    /** The part of write_block behind rotation: the bytes, the context and the index. */
    method AppendBlock(b: DataBlock)
      requires Valid() && file != null && Writable(b)
      modifies `ctx, `index, file
      ensures Valid() && View() == State(Some(Append(old(View()).current.value, b)), old(View()).finished)
    {
      hide EncodeIndexFlags, WrittenInfo;
      var h := b.header.value;
      var blockOffset := file.pos;
      file.Write(b.serialized);
      ctx := Context(ctx.startTs, h.endTs, ctx.blockCount + 1, ctx.fileSize + |b.serialized|);
      if HasKeyFrame(h.flags) {
        var info := WrittenInfo(b);
        index := index + [IndexEntry(INDEX_MAGIC, EncodeIndexFlags(h.flags, info.0, info.1), h.startTs,
                                     blockOffset % 0x1_0000_0000_0000_0000)];
      }
    }
  }

  // --------------------------------------------------- what a run leaves on the disk

  datatype Op = Write(block: DataBlock) | CloseNow

  predicate ValidRun(ops: seq<Op>) {
    forall i | 0 <= i < |ops| && ops[i].Write? :: PointsInside(ops[i].block)
  }

  function Step(o: Options, s: State, op: Op): State
    requires op.Write? ==> PointsInside(op.block)
  {
    match op case Write(b) => WriteTo(o, s, b) case CloseNow => Close(s)
  }

  function Run(o: Options, ops: seq<Op>): State
    requires ValidRun(ops)
  {
    if ops == [] then State(None, []) else
      Step(o, Run(o, ops[..|ops| - 1]), ops[|ops| - 1])
  }

  /** The blocks that the calls of a run handed over and that were not refused, in order. */
  function BlocksWritten(ops: seq<Op>): seq<DataBlock>
    requires ValidRun(ops)
  {
    if ops == [] then [] else
      var last := ops[|ops| - 1];
      BlocksWritten(ops[..|ops| - 1]) + if last.Write? && Writable(last.block) then [last.block] else []
  }

  predicate AllWritable(bs: seq<DataBlock>) {
    forall i | 0 <= i < |bs| :: Writable(bs[i])
  }

  predicate AllGroups(groups: seq<seq<DataBlock>>) {
    forall i | 0 <= i < |groups| :: groups[i] != [] && AllWritable(groups[i])
  }

  function BlockData(bs: seq<DataBlock>): bytes {
    if bs == [] then [] else bs[0].serialized + BlockData(bs[1..])
  }

  /** The index of the keyframe blocks among bs, the first of which lies at the given offset. */
  function WriterIndex(bs: seq<DataBlock>, off: nat): seq<IndexEntry>
    requires AllWritable(bs)
  {
    if bs == [] then [] else
      (if HasKeyFrame(bs[0].header.value.flags) then [WrittenIndexEntry(bs[0], off)] else [])
      + WriterIndex(bs[1..], off + |bs[0].serialized|)
  }

  function OpenImage(o: Options, bs: seq<DataBlock>): bytes {
    EncodeSegmentHeader(HeaderFor(o)) + BlockData(bs)
  }

  /** The file that a clean close leaves after exactly the blocks bs. */
  function ClosedImage(o: Options, bs: seq<DataBlock>): bytes
    requires AllWritable(bs)
  {
    OpenImage(o, bs) + FooterBytes(WriterIndex(bs, SEGMENT_HEADER_SIZE))
  }

  /** Adding b to a segment that holds exactly bs would reach a limit. */
  predicate Overfull(o: Options, bs: seq<DataBlock>, b: DataBlock)
    requires bs != [] && AllWritable(bs) && Writable(b)
  {
    ShouldFinish(o, bs[0].header.value.startTs, b.header.value.endTs, SEGMENT_HEADER_SIZE + |BlockData(bs + [b])|)
  }

  /** How a run distributes its blocks over files, told without files: a new group starts after
      a close and where the next block would make the current group overfull. */
  function Grouping(o: Options, ops: seq<Op>): (r: (seq<seq<DataBlock>>, seq<DataBlock>))
    requires ValidRun(ops)
    ensures AllWritable(r.1) && AllGroups(r.0)
  {
    if ops == [] then ([], []) else
      var (groups, current) := Grouping(o, ops[..|ops| - 1]);
      match ops[|ops| - 1]
      case CloseNow => if current == [] then (groups, []) else (groups + [current], [])
      case Write(b) =>
        if !Writable(b) then (groups, current)
        else if current == [] then (groups, [b])
        else if Overfull(o, current, b) then (groups + [current], [b])
        else (groups, current + [b])
  }

  function SegmentOf(o: Options, bs: seq<DataBlock>): OpenSegment
    requires bs != [] && AllWritable(bs)
  {
    OpenSegment(OpenImage(o, bs),
                Context(bs[0].header.value.startTs, bs[|bs| - 1].header.value.endTs, |bs|, |OpenImage(o, bs)|),
                WriterIndex(bs, SEGMENT_HEADER_SIZE))
  }

  function FinishedOf(o: Options, bs: seq<DataBlock>): Finished
    requires bs != [] && AllWritable(bs)
  {
    Finished(ClosedImage(o, bs),
             Context(bs[0].header.value.startTs, bs[|bs| - 1].header.value.endTs, |bs|, |ClosedImage(o, bs)|),
             WriterIndex(bs, SEGMENT_HEADER_SIZE))
  }

  function FinishedAll(o: Options, groups: seq<seq<DataBlock>>): seq<Finished>
    requires AllGroups(groups)
  {
    seq(|groups|, i requires 0 <= i < |groups| => FinishedOf(o, groups[i]))
  }

  lemma {:induction false} BlockDataAppend(a: seq<DataBlock>, b: seq<DataBlock>)
    ensures BlockData(a + b) == BlockData(a) + BlockData(b)
  {
    if a == [] {
      assert a + b == b;
    } else {
      assert (a + b)[0] == a[0] && (a + b)[1..] == a[1..] + b;
      BlockDataAppend(a[1..], b);
    }
  }

  lemma {:induction false} WriterIndexAppend(a: seq<DataBlock>, b: seq<DataBlock>, off: nat)
    requires AllWritable(a) && AllWritable(b)
    ensures AllWritable(a + b)
    ensures WriterIndex(a + b, off) == WriterIndex(a, off) + WriterIndex(b, off + |BlockData(a)|)
  {
    hide WrittenIndexEntry, PointsInside, HasKeyFrame;
    if a == [] {
      assert a + b == b;
    } else {
      assert (a + b)[0] == a[0] && (a + b)[1..] == a[1..] + b;
      var next := off + |a[0].serialized|;
      WriterIndexAppend(a[1..], b, next);
      var first := if HasKeyFrame(a[0].header.value.flags) then [WrittenIndexEntry(a[0], off)] else [];
      var middle, rest := WriterIndex(a[1..], next), WriterIndex(b, next + |BlockData(a[1..])|);
      assert first + (middle + rest) == (first + middle) + rest;
    }
  }

  lemma OneBlock(b: DataBlock, off: nat)
    requires Writable(b)
    ensures BlockData([b]) == b.serialized
    ensures WriterIndex([b], off) == if HasKeyFrame(b.header.value.flags) then [WrittenIndexEntry(b, off)] else []
  {
    hide WrittenIndexEntry;
    assert [b][1..] == [];
  }

  lemma AppendExtends(o: Options, bs: seq<DataBlock>, b: DataBlock)
    requires bs != [] && AllWritable(bs) && Writable(b)
    ensures Append(SegmentOf(o, bs), b) == SegmentOf(o, bs + [b])
  {
    hide WrittenIndexEntry, EncodeSegmentHeader, BlockData, WriterIndex, PointsInside;
    var start := EncodeSegmentHeader(HeaderFor(o));
    BlockDataAppend(bs, [b]);
    OneBlock(b, |OpenImage(o, bs)|);
    WriterIndexAppend(bs, [b], SEGMENT_HEADER_SIZE);
    assert start + (BlockData(bs) + b.serialized) == (start + BlockData(bs)) + b.serialized;
    assert WriterIndex(bs, SEGMENT_HEADER_SIZE) + [] == WriterIndex(bs, SEGMENT_HEADER_SIZE);
  }

  lemma FirstAppend(o: Options, b: DataBlock)
    requires Writable(b)
    ensures Append(NewSegment(o, b.header.value.startTs), b) == SegmentOf(o, [b])
  {
    hide WrittenIndexEntry, EncodeSegmentHeader;
    OneBlock(b, SEGMENT_HEADER_SIZE);
  }

  /** The groups of a run as files. */
  function FilesOf(o: Options, groups: seq<seq<DataBlock>>, current: seq<DataBlock>): State
    requires AllGroups(groups) && AllWritable(current)
  {
    State(if current == [] then None else Some(SegmentOf(o, current)), FinishedAll(o, groups))
  }

  lemma CloseFiles(o: Options, groups: seq<seq<DataBlock>>, current: seq<DataBlock>)
    requires AllGroups(groups) && AllWritable(current)
    ensures current != [] ==>
              AllGroups(groups + [current]) && Close(FilesOf(o, groups, current)) == FilesOf(o, groups + [current], [])
    ensures current == [] ==> Close(FilesOf(o, groups, current)) == FilesOf(o, groups, current)
  {
    hide SegmentOf, FinishedOf, CloseSegment, AllWritable, FinishedAll;
    if current != [] {
      CloseGivesFinished(o, groups, current);
    }
  }

  /** The size that rotation looks at is the size of the group's file with the next block. */
  lemma OverfullIs(o: Options, bs: seq<DataBlock>, b: DataBlock)
    requires bs != [] && AllWritable(bs) && Writable(b)
    ensures Overfull(o, bs, b) <==> ShouldFinish(o, SegmentOf(o, bs).ctx.startTs, b.header.value.endTs,
                                                 SegmentOf(o, bs).ctx.fileSize + |b.serialized|)
  {
    hide EncodeSegmentHeader, ShouldFinish, WriterIndex, AllWritable;
    BlockDataAppend(bs, [b]);
    OneBlock(b, 0);
  }

  lemma WriteFiles(o: Options, groups: seq<seq<DataBlock>>, current: seq<DataBlock>, b: DataBlock)
    requires AllGroups(groups) && AllWritable(current) && Writable(b)
    ensures var s := WriteTo(o, FilesOf(o, groups, current), b);
            if current == [] then s == FilesOf(o, groups, [b])
            else if Overfull(o, current, b)
            then AllGroups(groups + [current]) && s == FilesOf(o, groups + [current], [b])
            else s == FilesOf(o, groups, current + [b])
  {
    hide SegmentOf, Append, AllGroups, FinishedAll, ShouldFinish, Overfull, NewSegment;
    FirstAppend(o, b);
    if current != [] {
      OverfullIs(o, current, b);
      CloseFiles(o, groups, current);
      AppendExtends(o, current, b);
    }
  }

  /** Rotation: after any run, the files on disk are the clean images of the groups, the reported
      contexts carry the true file sizes, and the open file is the open image of the last group. */
  lemma {:induction false} RunWritesGroups(o: Options, ops: seq<Op>)
    requires ValidRun(ops)
    ensures var (groups, current) := Grouping(o, ops);
            Run(o, ops) == State(if current == [] then None else Some(SegmentOf(o, current)), FinishedAll(o, groups))
  {
    hide SegmentOf, FinishedAll, WriteTo, Close, AllGroups;
    if ops == [] {
      NoFiles(o);
    } else {
      var init, op := ops[..|ops| - 1], ops[|ops| - 1];
      RunWritesGroups(o, init);
      var (groups, current) := Grouping(o, init);
      assert Run(o, init) == FilesOf(o, groups, current);
      match op
      case CloseNow => CloseFiles(o, groups, current);
      case Write(b) =>
        if Writable(b) {
          WriteFiles(o, groups, current, b);
        } else {
          NothingWritten(o, Run(o, init), b);
        }
    }
  }

  lemma NoFiles(o: Options)
    ensures FinishedAll(o, []) == []
  {
  }

  lemma NothingWritten(o: Options, s: State, b: DataBlock)
    requires PointsInside(b) && !Writable(b)
    ensures WriteTo(o, s, b) == s
  {
  }

  lemma CloseGivesFinished(o: Options, groups: seq<seq<DataBlock>>, current: seq<DataBlock>)
    requires AllGroups(groups)
    requires current != [] && AllWritable(current)
    ensures CloseSegment(SegmentOf(o, current)) == FinishedOf(o, current)
    ensures AllGroups(groups + [current])
    ensures FinishedAll(o, groups) + [FinishedOf(o, current)] == FinishedAll(o, groups + [current])
  {
    hide FinishedOf, AllWritable;
    CloseOne(o, current);
    var more := groups + [current];
    assert more[|groups|] == current;
    assert forall i | 0 <= i < |groups| :: more[i] == groups[i];
  }

  lemma CloseOne(o: Options, current: seq<DataBlock>)
    requires current != [] && AllWritable(current)
    ensures CloseSegment(SegmentOf(o, current)) == FinishedOf(o, current)
  {
    hide AllWritable, OpenImage, WriterIndex, FooterBytes;
  }

  /** No block is lost, doubled or moved by rotation. */
  lemma {:induction false} GroupsKeepBlocks(o: Options, ops: seq<Op>)
    requires ValidRun(ops)
    ensures var (groups, current) := Grouping(o, ops); Concat(groups) + current == BlocksWritten(ops)
  {
    hide Writable, Overfull, Concat, AllGroups, AllWritable;
    if ops == [] {
      NoGroups();
    } else {
      var init, op := ops[..|ops| - 1], ops[|ops| - 1];
      GroupsKeepBlocks(o, init);
      var (groups, current) := Grouping(o, init);
      var before := Concat(groups);
      ConcatSnoc(groups, current);
      Empty(before);
      Empty(before + current);
      if op.Write? && Writable(op.block) {
        Assoc(before, current, [op.block]);
      }
    }
  }

  lemma NoGroups()
    ensures Concat<DataBlock>([]) == []
  {
  }

  predicate WithinLimits(o: Options, g: seq<DataBlock>) {
    |g| >= 2 && AllWritable(g) ==>
      var startTs, endTs := g[0].header.value.startTs, g[|g| - 1].header.value.endTs;
      && SEGMENT_HEADER_SIZE + |BlockData(g)| < o.maxSize
      && (startTs >= 0 && endTs >= 0 ==> endTs - startTs < o.maxDuration)
  }

  /** No group outgrows the limits: with two or more blocks it stays below the size limit, and below
      the duration limit unless a timestamp is negative. */
  lemma {:induction false} GroupsKeepLimits(o: Options, ops: seq<Op>)
    requires ValidRun(ops)
    ensures var (groups, current) := Grouping(o, ops);
            && (forall i | 0 <= i < |groups| :: WithinLimits(o, groups[i]))
            && WithinLimits(o, current)
  {
    hide PointsInside, BlockData;
    if ops != [] {
      GroupsKeepLimits(o, ops[..|ops| - 1]);
    }
  }

  /** The next block does not fit into a file that holds the group: by its bytes, or by its time if both times
      count from the epoch. */
  predicate NoRoom(o: Options, g: seq<DataBlock>, next: DataBlock)
    requires g != [] && AllWritable(g) && Writable(next)
  {
    || SEGMENT_HEADER_SIZE + |BlockData(g)| + |next.serialized| >= o.maxSize
    || (g[0].header.value.startTs >= 0 && next.header.value.endTs >= 0
        && next.header.value.endTs - g[0].header.value.startTs >= o.maxDuration)
  }

  /** A call ends the current file: it closes the builder, or it brings a block for which there is no room. */
  predicate EndsFile(o: Options, ops: seq<Op>, op: Op)
    requires ValidRun(ops)
  {
    var current := Grouping(o, ops).1;
    current != [] && match op case CloseNow => true case Write(b) => Writable(b) && NoRoom(o, current, b)
  }

  lemma OverfullExactly(o: Options, bs: seq<DataBlock>, b: DataBlock)
    requires bs != [] && AllWritable(bs) && Writable(b)
    ensures Overfull(o, bs, b) <==> NoRoom(o, bs, b)
  {
    hide PointsInside, BlockData;
    BlockDataAppend(bs, [b]);
    OneBlock(b, 0);
  }

  /** Each call, in terms of files: one more file is closed exactly if the call ends the current one, and the block
      goes into the file that is open then. */
  lemma CallEndsFileExactly(o: Options, ops: seq<Op>, op: Op)
    requires ValidRun(ops + [op])
    ensures ValidRun(ops)
    ensures var before, after := Run(o, ops), Run(o, ops + [op]);
            var (groups, current) := Grouping(o, ops);
            && |after.finished| == |before.finished| + (if EndsFile(o, ops, op) then 1 else 0)
            && (op.Write? && Writable(op.block) ==>
                  after.current ==
                  Some(SegmentOf(o, if EndsFile(o, ops, op) then [op.block] else current + [op.block])))
            && (op.CloseNow? ==> after.current == None)
  {
    hide PointsInside, FinishedOf, SegmentOf, Overfull, NoRoom, Run, AllWritable;
    var more := ops + [op];
    assert more[..|ops|] == ops && more[|ops|] == op;
    assert forall i | 0 <= i < |ops| :: ops[i] == more[i];
    RunWritesGroups(o, ops);
    RunWritesGroups(o, more);
    var current := Grouping(o, ops).1;
    if op.Write? && Writable(op.block) {
      assert current == [] ==> current + [op.block] == [op.block];
      if current != [] { OverfullExactly(o, current, op.block); }
    }
  }

  /** For each group of a run: whether it was a close that ended it. */
  function EndedByClose(o: Options, ops: seq<Op>): (r: seq<bool>)
    requires ValidRun(ops)
    ensures |r| == |Grouping(o, ops).0|
  {
    if ops == [] then [] else
      var init, op := ops[..|ops| - 1], ops[|ops| - 1];
      var ended := EndedByClose(o, init);
      if |Grouping(o, ops).0| == |Grouping(o, init).0| then ended else ended + [op.CloseNow?]
  }

  /** The blocks of a group behind its first one were taken because there was room. */
  predicate HadRoom(o: Options, g: seq<DataBlock>)
    requires AllWritable(g)
  {
    forall j | 0 < j < |g| :: !NoRoom(o, g[..j], g[j])
  }

  /** Rotation, both ways: a file that no close has ended is followed by a block for which it had no room, and
      every block in a file behind the first one had room there. */
  predicate RotatesExactly(o: Options, groups: seq<seq<DataBlock>>, current: seq<DataBlock>, ended: seq<bool>)
    requires AllGroups(groups) && AllWritable(current) && |ended| == |groups|
  {
    && (forall i | 0 <= i < |groups| && !ended[i] :: FileWasFull(o, groups, current, i))
    && (forall i | 0 <= i < |groups| :: HadRoom(o, groups[i]))
    && HadRoom(o, current)
  }

  predicate FileWasFull(o: Options, groups: seq<seq<DataBlock>>, current: seq<DataBlock>, i: nat)
    requires AllGroups(groups) && AllWritable(current) && i < |groups|
  {
    var behind := if i + 1 < |groups| then groups[i + 1] else current;
    behind != [] && NoRoom(o, groups[i], behind[0])
  }

  lemma GroupEnds(o: Options, groups: seq<seq<DataBlock>>, current: seq<DataBlock>, ended: seq<bool>, closed: bool,
                  next: seq<DataBlock>)
    requires AllGroups(groups) && AllWritable(current) && current != [] && |ended| == |groups|
    requires RotatesExactly(o, groups, current, ended)
    requires AllWritable(next) && |next| <= 1 && (!closed ==> next != [] && NoRoom(o, current, next[0]))
    ensures AllGroups(groups + [current])
    ensures RotatesExactly(o, groups + [current], next, ended + [closed])
  {
    hide AllWritable, NoRoom;
    var more, flags := groups + [current], ended + [closed];
    assert more[|groups|] == current && forall i | 0 <= i < |groups| :: more[i] == groups[i] && flags[i] == ended[i];
    forall i | 0 <= i < |more| && !flags[i] ensures FileWasFull(o, more, next, i) {
      if i < |groups| { assert FileWasFull(o, groups, current, i); }
    }
    forall i | 0 <= i < |more| ensures HadRoom(o, more[i]) {
      if i < |groups| { assert HadRoom(o, groups[i]); }
    }
  }

  lemma GroupGrows(o: Options, groups: seq<seq<DataBlock>>, current: seq<DataBlock>, ended: seq<bool>, b: DataBlock)
    requires AllGroups(groups) && AllWritable(current) && Writable(b) && |ended| == |groups|
    requires RotatesExactly(o, groups, current, ended) && (current != [] ==> !NoRoom(o, current, b))
    ensures AllWritable(current + [b])
    ensures RotatesExactly(o, groups, current + [b], ended)
  {
    hide NoRoom, Writable;
    var longer := current + [b];
    assert forall i | 0 <= i < |current| :: longer[i] == current[i];
    forall i | 0 <= i < |groups| && !ended[i] ensures FileWasFull(o, groups, longer, i) {
      assert FileWasFull(o, groups, current, i);
    }
    forall j | 0 < j < |longer| ensures !NoRoom(o, longer[..j], longer[j]) {
      assert longer[..j] == current[..j];
      if j == |current| { assert current[..j] == current; }
    }
  }

  lemma NothingRotated(o: Options)
    ensures RotatesExactly(o, [], [], [])
  {
  }

  lemma {:induction false} FilesEndAtLimits(o: Options, ops: seq<Op>)
    requires ValidRun(ops)
    ensures var (groups, current) := Grouping(o, ops); RotatesExactly(o, groups, current, EndedByClose(o, ops))
  {
    hide PointsInside, Overfull, NoRoom, HadRoom, FileWasFull, RotatesExactly;
    NothingRotated(o);
    if ops != [] {
      var init, op := ops[..|ops| - 1], ops[|ops| - 1];
      FilesEndAtLimits(o, init);
      var (groups, current) := Grouping(o, init);
      match op
      case CloseNow => if current != [] { GroupEnds(o, groups, current, EndedByClose(o, init), true, []); }
      case Write(b) =>
        if Writable(b) {
          if current != [] { OverfullExactly(o, current, b); }
          if current != [] && NoRoom(o, current, b) {
            GroupEnds(o, groups, current, EndedByClose(o, init), false, [b]);
          } else {
            GroupGrows(o, groups, current, EndedByClose(o, init), b);
            assert current == [] ==> current + [b] == [b];
          }
        }
    }
  }
}
