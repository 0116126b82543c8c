/** The recording store as a whole: what the block builder produced, the segment builder wrote and,
    after a crash, the repairer restored, the reader gives back entry by entry. */
module SegmentStore {
  import opened Bytes
  import opened Sequences
  import opened RecordLayout
  import opened FileModel
  import opened SegmentBuilder
  import opened SegmentRecovery
  import opened SegmentReader
  import B = BlockBuilder
  import R = SegmentRepairer

  // ------------------------------------------------------------- blocks as written

  /** A block with a consistent header whose entries tell the truth about their sizes. */
  predicate Faithful(c: B.Content) {
    && c.entries != [] && AllStorable(c.entries)
    && (forall i | 0 <= i < |c.entries| :: Exact(c.entries[i]))
    && c.header.magic == BLOCK_MAGIC && c.header.length == B.TotalSize(c.entries) + 30
  }

  predicate AllFaithful(cs: seq<B.Content>) {
    forall i | 0 <= i < |cs| :: Faithful(cs[i])
  }

  function Images(cs: seq<B.Content>): (bs: seq<DataBlock>)
    requires forall i | 0 <= i < |cs| :: AllStorable(cs[i].entries)
    ensures |bs| == |cs|
    ensures forall i | 0 <= i < |cs| :: bs[i] == B.Image(cs[i])
  {
    seq(|cs|, i requires 0 <= i < |cs| => B.Image(cs[i]))
  }

  lemma ImageSize(c: B.Content)
    requires AllStorable(c.entries)
    ensures |B.Image(c).serialized| == B.TotalSize(c.entries) + 30
  {
    hide EntriesBytes, B.TotalSize, EncodeBlockHeader;
    B.EntriesBytesSize(c.entries);
  }

  /** Header and end magic of a serialized block. */
  lemma ImageEnds(c: B.Content)
    requires AllStorable(c.entries)
    ensures var s := B.Image(c).serialized;
            && |s| >= BLOCK_HEADER_SIZE + 2 && s[..BLOCK_HEADER_SIZE] == EncodeBlockHeader(c.header)
            && s[|s| - 2..] == s[|s| - 2..|s|] == LE16(BLOCK_END_MAGIC)
  {
    hide EncodeBlockHeader, EntriesBytes, LE16;
    var s, header, es := B.Image(c).serialized, EncodeBlockHeader(c.header), EntriesBytes(c.entries);
    assert s == header + (es + LE16(BLOCK_END_MAGIC)) && s[0..] == s;
    SplitTail(s, 0, header, es + LE16(BLOCK_END_MAGIC));
    SplitTail(s, BLOCK_HEADER_SIZE, es, LE16(BLOCK_END_MAGIC));
  }

  /** What the block builder finishes is what the recovery theorem calls complete, exactly if the entries have
      more than 10 bytes, so that the byte behind the first BlockEntry, which the writer reads, is in the block. */
  lemma BlocksAreComplete(c: B.Content)
    requires c.entries != [] && AllStorable(c.entries)
    requires c.header.magic == BLOCK_MAGIC && c.header.length == B.TotalSize(c.entries) + 30
    ensures Complete(B.Image(c)) <==> B.TotalSize(c.entries) > 10
    ensures B.Image(c).header == Some(c.header) && |B.Image(c).serialized| == B.TotalSize(c.entries) + 30
  {
    hide EncodeBlockHeader, DecodeBlockHeader, EntriesBytes, B.TotalSize, B.SizeOf;
    ImageSize(c);
    ImageEnds(c);
    BlockHeaderRoundTrip(c.header);
    FirstOffset(c);
  }

  lemma FirstOffset(c: B.Content)
    requires c.entries != [] && AllStorable(c.entries)
    ensures B.Image(c).header == Some(c.header)
    ensures B.Image(c).entries != [] && B.Image(c).entries[0] == BLOCK_HEADER_SIZE
  {
    hide EncodeBlockHeader, EntriesBytes;
  }

  lemma FirstEntryBytes(c: B.Content)
    requires c.entries != [] && AllStorable(c.entries)
    ensures |B.Image(c).serialized| >= BLOCK_HEADER_SIZE + |EntryBytes(c.entries[0])| + 2
    ensures B.Image(c).serialized[28..28 + |EntryBytes(c.entries[0])|] == EntryBytes(c.entries[0])
  {
    hide EncodeBlockHeader, EntryBytes, B.TotalSize, LE16;
    var s, header, first := B.Image(c).serialized, EncodeBlockHeader(c.header), EntryBytes(c.entries[0]);
    var rest := EntriesBytes(c.entries[1..]) + LE16(BLOCK_END_MAGIC);
    assert EntriesBytes(c.entries) == first + EntriesBytes(c.entries[1..]);
    assert s == header + (first + rest) && s[0..] == s;
    SplitTail(s, 0, header, first + rest);
    SplitTail(s, BLOCK_HEADER_SIZE, first, rest);
  }

  /** What the first entry of a block shows to a scan. */
  lemma FirstEntryHead(c: B.Content)
    requires c.entries != [] && AllStorable(c.entries) && c.entries[0].headerSize >= BLOCK_ENTRY_SIZE
    ensures var s, e := B.Image(c).serialized, c.entries[0];
            && |s| >= BLOCK_HEADER_SIZE + |EntryBytes(e)| + 2 && |EntryBytes(e)| == e.headerSize + |e.payload|
            && s[28] == TypeOf(e) && FromLE16(s[30..32]) == e.headerSize
            && (e.headerSize == BLOCK_ENTRY_SIZE && e.payload != [] ==> s[40] == e.payload[0])
  {
    hide B.Image, FromLE16, LE16, EntryBase, EntryStruct, TypeOf;
    FirstEntryBytes(c);
    var s, e := B.Image(c).serialized, c.entries[0];
    var b := EntryBytes(e);
    EntryHead(e);
    SliceOfSlice(s, 28, 28 + |b|, 2, 4);
    RoundTripLE16(e.headerSize);
    assert s[28] == s[28..28 + |b|][0];
    assert |b| > 12 ==> s[40] == s[28..28 + |b|][12];
  }

  /** An entry whose header covers its structure makes repair and clean close agree (see CrashRecovery). */
  lemma HonestHeaderIsSized(c: B.Content)
    requires c.entries != [] && AllStorable(c.entries)
    requires c.entries[0].headerSize == StructSize(TypeOf(c.entries[0]))
    ensures FirstEntrySized(B.Image(c).serialized)
  {
    hide B.Image, FromLE16, EntryBytes;
    FirstEntryHead(c);
  }

  /** A header of bare BlockEntry size in front of a payload that does not begin with zero: the writer takes the
      payload byte for the codec, the repairer does not. */
  lemma ShortHeaderIsNotSized(c: B.Content)
    requires c.entries != [] && AllStorable(c.entries)
    requires c.entries[0].headerSize == BLOCK_ENTRY_SIZE && c.entries[0].payload != [] && c.entries[0].payload[0] != 0
    ensures !FirstEntrySized(B.Image(c).serialized)
  {
    hide B.Image, FromLE16, EntryBytes;
    FirstEntryHead(c);
  }

  /** A file that ends with a block does not look finished. */
  lemma BlockEndIsNoFooter(data: bytes)
    requires |data| >= FOOTER_SIZE && data[|data| - 2..] == LE16(BLOCK_END_MAGIC)
    ensures !R.EndsWithFooter(data)
  {
    assert data[|data| - 2..][0] == data[|data| - 2];
  }

  /** So the repaired file differs: a keyframe block with such a first entry, cut right behind the block. */
  lemma ShortHeaderIsNotRestored(o: Options, c: B.Content)
    requires c.entries != [] && AllStorable(c.entries)
    requires c.header.magic == BLOCK_MAGIC && c.header.length == B.TotalSize(c.entries) + 30
    requires HasKeyFrame(c.header.flags)
    requires c.entries[0].headerSize == BLOCK_ENTRY_SIZE && c.entries[0].payload != [] && c.entries[0].payload[0] != 0
    ensures var bs, n := [B.Image(c)], SEGMENT_HEADER_SIZE + |B.Image(c).serialized|;
            && AllComplete(bs) && IsOpenCut(o, bs, n)
            && R.Repair(ClosedImage(o, bs)[..n]).0 != ClosedImage(o, bs)
  {
    hide ClosedImage, B.Image, EntryBytes, FirstEntrySized, R.Repair, IsOpenCut, HasKeyFrame, B.TotalSize, Complete;
    var bs := [B.Image(c)];
    FirstEntryHead(c);
    ImageSize(c);
    BlocksAreComplete(c);
    ShortHeaderIsNotSized(c);
    CutBehindBlock(o, bs[0]);
    CutIsOpen(o, c);
    CrashRecovery(o, bs, SEGMENT_HEADER_SIZE + |bs[0].serialized|);
    assert bs[..1] == bs && !KeyFramesSized(bs) by { assert HasKeyFrame(bs[0].header.value.flags); }
  }

  lemma CutIsOpen(o: Options, c: B.Content)
    requires AllStorable(c.entries) && Complete(B.Image(c))
    ensures AllComplete([B.Image(c)])
    ensures IsOpenCut(o, [B.Image(c)], SEGMENT_HEADER_SIZE + |B.Image(c).serialized|)
  {
    hide EncodeSegmentHeader, B.Image, ClosedImage, R.EndsWithFooter, Complete, LE16;
    var b := B.Image(c);
    ImageEnds(c);
    CutBehindBlock(o, b);
    var cut := ClosedImage(o, [b])[..SEGMENT_HEADER_SIZE + |b.serialized|];
    assert cut[|cut| - 2..] == b.serialized[|b.serialized| - 2..];
    BlockEndIsNoFooter(cut);
  }

  lemma CutBehindBlock(o: Options, b: DataBlock)
    requires Complete(b)
    ensures AllComplete([b]) && AllWritable([b]) && WholeBlocks([b], |b.serialized|) == 1
    ensures var n := SEGMENT_HEADER_SIZE + |b.serialized|;
            && n <= |ClosedImage(o, [b])|
            && ClosedImage(o, [b])[..n] == EncodeSegmentHeader(HeaderFor(o)) + b.serialized
  {
    hide EncodeSegmentHeader, FooterBytes, WriterIndex, R.BlockImage, PointsInside;
    assert BlockData([b]) == b.serialized by { OneBlock(b, 0); }
  }

  // An I-frame that announces no more than a BlockEntry.
  const SHORT_FRAME := Video(0, 12, 1000, 1, FRAME_I, (0, 0), 1, [1], 0)
  const FRAME_OPTIONS := B.Options(10, 1000, 10, true)

  /** A block builder does make such blocks, so that the repaired file of a recording can differ. */
  lemma RepairCanDiffer(o: Options) returns (moves: seq<B.Move>, c: B.Content)
    ensures B.IsRun(FRAME_OPTIONS, B.EMPTY, moves) && c in B.Last(B.EMPTY, moves).done
    ensures AllStorable(c.entries)
    ensures var bs, n := [B.Image(c)], SEGMENT_HEADER_SIZE + |B.Image(c).serialized|;
            && AllComplete(bs) && IsOpenCut(o, bs, n)
            && R.Repair(ClosedImage(o, bs)[..n]).0 != ClosedImage(o, bs)
  {
    hide B.AddedVia, B.Accepts, B.Addable, B.HeaderFor, IsOpenCut, R.Repair, ClosedImage, B.Image, AllComplete,
      AllStorable;
    var e := SHORT_FRAME;
    var ctx := B.Context(1000, 1000, 1, 13, true);
    c := B.Content(B.HeaderFor(ctx, [e]), [e]);
    var waiting, built := B.Builder([e], ctx, []), B.Builder([], B.CLEAR, [c]);
    ShortFrameSteps(ctx);
    moves := [B.Move(B.Add(e), waiting), B.Move(B.Flush, built)];
    assert B.Step(FRAME_OPTIONS, waiting, B.Flush, built);
    assert moves[1..][1..] == [] && B.IsRun(FRAME_OPTIONS, waiting, moves[1..]);
    assert B.Last(B.EMPTY, moves) == built && c in [c];
    ShortHeaderIsNotRestored(o, c);
  }

  lemma ShortFrameSteps(ctx: B.Context)
    requires ctx == B.Context(1000, 1000, 1, 13, true)
    ensures B.Step(FRAME_OPTIONS, B.EMPTY, B.Add(SHORT_FRAME), B.Builder([SHORT_FRAME], ctx, []))
    ensures var h := B.HeaderFor(ctx, [SHORT_FRAME]);
            h.magic == BLOCK_MAGIC && h.length == B.TotalSize([SHORT_FRAME]) + 30 && HasKeyFrame(h.flags)
    ensures AllStorable([SHORT_FRAME])
  {
    hide B.Finalized, B.HeaderFor, B.EndOf, B.SizeOf, Storable, B.IsKeyFrame, B.IsFinished;
    ShortFrameIs();
    ShortFrameWaits(ctx);
    KeyFrameHeader(ctx, [SHORT_FRAME]);
    assert B.AddedVia(FRAME_OPTIONS, B.EMPTY, SHORT_FRAME, B.EMPTY, B.Builder([SHORT_FRAME], ctx, []));
  }

  lemma ShortFrameIs()
    ensures B.EndOf(SHORT_FRAME) == 1000 && B.SizeOf(SHORT_FRAME) == 13 && Storable(SHORT_FRAME)
    ensures B.IsKeyFrame(SHORT_FRAME) && B.TotalSize([SHORT_FRAME]) == 13
  {
    assert [SHORT_FRAME][..0] == [];
  }

  lemma ShortFrameWaits(ctx: B.Context)
    requires ctx == B.Context(1000, 1000, 1, 13, true)
    ensures !B.IsFinished(FRAME_OPTIONS, ctx)
  {
  }

  /** The header of entries that fit into 32 bits, one of them a keyframe. */
  lemma KeyFrameHeader(ctx: B.Context, es: seq<Entry>)
    requires ctx.hasKeyFrame && B.TotalSize(es) + 30 < 0x1_0000_0000
    ensures var h := B.HeaderFor(ctx, es);
            h.magic == BLOCK_MAGIC && h.length == B.TotalSize(es) + 30 && HasKeyFrame(h.flags)
  {
    hide B.TotalSize, B.Pressure, HasKeyFrame;
    B.PressureKeyFrame(es, 2);
    B.KeyFrameBit();
  }

  // ------------------------------------------------------------------ reading back

  function FrameFor(e: Entry): Frame {
    match e
    case Video(_, _, ts, codec, frameType, _, _, payload, _) =>
      Frame(TYPE_VIDEO, ts, frameType == FRAME_I, codec, frameType, 0, 0, 0, payload)
    case Audio(_, _, ts, codec, channels, _, sampleRate, _, payload, _) =>
      Frame(TYPE_AUDIO, ts, false, 0, 0, codec, sampleRate, channels, payload)
    case User(_, _, ts, _, _, _, payload, _) => Frame(TYPE_USER, ts, false, 0, 0, 0, 0, 0, payload)
  }

  function Reads(es: seq<Entry>): seq<ReadResult> {
    if es == [] then [] else [Success(FrameFor(es[0]))] + Reads(es[1..])
  }

  function ReadsOf(cs: seq<B.Content>): seq<ReadResult> {
    if cs == [] then [] else Reads(cs[0].entries) + ReadsOf(cs[1..])
  }

  /** The results of n successive calls of read_next_entry. */
  function ReadMany(data: bytes, c: Cursor, n: nat): seq<ReadResult>
    decreases n
  {
    if n == 0 then [] else
      var (r, c') := ReadNext(data, c);
      [r] + ReadMany(data, c', n - 1)
  }

  lemma ReadFront(data: bytes, pos: nat, front: bytes, rest: bytes)
    requires Tail(data, pos) == front + rest
    ensures ReadAt(data, pos, |front|) == front
    ensures pos + |front| <= |data| || front == []
    ensures Tail(data, pos + |front|) == rest
  {
    if pos <= |data| {
      assert data[pos..][..|front|] == front;
      assert data[pos..][|front|..] == rest;
    }
  }

  lemma BaseFields(e: Entry)
    ensures EntryBase(e)[0] == TypeOf(e) && FromLE16(EntryBase(e)[2..4]) == e.headerSize
    ensures FromLEInt64(EntryBase(e)[4..12]) == e.timestamp
  {
    hide LE16, LEInt64, FromLE16, FromLEInt64;
    var base := EntryBase(e);
    assert base[0..] == base && base[4..12] == base[4..];
    SplitTail(base, 0, [TypeOf(e), e.archiveType], LE16(e.headerSize) + LEInt64(e.timestamp));
    SplitTail(base, 2, LE16(e.headerSize), LEInt64(e.timestamp));
    RoundTripLE16(e.headerSize);
    RoundTripLEInt64(e.timestamp);
  }

  /** A size field behind a few bytes. */
  lemma FieldBehind(front: bytes, x: uint32)
    ensures var s := front + LE32(x);
            FromLE32(s[|front|..|front| + 4]) == x && forall i | 0 <= i < |front| :: s[i] == front[i]
  {
    hide LE32, FromLE32;
    var s := front + LE32(x);
    assert s[|front|..|front| + 4] == LE32(x);
    RoundTripLE32(x);
  }

  lemma AudioFields(e: Entry)
    requires e.Audio?
    ensures var extra := EntryExtra(e);
            && extra[0] == e.codec && extra[1] == e.channels
            && FromLE32(extra[3..7]) == e.sampleRate && FromLE32(extra[7..11]) == e.payloadSize
  {
    hide LE32, FromLE32;
    var extra := EntryExtra(e);
    var rate, size := LE32(e.sampleRate), LE32(e.payloadSize);
    var front: bytes := [e.codec, e.channels, e.bitDepth];
    assert extra[0..] == extra && extra[7..11] == extra[7..];
    SplitTail(extra, 0, front, rate + size);
    SplitTail(extra, 3, rate, size);
    RoundTripLE32(e.sampleRate);
    RoundTripLE32(e.payloadSize);
  }

  /** The fields of an exact entry come back out of its structure. */
  lemma FrameOfExact(e: Entry)
    ensures EntryBase(e)[0] == TypeOf(e) && FromLE16(EntryBase(e)[2..4]) == e.headerSize
    ensures FrameOf(EntryBase(e), EntryExtra(e)) == (FrameFor(e).(payload := []), e.payloadSize)
    ensures FrameFor(e).payload == e.payload
  {
    hide EntryBase, LE32, FromLE16, FromLE32, FromLEInt64;
    BaseFields(e);
    match e
    case Video(_, _, _, codec, frameType, r, payloadSize, _, _) =>
      FieldBehind([codec, frameType, r.0, r.1], payloadSize);
    case Audio(_, _, _, _, _, _, _, _, _, _) =>
      AudioFields(e);
    case User(_, _, _, dataType, r, payloadSize, _, _) =>
      FieldBehind([dataType, r.0, r.1, r.2], payloadSize);
  }

  lemma ParseExact(data: bytes, pos: nat, e: Entry, rest: bytes)
    requires Exact(e) && Tail(data, pos) == EntryBytes(e) + rest
    ensures ParseEntry(data, pos) == (Success(FrameFor(e)), pos + |EntryBytes(e)|)
    ensures Tail(data, pos + |EntryBytes(e)|) == rest
    ensures pos + |EntryBytes(e)| <= |data|
  {
    hide FrameOf, FrameFor, EntryBase, EntryExtra, FromLE16, ReadAt, Tail;
    var base, extra := EntryBase(e), EntryExtra(e);
    assert EntryBytes(e) + rest == base + (extra + (e.payload + rest));
    ReadFront(data, pos, base, extra + (e.payload + rest));
    ReadFront(data, pos + BLOCK_ENTRY_SIZE, extra, e.payload + rest);
    ReadFront(data, pos + e.headerSize, e.payload, rest);
    FrameOfExact(e);
  }

  /** The reader stands inside a block, in front of the entries es and then of `rest`. */
  predicate InBlock(data: bytes, c: Cursor, es: seq<Entry>, rest: bytes) {
    && !c.needNewBlock
    && (forall i | 0 <= i < |es| :: Exact(es[i]))
    && AllStorable(es)
    && Tail(data, c.pos) == EntriesBytes(es) + (LE16(BLOCK_END_MAGIC) + rest)
    && c.blockEnd == c.pos + |EntriesBytes(es)|
  }

  lemma ReadInBlock(data: bytes, c: Cursor, es: seq<Entry>, rest: bytes) returns (c': Cursor)
    requires InBlock(data, c, es, rest) && es != []
    ensures ReadNext(data, c) == (Success(FrameFor(es[0])), c')
    ensures InBlock(data, c', es[1..], rest)
  {
    hide FrameFor, EntryBytes, LE16, ParseEntry, Tail;
    var first, others := EntryBytes(es[0]), EntriesBytes(es[1..]);
    var behind := others + (LE16(BLOCK_END_MAGIC) + rest);
    assert Tail(data, c.pos) == first + behind;
    ParseExact(data, c.pos, es[0], behind);
    EntryNotEmpty(es[0]);
    c' := ReadNext(data, c).1;
  }

  lemma EntryNotEmpty(e: Entry)
    requires Storable(e)
    ensures |EntryBytes(e)| > 0
  {
  }

  /** At the end of a block the reader skips the end magic and wants a new block. */
  lemma SkipEndMagic(data: bytes, c: Cursor, rest: bytes) returns (c': Cursor)
    requires InBlock(data, c, [], rest)
    ensures ReadNext(data, c) == ReadNext(data, c')
    ensures c'.needNewBlock && Tail(data, c'.pos) == rest && c'.pos <= |data|
  {
    hide ParseEntry, DecodeBlockHeader;
    assert [] + (LE16(BLOCK_END_MAGIC) + rest) == LE16(BLOCK_END_MAGIC) + rest;
    ReadFront(data, c.pos, LE16(BLOCK_END_MAGIC), rest);
    c' := c.(pos := c.pos + 2, needNewBlock := true);
  }

  /** In front of a block the reader enters it. */
  lemma BlockEntered(data: bytes, c: Cursor, b: B.Content, rest: bytes) returns (c': Cursor)
    requires c.needNewBlock && Faithful(b) && AllStorable(b.entries)
    requires Tail(data, c.pos) == B.Image(b).serialized + rest
    ensures ReadNext(data, c) == ReadNext(data, c')
    ensures InBlock(data, c', b.entries, rest)
  {
    hide ParseEntry, DecodeBlockHeader, EncodeBlockHeader, LE16, Tail, EntriesBytes, B.TotalSize, Exact;
    var header, es, end := EncodeBlockHeader(b.header), EntriesBytes(b.entries), LE16(BLOCK_END_MAGIC);
    assert B.Image(b).serialized + rest == header + (es + (end + rest));
    ReadFront(data, c.pos, header, es + (end + rest));
    BlockHeaderRoundTrip(b.header);
    B.EntriesBytesSize(b.entries);
    c' := Cursor(c.pos + BLOCK_HEADER_SIZE, false, c.pos, c.pos + b.header.length - 2, 0, c.timestamp);
  }

  /** How a sequential read ends at a footer: the 16-byte footer of an empty index is too short to
      be taken for a block header. */
  function EndResult(index: seq<IndexEntry>): ReadResult {
    Failure(if index == [] then UnexpectedEof else EndOfSegment)
  }

  lemma ReadAtFooter(data: bytes, c: Cursor, index: seq<IndexEntry>)
    requires IndexMagics(index) && c.needNewBlock && c.pos <= |data| && Tail(data, c.pos) == FooterBytes(index)
    ensures ReadNext(data, c).0 == EndResult(index)
  {
    hide EncodeFooter, LE32, LE64, LEInt64;
    var footer := FooterBytes(index);
    if index != [] {
      assert ReadAt(data, c.pos, BLOCK_HEADER_SIZE) == footer[..BLOCK_HEADER_SIZE];
      assert footer[..BLOCK_HEADER_SIZE][0..2] == EncodeIndexEntry(index[0])[0..2] == LE16(INDEX_MAGIC);
    }
  }

  predicate AllBlocksStorable(cs: seq<B.Content>) {
    forall i | 0 <= i < |cs| :: AllStorable(cs[i].entries)
  }

  lemma FaithfulIsStorable(cs: seq<B.Content>)
    requires AllFaithful(cs)
    ensures AllBlocksStorable(cs)
  {
  }

  /** From inside a block: the entries left in it, then those of the blocks behind it, then the end. */
  lemma {:induction false} ReadRest(data: bytes, c: Cursor, es: seq<Entry>, cs: seq<B.Content>, index: seq<IndexEntry>)
    requires AllFaithful(cs) && AllBlocksStorable(cs) && IndexMagics(index)
    requires InBlock(data, c, es, BlockData(Images(cs)) + FooterBytes(index))
    ensures ReadMany(data, c, |Reads(es) + ReadsOf(cs)| + 1) == Reads(es) + ReadsOf(cs) + [EndResult(index)]
    decreases |cs|, 1, |es|
  {
    hide InBlock, ReadNext, EndResult, FooterBytes, Faithful, AllStorable, FrameFor, B.Image;
    var rest := BlockData(Images(cs)) + FooterBytes(index);
    if es != [] {
      var c' := ReadInBlock(data, c, es, rest);
      ReadRest(data, c', es[1..], cs, index);
      var first := Success(FrameFor(es[0]));
      assert Reads(es) + ReadsOf(cs) == [first] + (Reads(es[1..]) + ReadsOf(cs));
      assert [first] + (Reads(es[1..]) + ReadsOf(cs) + [EndResult(index)])
          == [first] + (Reads(es[1..]) + ReadsOf(cs)) + [EndResult(index)];
    } else {
      var c1 := SkipEndMagic(data, c, rest);
      ReadFromBlock(data, c1, cs, index);
      assert [] + ReadsOf(cs) == ReadsOf(cs);
    }
  }

  /** In front of a block, or of the footer. */
  lemma {:induction false} ReadFromBlock(data: bytes, c: Cursor, cs: seq<B.Content>, index: seq<IndexEntry>)
    requires AllFaithful(cs) && AllBlocksStorable(cs) && IndexMagics(index)
    requires c.needNewBlock && c.pos <= |data|
    requires Tail(data, c.pos) == BlockData(Images(cs)) + FooterBytes(index)
    ensures ReadMany(data, c, |ReadsOf(cs)| + 1) == ReadsOf(cs) + [EndResult(index)]
    decreases |cs|, 0, 0
  {
    hide InBlock, ReadNext, EndResult, FooterBytes, Faithful, AllStorable, FrameFor, B.Image, Tail;
    if cs == [] {
      assert BlockData(Images(cs)) + FooterBytes(index) == FooterBytes(index);
      ReadAtFooter(data, c, index);
      assert ReadMany(data, ReadNext(data, c).1, 0) == [];
    } else {
      var behind := BlockData(Images(cs[1..])) + FooterBytes(index);
      assert Images(cs)[1..] == Images(cs[1..]);
      assert BlockData(Images(cs)) + FooterBytes(index) == B.Image(cs[0]).serialized + behind;
      var c' := BlockEntered(data, c, cs[0], behind);
      ReadRest(data, c', cs[0].entries, cs[1..], index);
    }
  }

  // ----------------------------------------------------------------- whole segments

  lemma FaithfulBlocks(cs: seq<B.Content>)
    requires AllFaithful(cs)
    ensures AllBlocksStorable(cs) && AllComplete(Images(cs)) && KeyFramesSized(Images(cs))
    ensures AllWritable(Images(cs)) && AllImages(Images(cs))
    ensures forall i | 0 <= i < |cs| :: Images(cs)[i].header == Some(cs[i].header)
  {
    hide R.BlockImage, PointsInside, FirstEntrySized, B.Image;
    FaithfulIsStorable(cs);
    forall i | 0 <= i < |cs|
      ensures Complete(Images(cs)[i])
      ensures |Images(cs)[i].serialized| > BLOCK_HEADER_SIZE + BLOCK_ENTRY_SIZE
      ensures FirstEntrySized(Images(cs)[i].serialized)
      ensures Images(cs)[i].header == Some(cs[i].header)
    {
      BlocksAreComplete(cs[i]);
      HonestHeaderIsSized(cs[i]);
    }
  }

  lemma {:induction false} EntriesAreInBlocks(cs: seq<B.Content>, i: nat, j: nat)
    requires i < |cs| && j < |cs[i].entries|
    ensures cs[i].entries[j] in B.InBlocks(cs)
  {
    if i == 0 {
      assert cs[0].entries[j] in multiset(cs[0].entries);
    } else {
      EntriesAreInBlocks(cs[1..], i - 1, j);
    }
  }

  /** What a block builder finishes, over any run, is what the theorems below ask for, as long as the entries
      given to it tell the truth about their sizes. */
  lemma BuilderFeedsTheStore(o: B.Options, moves: seq<B.Move>)
    requires B.IsRun(o, B.EMPTY, moves)
    requires forall e | e in B.Accepted(o, B.EMPTY, moves) :: Exact(e)
    ensures AllFaithful(B.Last(B.EMPTY, moves).done)
  {
    hide B.IsRun, B.Last, B.Accepted, B.Popped, B.InBlocks, B.GoodPending, B.IsFinished, B.Covers, B.Sorted, Exact;
    B.RunKeepsEverything(o, moves);
    var cs := B.Last(B.EMPTY, moves).done;
    forall i | 0 <= i < |cs|
      ensures Faithful(cs[i])
    {
      assert B.GoodContent(o, cs[i]);
      forall j | 0 <= j < |cs[i].entries|
        ensures Exact(cs[i].entries[j])
      {
        EntriesAreInBlocks(cs, i, j);
        assert cs[i].entries[j] in B.Accepted(o, B.EMPTY, moves);
      }
    }
  }

  /** Write/read round trip: a closed segment opens, and successive reads return every entry of every
      block, in block order, and then the end. */
  lemma ReadBackClosed(o: Options, cs: seq<B.Content>)
    requires AllFaithful(cs)
    ensures AllWritable(Images(cs))
    ensures var data := ClosedImage(o, Images(cs));
            && Opens(data)
            && ReadMany(data, StartCursor(data), |ReadsOf(cs)| + 1)
               == ReadsOf(cs) + [EndResult(WriterIndex(Images(cs), SEGMENT_HEADER_SIZE))]
  {
    hide EncodeSegmentHeader, DecodeSegmentHeader, FooterBytes, BlockData, ReadMany, Faithful, WriterIndex, EndResult,
      ReadsOf, AllStorable, Writable, B.Image, IndexMagics;
    FaithfulBlocks(cs);
    var index := WriterIndex(Images(cs), SEGMENT_HEADER_SIZE);
    WriterIndexMagics(Images(cs), SEGMENT_HEADER_SIZE);
    var blocks := BlockData(Images(cs)) + FooterBytes(index);
    HeaderInFront(o, blocks);
    var data := ClosedImage(o, Images(cs));
    assert data == EncodeSegmentHeader(HeaderFor(o)) + blocks;
    ReadFromBlock(data, StartCursor(data), cs, index);
  }

  /** Crash, repair, read: the entries of all blocks that were whole when the power went come back. */
  lemma ReadBackRepaired(o: Options, cs: seq<B.Content>, n: nat)
    requires AllFaithful(cs) && cs != []
    ensures AllComplete(Images(cs))
    ensures IsOpenCut(o, Images(cs), n) ==>
              var kept := cs[..WholeBlocks(Images(cs), n - SEGMENT_HEADER_SIZE)];
              var repaired := R.Repair(ClosedImage(o, Images(cs))[..n]).0;
              && kept != [] && AllFaithful(kept) && AllWritable(Images(kept))
              && Opens(repaired)
              && ReadMany(repaired, StartCursor(repaired), |ReadsOf(kept)| + 1)
                 == ReadsOf(kept) + [EndResult(WriterIndex(Images(kept), SEGMENT_HEADER_SIZE))]
  {
    hide ClosedImage, R.Repair, R.EndsWithFooter, ReadMany, Faithful, Opens, StartCursor, EndResult, Complete,
      KeyFramesSized, WriterIndex, ReadsOf, AllStorable, B.Image, WholeBlocks, IndexMagics, Writable;
    FaithfulIsStorable(cs);
    FaithfulBlocks(cs);
    var bs := Images(cs);
    if IsOpenCut(o, bs, n) {
      var k := WholeBlocks(bs, n - SEGMENT_HEADER_SIZE);
      FaithfulIsStorable(cs[..k]);
      assert Images(cs[..k]) == bs[..k];
      CrashRecovery(o, bs, n);
      FaithfulBlocks(cs[..k]);
      ReadBackClosed(o, cs[..k]);
    }
  }

  // ----------------------------------------------------------------------- seeking

  predicate SortedIndex(index: seq<IndexEntry>) {
    forall i, j | 0 <= i < j < |index| :: index[i].timestamp <= index[j].timestamp
  }

  predicate IsKey(bs: seq<DataBlock>, q: int)
    requires 0 <= q < |bs| && AllWritable(bs)
  {
    HasKeyFrame(bs[q].header.value.flags)
  }

  /** The block a scan over all blocks would choose: the last keyframe block that starts at or before
      the target or, if there is none, the first keyframe block. */
  predicate IsSeekBlock(bs: seq<DataBlock>, target: int, p: nat)
    requires AllWritable(bs)
  {
    && p < |bs| && IsKey(bs, p)
    && if bs[p].header.value.startTs <= target
       then forall q | p < q < |bs| && IsKey(bs, q) :: bs[q].header.value.startTs > target
       else forall q | 0 <= q < |bs| && IsKey(bs, q) :: q >= p && bs[q].header.value.startTs > target
  }

  lemma {:induction false} LaterKeys(bs: seq<DataBlock>, off: nat, t: int)
    requires AllWritable(bs) && SortedIndex(WriterIndex(bs, off))
    requires WriterIndex(bs, off) != [] ==> WriterIndex(bs, off)[0].timestamp > t
    ensures forall q | 0 <= q < |bs| && IsKey(bs, q) :: bs[q].header.value.startTs > t
  {
    hide HasKeyFrame, PointsInside, WriterIndex, SortedIndex;
    if bs != [] {
      WriterIndexFront(bs, off);
      var index, rest := WriterIndex(bs, off), WriterIndex(bs[1..], off + |bs[0].serialized|);
      TailOfIndex(index, rest);
      LaterKeys(bs[1..], off + |bs[0].serialized|, t);
      forall q | 0 <= q < |bs| && IsKey(bs, q)
        ensures bs[q].header.value.startTs > t
      {
        if q > 0 { assert IsKey(bs[1..], q - 1); }
      }
    }
  }

  lemma TailOfIndex(index: seq<IndexEntry>, rest: seq<IndexEntry>)
    requires SortedIndex(index)
    requires index == rest || (index != [] && index[1..] == rest)
    ensures SortedIndex(rest)
    ensures index != [] && rest != [] ==> index[0].timestamp <= rest[0].timestamp
  {
  }

  /** A slot of a sorted index belongs to the block that the scan would choose. */
  lemma {:induction false} SlotIsSeekBlock(bs: seq<DataBlock>, off: nat, target: int, k: nat) returns (p: nat)
    requires AllWritable(bs) && SortedIndex(WriterIndex(bs, off))
    requires IsSeekSlot(WriterIndex(bs, off), target, k)
    ensures IsSeekBlock(bs, target, p)
    ensures WriterIndex(bs, off)[k].timestamp == bs[p].header.value.startTs
    ensures WriterIndex(bs, off)[k].offset == (off + |BlockData(bs[..p])|) % 0x1_0000_0000_0000_0000
  {
    hide HasKeyFrame, PointsInside, WrittenIndexEntry, IsSeekBlock, IsSeekSlot, WriterIndex, SortedIndex;
    IndexNotEmpty(bs, off, target, k);
    var next := off + |bs[0].serialized|;
    var index, rest := WriterIndex(bs, off), WriterIndex(bs[1..], next);
    WriterIndexFront(bs, off);
    assert bs[..0] == [];
    if IsKey(bs, 0) && k == 0 {
      p := 0;
      FirstKeyIsSeekBlock(bs, off, target);
    } else {
      TailOfIndex(index, rest);
      SlotOfRest(index, rest, target, k);
      p := SlotIsSeekBlock(bs[1..], next, target, if IsKey(bs, 0) then k - 1 else k);
      SeekBlockInside(bs[1..], target, p);
      SeekBlockShifts(bs, target, p);
      p := p + 1;
      assert bs[..p][1..] == bs[1..][..p - 1];
    }
  }

  lemma IndexNotEmpty(bs: seq<DataBlock>, off: nat, target: int, k: nat)
    requires AllWritable(bs) && IsSeekSlot(WriterIndex(bs, off), target, k)
    ensures bs != [] && k < |WriterIndex(bs, off)|
  {
  }

  lemma WriterIndexFront(bs: seq<DataBlock>, off: nat)
    requires AllWritable(bs) && bs != []
    ensures var index, rest := WriterIndex(bs, off), WriterIndex(bs[1..], off + |bs[0].serialized|);
            && if IsKey(bs, 0)
               then && index != [] && index[1..] == rest
                    && index[0].timestamp == bs[0].header.value.startTs
                    && index[0].offset == off % 0x1_0000_0000_0000_0000
               else index == rest
  {
    hide HasKeyFrame, PointsInside, EncodeIndexFlags, WrittenInfo;
  }

  lemma SlotOfRest(index: seq<IndexEntry>, rest: seq<IndexEntry>, target: int, k: nat)
    requires IsSeekSlot(index, target, k)
    requires index == rest || (k > 0 && index != [] && index[1..] == rest)
    ensures index == rest ==> IsSeekSlot(rest, target, k)
    ensures k > 0 && index[1..] == rest ==>
              IsSeekSlot(rest, target, k - 1) && index[k] == rest[k - 1] && index[k].timestamp <= target
  {
  }

  lemma FirstKeyIsSeekBlock(bs: seq<DataBlock>, off: nat, target: int)
    requires AllWritable(bs) && bs != [] && IsKey(bs, 0) && SortedIndex(WriterIndex(bs, off))
    requires IsSeekSlot(WriterIndex(bs, off), target, 0)
    ensures IsSeekBlock(bs, target, 0)
  {
    hide HasKeyFrame, PointsInside, WriterIndex, SortedIndex;
    var index, rest := WriterIndex(bs, off), WriterIndex(bs[1..], off + |bs[0].serialized|);
    WriterIndexFront(bs, off);
    TailOfIndex(index, rest);
    var first := index[0].timestamp;
    LaterKeys(bs[1..], off + |bs[0].serialized|, if target < first then first - 1 else target);
    forall q | 0 < q < |bs| && IsKey(bs, q)
      ensures bs[q].header.value.startTs > target
    {
      assert IsKey(bs[1..], q - 1);
    }
  }

  lemma SeekBlockShifts(bs: seq<DataBlock>, target: int, p: nat)
    requires AllWritable(bs) && bs != [] && IsSeekBlock(bs[1..], target, p)
    requires IsKey(bs, 0) ==> bs[1..][p].header.value.startTs <= target
    ensures IsSeekBlock(bs, target, p + 1)
  {
    hide HasKeyFrame, PointsInside;
    forall q | 0 < q < |bs| && IsKey(bs, q)
      ensures IsKey(bs[1..], q - 1)
    {
    }
  }

  /** Seek: in a closed segment whose index is sorted by time, the slot that seek_to_time picks leads
      to the block that a scan over all blocks would choose, and reading on from there returns that
      block's entries and everything behind it. */
  lemma SeekReadsFromBlock(o: Options, cs: seq<B.Content>, c: Cursor, target: int, k: nat) returns (p: nat)
    requires AllFaithful(cs)
    ensures AllWritable(Images(cs))
    ensures var data := ClosedImage(o, Images(cs));
            var index := WriterIndex(Images(cs), SEGMENT_HEADER_SIZE);
            |data| < 0x8000_0000_0000_0000 && SortedIndex(index) && IsSeekSlot(index, target, k) ==>
              && IsSeekBlock(Images(cs), target, p) && p < |cs|
              && index[k].offset < 0x8000_0000_0000_0000
              && ReadMany(data, SoughtCursor(c, index[k].offset), |ReadsOf(cs[p..])| + 1)
                 == ReadsOf(cs[p..]) + [EndResult(index)]
  {
    hide EncodeSegmentHeader, FooterBytes, BlockData, WriterIndex, ReadMany, Faithful, EndResult, ReadsOf,
      AllStorable, Writable, B.Image, IndexMagics, IsSeekBlock, SortedIndex, IsSeekSlot;
    FaithfulIsStorable(cs);
    FaithfulBlocks(cs);
    p := 0;
    var bs := Images(cs);
    var index, data := WriterIndex(bs, SEGMENT_HEADER_SIZE), ClosedImage(o, bs);
    if |data| < 0x8000_0000_0000_0000 && SortedIndex(index) && IsSeekSlot(index, target, k) {
      WriterIndexMagics(bs, SEGMENT_HEADER_SIZE);
      p := SlotIsSeekBlock(bs, SEGMENT_HEADER_SIZE, target, k);
      SeekBlockInside(bs, target, p);
      BlocksFrom(o, bs, p);
      FaithfulIsStorable(cs[p..]);
      assert Images(cs[p..]) == bs[p..];
      ReadFromBlock(data, SoughtCursor(c, SEGMENT_HEADER_SIZE + |BlockData(bs[..p])|), cs[p..], index);
    }
  }

  /** What a closed file holds from a block on. */
  lemma BlocksFrom(o: Options, bs: seq<DataBlock>, p: nat)
    requires AllWritable(bs) && p <= |bs|
    ensures var index := WriterIndex(bs, SEGMENT_HEADER_SIZE);
            && SEGMENT_HEADER_SIZE + |BlockData(bs[..p])| <= |ClosedImage(o, bs)|
            && Tail(ClosedImage(o, bs), SEGMENT_HEADER_SIZE + |BlockData(bs[..p])|)
               == BlockData(bs[p..]) + FooterBytes(index)
  {
    hide EncodeSegmentHeader, FooterBytes, BlockData, WriterIndex, Writable;
    var header, footer := EncodeSegmentHeader(HeaderFor(o)), FooterBytes(WriterIndex(bs, SEGMENT_HEADER_SIZE));
    var front, behind := BlockData(bs[..p]), BlockData(bs[p..]);
    assert bs == bs[..p] + bs[p..];
    BlockDataAppend(bs[..p], bs[p..]);
    Assoc(front, behind, footer);
    Assoc(header, front, behind + footer);
    assert ClosedImage(o, bs) == (header + front) + (behind + footer);
  }

  lemma SeekBlockInside(bs: seq<DataBlock>, target: int, p: nat)
    requires AllWritable(bs) && IsSeekBlock(bs, target, p)
    ensures p < |bs|
  {
  }

  /** The footer of a closed segment parses to the index that was written. */
  lemma FooterOfClosed(o: Options, bs: seq<DataBlock>)
    requires AllWritable(bs) && |WriterIndex(bs, SEGMENT_HEADER_SIZE)| < 0x1_0000_0000
    ensures ParseFooter(ClosedImage(o, bs)) == Loaded(WriterIndex(bs, SEGMENT_HEADER_SIZE))
  {
    hide EncodeFooter, DecodeFooter, IndexBytes, DecodeIndex, EncodeSegmentHeader, BlockData, WriterIndex, Writable;
    var data, index := ClosedImage(o, bs), WriterIndex(bs, SEGMENT_HEADER_SIZE);
    WriterIndexMagics(bs, SEGMENT_HEADER_SIZE);
    FooterRoundTrip(FooterFor(|index|));
    IndexRoundTrip(index);
    assert data[|data| - FOOTER_SIZE..] == EncodeFooter(FooterFor(|index|));
    var size := INDEX_ENTRY_SIZE * |index|;
    assert data[|data| - FOOTER_SIZE - size..|data| - FOOTER_SIZE] == IndexBytes(index);
  }

  // ------------------------------------------------------------- what a reader accepts

  /** The reader opens exactly the files that begin with the magic of a segment. */
  lemma OpensExactly(data: bytes)
    ensures Opens(data) <==> |data| >= 20 && data[0] == 0xF0 && data[1] == 0xFF
  {
    hide FromLE32, FromLEInt64;
    if |data| >= SEGMENT_HEADER_SIZE {
      var s := data[..SEGMENT_HEADER_SIZE];
      assert s[0..2][0] == data[0] && s[0..2][1] == data[1];
    }
  }

  /** An index is found exactly if its bytes, its length and a footer's first magic stand at the end of the file;
      no footer is seen exactly if that magic is not there. */
  lemma IndexLoadedExactly(data: bytes, index: seq<IndexEntry>)
    ensures ParseFooter(data) == Loaded(index) <==> IndexStands(data, index)
    ensures ParseFooter(data) == NoFooter <==> |data| >= 16 && !R.StartMagicStands(data)
  {
    hide FromLE32, DecodeIndex, IndexBytes;
    if |data| >= 16 {
      var s := data[|data| - FOOTER_SIZE..];
      assert s[0..2][0] == data[|data| - 16] && s[0..2][1] == data[|data| - 15];
      assert s[8..12] == data[|data| - 8..|data| - 4] && s[4..8] == data[|data| - 12..|data| - 8];
      IndexRoundTrip(index);
      var count: nat := FromLE32(data[|data| - 12..|data| - 8]);
      if |data| >= 16 + 22 * count {
        var body := data[|data| - 16 - 22 * count..|data| - 16];
        assert |body| % 22 == 0;
        IndexIsBytes(body);
        EmptyIndex(body);
      }
    }
  }

  lemma EmptyIndex(body: bytes)
    requires |body| % 22 == 0
    ensures |DecodeIndex(body)| * 22 == |body| && IndexBytes([]) == []
  {
    IndexIsBytes(body);
  }

  predicate IndexStands(data: bytes, index: seq<IndexEntry>) {
    && |data| >= 16 + 22 * |index| && R.StartMagicStands(data)
    && FromLE32(data[|data| - 12..|data| - 8]) == |index|
    && data[|data| - 16 - 22 * |index|..|data| - 16] == IndexBytes(index)
    && (index != [] ==> index[0].magic == 0xFFF2)
  }
}
