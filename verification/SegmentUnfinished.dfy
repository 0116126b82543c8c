/** What a reader gets from a segment that was never closed nor repaired: every entry that is whole in the file, in
    the last, torn block too, and then the unexpected end. */
module SegmentUnfinished {
  import opened Bytes
  import opened Sequences
  import opened RecordLayout
  import opened FileModel
  import opened SegmentBuilder
  import opened SegmentRecovery
  import opened SegmentReader
  import opened SegmentStore
  import B = BlockBuilder

  /** The results for the entries that lie whole in the first m bytes. */
  function ReadsWithin(es: seq<Entry>, m: nat): seq<ReadResult>
    requires AllStorable(es)
  {
    if es == [] || m < |EntryBytes(es[0])| then [] else
      [Success(FrameFor(es[0]))] + ReadsWithin(es[1..], m - |EntryBytes(es[0])|)
  }

  /** The same for blocks, each of which begins with its header. */
  function BlockReadsWithin(cs: seq<B.Content>, m: nat): seq<ReadResult>
    requires AllBlocksStorable(cs)
  {
    if cs == [] || m < BLOCK_HEADER_SIZE then [] else
      var size := |B.Image(cs[0]).serialized|;
      ReadsWithin(cs[0].entries, m - BLOCK_HEADER_SIZE)
      + if m < size then [] else BlockReadsWithin(cs[1..], m - size)
  }

  const ENDED: ReadResult := Failure(UnexpectedEof)

  lemma ShortTail(data: bytes, pos: nat, n: nat)
    ensures |ReadAt(data, pos, n)| == if |Tail(data, pos)| < n then |Tail(data, pos)| else n
  {
  }

  lemma TailBehind(data: bytes, pos: nat, front: bytes, rest: bytes)
    requires pos <= |data| && Tail(data, pos) == front + rest
    ensures pos + |front| <= |data| && ReadAt(data, pos, |front|) == front && Tail(data, pos + |front|) == rest
  {
    ReadFront(data, pos, front, rest);
  }

  lemma PrefixOfSum(a: bytes, b: bytes, m: nat)
    requires m <= |a| + |b|
    ensures (a + b)[..m] == if m < |a| then a[..m] else a + b[..m - |a|]
  {
  }

  /** An entry that is cut anywhere ends the file. */
  lemma CutEntry(data: bytes, pos: nat, e: Entry, k: nat)
    requires Exact(e) && k < |EntryBytes(e)| && pos <= |data| && Tail(data, pos) == EntryBytes(e)[..k]
    ensures ParseEntry(data, pos).0 == ENDED
  {
    hide FrameOf, EntryBase, EntryExtra, FromLE16, ReadAt, Tail;
    var base, extra, payload := EntryBase(e), EntryExtra(e), e.payload;
    assert EntryBytes(e) == base + (extra + payload);
    PrefixOfSum(base, extra + payload, k);
    ShortTail(data, pos, BLOCK_ENTRY_SIZE);
    if k >= BLOCK_ENTRY_SIZE {
      var k1 := k - BLOCK_ENTRY_SIZE;
      TailBehind(data, pos, base, (extra + payload)[..k1]);
      BaseFields(e);
      PrefixOfSum(extra, payload, k1);
      ShortTail(data, pos + BLOCK_ENTRY_SIZE, |extra|);
      if k1 >= |extra| {
        TailBehind(data, pos + BLOCK_ENTRY_SIZE, extra, payload[..k1 - |extra|]);
        FrameOfExact(e);
        ShortTail(data, pos + e.headerSize, |payload|);
      }
    }
  }

  /** The reader stands in a block, in front of its last entries, of which the file has the first m bytes. */
  predicate InCutBlock(data: bytes, c: Cursor, es: seq<Entry>, behind: bytes, m: nat) {
    && !c.needNewBlock && c.pos <= |data|
    && (forall i | 0 <= i < |es| :: Exact(es[i])) && AllStorable(es)
    && c.blockEnd == c.pos + |EntriesBytes(es)|
    && m <= |EntriesBytes(es) + (LE16(BLOCK_END_MAGIC) + behind)|
    && Tail(data, c.pos) == (EntriesBytes(es) + (LE16(BLOCK_END_MAGIC) + behind))[..m]
  }

  lemma WholeEntryRead(data: bytes, c: Cursor, es: seq<Entry>, behind: bytes, m: nat) returns (c': Cursor)
    requires InCutBlock(data, c, es, behind, m) && es != [] && m >= |EntryBytes(es[0])|
    ensures ReadNext(data, c) == (Success(FrameFor(es[0])), c')
    ensures InCutBlock(data, c', es[1..], behind, m - |EntryBytes(es[0])|)
  {
    hide FrameFor, EntryBytes, LE16, ParseEntry, Tail, Exact;
    var first, others, end := EntryBytes(es[0]), EntriesBytes(es[1..]), LE16(BLOCK_END_MAGIC) + behind;
    Assoc(first, others, end);
    PrefixOfSum(first, others + end, m);
    ParseExact(data, c.pos, es[0], (others + end)[..m - |first|]);
    EntryNotEmpty(es[0]);
    c' := ReadNext(data, c).1;
  }

  lemma TornEntryRead(data: bytes, c: Cursor, es: seq<Entry>, behind: bytes, m: nat)
    requires InCutBlock(data, c, es, behind, m) && es != [] && m < |EntryBytes(es[0])|
    ensures ReadNext(data, c).0 == ENDED
  {
    hide EntryBytes, LE16, ParseEntry, Tail, Exact;
    var first, others, end := EntryBytes(es[0]), EntriesBytes(es[1..]), LE16(BLOCK_END_MAGIC) + behind;
    Assoc(first, others, end);
    PrefixOfSum(first, others + end, m);
    EntryNotEmpty(es[0]);
    CutEntry(data, c.pos, es[0], m);
  }

  lemma BlockLeft(data: bytes, c: Cursor, behind: bytes, m: nat) returns (c': Cursor)
    requires InCutBlock(data, c, [], behind, m)
    ensures ReadNext(data, c) == ReadNext(data, c') && c'.needNewBlock && c'.pos <= |data|
    ensures Tail(data, c'.pos) == if m < 2 then [] else behind[..m - 2]
  {
    hide LE16, EnterBlock;
    var end := LE16(BLOCK_END_MAGIC);
    Empty(end + behind);
    PrefixOfSum(end, behind, m);
    c' := LeaveBlock(data, c);
    if m >= 2 { TailBehind(data, c.pos, end, behind[..m - 2]); }
  }

  /** Without a whole block header the file ends. */
  lemma NoHeaderLeft(data: bytes, c: Cursor)
    requires c.needNewBlock && |Tail(data, c.pos)| < BLOCK_HEADER_SIZE
    ensures ReadNext(data, c).0 == ENDED
  {
    hide ParseEntry, DecodeBlockHeader;
    ShortTail(data, c.pos, BLOCK_HEADER_SIZE);
  }

  lemma HeaderRead(data: bytes, c: Cursor, b: B.Content, behind: bytes, m: nat) returns (c': Cursor)
    requires c.needNewBlock && c.pos <= |data| && Faithful(b) && AllStorable(b.entries) && m >= BLOCK_HEADER_SIZE
    requires m <= |B.Image(b).serialized + behind| && Tail(data, c.pos) == (B.Image(b).serialized + behind)[..m]
    ensures ReadNext(data, c) == ReadNext(data, c')
    ensures InCutBlock(data, c', b.entries, behind, m - BLOCK_HEADER_SIZE)
    ensures |B.Image(b).serialized| == BLOCK_HEADER_SIZE + |EntriesBytes(b.entries)| + 2
  {
    hide ParseEntry, DecodeBlockHeader, EncodeBlockHeader, LE16, Tail, EntriesBytes, B.TotalSize, Exact;
    var header, es, end := EncodeBlockHeader(b.header), EntriesBytes(b.entries), LE16(BLOCK_END_MAGIC);
    assert B.Image(b).serialized + behind == header + (es + (end + behind));
    PrefixOfSum(header, es + (end + behind), m);
    TailBehind(data, c.pos, header, (es + (end + behind))[..m - BLOCK_HEADER_SIZE]);
    BlockHeaderRoundTrip(b.header);
    B.EntriesBytesSize(b.entries);
    c' := Cursor(c.pos + BLOCK_HEADER_SIZE, false, c.pos, c.pos + b.header.length - 2, 0, c.timestamp);
  }

  lemma OneMore(data: bytes, c: Cursor, c': Cursor, first: ReadResult, others: seq<ReadResult>)
    requires ReadNext(data, c) == (first, c') && ReadMany(data, c', |others| + 1) == others + [ENDED]
    ensures ReadMany(data, c, |[first] + others| + 1) == [first] + others + [ENDED]
  {
    hide ReadNext;
    Assoc([first], others, [ENDED]);
  }

  lemma JustEnds(data: bytes, c: Cursor)
    requires ReadNext(data, c).0 == ENDED
    ensures ReadMany(data, c, 1) == [ENDED]
  {
    hide ReadNext;
    assert ReadMany(data, ReadNext(data, c).1, 0) == [];
  }

  lemma SameReads(data: bytes, c: Cursor, c': Cursor, n: nat)
    requires ReadNext(data, c) == ReadNext(data, c') && n > 0
    ensures ReadMany(data, c, n) == ReadMany(data, c', n)
  {
    hide ReadNext;
  }

  /** From inside a block on. */
  lemma {:induction false} ReadCutBlock(data: bytes, c: Cursor, es: seq<Entry>, cs: seq<B.Content>, m: nat)
    requires AllFaithful(cs) && AllBlocksStorable(cs) && AllStorable(es)
    requires InCutBlock(data, c, es, BlockData(Images(cs)), m)
    ensures var size := |EntriesBytes(es)| + 2;
            var results := ReadsWithin(es, m) + if m < size then [] else BlockReadsWithin(cs, m - size);
            ReadMany(data, c, |results| + 1) == results + [ENDED]
    decreases |cs|, 1, |es|
  {
    hide InCutBlock, ReadNext, Faithful, Storable, FrameFor, B.Image, ReadMany, BlockReadsWithin, EntryBytes, Tail;
    var behind, size := BlockData(Images(cs)), |EntriesBytes(es)| + 2;
    var later := if m < size then [] else BlockReadsWithin(cs, m - size);
    if es == [] {
      var c' := BlockLeft(data, c, behind, m);
      Empty(later);
      if m < 2 {
        NoHeaderLeft(data, c');
        JustEnds(data, c');
        Empty([ENDED]);
      } else {
        TailFits(data, c, behind, m);
        ReadCutBlocks(data, c', cs, m - 2);
      }
      SameReads(data, c, c', |later| + 1);
    } else if m < |EntryBytes(es[0])| {
      TornEntryRead(data, c, es, behind, m);
      JustEnds(data, c);
      Empty([ENDED]);
    } else {
      var c' := WholeEntryRead(data, c, es, behind, m);
      ReadCutBlock(data, c', es[1..], cs, m - |EntryBytes(es[0])|);
      var first, others := Success(FrameFor(es[0])), ReadsWithin(es[1..], m - |EntryBytes(es[0])|);
      Assoc([first], others, later);
      OneMore(data, c, c', first, others + later);
    }
  }

  lemma TailFits(data: bytes, c: Cursor, behind: bytes, m: nat)
    requires InCutBlock(data, c, [], behind, m)
    ensures m <= 2 + |behind|
  {
  }

  /** From in front of a block on. */
  lemma {:induction false} ReadCutBlocks(data: bytes, c: Cursor, cs: seq<B.Content>, m: nat)
    requires AllFaithful(cs) && AllBlocksStorable(cs) && c.needNewBlock && c.pos <= |data|
    requires m <= |BlockData(Images(cs))| && Tail(data, c.pos) == BlockData(Images(cs))[..m]
    ensures ReadMany(data, c, |BlockReadsWithin(cs, m)| + 1) == BlockReadsWithin(cs, m) + [ENDED]
    decreases |cs|, 0, 0
  {
    hide InCutBlock, ReadNext, Faithful, AllStorable, FrameFor, B.Image, Tail, ReadMany, ReadsWithin;
    if cs == [] || m < BLOCK_HEADER_SIZE {
      NoHeaderLeft(data, c);
      JustEnds(data, c);
      Empty([ENDED]);
    } else {
      var behind := BlockData(Images(cs[1..]));
      assert Images(cs)[1..] == Images(cs[1..]);
      var c' := HeaderRead(data, c, cs[0], behind, m);
      ReadCutBlock(data, c', cs[0].entries, cs[1..], m - BLOCK_HEADER_SIZE);
      SameReads(data, c, c', |BlockReadsWithin(cs, m)| + 1);
    }
  }

  /** A segment cut anywhere behind its header, up to the end of its last block, and not repaired: the reader opens
      it and returns exactly the entries that are whole in the file, in order, and then the unexpected end. */
  lemma ReadBackCut(o: Options, cs: seq<B.Content>, m: nat)
    requires AllFaithful(cs)
    ensures AllBlocksStorable(cs)
    ensures m <= |BlockData(Images(cs))| ==>
              var data := OpenImage(o, Images(cs))[..SEGMENT_HEADER_SIZE + m];
              var results := BlockReadsWithin(cs, m);
              Opens(data) && ReadMany(data, StartCursor(data), |results| + 1) == results + [ENDED]
  {
    hide EncodeSegmentHeader, DecodeSegmentHeader, BlockData, ReadMany, Faithful, AllStorable, BlockReadsWithin,
      B.Image;
    FaithfulIsStorable(cs);
    var blocks := BlockData(Images(cs));
    if m <= |blocks| {
      var data := OpenImage(o, Images(cs))[..SEGMENT_HEADER_SIZE + m];
      PrefixOfSum(EncodeSegmentHeader(HeaderFor(o)), blocks, SEGMENT_HEADER_SIZE + m);
      HeaderInFront(o, blocks[..m]);
      ReadCutBlocks(data, StartCursor(data), cs, m);
    }
  }
}
