/** Crash recovery: the repairer against the writer. A file cut anywhere behind its first block is
    repaired to the file that a clean close would have left after the blocks that are still whole. */
module SegmentRecovery {
  import opened Bytes
  import opened RecordLayout
  import opened FileModel
  import opened SegmentBuilder
  import R = SegmentRepairer

  /** What a block builder hands to the segment builder (see SegmentStore.BlocksAreComplete). */
  predicate Complete(b: DataBlock) {
    Writable(b) && R.BlockImage(b.serialized) && b.entries != [] && b.entries[0] == BLOCK_HEADER_SIZE
  }

  predicate AllComplete(bs: seq<DataBlock>) {
    forall i | 0 <= i < |bs| :: Complete(bs[i])
  }

  // ------------------------------------------------------------- index information

  /** The block is long enough to hold a first entry, and the header size of that entry covers the
      structure its type promises (or the codec byte is zero anyway). */
  predicate FirstEntrySized(b: bytes)
    requires |b| > BLOCK_HEADER_SIZE + BLOCK_ENTRY_SIZE
  {
    if |b| < BLOCK_HEADER_SIZE + BLOCK_ENTRY_SIZE + 2 then b[28] == 0
    else StructSize(b[28]) != 0 ==> FromLE16(b[30..32]) >= StructSize(b[28]) || b[40] == 0
  }

  predicate KeyFramesSized(bs: seq<DataBlock>)
    requires AllComplete(bs)
  {
    forall i | 0 <= i < |bs| :: HasKeyFrame(bs[i].header.value.flags) ==> FirstEntrySized(bs[i].serialized)
  }

  /** The writer reads the codec byte through a typed pointer, the repairer only if the header size
      says that it is there: they agree exactly on sized first entries. */
  lemma InfoAgreesExactly(b: DataBlock)
    requires Complete(b)
    ensures R.ScannedInfo(b.serialized) == WrittenInfo(b) <==> FirstEntrySized(b.serialized)
  {
    hide DecodeBlockHeader, FromLE16;
  }

  function ScannedIndexEntry(b: DataBlock, off: nat): IndexEntry
    requires Complete(b)
  {
    R.IndexFor(b.serialized, R.ScannedInfo(b.serialized), off)
  }

  function ScannedIndex(bs: seq<DataBlock>, off: nat): seq<IndexEntry>
    requires AllComplete(bs)
  {
    if bs == [] then [] else
      (if HasKeyFrame(bs[0].header.value.flags) then [ScannedIndexEntry(bs[0], off)] else [])
      + ScannedIndex(bs[1..], off + |bs[0].serialized|)
  }

  lemma EntryAgreesExactly(b: DataBlock, off: nat)
    requires Complete(b)
    ensures ScannedIndexEntry(b, off) == WrittenIndexEntry(b, off) <==> FirstEntrySized(b.serialized)
  {
    hide DecodeBlockHeader, FromLE16, R.ScannedInfo, WrittenInfo, FirstEntrySized;
    InfoAgreesExactly(b);
    EncodeIndexFlagsInjective(b.header.value.flags, R.ScannedInfo(b.serialized), WrittenInfo(b));
  }

  lemma EncodeIndexFlagsInjective(flags: uint32, a: (byte, byte), b: (byte, byte))
    ensures EncodeIndexFlags(flags, a.0, a.1) == EncodeIndexFlags(flags, b.0, b.1) <==> a == b
  {
  }

  lemma {:induction false} IndexAgreesExactly(bs: seq<DataBlock>, off: nat)
    requires AllComplete(bs)
    ensures |ScannedIndex(bs, off)| == |WriterIndex(bs, off)|
    ensures ScannedIndex(bs, off) == WriterIndex(bs, off) <==> KeyFramesSized(bs)
  {
    hide ScannedIndexEntry, WrittenIndexEntry, FirstEntrySized, R.BlockImage, PointsInside;
    if bs != [] {
      EntryAgreesExactly(bs[0], off);
      IndexAgreesExactly(bs[1..], off + |bs[0].serialized|);
      var a, b := ScannedIndex(bs[1..], off + |bs[0].serialized|), WriterIndex(bs[1..], off + |bs[0].serialized|);
      if HasKeyFrame(bs[0].header.value.flags) {
        var x, y := ScannedIndexEntry(bs[0], off), WrittenIndexEntry(bs[0], off);
        assert ([x] + a)[0] == x && ([x] + a)[1..] == a;
        assert ([y] + b)[0] == y && ([y] + b)[1..] == b;
      } else {
        assert [] + a == a && [] + b == b;
      }
    }
  }

  // -------------------------------------------------------------- scanning whole blocks

  /** A block at the front of any bytes is recognized, whatever follows it. */
  lemma BlockInFront(b: bytes, rest: bytes)
    requires R.BlockImage(b)
    ensures R.StartsWithBlock(b + rest) && R.BlockLength(b + rest) == |b|
    ensures (b + rest)[..|b|] == b && (b + rest)[|b|..] == rest
  {
    hide DecodeBlockHeader, FromLE16;
    assert (b + rest)[..BLOCK_HEADER_SIZE] == b[..BLOCK_HEADER_SIZE];
    assert (b + rest)[|b| - 2..|b|] == b[|b| - 2..|b|];
  }

  lemma PartOfBlock(b: bytes, p: nat)
    requires R.BlockImage(b) && p < |b|
    ensures !R.StartsWithBlock(b[..p])
  {
    hide DecodeBlockHeader, FromLE16;
    if p >= BLOCK_HEADER_SIZE {
      assert b[..p][..BLOCK_HEADER_SIZE] == b[..BLOCK_HEADER_SIZE];
    }
  }

  predicate IndexMagics(index: seq<IndexEntry>) {
    forall i | 0 <= i < |index| :: index[i].magic == INDEX_MAGIC
  }

  /** No prefix of an index and footer passes for a block. */
  lemma FooterIsNoBlock(index: seq<IndexEntry>, p: nat)
    requires IndexMagics(index) && p <= |FooterBytes(index)|
    ensures !R.StartsWithBlock(FooterBytes(index)[..p])
  {
    hide LE32, LE64, LEInt64, EncodeFooter;
    var front := FooterBytes(index)[..p];
    if p >= BLOCK_HEADER_SIZE {
      assert index != [];
      assert front[..BLOCK_HEADER_SIZE][0..2] == EncodeIndexEntry(index[0])[0..2] == LE16(INDEX_MAGIC);
    }
  }

  lemma CompleteLength(b: DataBlock)
    requires Complete(b)
    ensures |b.serialized| >= BLOCK_HEADER_SIZE + 2
  {
    hide DecodeBlockHeader, FromLE16;
  }

  lemma ExtendByBlock(b: DataBlock, off: nat, acc: R.ScanResult) returns (mine: seq<IndexEntry>)
    requires Complete(b)
    ensures mine == if HasKeyFrame(b.header.value.flags) then [ScannedIndexEntry(b, off)] else []
    ensures R.Extend(acc, b.serialized, off) ==
            R.ScanResult(if acc.blockCount == 0 then b.header.value.startTs else acc.startTs, b.header.value.endTs,
                         acc.blockCount + 1, off + |b.serialized|, acc.indices + mine)
  {
    hide DecodeBlockHeader, R.ScannedInfo, FromLE16;
    mine := if HasKeyFrame(b.header.value.flags) then [ScannedIndexEntry(b, off)] else [];
  }

  function ExtendAll(bs: seq<DataBlock>, off: nat, acc: R.ScanResult): R.ScanResult
    requires AllComplete(bs)
  {
    if bs == [] then acc else
      ExtendAll(bs[1..], off + |bs[0].serialized|, R.Extend(acc, bs[0].serialized, off))
  }

  lemma ScanUnrolled(tail: bytes, off: nat, acc: R.ScanResult)
    ensures R.ScanFrom(tail, off, acc) ==
            if !R.StartsWithBlock(tail) then acc else
              var n := R.BlockLength(tail);
              R.ScanFrom(tail[n..], off + n, R.Extend(acc, tail[..n], off))
  {
    hide R.Extend;
  }

  /** The scan of whole blocks, given that nothing behind them passes for a block. */
  lemma {:induction false} ScanWholeBlocks(bs: seq<DataBlock>, rest: bytes, off: nat, acc: R.ScanResult)
    requires AllComplete(bs) && !R.StartsWithBlock(rest)
    ensures R.ScanFrom(BlockData(bs) + rest, off, acc) == ExtendAll(bs, off, acc)
  {
    hide R.Extend, R.StartsWithBlock, R.BlockImage, PointsInside, R.ScanFrom, R.BlockLength;
    ScanUnrolled(BlockData(bs) + rest, off, acc);
    if bs == [] {
      assert BlockData(bs) + rest == rest;
    } else {
      var b, behind := bs[0].serialized, BlockData(bs[1..]) + rest;
      CompleteLength(bs[0]);
      assert BlockData(bs) + rest == b + behind;
      BlockInFront(b, behind);
      ScanWholeBlocks(bs[1..], rest, off + |b|, R.Extend(acc, b, off));
    }
  }

  lemma {:induction false} ExtendAllResult(bs: seq<DataBlock>, off: nat, acc: R.ScanResult)
    requires AllComplete(bs)
    ensures var r := ExtendAll(bs, off, acc);
            && r.blockCount == acc.blockCount + |bs|
            && r.indices == acc.indices + ScannedIndex(bs, off)
            && (bs != [] ==>
                  && r.validEnd == off + |BlockData(bs)|
                  && r.endTs == bs[|bs| - 1].header.value.endTs
                  && r.startTs == if acc.blockCount == 0 then bs[0].header.value.startTs else acc.startTs)
  {
    hide R.Extend, R.BlockImage, PointsInside, ScannedIndexEntry;
    if bs != [] {
      var b := bs[0].serialized;
      CompleteLength(bs[0]);
      var mine := ExtendByBlock(bs[0], off, acc);
      ExtendAllResult(bs[1..], off + |b|, R.Extend(acc, b, off));
      var others := ScannedIndex(bs[1..], off + |b|);
      assert (acc.indices + mine) + others == acc.indices + (mine + others);
    }
  }

  // ------------------------------------------------------------------ cutting a file

  predicate AllImages(bs: seq<DataBlock>) {
    forall i | 0 <= i < |bs| :: R.BlockImage(bs[i].serialized)
  }

  /** How many of the blocks fit whole into the first n bytes. */
  function WholeBlocks(bs: seq<DataBlock>, n: nat): (k: nat)
    ensures k <= |bs|
  {
    if bs == [] || n < |bs[0].serialized| then 0 else 1 + WholeBlocks(bs[1..], n - |bs[0].serialized|)
  }

  /** The bytes behind the segment header up to a cut: whole blocks, then something that is no block. */
  lemma {:induction false} CutBlocks(bs: seq<DataBlock>, footer: bytes, n: nat) returns (rest: bytes)
    requires AllImages(bs) && n <= |BlockData(bs) + footer|
    requires forall p | 0 <= p <= |footer| :: !R.StartsWithBlock(footer[..p])
    ensures (BlockData(bs) + footer)[..n] == BlockData(bs[..WholeBlocks(bs, n)]) + rest
    ensures !R.StartsWithBlock(rest)
  {
    hide R.StartsWithBlock, R.BlockImage;
    var all := BlockData(bs) + footer;
    rest := all[..n];
    if bs == [] {
      assert all == footer;
    } else {
      var b := bs[0].serialized;
      var behind := BlockData(bs[1..]) + footer;
      assert all == b + behind;
      if n < |b| {
        assert rest == b[..n];
        PartOfBlock(b, n);
      } else {
        rest := CutBlocks(bs[1..], footer, n - |b|);
        var k := WholeBlocks(bs[1..], n - |b|);
        assert bs[..k + 1][1..] == bs[1..][..k];
        assert (b + behind)[..n] == b + behind[..n - |b|];
        assert b + (BlockData(bs[1..][..k]) + rest) == (b + BlockData(bs[1..][..k])) + rest;
      }
    }
  }

  lemma WriterIndexMagics(bs: seq<DataBlock>, off: nat)
    requires AllWritable(bs)
    ensures IndexMagics(WriterIndex(bs, off))
  {
  }

  lemma HeaderInFront(o: Options, blocks: bytes)
    ensures var data := EncodeSegmentHeader(HeaderFor(o)) + blocks;
            && R.ScannableHeader(data)
            && DecodeSegmentHeader(data[..SEGMENT_HEADER_SIZE]) == HeaderFor(o)
            && Tail(data, R.BlocksStart(data)) == blocks
  {
    hide EncodeSegmentHeader, DecodeSegmentHeader;
    SegmentHeaderRoundTrip(HeaderFor(o));
    var data := EncodeSegmentHeader(HeaderFor(o)) + blocks;
    assert data[..SEGMENT_HEADER_SIZE] == EncodeSegmentHeader(HeaderFor(o));
  }

  lemma FooterBytesInjective(a: seq<IndexEntry>, b: seq<IndexEntry>)
    requires |a| == |b|
    ensures FooterBytes(a) == FooterBytes(b) <==> a == b
  {
    hide EncodeFooter, IndexBytes;
    if FooterBytes(a) == FooterBytes(b) {
      assert IndexBytes(a) == FooterBytes(a)[..INDEX_ENTRY_SIZE * |a|] == IndexBytes(b);
      IndexRoundTrip(a);
      IndexRoundTrip(b);
    }
  }

  /** The first n bytes of a closed segment keep its header and its first block, and do not end with the two
      magics of a footer. */
  predicate IsOpenCut(o: Options, bs: seq<DataBlock>, n: nat)
    requires AllComplete(bs) && bs != []
  {
    && SEGMENT_HEADER_SIZE + |bs[0].serialized| <= n <= |ClosedImage(o, bs)|
    && !R.EndsWithFooter(ClosedImage(o, bs)[..n])
  }

  /** Whatever the cut, repair keeps the whole blocks, drops the rest and writes the scanned index. */
  lemma RepairOfCut(o: Options, bs: seq<DataBlock>, n: nat) returns (kept: seq<DataBlock>)
    requires AllComplete(bs) && bs != [] && IsOpenCut(o, bs, n)
    ensures kept == bs[..WholeBlocks(bs, n - SEGMENT_HEADER_SIZE)] && kept != []
    ensures var index := ScannedIndex(kept, SEGMENT_HEADER_SIZE);
            var data := OpenImage(o, kept) + FooterBytes(index);
            R.Repair(ClosedImage(o, bs)[..n]) ==
            (data,
             R.Repaired(R.RepairResult(o.channelId, kept[0].header.value.startTs, kept[|kept| - 1].header.value.endTs,
                                       |kept|, |data|, index)))
  {
    hide EncodeSegmentHeader, DecodeSegmentHeader, R.FooterStatusOf, R.EndsWithFooter, R.ScanFrom, FooterBytes,
      ScannedIndex, ExtendAll, WriterIndex, BlockData, R.BlockImage, PointsInside;
    var header := EncodeSegmentHeader(HeaderFor(o));
    var footer := FooterBytes(WriterIndex(bs, SEGMENT_HEADER_SIZE));
    WriterIndexMagics(bs, SEGMENT_HEADER_SIZE);
    forall p | 0 <= p <= |footer|
      ensures !R.StartsWithBlock(footer[..p])
    {
      FooterIsNoBlock(WriterIndex(bs, SEGMENT_HEADER_SIZE), p);
    }
    R.FooterStatusExactly(ClosedImage(o, bs)[..n]);
    var m := n - SEGMENT_HEADER_SIZE;
    var rest := CutBlocks(bs, footer, m);
    var cut := ClosedImage(o, bs)[..n];
    kept := bs[..WholeBlocks(bs, m)];
    assert ClosedImage(o, bs) == header + (BlockData(bs) + footer);
    assert cut == header + (BlockData(bs) + footer)[..m];
    HeaderInFront(o, BlockData(kept) + rest);
    ScanWholeBlocks(kept, rest, SEGMENT_HEADER_SIZE, R.NOTHING_SCANNED);
    ExtendAllResult(kept, SEGMENT_HEADER_SIZE, R.NOTHING_SCANNED);
    assert [] + ScannedIndex(kept, SEGMENT_HEADER_SIZE) == ScannedIndex(kept, SEGMENT_HEADER_SIZE);
    assert cut[..SEGMENT_HEADER_SIZE + |BlockData(kept)|] == header + BlockData(kept);
  }

  /** Crash recovery. For every cut that keeps the header and a whole block and that does not look
      finished, the repaired file is byte for byte the one that a clean close would have left after
      the whole blocks, and the report tells its true size, exactly if the keyframe blocks among
      them begin with an entry whose header size covers its structure. */
  lemma CrashRecovery(o: Options, bs: seq<DataBlock>, n: nat)
    requires AllComplete(bs) && bs != []
    ensures IsOpenCut(o, bs, n) ==>
              var kept := bs[..WholeBlocks(bs, n - SEGMENT_HEADER_SIZE)];
              var clean := ClosedImage(o, kept);
              var (repaired, outcome) := R.Repair(ClosedImage(o, bs)[..n]);
              && kept != []
              && (repaired == clean <==> KeyFramesSized(kept))
              && (repaired == clean ==>
                    outcome == R.Repaired(R.RepairResult(
                      o.channelId, kept[0].header.value.startTs, kept[|kept| - 1].header.value.endTs,
                      |kept|, |clean|, WriterIndex(kept, SEGMENT_HEADER_SIZE))))
  {
    hide EncodeSegmentHeader, R.Repair, FooterBytes, ScannedIndex, WriterIndex, BlockData, R.BlockImage, PointsInside,
      KeyFramesSized, R.EndsWithFooter;
    if IsOpenCut(o, bs, n) {
      var kept := RepairOfCut(o, bs, n);
      IndexAgreesExactly(kept, SEGMENT_HEADER_SIZE);
      var written, scanned := WriterIndex(kept, SEGMENT_HEADER_SIZE), ScannedIndex(kept, SEGMENT_HEADER_SIZE);
      FooterBytesInjective(scanned, written);
      var front := OpenImage(o, kept);
      assert (front + FooterBytes(scanned))[|front|..] == FooterBytes(scanned);
      assert (front + FooterBytes(written))[|front|..] == FooterBytes(written);
    }
  }

  // ----------------------------------------------------------------- any file at all

  lemma FooterAtEnd(front: bytes, index: seq<IndexEntry>)
    requires |front| >= SEGMENT_HEADER_SIZE
    ensures R.FooterStatusOf(front + FooterBytes(index)) == R.FooterValid
  {
    hide EncodeFooter, DecodeFooter, IndexBytes;
    var data := front + FooterBytes(index);
    FooterRoundTrip(FooterFor(|index|));
    assert data[|data| - FOOTER_SIZE..] == EncodeFooter(FooterFor(|index|));
  }

  /** Repair is idempotent on every file: a repaired file counts as finished, and a file that could
      not be repaired is left alone both times. */
  lemma RepairTwice(data: bytes)
    ensures var (once, outcome) := R.Repair(data);
            R.Repair(once) == (once, if outcome.Failed? then outcome else R.NotNeeded)
  {
    hide R.FooterStatusOf, R.ScanFrom, FooterBytes, DecodeSegmentHeader;
    if R.Repair(data).1.Repaired? {
      R.ScanInside(data);
      var scan := R.Scan(data);
      FooterAtEnd(data[..scan.validEnd], scan.indices);
    }
  }

  /** Cutting the tail behind what the scan accepted, and putting anything there that is no block,
      does not change the scan. */
  lemma {:induction false} ScanAgain(tail: bytes, rest: bytes, off: nat, acc: R.ScanResult)
    requires !R.StartsWithBlock(rest)
    ensures var r := R.ScanFrom(tail, off, acc);
            var end := if r.blockCount == acc.blockCount then off else r.validEnd;
            && off <= end <= off + |tail|
            && R.ScanFrom(tail[..end - off] + rest, off, acc) == r
    decreases |tail|
  {
    hide DecodeBlockHeader, R.Extend, FromLE16;
    R.ScanStaysInside(tail, off, acc);
    var r := R.ScanFrom(tail, off, acc);
    if !R.StartsWithBlock(tail) {
      assert tail[..0] + rest == rest;
    } else {
      var n := R.BlockLength(tail);
      var b, behind := tail[..n], tail[n..];
      assert b[..BLOCK_HEADER_SIZE] == tail[..BLOCK_HEADER_SIZE];
      assert b[n - 2..n] == tail[n - 2..n];
      var acc' := R.Extend(acc, b, off);
      ExtendCounts(acc, b, off);
      R.ScanStaysInside(behind, off + n, acc');
      ScanAgain(behind, rest, off + n, acc');
      var end := r.validEnd;
      var front := behind[..end - off - n] + rest;
      assert tail[..end - off] + rest == b + front;
      BlockInFront(b, front);
    }
  }

  lemma ExtendCounts(acc: R.ScanResult, b: bytes, off: nat)
    requires |b| >= BLOCK_HEADER_SIZE + 2
    ensures R.Extend(acc, b, off).blockCount == acc.blockCount + 1
    ensures R.Extend(acc, b, off).validEnd == off + |b|
    ensures IndexMagics(acc.indices) ==> IndexMagics(R.Extend(acc, b, off).indices)
  {
    hide DecodeBlockHeader, R.ScannedInfo;
  }

  lemma {:induction false} ScanMagics(tail: bytes, off: nat, acc: R.ScanResult)
    requires IndexMagics(acc.indices)
    ensures IndexMagics(R.ScanFrom(tail, off, acc).indices)
    decreases |tail|
  {
    hide DecodeBlockHeader, R.Extend, FromLE16;
    if R.StartsWithBlock(tail) {
      var n := R.BlockLength(tail);
      ExtendCounts(acc, tail[..n], off);
      ScanMagics(tail[n..], off + n, R.Extend(acc, tail[..n], off));
    }
  }

  /** For every file that can be repaired: everything up to the end of the last whole block stays
      as it was, and scanning the repaired file finds exactly the blocks and the index reported. */
  lemma RepairKeepsBlocks(data: bytes)
    ensures var (repaired, outcome) := R.Repair(data);
            outcome.Repaired? ==>
              var end := R.Scan(data).validEnd;
              && end <= |data| && repaired[..end] == data[..end]
              && |repaired| == outcome.result.fileSize
              && R.ScannableHeader(repaired)
              && R.Scan(repaired) == R.Scan(data)
              && R.Scan(repaired).indices == outcome.result.indices
  {
    hide R.FooterStatusOf, R.ScanFrom, FooterBytes, DecodeSegmentHeader, R.StartsWithBlock;
    if R.Repair(data).1.Repaired? {
      var start := R.BlocksStart(data);
      R.ScanInside(data);
      var scan := R.Scan(data);
      var footer := FooterBytes(scan.indices);
      ScanMagics(Tail(data, start), start, R.NOTHING_SCANNED);
      FooterIsNoBlock(scan.indices, |footer|);
      assert footer[..|footer|] == footer;
      ScanAgain(Tail(data, start), footer, start, R.NOTHING_SCANNED);
      var repaired := R.Repair(data).0;
      assert repaired[..SEGMENT_HEADER_SIZE] == data[..SEGMENT_HEADER_SIZE];
      assert Tail(repaired, start) == Tail(data, start)[..scan.validEnd - start] + footer;
    }
  }
}
