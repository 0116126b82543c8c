/** Rebuilding the footer of an unfinished segment file (nxcore/record/segment_repairer.cpp). */
module SegmentRepairer {
  import opened Bytes
  import opened Sequences
  import opened RecordLayout
  import opened FileModel
  import opened SegmentFooter

  datatype FooterStatus = FooterValid | FooterMissing | FooterCorrupted

  datatype RecordErrc = FileOpenFailed | InvalidBlock

  datatype ScanResult = ScanResult(
    startTs: int64, endTs: int64, blockCount: nat, validEnd: nat, indices: seq<IndexEntry>)

  datatype RepairResult = RepairResult(
    channelId: int64, startTs: int64, endTs: int64, blockCount: nat, fileSize: nat, indices: seq<IndexEntry>)

  datatype RepairOutcome = NotNeeded | Failed(error: RecordErrc) | Repaired(result: RepairResult)

  // ---------------------------------------------------------------- specification

  function FooterStatusOf(data: bytes): FooterStatus {
    if |data| < SEGMENT_HEADER_SIZE + FOOTER_SIZE then FooterMissing else
      var f := DecodeFooter(data[|data| - FOOTER_SIZE..]);
      if f.magic == FOOTER_MAGIC_START && f.magicEnd == FOOTER_MAGIC_END then FooterValid
      else if f.magic == FOOTER_MAGIC_START || f.magicEnd == FOOTER_MAGIC_END then FooterCorrupted
      else FooterMissing
  }

  /** The length a block header claims. */
  function BlockLength(tail: bytes): uint32
    requires |tail| >= BLOCK_HEADER_SIZE
  {
    DecodeBlockHeader(tail[..BLOCK_HEADER_SIZE]).length
  }

  /** A whole block lies at the front of the tail: magic, length and end magic all fit. */
  predicate StartsWithBlock(tail: bytes) {
    && |tail| >= BLOCK_HEADER_SIZE
    && DecodeBlockHeader(tail[..BLOCK_HEADER_SIZE]).magic == BLOCK_MAGIC
    && BLOCK_HEADER_SIZE + 2 <= BlockLength(tail) <= |tail|
    && FromLE16(tail[BlockLength(tail) - 2..BlockLength(tail)]) == BLOCK_END_MAGIC
  }

  /** Exactly one whole block. */
  predicate BlockImage(b: bytes) {
    StartsWithBlock(b) && BlockLength(b) == |b|
  }

  function HeaderOf(b: bytes): BlockHeader
    requires |b| >= BLOCK_HEADER_SIZE
  {
    DecodeBlockHeader(b[..BLOCK_HEADER_SIZE])
  }

  /** Entry and codec type of the first entry as extract_entry_info finds them. */
  function ScannedInfo(b: bytes): (byte, byte)
    requires |b| >= BLOCK_HEADER_SIZE + 2
  {
    if |b| - BLOCK_HEADER_SIZE - 2 < BLOCK_ENTRY_SIZE then (0, 0) else
      var t := b[28];
      (t, if StructSize(t) != 0 && FromLE16(b[30..32]) >= StructSize(t) then b[40] else 0)
  }

  function IndexFor(b: bytes, info: (byte, byte), off: nat): IndexEntry
    requires |b| >= BLOCK_HEADER_SIZE
  {
    var h := HeaderOf(b);
    IndexEntry(INDEX_MAGIC, EncodeIndexFlags(h.flags, info.0, info.1), h.startTs, off % 0x1_0000_0000_0000_0000)
  }

  function Extend(acc: ScanResult, b: bytes, off: nat): ScanResult
    requires |b| >= BLOCK_HEADER_SIZE + 2
  {
    var h := HeaderOf(b);
    ScanResult(
      if acc.blockCount == 0 then h.startTs else acc.startTs,
      h.endTs,
      acc.blockCount + 1,
      off + |b|,
      if HasKeyFrame(h.flags) then acc.indices + [IndexFor(b, ScannedInfo(b), off)] else acc.indices)
  }

  function ScanFrom(tail: bytes, off: nat, acc: ScanResult): ScanResult
    decreases |tail|
  {
    if !StartsWithBlock(tail) then acc else
      var n := BlockLength(tail);
      ScanFrom(tail[n..], off + n, Extend(acc, tail[..n], off))
  }

  const NOTHING_SCANNED := ScanResult(0, 0, 0, 0, [])

  /** Where the first block would be. */
  function BlocksStart(data: bytes): nat
    requires |data| >= SEGMENT_HEADER_SIZE
  {
    SEGMENT_HEADER_SIZE + DecodeSegmentHeader(data[..SEGMENT_HEADER_SIZE]).extensionSize
  }

  predicate ScannableHeader(data: bytes) {
    |data| >= SEGMENT_HEADER_SIZE && DecodeSegmentHeader(data[..SEGMENT_HEADER_SIZE]).magic == SEGMENT_MAGIC
  }

  function Scan(data: bytes): ScanResult
    requires |data| >= SEGMENT_HEADER_SIZE
  {
    ScanFrom(Tail(data, BlocksStart(data)), BlocksStart(data), NOTHING_SCANNED)
  }

  /** What repair_segment leaves in the file, and what it reports. */
  function Repair(data: bytes): (bytes, RepairOutcome) {
    if FooterStatusOf(data) == FooterValid then (data, NotNeeded)
    else if |data| < SEGMENT_HEADER_SIZE then (data, Failed(FileOpenFailed))
    else if !ScannableHeader(data) then (data, Failed(InvalidBlock))
    else
      var scan := Scan(data);
      if scan.blockCount == 0 then (data, Failed(InvalidBlock)) else
        ScanInside(data);
        (data[..scan.validEnd] + FooterBytes(scan.indices),
         Repaired(RepairResult(
                    DecodeSegmentHeader(data[..SEGMENT_HEADER_SIZE]).channelId, scan.startTs, scan.endTs,
                    scan.blockCount, scan.validEnd + INDEX_ENTRY_SIZE * |scan.indices| + FOOTER_SIZE, scan.indices)))
  }

  lemma {:induction false} ScanStaysInside(tail: bytes, off: nat, acc: ScanResult)
    ensures var r := ScanFrom(tail, off, acc);
            && r.blockCount >= acc.blockCount
            && (r.blockCount == acc.blockCount ==> r == acc)
            && (r.blockCount > acc.blockCount ==> off + 30 <= r.validEnd <= off + |tail|)
    decreases |tail|
  {
    hide DecodeBlockHeader, IndexFor, ScannedInfo;
    if StartsWithBlock(tail) {
      var n := BlockLength(tail);
      ScanStaysInside(tail[n..], off + n, Extend(acc, tail[..n], off));
    }
  }

  lemma ScanInside(data: bytes)
    requires |data| >= SEGMENT_HEADER_SIZE && Scan(data).blockCount > 0
    ensures BlocksStart(data) + 30 <= Scan(data).validEnd <= |data|
  {
    ScanStaysInside(Tail(data, BlocksStart(data)), BlocksStart(data), NOTHING_SCANNED);
  }

  // -------------------------------------------------------------- meaning in bytes

  /** The two magics of a footer stand where the last 16 bytes have them. */
  predicate StartMagicStands(data: bytes)
    requires |data| >= 16
  {
    data[|data| - 16] == 0xF3 && data[|data| - 15] == 0xFF
  }

  predicate EndMagicStands(data: bytes)
    requires |data| >= 16
  {
    data[|data| - 2] == 0xFE && data[|data| - 1] == 0xFF
  }

  predicate EndsWithFooter(data: bytes) {
    |data| >= 36 && StartMagicStands(data) && EndMagicStands(data)
  }

  /** What the footer check makes of any file: finished with both magics, damaged with one, else unfinished. */
  lemma FooterStatusExactly(data: bytes)
    ensures FooterStatusOf(data) == FooterValid <==> EndsWithFooter(data)
    ensures FooterStatusOf(data) == FooterCorrupted
       <==> |data| >= 36 && (StartMagicStands(data) <==> !EndMagicStands(data))
  {
    if |data| >= 36 {
      var s := data[|data| - FOOTER_SIZE..];
      assert s[0..2][0] == data[|data| - 16] && s[0..2][1] == data[|data| - 15];
      assert s[14..16][0] == data[|data| - 2] && s[14..16][1] == data[|data| - 1];
    }
  }

  /** A block as a writer lays it out. */
  predicate LaidOut(tail: bytes, h: BlockHeader, body: bytes) {
    && h.magic == 0xFFF1 && h.length == |body| + 30
    && EncodeBlockHeader(h) + (body + [0xFB, 0xFF]) <= tail
  }

  ghost predicate BlockLaidOut(tail: bytes) {
    exists h, body :: LaidOut(tail, h, body)
  }

  /** The scan takes the front of the rest for a block exactly if a writer could have put one there. */
  lemma BlockExactly(tail: bytes)
    ensures StartsWithBlock(tail) <==> BlockLaidOut(tail)
  {
    if StartsWithBlock(tail) {
      BlockIsLaidOut(tail);
    }
    if BlockLaidOut(tail) {
      var h, body :| LaidOut(tail, h, body);
      LaidOutIsBlock(tail, h, body);
    }
  }

  lemma BlockIsLaidOut(tail: bytes)
    requires StartsWithBlock(tail)
    ensures LaidOut(tail, HeaderOf(tail), tail[BLOCK_HEADER_SIZE..BlockLength(tail) - 2])
  {
    hide EncodeBlockHeader, DecodeBlockHeader;
    var n := BlockLength(tail);
    var end := tail[n - 2..n];
    BlockHeaderBytes(tail[..BLOCK_HEADER_SIZE]);
    assert end == [0xFB, 0xFF];
    assert tail[..n] == tail[..BLOCK_HEADER_SIZE] + (tail[BLOCK_HEADER_SIZE..n - 2] + end);
  }

  lemma LaidOutIsBlock(tail: bytes, h: BlockHeader, body: bytes)
    requires LaidOut(tail, h, body)
    ensures StartsWithBlock(tail) && HeaderOf(tail) == h
  {
    hide EncodeBlockHeader, DecodeBlockHeader;
    var head, end: bytes := EncodeBlockHeader(h), [0xFB, 0xFF];
    BlockHeaderRoundTrip(h);
    var whole := head + (body + end);
    assert tail[..|whole|] == whole;
    assert tail[..BLOCK_HEADER_SIZE] == whole[..BLOCK_HEADER_SIZE] == head;
    assert tail[h.length - 2..h.length] == whole[h.length - 2..] == end;
  }

  /** The scan stops only where no whole block follows. */
  lemma {:induction false} ScanIsMaximal(tail: bytes, off: nat, acc: ScanResult)
    ensures var r := ScanFrom(tail, off, acc);
            var end := if r.blockCount == acc.blockCount then 0 else r.validEnd - off;
            0 <= end <= |tail| && !StartsWithBlock(tail[end..])
    decreases |tail|
  {
    hide StartsWithBlock, BlockLength, Extend;
    ScanStaysInside(tail, off, acc);
    if StartsWithBlock(tail) {
      var n := LengthOfBlock(tail);
      var acc' := Extend(acc, tail[..n], off);
      CountsBlock(acc, tail[..n], off);
      ScanStaysInside(tail[n..], off + n, acc');
      ScanIsMaximal(tail[n..], off + n, acc');
      var r := ScanFrom(tail, off, acc);
      if r.blockCount > acc'.blockCount {
        assert tail[n..][r.validEnd - off - n..] == tail[r.validEnd - off..];
      }
    } else {
      assert tail[0..] == tail;
    }
  }

  lemma LengthOfBlock(tail: bytes) returns (n: nat)
    requires StartsWithBlock(tail)
    ensures |tail| >= BLOCK_HEADER_SIZE && n == BlockLength(tail) && BLOCK_HEADER_SIZE + 2 <= n <= |tail|
  {
    n := BlockLength(tail);
  }

  lemma CountsBlock(acc: ScanResult, b: bytes, off: nat)
    requires |b| >= BLOCK_HEADER_SIZE + 2
    ensures Extend(acc, b, off).blockCount == acc.blockCount + 1 && Extend(acc, b, off).validEnd == off + |b|
  {
    hide DecodeBlockHeader, ScannedInfo;
  }

  /** Whatever the file: it is left alone exactly if it ends with a footer, and repaired exactly if it does not
      but has a segment header and a whole block behind it. */
  lemma RepairExactly(data: bytes)
    ensures var (after, outcome) := Repair(data);
            && (outcome == NotNeeded <==> EndsWithFooter(data))
            && (!outcome.Repaired? ==> after == data)
            && (outcome == Failed(FileOpenFailed) <==> |data| < 20)
            && (outcome.Repaired? <==>
                  && !EndsWithFooter(data) && |data| >= 20 && data[0] == 0xF0 && data[1] == 0xFF
                  && BlockLaidOut(Tail(data, 20 + FromLE32(data[16..20]))))
  {
    hide FooterStatusOf, StartsWithBlock, BlockLaidOut, ScanFrom, FromLE32, FromLEInt64;
    FooterStatusExactly(data);
    if |data| >= SEGMENT_HEADER_SIZE {
      var s := data[..SEGMENT_HEADER_SIZE];
      assert s[0..2][0] == data[0] && s[0..2][1] == data[1] && s[16..20] == data[16..20];
      var tail := Tail(data, BlocksStart(data));
      BlockExactly(tail);
      FirstBlockCounts(tail, BlocksStart(data));
    }
  }

  lemma FirstBlockCounts(tail: bytes, off: nat)
    ensures ScanFrom(tail, off, NOTHING_SCANNED).blockCount > 0 <==> StartsWithBlock(tail)
  {
    hide DecodeBlockHeader, IndexFor, ScannedInfo, FromLE16;
    if StartsWithBlock(tail) {
      var n := BlockLength(tail);
      ScanStaysInside(tail[n..], off + n, Extend(NOTHING_SCANNED, tail[..n], off));
    }
  }

  // --------------------------------------------------------------- implementation

  method CheckFooter(file: FileStream) returns (status: FooterStatus)
    modifies file`pos
    ensures status == FooterStatusOf(file.data)
    ensures status == FooterValid <==> EndsWithFooter(file.data)
    ensures status == FooterCorrupted
       <==> |file.data| >= 36 && (StartMagicStands(file.data) <==> !EndMagicStands(file.data))
  {
    hide DecodeFooter, StartMagicStands, EndMagicStands;
    FooterStatusExactly(file.data);
    if |file.data| < SEGMENT_HEADER_SIZE + FOOTER_SIZE {
      return FooterMissing;
    }
    file.OpenRead();
    var ok := file.SeekEnd(-FOOTER_SIZE);
    assert file.data[file.pos..file.pos + FOOTER_SIZE] == file.data[file.pos..];
    var s := file.Read(FOOTER_SIZE);
    var footer := DecodeFooter(s);
    if footer.magic == FOOTER_MAGIC_START && footer.magicEnd == FOOTER_MAGIC_END {
      return FooterValid;
    }
    if footer.magic == FOOTER_MAGIC_START || footer.magicEnd == FOOTER_MAGIC_END {
      return FooterCorrupted;
    }
    return FooterMissing;
  }

  /** Reads the type information of a block's first entry and puts the cursor back. */
  method ExtractEntryInfo(file: FileStream, dataStart: nat, dataEnd: nat) returns (info: (byte, byte))
    requires BLOCK_HEADER_SIZE <= dataStart <= dataEnd <= |file.data| - 2
    modifies file`pos
    ensures file.pos == old(file.pos)
    ensures info == ScannedInfo(file.data[dataStart - BLOCK_HEADER_SIZE..dataEnd + 2])
  {
    info := (0, 0);
    if dataEnd - dataStart < BLOCK_ENTRY_SIZE {
      return;
    }
    ghost var b := file.data[dataStart - BLOCK_HEADER_SIZE..dataEnd + 2];
    var saved := file.pos;
    var ok := file.SeekBegin(dataStart);
    var base := file.Read(BLOCK_ENTRY_SIZE);
    SliceOfSlice(file.data, dataStart - BLOCK_HEADER_SIZE, dataEnd + 2, 28, 40);
    SliceOfSlice(b, 28, 40, 2, 4);
    hide FromLE16;
    var headerSize := FromLE16(base[2..4]);
    var codec: byte := 0;
    if StructSize(base[0]) != 0 && headerSize >= StructSize(base[0]) {
      var rd := file.Read(1);
      if |rd| == 1 {
        codec := rd[0];
      }
    }
    info := (base[0], codec);
    ok := file.SeekBegin(saved);
  }

  /** The checks the scan makes on the bytes at the cursor before it accepts them as a block. */
  method ReadWholeBlock(file: FileStream) returns (found: bool, header: BlockHeader)
    modifies file`pos
    ensures found <==> StartsWithBlock(Tail(file.data, old(file.pos)))
    ensures found ==> header == HeaderOf(Tail(file.data, old(file.pos)))
  {
    hide DecodeBlockHeader, FromLE16;
    found, header := false, BlockHeader(0, 0, 0, 0, 0, 0);
    var blockOffset := file.pos;
    if blockOffset + BLOCK_HEADER_SIZE > |file.data| {
      return;
    }
    ghost var tail := file.data[blockOffset..];
    var s := file.Read(BLOCK_HEADER_SIZE);
    assert s == tail[..BLOCK_HEADER_SIZE];
    header := DecodeBlockHeader(s);
    if header.magic != BLOCK_MAGIC {
      return;
    }
    if header.length < BLOCK_HEADER_SIZE + 2 {
      return;
    }
    if blockOffset + header.length > |file.data| {
      return;
    }
    var ok := file.SeekBegin(blockOffset + header.length - 2);
    s := file.Read(2);
    SliceOfTail(file.data, blockOffset, header.length - 2, header.length);
    found := FromLE16(s) == BLOCK_END_MAGIC;
  }

  /** A block that was found, in terms of the whole file. */
  lemma BlockInside(data: bytes, off: nat)
    ensures StartsWithBlock(Tail(data, off)) ==>
              var n := BlockLength(Tail(data, off));
              && BLOCK_HEADER_SIZE + 2 <= n && off + n <= |data|
              && HeaderOf(data[off..off + n]) == HeaderOf(Tail(data, off))
              && HeaderOf(Tail(data, off)).length == n
  {
    hide DecodeBlockHeader;
    var tail := Tail(data, off);
    if StartsWithBlock(tail) {
      var n := BlockLength(tail);
      assert tail[..n] == data[off..off + n];
      assert tail[..n][..BLOCK_HEADER_SIZE] == tail[..BLOCK_HEADER_SIZE];
    }
  }

  /** One turn of the scan loop, in terms of the whole file. */
  lemma ScanStep(data: bytes, off: nat, acc: ScanResult)
    ensures !StartsWithBlock(Tail(data, off)) ==> ScanFrom(Tail(data, off), off, acc) == acc
    ensures StartsWithBlock(Tail(data, off)) ==>
              var n := BlockLength(Tail(data, off));
              && HeaderOf(data[off..off + n]) == HeaderOf(Tail(data, off))
              && ScanFrom(Tail(data, off), off, acc)
                 == ScanFrom(Tail(data, off + n), off + n, Extend(acc, data[off..off + n], off))
  {
    hide DecodeBlockHeader, Extend;
    var tail := Tail(data, off);
    if StartsWithBlock(tail) {
      var n := BlockLength(tail);
      assert tail[..n] == data[off..off + n];
      assert tail[n..] == Tail(data, off + n);
      assert tail[..n][..BLOCK_HEADER_SIZE] == tail[..BLOCK_HEADER_SIZE];
    }
  }

  /** One turn of the scan loop. */
  method ScanOneBlock(file: FileStream, acc: ScanResult) returns (found: bool, result: ScanResult)
    modifies file`pos
    ensures found <==> StartsWithBlock(Tail(file.data, old(file.pos)))
    ensures found ==>
              var n := BlockLength(Tail(file.data, old(file.pos)));
              && old(file.pos) < file.pos == old(file.pos) + n <= |file.data|
              && result == Extend(acc, file.data[old(file.pos)..old(file.pos) + n], old(file.pos))
  {
    hide StartsWithBlock, DecodeBlockHeader, ScannedInfo, ScanFrom, EncodeIndexFlags;
    result := acc;
    var blockOffset := file.pos;
    BlockInside(file.data, blockOffset);
    var blockHeader;
    found, blockHeader := ReadWholeBlock(file);
    if !found {
      return;
    }
    var indices := acc.indices;
    if HasKeyFrame(blockHeader.flags) {
      var info := ExtractEntryInfo(file, blockOffset + BLOCK_HEADER_SIZE, blockOffset + blockHeader.length - 2);
      indices := indices + [IndexEntry(INDEX_MAGIC, EncodeIndexFlags(blockHeader.flags, info.0, info.1),
                                       blockHeader.startTs, blockOffset % 0x1_0000_0000_0000_0000)];
    }
    result := ScanResult(if acc.blockCount == 0 then blockHeader.startTs else acc.startTs,
                         blockHeader.endTs, acc.blockCount + 1, blockOffset + blockHeader.length, indices);
    var ok := file.SeekBegin(result.validEnd);
  }

  /** The front of scan_blocks: the segment header, and the step over its extension. */
  method ScanHeader(file: FileStream) returns (error: bool, errc: RecordErrc, channelId: int64)
    modifies file`pos
    ensures error <==> !ScannableHeader(file.data)
    ensures error ==> errc == if |file.data| < SEGMENT_HEADER_SIZE then FileOpenFailed else InvalidBlock
    ensures !error ==> channelId == DecodeSegmentHeader(file.data[..SEGMENT_HEADER_SIZE]).channelId
    ensures !error ==> file.pos == BlocksStart(file.data)
  {
    hide DecodeSegmentHeader;
    error, errc, channelId := true, FileOpenFailed, 0;
    file.OpenRead();
    var s := file.Read(SEGMENT_HEADER_SIZE);
    if |s| != SEGMENT_HEADER_SIZE {
      return;
    }
    var header := DecodeSegmentHeader(s);
    if header.magic != SEGMENT_MAGIC {
      errc := InvalidBlock;
      return;
    }
    error, channelId := false, header.channelId;
    if header.extensionSize > 0 {
      var ok := file.SeekCurrent(header.extensionSize);
    }
  }

  method ScanBlocks(file: FileStream) returns (error: bool, errc: RecordErrc, channelId: int64, result: ScanResult)
    modifies file`pos
    ensures error <==> !ScannableHeader(file.data)
    ensures error ==> errc == if |file.data| < SEGMENT_HEADER_SIZE then FileOpenFailed else InvalidBlock
    ensures !error ==> result == Scan(file.data)
    ensures !error ==> channelId == DecodeSegmentHeader(file.data[..SEGMENT_HEADER_SIZE]).channelId
  {
    hide DecodeSegmentHeader, StartsWithBlock, BlockLength, Extend, ScanFrom;
    result := NOTHING_SCANNED;
    error, errc, channelId := ScanHeader(file);
    if error {
      return;
    }
    while true
      invariant ScanFrom(Tail(file.data, file.pos), file.pos, result) == Scan(file.data)
      decreases |file.data| - file.pos
    {
      ScanStep(file.data, file.pos, result);
      var found, next := ScanOneBlock(file, result);
      if !found {
        break;
      }
      result := next;
    }
  }

  method WriteFooterAt(file: FileStream, truncateOffset: nat, indices: seq<IndexEntry>)
    requires truncateOffset <= |file.data|
    modifies file
    ensures file.data == old(file.data)[..truncateOffset] + FooterBytes(indices)
  {
    hide FooterBytes;
    if |file.data| > truncateOffset {
      file.Truncate(truncateOffset);
    }
    file.OpenAppend();
    WriteFooter(file, indices);
  }

  method RepairSegment(file: FileStream) returns (outcome: RepairOutcome)
    modifies file
    ensures (file.data, outcome) == Repair(old(file.data))
    ensures outcome == NotNeeded <==> EndsWithFooter(old(file.data))
  {
    hide Scan, DecodeSegmentHeader, FooterStatusOf, FooterBytes, EndsWithFooter;
    ghost var data := file.data;
    FooterStatusExactly(data);
    var status := CheckFooter(file);
    if status == FooterValid {
      return NotNeeded;
    }
    var error, errc, channelId, scan := ScanBlocks(file);
    if error {
      return Failed(errc);
    }
    if scan.blockCount == 0 {
      return Failed(InvalidBlock);
    }
    ScanInside(data);
    WriteFooterAt(file, scan.validEnd, scan.indices);
    return Repaired(RepairResult(
      channelId, scan.startTs, scan.endTs, scan.blockCount,
      scan.validEnd + INDEX_ENTRY_SIZE * |scan.indices| + FOOTER_SIZE, scan.indices));
  }
}
