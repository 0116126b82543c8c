/** Reading a segment file back, entry by entry (nxcore/record/segment_reader.cpp). */
module SegmentReader {
  import opened Bytes
  import opened RecordLayout
  import opened FileModel

  datatype ReaderErrc =
    ReadError | UnexpectedEof | EndOfSegment | InvalidEntryHeader | InvalidSegmentHeader | FooterParseError | SeekFailed

  datatype Frame = Frame(
    entryType: byte, timestamp: int64, isKeyFrame: bool, videoCodec: byte, frameType: byte,
    audioCodec: byte, sampleRate: uint32, channels: byte, payload: bytes)

  datatype ReadResult = Success(frame: Frame) | Failure(error: ReaderErrc)

  /** The std::error_code of the other operations. */
  datatype Status = Done | Error(error: ReaderErrc)

  /** Read state of an open reader: the file cursor and the position inside the current block. */
  datatype Cursor = Cursor(
    pos: nat, needNewBlock: bool, blockOffset: nat, blockEnd: int, entriesRead: nat, timestamp: int64)

  datatype FooterIndex = NoFooter | Loaded(entries: seq<IndexEntry>) | Broken

  // ---------------------------------------------------------------- specification

  /** The derived part of an entry structure, zero-filled where the header is too short for it. */
  function Padded(extra: bytes, size: nat): (s: bytes)
    ensures |s| == size
    ensures |extra| == size ==> s == extra
  {
    if |extra| >= size then extra[..size] else extra + seq(size - |extra|, i => 0)
  }

  /** The result fields that an entry of a known type yields, and the size of its payload. */
  function FrameOf(base: bytes, fields: bytes): (Frame, uint32)
    requires |base| == BLOCK_ENTRY_SIZE && StructSize(base[0]) != 0
    requires |fields| == StructSize(base[0]) - BLOCK_ENTRY_SIZE
  {
    var ts := FromLEInt64(base[4..12]);
    if base[0] == TYPE_VIDEO then
      (Frame(TYPE_VIDEO, ts, fields[1] == FRAME_I, fields[0], fields[1], 0, 0, 0, []), FromLE32(fields[4..8]))
    else if base[0] == TYPE_AUDIO then
      (Frame(TYPE_AUDIO, ts, false, 0, 0, fields[0], FromLE32(fields[3..7]), fields[1], []), FromLE32(fields[7..11]))
    else
      (Frame(TYPE_USER, ts, false, 0, 0, 0, 0, 0, []), FromLE32(fields[4..8]))
  }

  /** read_entry_from_block at a position: the result, and where the cursor is left. */
  function ParseEntry(data: bytes, pos: nat): (ReadResult, nat) {
    var base := ReadAt(data, pos, BLOCK_ENTRY_SIZE);
    if |base| < BLOCK_ENTRY_SIZE then (Failure(UnexpectedEof), pos + |base|) else
      var headerSize := FromLE16(base[2..4]);
      if headerSize < BLOCK_ENTRY_SIZE then (Failure(InvalidEntryHeader), pos + BLOCK_ENTRY_SIZE)
      else if StructSize(base[0]) == 0 then (Failure(InvalidEntryHeader), pos + headerSize)
      else ParseTyped(data, pos, base, headerSize)
  }

  /** An entry of a known type: the rest of its structure, and its payload. */
  function ParseTyped(data: bytes, pos: nat, base: bytes, headerSize: nat): (ReadResult, nat)
    requires |base| == BLOCK_ENTRY_SIZE <= headerSize && StructSize(base[0]) != 0
  {
    var extra := ReadAt(data, pos + BLOCK_ENTRY_SIZE, headerSize - BLOCK_ENTRY_SIZE);
    if |extra| < headerSize - BLOCK_ENTRY_SIZE
    then (Failure(UnexpectedEof), pos + BLOCK_ENTRY_SIZE + |extra|)
    else
      var (frame, size) := FrameOf(base, Padded(extra, StructSize(base[0]) - BLOCK_ENTRY_SIZE));
      var payload := ReadAt(data, pos + headerSize, size);
      if |payload| < size then (Failure(UnexpectedEof), pos + headerSize + |payload|)
      else (Success(frame.(payload := payload)), pos + headerSize + size)
  }

  /** read_next_entry. */
  function ReadNext(data: bytes, c: Cursor): (ReadResult, Cursor)
    decreases |data| - c.pos, !c.needNewBlock
  {
    if c.needNewBlock then
      var (status, c') := EnterBlock(data, c);
      if status.Error? then (Failure(status.error), c') else ReadNext(data, c')
    else if c.pos >= c.blockEnd then ReadNext(data, LeaveBlock(data, c))
    else TakeEntry(data, c)
  }

  /** read_block_header, and what read_next_entry keeps of the header. */
  function EnterBlock(data: bytes, c: Cursor): (r: (Status, Cursor))
    ensures r.0.Done? ==> !r.1.needNewBlock && c.pos < r.1.pos <= |data|
  {
    var h := ReadAt(data, c.pos, BLOCK_HEADER_SIZE);
    var c1 := c.(pos := c.pos + |h|);
    if |h| < BLOCK_HEADER_SIZE then (Error(UnexpectedEof), c1) else
      var header := DecodeBlockHeader(h);
      if header.magic != BLOCK_MAGIC then (Error(EndOfSegment), c1)
      else (Done, Cursor(c1.pos, false, c.pos, c.pos + header.length - 2, 0, c.timestamp))
  }

  /** Reads past the end magic, whatever it is. */
  function LeaveBlock(data: bytes, c: Cursor): Cursor {
    c.(pos := c.pos + |ReadAt(data, c.pos, 2)|, needNewBlock := true)
  }

  function TakeEntry(data: bytes, c: Cursor): (ReadResult, Cursor) {
    var (r, pos) := ParseEntry(data, c.pos);
    match r
    case Failure(_) => (r, c.(pos := pos))
    case Success(f) => (r, c.(pos := pos, entriesRead := c.entriesRead + 1, timestamp := f.timestamp))
  }

  /** parse_footer, which load_footer_index and open rely on. */
  function ParseFooter(data: bytes): FooterIndex {
    if |data| < FOOTER_SIZE then Broken else
      var footer := DecodeFooter(data[|data| - FOOTER_SIZE..]);
      if footer.magic != FOOTER_MAGIC_START then NoFooter
      else if footer.indexCount == 0 then Loaded([])
      else ParseIndex(data, footer.indexCount)
  }

  /** The index entries in front of the footer. */
  function ParseIndex(data: bytes, count: nat): (r: FooterIndex)
    requires count > 0
    ensures !r.NoFooter?
  {
    var size := count * INDEX_ENTRY_SIZE;
    if |data| < FOOTER_SIZE + size then Broken else
      var index := DecodeIndex(data[|data| - FOOTER_SIZE - size..|data| - FOOTER_SIZE]);
      if index == [] || index[0].magic != INDEX_MAGIC then Broken else Loaded(index)
  }

  function OpenError(data: bytes): ReadResult {
    if |data| < SEGMENT_HEADER_SIZE then Failure(UnexpectedEof) else Failure(InvalidSegmentHeader)
  }

  predicate Opens(data: bytes) {
    |data| >= SEGMENT_HEADER_SIZE && DecodeSegmentHeader(data[..SEGMENT_HEADER_SIZE]).magic == SEGMENT_MAGIC
  }

  /** Where a freshly opened reader stands. */
  function StartCursor(data: bytes): Cursor
    requires Opens(data)
  {
    Cursor(SEGMENT_HEADER_SIZE + DecodeSegmentHeader(data[..SEGMENT_HEADER_SIZE]).extensionSize, true, 0, 0, 0, 0)
  }

  function SoughtCursor(c: Cursor, offset: nat): Cursor {
    Cursor(offset, true, offset, c.blockEnd, 0, c.timestamp)
  }

  /** Where the element in front of the first later one stands, or the first element: what
      std::upper_bound and one step back find. */
  predicate IsSeekSlot(index: seq<IndexEntry>, target: int, k: nat) {
    || (k == 0 && index != [] && target < index[0].timestamp)
    || (k < |index| && index[k].timestamp <= target && (k + 1 < |index| ==> target < index[k + 1].timestamp))
  }

  // --------------------------------------------------------------- implementation

  class SegmentReader {
    const file: FileStream
    var isOpen: bool
    var header: SegmentHeader
    var footerLoaded: bool
    var footerIndices: seq<IndexEntry>
    var blockOffset: nat
    var timestamp: int64
    var entriesRead: nat
    var blockEnd: int
    var needNewBlock: bool

    ghost function View(): Cursor
      reads this, file
    {
      Cursor(file.pos, needNewBlock, blockOffset, blockEnd, entriesRead, timestamp)
    }

    /** What the reader knows of the footer is what parse_footer finds in the file. */
    ghost predicate IndexKnown()
      reads this, file
    {
      isOpen ==>
        match ParseFooter(file.data)
        case Loaded(entries) => footerLoaded && footerIndices == entries
        case _ => !footerLoaded && footerIndices == []
    }

    constructor (file: FileStream)
      ensures this.file == file && !isOpen && IndexKnown()
    {
      this.file := file;
      isOpen, footerLoaded, footerIndices := false, false, [];
      header := SegmentHeader(0, 0, 0, 0, 0);
      blockOffset, timestamp, entriesRead, blockEnd, needNewBlock := 0, 0, 0, 0, true;
    }

    method Close()
      modifies this
      ensures !isOpen && !footerLoaded && footerIndices == []
      ensures blockOffset == 0 && timestamp == 0 && entriesRead == 0 && blockEnd == 0 && needNewBlock
    {
      isOpen, footerLoaded, footerIndices := false, false, [];
      header := SegmentHeader(0, 0, 0, 0, 0);
      blockOffset, timestamp, entriesRead, blockEnd, needNewBlock := 0, 0, 0, 0, true;
    }

    method Open() returns (ok: bool, error: ReadResult)
      modifies this, file`pos
      ensures ok <==> Opens(file.data)
      ensures ok ==> View() == StartCursor(file.data) && isOpen
      ensures ok ==> header == DecodeSegmentHeader(file.data[..SEGMENT_HEADER_SIZE])
      ensures !ok ==> error == OpenError(file.data) && !isOpen
      ensures IndexKnown()
    {
      hide DecodeSegmentHeader, ParseFooter;
      ok, error := false, Failure(UnexpectedEof);
      Close();
      file.OpenRead();
      var s := file.Read(SEGMENT_HEADER_SIZE);
      if |s| != SEGMENT_HEADER_SIZE {
        return;
      }
      header := DecodeSegmentHeader(s);
      if header.magic != SEGMENT_MAGIC {
        error := Failure(InvalidSegmentHeader);
        Close();
        return;
      }
      if header.extensionSize > 0 {
        var moved := file.SeekCurrent(header.extensionSize);
      }
      isOpen, ok := true, true;
      var footerStatus := LoadFooterIndex();
    }

    /** load_footer_index.  No footer is not an error. */
    method LoadFooterIndex() returns (status: Status)
      requires IndexKnown() || (!footerLoaded && footerIndices == [])
      modifies `footerLoaded, `footerIndices, file`pos
      ensures IndexKnown() && file.pos == old(file.pos)
      ensures status == if !isOpen then Error(ReadError)
                        else if ParseFooter(file.data).Broken? then Error(FooterParseError) else Done
    {
      hide ParseFooter;
      if !isOpen {
        return Error(ReadError);
      }
      var saved := file.pos;
      var parsed := ReadFooter();
      var ok := file.SeekBegin(saved);
      match parsed
      case NoFooter => return Done;
      case Broken => return Error(FooterParseError);
      case Loaded(entries) =>
        footerIndices, footerLoaded := entries, true;
        return Done;
    }

    /** What parse_footer finds in the file, before the cursor is put back. */
    method ReadFooter() returns (parsed: FooterIndex)
      modifies file`pos
      ensures parsed == ParseFooter(file.data)
    {
      hide DecodeFooter, ParseIndex;
      var ok := file.SeekEnd(-FOOTER_SIZE);
      if !ok {
        return Broken;
      }
      var s := file.Read(FOOTER_SIZE);
      assert s == file.data[|file.data| - FOOTER_SIZE..];
      var footer := DecodeFooter(s);
      if footer.magic != FOOTER_MAGIC_START {
        return NoFooter;
      }
      if footer.indexCount == 0 {
        return Loaded([]);
      }
      parsed := ReadIndex(footer.indexCount);
    }

    /** The part of parse_footer that reads and checks the entries. */
    method ReadIndex(count: nat) returns (index: FooterIndex)
      requires count > 0
      modifies file`pos
      ensures index == ParseIndex(file.data, count)
    {
      hide DecodeIndex;
      var size := count * INDEX_ENTRY_SIZE;
      var ok := file.SeekEnd(-(FOOTER_SIZE + size));
      if !ok {
        return Broken;
      }
      var s := file.Read(size);
      assert s == file.data[|file.data| - FOOTER_SIZE - size..|file.data| - FOOTER_SIZE];
      var entries := DecodeIndex(s);
      return if entries == [] || entries[0].magic != INDEX_MAGIC then Broken else Loaded(entries);
    }

    method ReadEntryFromBlock() returns (result: ReadResult)
      modifies file`pos
      ensures (result, file.pos) == ParseEntry(file.data, old(file.pos))
    {
      hide ParseTyped, FromLE16;
      var base := file.Read(BLOCK_ENTRY_SIZE);
      if |base| < BLOCK_ENTRY_SIZE {
        return Failure(UnexpectedEof);
      }
      var headerSize := FromLE16(base[2..4]);
      if headerSize < BLOCK_ENTRY_SIZE {
        return Failure(InvalidEntryHeader);
      }
      if StructSize(base[0]) == 0 {
        var ok := file.SeekCurrent(headerSize - BLOCK_ENTRY_SIZE);
        return Failure(InvalidEntryHeader);
      }
      result := ReadTyped(base, headerSize);
    }

    /** The part of read_entry_from_block that depends on the type. */
    method ReadTyped(base: bytes, headerSize: nat) returns (result: ReadResult)
      requires |base| == BLOCK_ENTRY_SIZE <= headerSize && StructSize(base[0]) != 0
      requires file.pos >= BLOCK_ENTRY_SIZE
      modifies file`pos
      ensures (result, file.pos) == ParseTyped(file.data, old(file.pos) - BLOCK_ENTRY_SIZE, base, headerSize)
    {
      hide FrameOf, Padded, ReadAt;
      var remaining := headerSize - BLOCK_ENTRY_SIZE;
      var extra := file.Read(remaining);
      if |extra| != remaining {
        return Failure(UnexpectedEof);
      }
      var (frame, size) := FrameOf(base, Padded(extra, StructSize(base[0]) - BLOCK_ENTRY_SIZE));
      var payload := file.Read(size);
      if |payload| != size {
        return Failure(UnexpectedEof);
      }
      return Success(frame.(payload := payload));
    }

    /** read_block_header, and the fields that read_next_entry sets from it. */
    method ReadBlockHeader() returns (status: Status)
      requires needNewBlock
      modifies `blockOffset, `blockEnd, `entriesRead, `needNewBlock, file`pos
      ensures (status, View()) == EnterBlock(file.data, old(View()))
    {
      hide DecodeBlockHeader;
      var offset := file.pos;
      var h := file.Read(BLOCK_HEADER_SIZE);
      if |h| != BLOCK_HEADER_SIZE {
        return Error(UnexpectedEof);
      }
      var blockHeader := DecodeBlockHeader(h);
      if blockHeader.magic != BLOCK_MAGIC {
        return Error(EndOfSegment);
      }
      blockOffset, entriesRead, needNewBlock := offset, 0, false;
      blockEnd := blockOffset + blockHeader.length - 2;
      return Done;
    }

    method ReadEndMagic()
      modifies `needNewBlock, file`pos
      ensures View() == LeaveBlock(file.data, old(View()))
    {
      var endMagic := file.Read(2);
      needNewBlock := true;
    }

    /** read_entry_from_block, and the position that read_next_entry keeps. */
    method ReadOneEntry() returns (result: ReadResult)
      modifies `entriesRead, `timestamp, file`pos
      ensures (result, View()) == TakeEntry(file.data, old(View()))
    {
      hide ParseEntry;
      result := ReadEntryFromBlock();
      if result.Success? {
        entriesRead := entriesRead + 1;
        timestamp := result.frame.timestamp;
      }
    }

    method ReadNextEntry() returns (result: ReadResult)
      requires IndexKnown()
      modifies this, file`pos
      ensures IndexKnown() && isOpen == old(isOpen)
      ensures !isOpen ==> result == Failure(ReadError) && View() == old(View())
      ensures isOpen ==> (result, View()) == ReadNext(file.data, old(View()))
    {
      hide ParseEntry, EnterBlock, TakeEntry, ParseFooter, ReadAt;
      if !isOpen {
        return Failure(ReadError);
      }
      while true
        invariant IndexKnown() && isOpen
        invariant ReadNext(file.data, View()) == ReadNext(file.data, old(View()))
        decreases if file.pos <= |file.data| then |file.data| - file.pos else 0, !needNewBlock
      {
        if needNewBlock {
          var status := ReadBlockHeader();
          if status.Error? { return Failure(status.error); }
        } else if file.pos >= blockEnd {
          ReadEndMagic();
        } else {
          result := ReadOneEntry();
          return;
        }
      }
    }

    method SeekToOffset(offset: int) returns (status: Status)
      requires IndexKnown()
      modifies `blockOffset, `entriesRead, `needNewBlock, file`pos
      ensures IndexKnown()
      ensures status == if !isOpen then Error(ReadError) else if offset < 0 then Error(SeekFailed) else Done
      ensures View() == if status.Done? then SoughtCursor(old(View()), offset) else old(View())
    {
      hide ParseFooter;
      if !isOpen {
        return Error(ReadError);
      }
      var ok := file.SeekBegin(offset);
      if !ok {
        return Error(SeekFailed);
      }
      blockOffset, entriesRead, needNewBlock := offset, 0, true;
      return Done;
    }

    /** Binary search in the footer index. The slot condition holds even if the index is not sorted; an offset
        of 2^63 or more is a negative one to seek. */
    method SeekToTime(target: int64) returns (status: Status, ghost k: nat)
      requires IndexKnown()
      modifies `blockOffset, `entriesRead, `needNewBlock, file`pos
      ensures IndexKnown()
      ensures !isOpen ==> status == Error(ReadError)
      ensures isOpen && (!footerLoaded || footerIndices == []) ==> status == Error(SeekFailed)
      ensures isOpen && footerLoaded && footerIndices != [] ==>
                && IsSeekSlot(footerIndices, target, k)
                && status == (if footerIndices[k].offset < 0x8000_0000_0000_0000 then Done else Error(SeekFailed))
                && (status.Done? ==> View() == SoughtCursor(old(View()), footerIndices[k].offset))
      ensures !status.Done? ==> View() == old(View())
    {
      hide ParseFooter;
      k := 0;
      if !isOpen {
        return Error(ReadError), 0;
      }
      if !footerLoaded || footerIndices == [] {
        return Error(SeekFailed), 0;
      }
      var lo, hi := 0, |footerIndices|;
      while lo < hi
        invariant 0 <= lo <= hi <= |footerIndices|
        invariant lo > 0 ==> footerIndices[lo - 1].timestamp <= target
        invariant hi < |footerIndices| ==> target < footerIndices[hi].timestamp
      {
        var mid := lo + (hi - lo) / 2;
        if target < footerIndices[mid].timestamp {
          hi := mid;
        } else {
          lo := mid + 1;
        }
      }
      var it := if lo > 0 then lo - 1 else 0;
      k := it;
      var offset: int := footerIndices[it].offset;
      status := SeekToOffset(if offset < 0x8000_0000_0000_0000 then offset else offset - 0x1_0000_0000_0000_0000);
    }
  }
}
