/** The packed, little-endian structures of a segment file (nxcore/record/record.h). */
module RecordLayout {
  import opened Bytes
  import opened Sequences

  const SEGMENT_MAGIC: uint16 := 0xFFF0
  const BLOCK_MAGIC: uint16 := 0xFFF1
  const INDEX_MAGIC: uint16 := 0xFFF2
  const FOOTER_MAGIC_START: uint16 := 0xFFF3
  const FOOTER_MAGIC_END: uint16 := 0xFFFE
  const BLOCK_END_MAGIC: uint16 := 0xFFFB

  const SEGMENT_HEADER_SIZE := 20
  const BLOCK_HEADER_SIZE := 28
  const BLOCK_ENTRY_SIZE := 12
  const INDEX_ENTRY_SIZE := 22
  const FOOTER_SIZE := 16

  const TYPE_VIDEO: byte := 1
  const TYPE_AUDIO: byte := 2
  const TYPE_USER: byte := 3
  const FRAME_I: byte := 1

  // ------------------------------------------------------------- segment header

  datatype SegmentHeader = SegmentHeader(
    magic: uint16, headerSize: uint16, version: uint32, channelId: int64, extensionSize: uint32)

  function EncodeSegmentHeader(h: SegmentHeader): (s: bytes)
    ensures |s| == SEGMENT_HEADER_SIZE
  {
    LE16(h.magic) + (LE16(h.headerSize) + (LE32(h.version) + (LEInt64(h.channelId) + LE32(h.extensionSize))))
  }

  function DecodeSegmentHeader(s: bytes): SegmentHeader
    requires |s| == SEGMENT_HEADER_SIZE
  {
    SegmentHeader(FromLE16(s[0..2]), FromLE16(s[2..4]), FromLE32(s[4..8]), FromLEInt64(s[8..16]), FromLE32(s[16..20]))
  }

  lemma SegmentHeaderRoundTrip(h: SegmentHeader)
    ensures DecodeSegmentHeader(EncodeSegmentHeader(h)) == h
  {
    hide LE16, LE32, LEInt64, FromLE16, FromLE32, FromLEInt64;
    var s := EncodeSegmentHeader(h);
    var tail8 := LEInt64(h.channelId) + LE32(h.extensionSize);
    var tail4 := LE32(h.version) + tail8;
    assert s[0..] == s;
    SplitTail(s, 0, LE16(h.magic), LE16(h.headerSize) + tail4);
    SplitTail(s, 2, LE16(h.headerSize), tail4);
    SplitTail(s, 4, LE32(h.version), tail8);
    SplitTail(s, 8, LEInt64(h.channelId), LE32(h.extensionSize));
    assert s[16..20] == s[16..];
    RoundTripLE16(h.magic);
    RoundTripLE16(h.headerSize);
    RoundTripLE32(h.version);
    RoundTripLEInt64(h.channelId);
    RoundTripLE32(h.extensionSize);
  }

  // --------------------------------------------------------------- block header

  datatype BlockHeader = BlockHeader(
    magic: uint16, headerSize: uint16, flags: uint32, length: uint32, startTs: int64, endTs: int64)

  function EncodeBlockHeader(h: BlockHeader): (s: bytes)
    ensures |s| == BLOCK_HEADER_SIZE
  {
    LE16(h.magic)
    + (LE16(h.headerSize) + (LE32(h.flags) + (LE32(h.length) + (LEInt64(h.startTs) + LEInt64(h.endTs)))))
  }

  function DecodeBlockHeader(s: bytes): BlockHeader
    requires |s| == BLOCK_HEADER_SIZE
  {
    BlockHeader(FromLE16(s[0..2]), FromLE16(s[2..4]), FromLE32(s[4..8]), FromLE32(s[8..12]),
                FromLEInt64(s[12..20]), FromLEInt64(s[20..28]))
  }

  /** Any 28 bytes are the encoding of the header they decode to. */
  lemma BlockHeaderBytes(s: bytes)
    requires |s| == BLOCK_HEADER_SIZE
    ensures EncodeBlockHeader(DecodeBlockHeader(s)) == s
  {
    hide LE16, LE32, LEInt64, FromLE16, FromLE32, FromLEInt64;
    BytesLE16(s[0..2]);
    BytesLE16(s[2..4]);
    BytesLE32(s[4..8]);
    BytesLE32(s[8..12]);
    BytesLEInt64(s[12..20]);
    BytesLEInt64(s[20..28]);
    assert s[12..20] + s[20..28] == s[12..];
    assert s[8..12] + s[12..] == s[8..];
    assert s[4..8] + s[8..] == s[4..];
    assert s[2..4] + s[4..] == s[2..];
    assert s[0..2] + s[2..] == s;
  }

  lemma BlockHeaderRoundTrip(h: BlockHeader)
    ensures DecodeBlockHeader(EncodeBlockHeader(h)) == h
  {
    hide LE16, LE32, LEInt64, FromLE16, FromLE32, FromLEInt64;
    var s := EncodeBlockHeader(h);
    var tail12 := LEInt64(h.startTs) + LEInt64(h.endTs);
    var tail8 := LE32(h.length) + tail12;
    var tail4 := LE32(h.flags) + tail8;
    assert s[0..] == s;
    SplitTail(s, 0, LE16(h.magic), LE16(h.headerSize) + tail4);
    SplitTail(s, 2, LE16(h.headerSize), tail4);
    SplitTail(s, 4, LE32(h.flags), tail8);
    SplitTail(s, 8, LE32(h.length), tail12);
    SplitTail(s, 12, LEInt64(h.startTs), LEInt64(h.endTs));
    assert s[20..28] == s[20..];
    RoundTripLE16(h.magic);
    RoundTripLE16(h.headerSize);
    RoundTripLE32(h.flags);
    RoundTripLE32(h.length);
    RoundTripLEInt64(h.startTs);
    RoundTripLEInt64(h.endTs);
  }

  // -------------------------------------------------------------- block entries

  /** A BlockEntryBuffer: the derived entry structure, its payload, and the storage-pressure
      flags, which are not part of the serialized entry. */
  datatype Entry =
    | Video(archiveType: byte, headerSize: uint16, timestamp: int64, codec: byte, frameType: byte,
            reserved: (byte, byte), payloadSize: uint32, payload: bytes, pressure: uint32)
    | Audio(archiveType: byte, headerSize: uint16, timestamp: int64, codec: byte, channels: byte, bitDepth: byte,
            sampleRate: uint32, payloadSize: uint32, payload: bytes, pressure: uint32)
    | User(archiveType: byte, headerSize: uint16, timestamp: int64, dataType: byte,
           reserved3: (byte, byte, byte), payloadSize: uint32, payload: bytes, pressure: uint32)

  function TypeOf(e: Entry): byte {
    match e case Video(_, _, _, _, _, _, _, _, _) => TYPE_VIDEO
            case Audio(_, _, _, _, _, _, _, _, _, _) => TYPE_AUDIO
            case User(_, _, _, _, _, _, _, _) => TYPE_USER
  }

  /** sizeof of the structure that belongs to an entry type; 0 for an unknown type. */
  function StructSize(t: byte): nat {
    if t == TYPE_VIDEO then 20 else if t == TYPE_AUDIO then 23 else if t == TYPE_USER then 20 else 0
  }

  function EntryBase(e: Entry): (s: bytes)
    ensures |s| == BLOCK_ENTRY_SIZE
  {
    [TypeOf(e), e.archiveType] + (LE16(e.headerSize) + LEInt64(e.timestamp))
  }

  function EntryExtra(e: Entry): (s: bytes)
    ensures |s| == StructSize(TypeOf(e)) - BLOCK_ENTRY_SIZE
  {
    match e
    case Video(_, _, _, codec, frameType, r, payloadSize, _, _) => [codec, frameType, r.0, r.1] + LE32(payloadSize)
    case Audio(_, _, _, codec, channels, bitDepth, sampleRate, payloadSize, _, _) =>
      [codec, channels, bitDepth] + (LE32(sampleRate) + LE32(payloadSize))
    case User(_, _, _, dataType, r, payloadSize, _, _) => [dataType, r.0, r.1, r.2] + LE32(payloadSize)
  }

  /** The bytes of the whole C structure behind an entry. */
  function EntryStruct(e: Entry): (s: bytes)
    ensures |s| == StructSize(TypeOf(e))
  {
    EntryBase(e) + EntryExtra(e)
  }

  /** The builder copies header_size bytes out of the structure: it may not be zero, nor exceed it. */
  predicate Storable(e: Entry) {
    0 < e.headerSize <= StructSize(TypeOf(e))
  }

  /** The entry says the truth about its own sizes, as the reader will need. */
  predicate Exact(e: Entry) {
    e.headerSize == StructSize(TypeOf(e)) && e.payloadSize == |e.payload|
  }

  predicate AllStorable(es: seq<Entry>) {
    forall i | 0 <= i < |es| :: Storable(es[i])
  }

  function EntryBytes(e: Entry): (s: bytes)
    requires Storable(e)
    ensures |s| == e.headerSize + |e.payload|
  {
    EntryStruct(e)[..e.headerSize] + e.payload
  }

  /** Where the type and the header size stand in the entry, and what stands behind a bare BlockEntry. */
  lemma EntryHead(e: Entry)
    requires Storable(e) && e.headerSize >= BLOCK_ENTRY_SIZE
    ensures |EntryBytes(e)| >= BLOCK_ENTRY_SIZE && EntryBytes(e)[..BLOCK_ENTRY_SIZE] == EntryBase(e)
    ensures EntryBytes(e)[0] == TypeOf(e) && EntryBytes(e)[2..4] == LE16(e.headerSize)
    ensures e.headerSize == BLOCK_ENTRY_SIZE && e.payload != [] ==> EntryBytes(e)[BLOCK_ENTRY_SIZE] == e.payload[0]
  {
    hide LE16, LEInt64, EntryExtra;
    BaseInFront(e);
    var b, base := EntryBytes(e), EntryBase(e);
    assert base[0..] == base;
    SplitTail(base, 0, [TypeOf(e), e.archiveType], LE16(e.headerSize) + LEInt64(e.timestamp));
    SplitTail(base, 2, LE16(e.headerSize), LEInt64(e.timestamp));
    assert b[..BLOCK_ENTRY_SIZE][2..4] == b[2..4];
    assert b[0] == b[..BLOCK_ENTRY_SIZE][0] == base[0];
  }

  lemma BaseInFront(e: Entry)
    requires Storable(e) && e.headerSize >= BLOCK_ENTRY_SIZE
    ensures EntryBytes(e)[..BLOCK_ENTRY_SIZE] == EntryBase(e)
  {
    hide EntryBase, EntryExtra;
    var struct := EntryStruct(e);
    assert struct[..e.headerSize][..BLOCK_ENTRY_SIZE] == struct[..BLOCK_ENTRY_SIZE] == EntryBase(e);
    assert (struct[..e.headerSize] + e.payload)[..BLOCK_ENTRY_SIZE] == struct[..e.headerSize][..BLOCK_ENTRY_SIZE];
  }

  function EntriesBytes(es: seq<Entry>): bytes
    requires AllStorable(es)
  {
    if es == [] then [] else EntryBytes(es[0]) + EntriesBytes(es[1..])
  }

  /** A serialized block: header, entries, end magic. */
  function BlockBytes(h: BlockHeader, es: seq<Entry>): bytes
    requires AllStorable(es)
  {
    EncodeBlockHeader(h) + EntriesBytes(es) + LE16(BLOCK_END_MAGIC)
  }

  datatype Option<T> = None | Some(value: T)

  /** A serialized block; `entries` are the offsets of its entries. The default value stands for
      the empty block that pop_block returns when there is none. */
  datatype DataBlock = DataBlock(header: Option<BlockHeader>, serialized: bytes, entries: seq<nat>)

  // ---------------------------------------------------------------- block flags

  function BitOr(a: nat, b: nat): (r: nat)
    ensures a == 0 ==> r == b
    ensures b == 0 ==> r == a
    decreases a + b
  {
    if a == 0 then b else if b == 0 then a else
      (if a % 2 == 1 || b % 2 == 1 then 1 else 0) + 2 * BitOr(a / 2, b / 2)
  }

  /** Bit 1 of the flags is BlockFlags::kHasKeyFrame. */
  predicate HasKeyFrame(flags: nat) {
    flags / 2 % 2 == 1
  }

  lemma BitOrHalves(a: nat, b: nat)
    ensures BitOr(a, b) / 2 == BitOr(a / 2, b / 2)
    ensures BitOr(a, b) % 2 == 1 <==> a % 2 == 1 || b % 2 == 1
  {
  }

  lemma BitOrKeyFrame(a: nat, b: nat)
    ensures HasKeyFrame(BitOr(a, b)) <==> HasKeyFrame(a) || HasKeyFrame(b)
  {
    hide BitOr;
    BitOrHalves(a, b);
    BitOrHalves(a / 2, b / 2);
  }

  lemma {:induction false} BitOrBounded(a: nat, b: nat, bits: nat, bound: nat)
    requires bound == Pow2(bits) && a < bound && b < bound
    ensures BitOr(a, b) < bound
    decreases bits
  {
    if a != 0 && b != 0 {
      BitOrBounded(a / 2, b / 2, bits - 1, Pow2(bits - 1));
    }
  }

  function Or32(a: uint32, b: uint32): uint32 {
    assert Pow2(32) == 0x1_0000_0000 by {
      assert Pow2(8) == 0x100;
      assert Pow2(16) == 0x1_0000;
      assert Pow2(24) == 0x100_0000;
    }
    BitOrBounded(a, b, 32, 0x1_0000_0000);
    BitOr(a, b)
  }

  // ---------------------------------------------------------------- index entry

  datatype IndexEntry = IndexEntry(magic: uint16, flags: uint32, timestamp: int64, offset: uint64)

  /** index_flags::encode: block flags below, entry type and codec type above. */
  function EncodeIndexFlags(blockFlags: uint32, entryType: byte, codec: byte): uint32 {
    blockFlags % 0x1_0000 + 0x1_0000 * entryType as int + 0x100_0000 * codec as int
  }

  /** index_flags::block_flags, entry_type and codec_type. */
  function IndexBlockFlags(flags: uint32): uint16 { flags % 0x1_0000 }
  function IndexEntryType(flags: uint32): byte { flags / 0x1_0000 % 0x100 }
  function IndexCodec(flags: uint32): byte { flags / 0x100_0000 }

  /** The three parts come back, of the block flags the lower half, and they are all there is in a flags word. */
  lemma IndexFlagsRoundTrip(blockFlags: uint32, entryType: byte, codec: byte, flags: uint32)
    ensures IndexBlockFlags(EncodeIndexFlags(blockFlags, entryType, codec)) == blockFlags % 0x1_0000
    ensures IndexEntryType(EncodeIndexFlags(blockFlags, entryType, codec)) == entryType
    ensures IndexCodec(EncodeIndexFlags(blockFlags, entryType, codec)) == codec
    ensures EncodeIndexFlags(IndexBlockFlags(flags), IndexEntryType(flags), IndexCodec(flags)) == flags
  {
    var n := EncodeIndexFlags(blockFlags, entryType, codec);
    assert n == (codec as int * 0x100 + entryType as int) * 0x1_0000 + blockFlags % 0x1_0000;
    assert n / 0x1_0000 == codec as int * 0x100 + entryType as int;
    var upper := flags / 0x1_0000;
    assert flags == upper * 0x1_0000 + flags % 0x1_0000;
    assert upper == upper / 0x100 * 0x100 + upper % 0x100;
    assert flags / 0x100_0000 == upper / 0x100;
  }

  function EncodeIndexEntry(i: IndexEntry): (s: bytes)
    ensures |s| == INDEX_ENTRY_SIZE
  {
    LE16(i.magic) + (LE32(i.flags) + (LEInt64(i.timestamp) + LE64(i.offset)))
  }

  function DecodeIndexEntry(s: bytes): IndexEntry
    requires |s| == INDEX_ENTRY_SIZE
  {
    IndexEntry(FromLE16(s[0..2]), FromLE32(s[2..6]), FromLEInt64(s[6..14]), FromLE64(s[14..22]))
  }

  lemma IndexEntryRoundTrip(i: IndexEntry)
    ensures DecodeIndexEntry(EncodeIndexEntry(i)) == i
  {
    hide LE16, LE32, LE64, LEInt64, FromLE16, FromLE32, FromLE64, FromLEInt64;
    var s := EncodeIndexEntry(i);
    var tail6 := LEInt64(i.timestamp) + LE64(i.offset);
    assert s[0..] == s;
    SplitTail(s, 0, LE16(i.magic), LE32(i.flags) + tail6);
    SplitTail(s, 2, LE32(i.flags), tail6);
    SplitTail(s, 6, LEInt64(i.timestamp), LE64(i.offset));
    assert s[14..22] == s[14..];
    RoundTripLE16(i.magic);
    RoundTripLE32(i.flags);
    RoundTripLEInt64(i.timestamp);
    RoundTripLE64(i.offset);
  }

  function IndexBytes(index: seq<IndexEntry>): (s: bytes)
    ensures |s| == INDEX_ENTRY_SIZE * |index|
  {
    if index == [] then [] else EncodeIndexEntry(index[0]) + IndexBytes(index[1..])
  }

  function DecodeIndex(s: bytes): seq<IndexEntry>
    requires |s| % INDEX_ENTRY_SIZE == 0
  {
    if s == [] then [] else
      [DecodeIndexEntry(s[..INDEX_ENTRY_SIZE])] + DecodeIndex(s[INDEX_ENTRY_SIZE..])
  }

  lemma {:induction false} IndexRoundTrip(index: seq<IndexEntry>)
    ensures DecodeIndex(IndexBytes(index)) == index
  {
    if index != [] {
      var s := IndexBytes(index);
      assert s[..INDEX_ENTRY_SIZE] == EncodeIndexEntry(index[0]);
      assert s[INDEX_ENTRY_SIZE..] == IndexBytes(index[1..]);
      IndexEntryRoundTrip(index[0]);
      IndexRoundTrip(index[1..]);
    }
  }

  lemma IndexEntryBytes(s: bytes)
    requires |s| == INDEX_ENTRY_SIZE
    ensures EncodeIndexEntry(DecodeIndexEntry(s)) == s
  {
    hide LE16, LE32, LE64, LEInt64, FromLE16, FromLE32, FromLE64, FromLEInt64;
    BytesLE16(s[0..2]);
    BytesLE32(s[2..6]);
    BytesLEInt64(s[6..14]);
    BytesLE64(s[14..22]);
    assert s[6..14] + s[14..22] == s[6..];
    assert s[2..6] + s[6..] == s[2..];
    assert s[0..2] + s[2..] == s;
  }

  /** Any whole number of entries' bytes are the encoding of the index they decode to. */
  lemma {:induction false} IndexIsBytes(s: bytes)
    requires |s| % INDEX_ENTRY_SIZE == 0
    ensures IndexBytes(DecodeIndex(s)) == s
    decreases |s|
  {
    hide EncodeIndexEntry, DecodeIndexEntry;
    if s != [] {
      var first, rest := s[..INDEX_ENTRY_SIZE], s[INDEX_ENTRY_SIZE..];
      IndexEntryBytes(first);
      IndexIsBytes(rest);
      var index := DecodeIndex(s);
      assert index[1..] == DecodeIndex(rest) && index[0] == DecodeIndexEntry(first);
      assert first + rest == s;
    }
  }

  // -------------------------------------------------------------- footer header

  datatype FooterHeader = FooterHeader(
    magic: uint16, headerSize: uint16, indexCount: uint32, indexSize: uint32, magicEnd: uint16)

  function EncodeFooter(f: FooterHeader): (s: bytes)
    ensures |s| == FOOTER_SIZE
  {
    LE16(f.magic)
    + (LE16(f.headerSize) + (LE32(f.indexCount) + (LE32(f.indexSize) + ([0, 0] + LE16(f.magicEnd)))))
  }

  function DecodeFooter(s: bytes): FooterHeader
    requires |s| == FOOTER_SIZE
  {
    FooterHeader(FromLE16(s[0..2]), FromLE16(s[2..4]), FromLE32(s[4..8]), FromLE32(s[8..12]), FromLE16(s[14..16]))
  }

  lemma FooterRoundTrip(f: FooterHeader)
    ensures DecodeFooter(EncodeFooter(f)) == f
  {
    hide LE16, LE32, FromLE16, FromLE32;
    var s := EncodeFooter(f);
    var tail12: bytes := [0, 0] + LE16(f.magicEnd);
    var tail8 := LE32(f.indexSize) + tail12;
    var tail4 := LE32(f.indexCount) + tail8;
    assert s[0..] == s;
    SplitTail(s, 0, LE16(f.magic), LE16(f.headerSize) + tail4);
    SplitTail(s, 2, LE16(f.headerSize), tail4);
    SplitTail(s, 4, LE32(f.indexCount), tail8);
    SplitTail(s, 8, LE32(f.indexSize), tail12);
    SplitTail(s, 12, [0, 0], LE16(f.magicEnd));
    assert s[14..16] == s[14..];
    RoundTripLE16(f.magic);
    RoundTripLE16(f.headerSize);
    RoundTripLE32(f.indexCount);
    RoundTripLE32(f.indexSize);
    RoundTripLE16(f.magicEnd);
  }

  /** The footer that both the writer and the repairer put behind n index entries; the two
      32-bit fields truncate. */
  function FooterFor(n: nat): FooterHeader {
    FooterHeader(FOOTER_MAGIC_START, FOOTER_SIZE, n % 0x1_0000_0000,
                 (INDEX_ENTRY_SIZE * n) % 0x1_0000_0000, FOOTER_MAGIC_END)
  }

  function FooterBytes(index: seq<IndexEntry>): (s: bytes)
    ensures |s| == INDEX_ENTRY_SIZE * |index| + FOOTER_SIZE
  {
    IndexBytes(index) + EncodeFooter(FooterFor(|index|))
  }
}
