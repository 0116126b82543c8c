# Libnx, modelled and proved

Libnx is a library for IP cameras: it records media into segment files, sends and receives H.264 over RTP and
RTSP, and schedules frames between sources and sinks.  This project models the parts of it whose correctness spans
many calls, in Dafny, and proves what they promise for all inputs, all runs and all interleavings.

`dafny verify dfyconfig.toml` checks everything.  Each component has its own module, named after its source file;
a class has the fields of the source's class, its methods do what the source's methods do, step by step, and each
method is proved against a specification function or step relation.  The properties are lemmas about those.

**Recording store** (`RecordLayout`, `BlockBuilder`, `SegmentBuilder`, `SegmentReader`, `SegmentRepairer`,
`SegmentRecovery`, `SegmentStore`, `SegmentUnfinished`).  A file is a byte sequence and a cursor.  The main results: a segment that was
cut anywhere behind its first block is repaired to the file that a clean close would have left, exactly if the
first entries of its keyframe blocks have honest header sizes; what was written is read back, closed, repaired or
torn; seeking lands where a scan of all blocks would; block building and rotation lose, double and move nothing,
and blocks and files end exactly where a limit, a flush or a close ends them.

**H.264 and H.265 over RTP** (`AnnexB`, `RtpHeaderExtension`, `RtpPacket`, `RtpPacketFormat`, `RtpFrameBuffer`,
`RtpH264Packetizer`, `FrameAssembly`, `FrameStream`, `RtpH264Depacketizer`, `RtpH265Depacketizer`, `RtpRoundTrip`,
`RtpH265RoundTrip`, `RtpPacketShape`).  The main results: packetizer, packet parser and depacketizer undo each
other for every list of frames, each with its own header extension or none; the H.265 depacketizer undoes every
grouping of units that RFC 7798 allows; both find the frames' ends when markers are lost; the packet parsers accept
exactly the packets of RFC 3550; and the depacketizers lose, double and swap nothing for any packets whatever,
since all they do is append.  A frame whose marker is lost is told from the next one by its timestamp, and the
timestamp 0 stands for none there: `FrameStream.ToldApartExactly` says exactly which two frames come out as one.

**One TCP connection** (`RtspParser`, `RtspResponseFormat`, `RtspConnection`, `InterleavedStream`, `InterleavedTransport`,
`TcpWriteSerializer`, `EndToEnd`).  The demultiplexer gives back the frames of a stream of interleaved frames and
responses however it is cut into chunks; the write queue has at most one write in flight and keeps order and
batches over all interleavings of submit, close, completion, error and overflow, and gives the connection up
exactly when a group comes up that does not fit; and end to end, frames that enter
the packetizer on one side leave the depacketizer on the other.  A failed write empties the queue but leaves the
serializer active (`TcpWriteSerializer.StillActiveAfterError`), so order and prefixes are stated up to the first
failed write.

**Media pipeline** (`MediaPipeline`, `MediaScheduling`, `MediaReordering`, `MediaPacing`).  A transition system of
strand tasks, timer handlers and a clock.  The main results: every frame before the end of the stream is handed on
exactly once and the completion callback comes once, last, and without fail; the reordering buffer keeps order if
frames are not too late, and strands none; paced playback has one continuation, sends nothing before its time at
the playback speed, and waits for no frame longer than that.

**Two algorithms** (`JpegBitReader`, `JpegHuffman`, `DotSegments`).  Canonical Huffman decoding is exact for every
table that satisfies Kraft's inequality, through byte stuffing and padding, and the blocks accepted are exactly
those an encoder writes; dot-segment removal equals a stack
resolver and is idempotent.

## Where the code and its documentation disagree

The model follows the code.

- The index flags of a keyframe block hold the codec of its first entry (`nxcore/record/record.h:212-219`).  The
  writer reads that byte behind a bare `BlockEntry` whatever the entry's header size says; the repairer reads it
  only if the header size covers the typed structure.  So a repaired file can differ from a cleanly closed one.
  `SegmentRecovery.CrashRecovery` says exactly when, `SegmentStore.ShortHeaderIsNotRestored` gives a family of
  blocks for which they differ, and `SegmentStore.RepairCanDiffer` a run of the block builder that makes one.
- A block of two or more entries can span the duration limit or more, because the duration test is skipped for
  negative timestamps.  `BlockBuilder.NegativeStartOverruns` is such a run.  `BlockBuilder.OverrunsExactly` says for
  all runs when it happens: exactly if an entry that opens the block plays that long on its own, which with two or
  more entries means that the block starts before the epoch.
- `find_response_end` looks for "content-length:" only if "Content-Length:" is nowhere in the buffer, not even
  behind the response.  With the lower-case spelling, the end that is found depends on what has arrived after the
  response: `RtspParser.LowerCaseDependsOnWhatFollows` says exactly when, `RtspParser.LowerCaseFails` gives two
  responses of which the first is cut short.
- Reading a closed segment ends with `kEndOfSegment` only if the index is not empty; the bare 16-byte footer reads
  as `kUnexpectedEof`: `SegmentStore.EndResult` in `SegmentStore.ReadBackClosed`.

## Model

| member | source | states |
|---|---|---|
| RecordLayout.BlockHeaderRoundTrip | nxcore/record/record.h:142-152 | The packed 28-byte block header decodes to what was encoded, whatever its fields |
| RecordLayout.IndexRoundTrip | nxcore/record/record.h:202-210 | A list of 22-byte index entries is recovered from its bytes |
| RecordLayout.IndexFlagsRoundTrip | nxcore/record/record.h:231-258 | Block flags, entry type and codec come back from the flags word of an index entry, and make it up |
| RecordLayout.FooterRoundTrip | nxcore/record/record.h:273-285 | The 16-byte footer decodes to what was encoded |
| BlockBuilder.RunKeepsEverything | nxcore/record/block_builder.cpp:63-254 | Over any run of add, flush and pop: every finished block is sorted, its interval covers its entries (audio playing time included), it reaches the duration limit exactly if an entry that opens it plays that long, it keeps the count limit, without its last arrival it is below the size limit, and it has the keyframe flag iff an I-frame (or a pressure word with that bit) is in it; each accepted entry is in exactly one place |
| BlockBuilder.StepKeepsInv | nxcore/record/block_builder.cpp:63-135 | One step of any kind keeps the promises of all finished blocks and of the waiting entries |
| BlockBuilder.StepConserves | nxcore/record/block_builder.cpp:63-254 | One step neither loses nor doubles an entry |
| BlockBuilder.NegativeStartOverruns | nxcore/record/block_builder_options.h:81-93 | A concrete run whose block spans more than the limit, starting before the epoch |
| BlockBuilder.OverrunsExactly | nxcore/record/block_builder_options.h:81-162 | Over any run, a block spans the duration limit or more exactly if an entry that opens it plays that long on its own; with two or more entries only before the epoch, so never if no entry from before the epoch plays that long |
| BlockBuilder.BlocksCloseExactly | nxcore/record/block_builder.cpp:63-135 | Over any run, at every call: an entry is refused exactly if it is older than the first that waits and past entries are refused; the waiting entries are closed into a block exactly if a flush comes, the new entry would end too late behind them, or with it they reach the number, the bytes or the duration, all told by the entries alone |
| BlockBuilder.PlayingTime | nxcore/record/block_builder.cpp:35-59 | For any channel count, bit depth and rate an audio entry ends its whole samples' playing time, truncated to milliseconds, after its start |
| BlockBuilder.PressureKeyFrame | nxcore/record/block_builder.cpp:138-242 | Or-ing the entries' pressure words into the flags sets the keyframe bit iff it was set or one of them has it |
| BlockBuilder.TotalSizePermuted | nxcore/record/block_builder.cpp:138-242 | Sorting does not change the block length that the header announces |
| BlockBuilder.SortByTimestamp | nxcore/record/block_builder.cpp:138-242 | The entries in order of their timestamps, a permutation of those that waited |
| BlockBuilder.Serialize | nxcore/record/block_builder.cpp:138-242 | Header, entries and end magic copied one behind the other give exactly the image of the block, with the entries' offsets |
| BlockBuilder.BlockBuilder.AddEntry | nxcore/record/block_builder.cpp:63-135 | Does one add step of the relation, and says whether the entry was accepted |
| BlockBuilder.BlockBuilder.FinalizeCurrentBlock | nxcore/record/block_builder.cpp:138-242 | Turns the waiting entries into one finished, serialized block |
| BlockBuilder.BlockBuilder.PopBlock | nxcore/record/block_builder.cpp:245-256 | Hands out the oldest finished block |
| SegmentBuilder.SegmentBuilder.WriteBlock | nxcore/record/segment_builder.cpp:34-132 | The new file, index and context are the specification's, rotation and refusal of empty blocks included |
| SegmentBuilder.SegmentBuilder.CloseCurrentSegment | nxcore/record/segment_builder.cpp:135-163 | Appends index and footer, reports the segment, and forgets it |
| SegmentFooter.WriteFooter | nxcore/record/segment_builder.cpp:356-393 | Appends exactly the index entries and the footer that announces them |
| SegmentBuilder.RunWritesGroups | nxcore/record/segment_builder.cpp:34-301 | After any run the files are the clean images of consecutive groups of blocks, and the reported contexts have the true file sizes |
| SegmentBuilder.CallEndsFileExactly | nxcore/record/segment_builder.cpp:276-301 | After any run, a call ends the current file exactly if it closes the builder or brings a block for which the limits, in numbers, leave no room; the block goes into the file that is open then |
| SegmentBuilder.FilesEndAtLimits | nxcore/record/segment_builder_options.h:142-205 | Over any run: a file that no close has ended is followed by a block that had no room in it, by size or by times from the epoch on, and every block behind the first of its file had room there |
| SegmentBuilder.GroupsKeepBlocks | nxcore/record/segment_builder.cpp:276-301 | The groups, one behind the other, are the blocks that were written |
| SegmentBuilder.GroupsKeepLimits | nxcore/record/segment_builder_options.h:142-205 | A segment of two or more blocks is below the size limit and, without negative timestamps, below the duration limit |
| SegmentRepairer.CheckFooter | nxcore/record/segment_repairer.cpp:133-181 | Classifies any file by the magics in its last 16 bytes |
| SegmentRepairer.FooterStatusExactly | nxcore/record/segment_repairer.cpp:133-181 | A file counts as finished exactly if it has 36 bytes and both magics of a footer stand in the last 16, as damaged exactly if one of them does |
| SegmentRepairer.BlockExactly | nxcore/record/segment_repairer.cpp:184-307 | The scan takes the front of the rest for a block exactly if some header and body, laid out as a writer does, with the end magic, stand there |
| SegmentRepairer.ScanIsMaximal | nxcore/record/segment_repairer.cpp:184-307 | The scan stops only where no whole block follows |
| SegmentRepairer.RepairExactly | nxcore/record/segment_repairer.cpp:365-421 | Any file is left alone exactly if it ends with a footer, and repaired exactly if it does not but begins with the magic of a segment and has a whole block behind header and extension |
| SegmentRepairer.ScanBlocks | nxcore/record/segment_repairer.cpp:184-307 | The scan loop computes the recursive scan of the file's bytes, for any file |
| SegmentRepairer.ExtractEntryInfo | nxcore/record/segment_repairer.cpp:66-130 | Entry and codec type of the first entry, guarded by the sizes on file |
| SegmentRepairer.RepairSegment | nxcore/record/segment_repairer.cpp:365-421 | The file's new contents and the report are the specification's, for any file, and it is left alone exactly if it ends with the two magics of a footer |
| SegmentRepairer.ScanStaysInside | nxcore/record/segment_repairer.cpp:184-307 | The end of the valid blocks lies inside the file and behind the last block found |
| SegmentRecovery.InfoAgreesExactly | nxcore/record/segment_repairer.cpp:66-130 | Writer and repairer see the same codec byte iff the first entry's header size covers its structure |
| SegmentRecovery.RepairOfCut | nxcore/record/segment_repairer.cpp:184-421 | Whatever the cut, repair keeps the whole blocks, drops the rest and writes the scanned index |
| SegmentRecovery.CrashRecovery | nxcore/record/segment_repairer.cpp:132-421 | A file cut behind its first block, wherever the cut unless the bytes there end with a footer's two magics, is repaired to the byte-identical result of a clean close after its whole blocks, with its true size reported, if and only if its keyframe blocks have sized first entries |
| SegmentRecovery.RepairTwice | nxcore/record/segment_repairer.cpp:365-421 | On every file, a second repair changes nothing |
| SegmentRecovery.RepairKeepsBlocks | nxcore/record/segment_repairer.cpp:365-421 | On every repairable file, the bytes up to the last whole block stay, and scanning the result finds the reported index |
| SegmentReader.SegmentReader.Open | nxcore/record/segment_reader.cpp:34-91 | Opens or refuses as the file's header says, with the cursor behind the header |
| SegmentReader.SegmentReader.ReadNextEntry | nxcore/record/segment_reader.cpp:128-187 | Result and cursor after one read are the specification's, for any file |
| SegmentReader.SegmentReader.LoadFooterIndex | nxcore/record/segment_reader.cpp:267-361 | The index kept in memory is the one that parsing the footer gives, or none, with the error code of the step that failed |
| SegmentReader.SegmentReader.SeekToTime | nxcore/record/segment_reader.cpp:210-235 | The backward search picks the last index slot at or before the target, or else the first; without an open file or without an index it says so and leaves the cursor alone |
| SegmentStore.BlocksAreComplete | nxcore/record/block_builder.cpp:138-242 | What the block builder serializes is a complete block for writer, repairer and reader iff its entries have more than 10 bytes, so that the codec byte the writer reads is inside |
| SegmentStore.HonestHeaderIsSized | nxcore/record/record.h:159-195 | Entries with the header size of their type satisfy the condition of CrashRecovery |
| SegmentStore.ShortHeaderIsNotSized | nxcore/record/segment_repairer.cpp:66-130 | A header of bare BlockEntry size in front of a payload that does not begin with zero violates it |
| SegmentStore.ShortHeaderIsNotRestored | nxcore/record/segment_repairer.cpp:66-130 | Every keyframe block with such a first entry, cut right behind it, is repaired to a file that differs from the cleanly closed one |
| SegmentStore.RepairCanDiffer | nxcore/record/block_builder.cpp:138-242 | A run of the block builder that makes such a block |
| SegmentStore.BuilderFeedsTheStore | nxcore/record/block_builder.cpp:63-254 | Over any run of the block builder, truthful entries give blocks for which the read-back theorems hold |
| SegmentStore.ParseExact | nxcore/record/segment_reader.cpp:394-497 | A truthful entry is parsed to its own type, time, codec fields and payload, and the cursor stops behind it |
| SegmentStore.ReadBackClosed | nxcore/record/segment_reader.cpp:127-187 | Reading a closed segment returns every entry of every block in order, and then the end |
| SegmentStore.ReadBackRepaired | nxcore/record/segment_repairer.cpp:365-421 | After a crash at any byte and a repair, reading returns the entries of all blocks that were whole |
| SegmentStore.SlotIsSeekBlock | nxcore/record/segment_reader.cpp:210-235 | With a sorted index, the slot picked is the block that a scan of all blocks would choose |
| SegmentStore.SeekReadsFromBlock | nxcore/record/segment_reader.cpp:190-235 | Reading on from a seek returns that block's entries and everything behind it |
| SegmentStore.FooterOfClosed | nxcore/record/segment_reader.cpp:277-361 | The footer of a closed segment parses to the index that was written |
| SegmentStore.OpensExactly | nxcore/record/segment_reader.cpp:34-91 | The reader opens exactly the files of 20 bytes and more that begin with the magic of a segment |
| SegmentStore.IndexLoadedExactly | nxcore/record/segment_reader.cpp:277-361 | An index is loaded exactly if its bytes, its length and a footer's first magic stand at the end of the file |
| SegmentUnfinished.ReadBackCut | nxcore/record/segment_reader.cpp:128-187 | From a segment cut anywhere behind its header and not repaired, the reader returns exactly the entries that are whole in the file, those of the torn block too, and then the unexpected end |
| AnnexB.ExtractNalUnits | nxnet/rtp/rtp_h264_packetizer.cpp:171-224 | The extraction loop gives the units of the data |
| AnnexB.UnitsAreClean | nxnet/rtp/rtp_h264_packetizer.cpp:171-224 | Units are never empty and have no 00 00 01 inside |
| AnnexB.UnitsOfJoin | nxnet/rtp/rtp_h264_packetizer.cpp:171-224 | Extracting the join of any such units gives them back, zeros at the end included |
| AnnexB.NormalizeTwice | nxnet/rtp/rtp_h264_packetizer.cpp:171-224 | Bringing data into normal form is idempotent |
| RtpHeaderExtension.Builder.Serialize | nxnet/rtp/rtp_header_extension.cpp:62-101 | Appends the profile, the length in words, the elements and the padding |
| RtpHeaderExtension.ParseOneByteExtension | nxnet/rtp/rtp_header_extension.cpp:104-139 | The parsing loop computes the recursive parse, for any bytes |
| RtpHeaderExtension.ParsedContent | nxnet/rtp/rtp_header_extension.cpp:104-139 | Parsing the serialized elements, padded, gives the elements back (section 4.2 of RFC 5285) |
| RtpHeaderExtension.ParsedUpTo | nxnet/rtp/rtp_header_extension.cpp:104-139 | Elements are found in front of anything: zeros between them are skipped, the identifier 15 and an element that is not all there end the list |
| RtpHeaderExtension.SerializedLength | nxnet/rtp/rtp_header_extension.cpp:43-59 | serialized_size is the number of bytes that serialize appends, a multiple of four |
| RtpPacket.ParseHeaderAndPayload | nxnet/rtp/rtp_packet.cpp:125-196 | The fast parser accepts and views exactly what its specification says, for any bytes |
| RtpPacket.Parse | nxnet/rtp/rtp_packet.cpp:30-122 | The full parser accepts the same packets as the fast one, with the same header and payload |
| RtpPacketFormat.WrittenIsParsed | nxnet/rtp/rtp_packet.cpp:30-196 | Every packet laid out by section 5.1 of RFC 3550, with any sources, extension and padding, is accepted with its own header, payload, sources and extension |
| RtpPacketFormat.AcceptedExactly | nxnet/rtp/rtp_packet.cpp:125-196 | Nothing else is accepted: a byte string is accepted iff it is such a packet |
| RtpFrameBuffer.RtpFrameBuffer.GetPacket | nxnet/rtp/rtp_frame_buffer.h:38-41 | The slice between two offsets is the packet that was written there |
| RtpFrameBuffer.SliceIsPacket | nxnet/rtp/rtp_frame_buffer.h:32-41 | The packets partition the buffer |
| RtpH264Packetizer.RtpH264Packetizer.Packetize | nxnet/rtp/rtp_h264_packetizer.cpp:42-158 | The frame's packets stand behind those already in the buffer, the sequence number moved on by their count, and the extension setting is back where it was |
| RtpH264Packetizer.RtpH264Packetizer.SendAll | nxnet/rtp/rtp_h264_packetizer.cpp:57-137 | The aggregation loop sends the planned payloads, marking the last |
| RtpH264Packetizer.RtpH264Packetizer.SendFuA | nxnet/rtp/rtp_h264_packetizer.cpp:240-302 | Sends the fragments of a unit one by one |
| RtpH264Packetizer.RtpH264Packetizer.SendStapA | nxnet/rtp/rtp_h264_packetizer.cpp:305-339 | Sends the aggregate of the waiting units |
| RtpH264Packetizer.PlanKeepsNals | nxnet/rtp/rtp_h264_packetizer.cpp:57-137 | Grouping into single, aggregated and fragmented units keeps all units in order |
| RtpPacketShape.FragmentationIsSound | nxnet/rtp/rtp_h264_packetizer.cpp:240-302 | At least two fragments, the start bit on the first only, the end bit on the last only, bodies that make up the unit (section 5.8 of RFC 6184) |
| RtpPacketShape.FragmentsFill | nxnet/rtp/rtp_h264_packetizer.cpp:240-302 | Every fragment but the last fills its packet beside the extension, or carries one byte if that leaves no room |
| RtpPacketShape.AggregateHeader | nxnet/rtp/rtp_h264_packetizer.cpp:305-339 | An aggregate has type 24 and the highest importance of its units |
| RtpPacketShape.UnitsShareAggregates | nxnet/rtp/rtp_h264_packetizer.cpp:57-137 | A unit is sent apart from the units before it only if it does not fit into their aggregate, and cut only if it is above the limit |
| RtpPacketShape.PacketsOfFrame | nxnet/rtp/rtp_h264_packetizer.cpp:42-137 | The marker is on a frame's last packet and no other, numbers and timestamps are the frame's, and no packet exceeds the size setting by more than the extension |
| RtpPacketShape.OversizedExactly | nxnet/rtp/rtp_h264_packetizer.cpp:57-302 | A frame has a packet above the size setting exactly if a unit, an aggregate or a fragment of it is longer than the room that the extension leaves; never without an extension |
| RtpPacketShape.SequenceNumbers | nxnet/rtp/rtp_h264_packetizer.cpp:342-381 | Sequence numbers are consecutive modulo 2^16 across frames, whatever extension each of them has |
| RtpH264Depacketizer.RtpH264Depacketizer.ProcessPacket | nxnet/rtp/rtp_h264_depacketizer.cpp:18-91 | One packet moves the state and answers as the shared pending-frame machine says |
| RtpH264Depacketizer.HandlerAppendsOnly | nxnet/rtp/rtp_h264_depacketizer.cpp:109-229 | Whatever the payload, the handlers only append to the frame under assembly |
| RtpH264Depacketizer.H264Conserves | nxnet/rtp/rtp_h264_depacketizer.cpp:17-91 | For any packets: outputs, pending frame and frame buffer together are what the handlers appended, in order, and a pending frame means an empty buffer |
| RtpH265Depacketizer.RtpH265Depacketizer.ProcessPacket | nxnet/rtp/rtp_h265_depacketizer.cpp:18-90 | The same machine with the H.265 handlers |
| RtpH265Depacketizer.H265Conserves | nxnet/rtp/rtp_h265_depacketizer.cpp:18-90 | The same conservation for H.265 |
| FrameAssembly.ProcessConserves | nxnet/rtp/rtp_h264_depacketizer.cpp:17-91 | One packet conserves the bytes, for any handlers that only append |
| FrameAssembly.RunConserves | nxnet/rtp/rtp_h264_depacketizer.cpp:17-91 | So does any sequence of packets: none lost, doubled or swapped |
| FrameStream.FramesAreCut | nxnet/rtp/rtp_h264_depacketizer.cpp:17-91 | For any handler and any stream of whole frames, whichever markers are lost: the frames handed out and then the one still held are the frames sent, in order, each with its own keyframe flag, if frames without a marker have a timestamp that is not 0 and not the next one's |
| FrameStream.ToldApartExactly | nxnet/rtp/rtp_h264_depacketizer.cpp:36-48 | Without the marker two frames come out apart iff the first timestamp is not 0 and the second is another, else as one |
| FrameStream.MarkedFramesAtOnce | nxnet/rtp/rtp_h264_depacketizer.cpp:75-91 | With all markers each frame comes out at its last packet, whatever the timestamps |
| RtpH265RoundTrip.RoundTrip | nxnet/rtp/rtp_h265_depacketizer.cpp:18-238 | For every stream of frames, their units alone, aggregated (section 4.4.2 of RFC 7798) or cut anywhere into fragments (section 4.4.3): each frame comes out at its marker as the join of its units, a keyframe iff a unit has type 16 to 21 or 32 to 34 |
| RtpH265RoundTrip.FrameAssembles | nxnet/rtp/rtp_h265_depacketizer.cpp:108-252 | A fresh depacketizer makes exactly the join of the units of one frame's payloads and keeps nothing back |
| RtpH265RoundTrip.FuUndone | nxnet/rtp/rtp_h265_depacketizer.cpp:152-202 | The fragments of a unit, for any pieces, give the unit with its own two header bytes |
| RtpH265RoundTrip.ApUndone | nxnet/rtp/rtp_h265_depacketizer.cpp:205-238 | An aggregate gives its whole units, and a torn rest behind them nothing |
| RtpH265RoundTrip.LostMarkers | nxnet/rtp/rtp_h265_depacketizer.cpp:18-90 | Whichever markers are lost, as for H.264 |
| RtpH265RoundTrip.WithoutItsFirst | nxnet/rtp/rtp_h265_depacketizer.cpp:152-202 | When the first fragment of a unit is lost, the others leave nothing behind |
| RtpRoundTrip.PacketIsParsed | nxnet/rtp/rtp_packet.cpp:125-196 | The parser accepts every packet the packetizer writes and finds its header fields and payload |
| RtpRoundTrip.ExtensionIsSkipped | nxnet/rtp/rtp_packet.cpp:150-180 | The announced extension length leads behind the extension, whose words parse back to its elements |
| RtpRoundTrip.FrameUndone | nxnet/rtp/rtp_h264_depacketizer.cpp:109-229 | Dispatching the payloads of one frame assembles its units in normal form, a keyframe iff one of them is type 5 |
| RtpRoundTrip.RoundTrip | nxnet/rtp/rtp_h264_packetizer.cpp:41-137 | For every list of frames, each with its own settings and its own extension or none: the parsed packets make the depacketizer answer exactly at each frame's last packet, with the frame in normal form and the right keyframe flag |
| RtpRoundTrip.LostMarkers | nxnet/rtp/rtp_h264_depacketizer.cpp:17-91 | Whichever markers are lost, the frames the packetizer made come out in order, in normal form and with the right flag |
| RtpRoundTrip.WithoutItsFirst | nxnet/rtp/rtp_h264_depacketizer.cpp:148-200 | When the first fragment of a unit is lost, the others leave nothing behind |
| RtspParser.FindEnd | nxnet/rtsp/rtsp_parser.cpp:240-287 | Computes the end of the response in front, for any bytes |
| RtspResponseFormat.LengthDecides | nxnet/rtsp/rtsp_parser.cpp:240-287 | For any header section with a length header, whatever its other lines and whatever has arrived: nothing is taken before the body is there, then blank line and body, the length being the decimal digits behind the blanks; without digits, or with more than 64 bits of them, no body |
| RtspResponseFormat.LowerCaseDecides | nxnet/rtsp/rtsp_parser.cpp:251-259 | The same with the lower-case spelling, if the usual one is nowhere in the data |
| RtspResponseFormat.NoLengthNoBody | nxnet/rtsp/rtsp_parser.cpp:240-262 | Without a length header the response ends with its blank line |
| RtspParser.IncompleteIsZero | nxnet/rtsp/rtsp_parser.cpp:240-287 | No proper prefix of a response is taken for one |
| RtspParser.CompleteIsTaken | nxnet/rtsp/rtsp_parser.cpp:240-287 | A complete response is taken whole, whatever follows it |
| RtspParser.LowerCaseDependsOnWhatFollows | nxnet/rtsp/rtsp_parser.cpp:251-259 | With the lower-case length header, the response is taken whole iff no usual one is anywhere in the buffer or there is no body |
| RtspParser.LowerCaseFails | nxnet/rtsp/rtsp_parser.cpp:251-259 | A response with a body that is taken whole when alone, and short of its body when a response in the usual spelling is behind it |
| RtspConnection.RtspConnection.ReceiveInterleavedFrame | nxnet/rtsp/rtsp_connection.cpp:173-234 | Frame, error and remaining stream are the specification's; the frame is a view that stays in the buffer; offset and pending bytes stay inside it |
| RtspConnection.RtspConnection.Compact | nxnet/rtsp/rtsp_connection.cpp:252-264 | Moves the unread bytes to the front and changes none of them |
| RtspConnection.RtspConnection.ReadMoreData | nxnet/rtsp/rtsp_connection.cpp:273-297 | Appends what arrives, or reports the error and whether the connection survives it |
| InterleavedStream.FrontOfStream | nxnet/rtsp/rtsp_connection.cpp:186-225 | Any buffered prefix of a stream holds the first message whole, or only a part of it |
| InterleavedStream.OneCall | nxnet/rtsp/rtsp_connection.cpp:173-234 | One call skips responses and returns the next frame, or fails with nothing lost |
| InterleavedStream.Demultiplexed | nxnet/rtsp/rtsp_connection.cpp:172-264 | For every chunking, every number of cancelled reads and every break-off: a prefix of the stream's frames in order, and all of them if the stream arrives whole |
| InterleavedTransport.EntryBuffers | nxnet/rtsp/tcp_write_serializer.cpp:17-31 | Header and packet alternate, for every packet of a shared frame |
| InterleavedTransport.FrameEntry | nxnet/rtsp/rtsp_server_session.cpp:80-105 | One header per packet of a finished frame buffer; nothing to send for an empty one or when the connection is down |
| InterleavedTransport.BatchEntry | nxnet/rtsp/rtsp_server_session.cpp:44-77 | One merged buffer of the packets' frames, empty packets left out |
| InterleavedTransport.EntryIsFrames | nxnet/rtsp/rtsp_server_session.cpp:80-105 | The gathered buffers are the interleaved frames of the packets, if these are below 64 KiB |
| InterleavedTransport.MergedIsGathered | nxnet/rtsp/rtsp_server_session.cpp:44-105 | The merged form and the gathered form send the same bytes |
| TcpWriteSerializer.EveryRun | nxnet/rtsp/tcp_write_serializer.cpp:73-234 | Over all interleavings: at most one write in flight; while active, writing iff in flight iff the queue is not empty, and what is in flight is its front; the queue keeps its limit; groups enter whole and in order; up to the first error, completed writes and sent bytes are prefixes of what was accepted |
| TcpWriteSerializer.StepKeepsOneWriter | nxnet/rtsp/tcp_write_serializer.cpp:73-234 | One step of any kind keeps the single writer |
| TcpWriteSerializer.StepKeepsWholeGroups | nxnet/rtsp/tcp_write_serializer.cpp:74-133 | One step of any kind keeps batches whole and the queue within its limit |
| TcpWriteSerializer.StepKeepsInOrder | nxnet/rtsp/tcp_write_serializer.cpp:169-213 | One step of any kind keeps writes and bytes in the order of acceptance |
| TcpWriteSerializer.TakenExactly | nxnet/rtsp/tcp_write_serializer.cpp:80-133 | After any run, when the strand comes to a group: it is taken whole if it fits behind what waits, the connection staying up, and is refused together with the connection if it does not |
| TcpWriteSerializer.OverflowExactly | nxnet/rtsp/tcp_write_serializer.cpp:216-234 | Over any run the overflow count is 0, and the socket open, iff at every turn the group that comes up fits |
| TcpWriteSerializer.SmallLoadKeepsSocket | nxnet/rtsp/tcp_write_serializer.cpp:73-133 | Callers that post no more than the limit never lose the connection, whatever the socket does |
| TcpWriteSerializer.PostedExactly | nxnet/rtsp/tcp_write_serializer.cpp:74-112 | What callers hand over while the serializer is active is posted, all of it, and nothing else |
| TcpWriteSerializer.CloseIsFinal | nxnet/rtsp/tcp_write_serializer.cpp:142-157 | After a close or an overflow no group is taken, no write begins, and the serializer does not come back |
| TcpWriteSerializer.CloseEmptiesQueue | nxnet/rtsp/tcp_write_serializer.cpp:142-157 | Once the strand has run its tasks, a closed serializer holds no entries |
| TcpWriteSerializer.EverythingIsSent | nxnet/rtsp/tcp_write_serializer.cpp:73-234 | When nothing is left to do and nothing went wrong, the wire has exactly what callers handed over |
| TcpWriteSerializer.StillActiveAfterError | nxnet/rtsp/tcp_write_serializer.cpp:187-199 | After a failed write the next group posted is accepted and its write started |
| TcpWriteSerializer.TcpWriteSerializer.SubmitBatch | nxnet/rtsp/tcp_write_serializer.cpp:74-105 | Posts the batch as one task, unless closed or empty |
| TcpWriteSerializer.TcpWriteSerializer.EnqueueGroup | nxnet/rtsp/tcp_write_serializer.cpp:80-104 | The posted part: drop, overflow, or enqueue and start writing |
| TcpWriteSerializer.TcpWriteSerializer.StartWrite | nxnet/rtsp/tcp_write_serializer.cpp:169-186 | Starts on the queue's front, or stops writing |
| TcpWriteSerializer.TcpWriteSerializer.WriteCompleted | nxnet/rtsp/tcp_write_serializer.cpp:187-212 | The completion handler on success, on error, and behind a close |
| TcpWriteSerializer.TcpWriteSerializer.HandleOverflow | nxnet/rtsp/tcp_write_serializer.cpp:216-234 | Closes the socket and leaves the queue to the error handler |
| EndToEnd.EntriesAreItems | nxnet/rtsp/rtsp_server_session.cpp:80-105 | The bytes of all submissions are the stream of their frames and responses |
| EndToEnd.ChannelsAreSeparate | nxnet/rtsp/rtsp_connection.cpp:204-222 | Picking one channel from the stream gives the packets that were sent on it |
| EndToEnd.FramesSurviveTheConnection | nxnet/rtsp/tcp_write_serializer.cpp:73-234 | Frames packetized, each with its own extension or none, interleaved with other streams and responses, queued and written without an error, and cut into any chunks arrive as the depacketizer's answers of the round trip |
| MediaPipeline.MediaPipeline.ReceiveOnStrand | nxcore/media/media_pipeline.cpp:199-243 | Frame, end of stream, or frame after the end, in either mode |
| MediaPipeline.MediaPipeline.FlushOne | nxcore/media/media_pipeline.cpp:292-316 | Sends at most one mature frame and posts a task if more wait |
| MediaPipeline.MediaPipeline.ScheduleNext | nxcore/media/media_pipeline.cpp:323-395 | Sends a due frame and posts a task, or arms the timer, or ends the chain |
| MediaPipeline.MediaPipeline.DrainOne | nxcore/media/media_pipeline.cpp:251-268 | Sends one frame and posts a task, or calls back |
| MediaPipeline.MediaPipeline.OnTimer | nxcore/media/media_pipeline.cpp:380-394 | The timer's handler, with and without an error |
| MediaScheduling.StepConserves | nxcore/media/media_pipeline.cpp:198-395 | One event of any kind neither loses nor doubles a frame |
| MediaScheduling.StepEndsOnce | nxcore/media/media_pipeline.cpp:198-268 | One event of any kind keeps acceptance in order and the drain unique |
| MediaScheduling.ExactlyOnce | nxcore/media/media_pipeline.cpp:198-395 | Over every run: frames accepted are waiting or sent, once each; at most one callback, and by then exactly the frames that the source gave before the end of its stream were sent |
| MediaScheduling.NothingAfterCompletion | nxcore/media/media_pipeline.cpp:251-268 | After the callback nothing is sent and it does not come again |
| MediaScheduling.DrainFinishes | nxcore/media/media_pipeline.cpp:251-268 | From the end of the stream on, as many task turns as there are tasks and frames bring the callback, whatever other events come between them |
| MediaReordering.DispatchedInOrder | nxcore/media/media_pipeline.cpp:198-316 | If no frame is older than the newest before it (0 at the start) by more than the buffer, frames are sent in order over the whole run, drain included |
| MediaReordering.NoFrameStranded | nxcore/media/media_pipeline.cpp:291-316 | With no flush task on its way, at most one frame waits or all waiting frames are younger than the buffer |
| MediaPacing.HandlerPaced | nxcore/media/media_pipeline.cpp:380-394 | A frame that overtook the one the timer was set for is not sent early either |
| MediaPacing.PlaybackIsPaced | nxcore/media/media_pipeline.cpp:322-395 | Over every run: one continuation iff pacing is active, pacing whenever frames wait, times counted from the first frame sent, and except by the drain no frame sent before every whole millisecond that playback needs has passed |
| MediaPacing.NoFrameIsEarly | nxcore/media/media_pipeline.cpp:335-373 | Over every run, in plain numbers: a paced frame leaves no earlier, counted from the first frame sent, than every whole millisecond that the playback speed needs to get to it |
| MediaPacing.NoWaitIsLate | nxcore/media/media_pipeline.cpp:346-380 | Over every run: the timer is set for a waiting frame, and for no longer than playback needs, rounded up to whole milliseconds |
| MediaPacing.WaitsAreAhead | nxcore/media/media_pipeline.cpp:357-380 | In every event: the timer is set only for a frame that is not due yet, so that a due frame leaves at once |
| JpegBitReader.JpegBitReader.ReadBit | nxmedia/codec/jpeg_parser.cpp:81-100 | The next bit of the unstuffed data, or an error at its end and in front of a marker |
| JpegBitReader.JpegBitReader.ReadBits | nxmedia/codec/jpeg_parser.cpp:102-114 | The value of the next bits, or an error if there are too few |
| JpegBitReader.WrittenBitsAreRead | nxmedia/codec/jpeg_parser.cpp:72-115 | Packed and stuffed bits are read back, then the padding, then whatever data follow |
| JpegBitReader.MarkerEndsBits | nxmedia/codec/jpeg_parser.cpp:81-100 | A marker, or a lone FF at the end, ends the bits |
| JpegHuffman.DecodeSymbol | nxmedia/codec/jpeg_parser.cpp:118-142 | The decoding loop returns the symbol in front and consumes its bits |
| JpegHuffman.LevelCodes | nxmedia/codec/jpeg_parser.cpp:118-142 | The decoder's first code of each length is where the codes of section C.2 of ITU-T T.81 of that length begin |
| JpegHuffman.CodesFit | nxmedia/codec/jpeg_parser.cpp:118-142 | Under Kraft's inequality every code fits into its length, so that 16 bits suffice |
| JpegHuffman.DecodesExactly | nxmedia/codec/jpeg_parser.cpp:118-142 | Under Kraft's inequality a symbol is decoded if and only if its code is in front, and exactly its bits are consumed |
| JpegHuffman.ScanIsDecoded | nxmedia/codec/jpeg_parser.cpp:72-142 | Symbols are decoded from their packed and stuffed codes, whatever follows |
| JpegHuffman.TryDecodeBlock | nxmedia/codec/jpeg_parser.cpp:146-181 | Accepts or refuses a block as the recursive specification does |
| JpegHuffman.BlockIsAccepted | nxmedia/codec/jpeg_parser.cpp:146-181 | Every block an encoder writes is accepted, and exactly its bits are consumed |
| JpegHuffman.AcceptedIsBlock | nxmedia/codec/jpeg_parser.cpp:146-181 | And nothing else is accepted: what the decoder takes is the encoding of a block, of 63 coefficients at most |
| JpegHuffman.StandardTables | nxmedia/codec/jpeg_parser.cpp:28-68 | The four tables in use satisfy Kraft's inequality and have 12 and 162 symbols |
| DotSegments.RemoveDotSegments | nxnet/http/detail/redirect_handler.cpp:11-61 | The loop ends and computes the recursive form, for any path |
| DotSegments.LoopResolves | nxnet/http/detail/redirect_handler.cpp:17-58 | The loop on a path is the stack resolver on its segments |
| DotSegments.DotsAreRemoved | nxnet/http/detail/redirect_handler.cpp:11-61 | For every path that begins with a slash: the resolver's result, which begins with a slash, has no dot segments, and is not changed by a second removal |

## Left out

- Files: short writes and I/O errors, sync batching and flush levels, file names and their collisions, bitrate statistics.
- SegmentBuilder.SegmentBuilder.WriteBlock: a block whose header or entry pointers lead outside its buffer is not modelled (the source would read outside it); `PointsInside` says so.
- BlockBuilder.BlockBuilder.AddEntry: null entries are not modelled, and sums that would overflow the 64-bit end time or the 32-bit block length are excluded by `Addable`, since the source does not check them.
- SegmentReader.SegmentReader.ReadNextEntry: bytes of an entry header behind its typed structure are skipped, not kept.
- Differences of timestamps are taken without wrap-around at 64 bits.
- Timeouts of idle builders, buffer pools and their reference counts, logging, statistics counters.
- A shared RTP frame is never written to once it is finished, so the write queue holds its packets as values; the life time of buffers in flight behind a close is not modelled.
- RtpFrameBuffer.RtpFrameBuffer.GetPacket: buffers of 4 GiB and more, where 32-bit offsets wrap, are excluded.
- RtpH264Packetizer.RtpH264Packetizer.Packetize: packet sizes below 15 and header extensions of 2^16 words and more are excluded (`Usable`).
- RtpRoundTrip.RoundTrip: in-order delivery without loss; the depacketizers do not look at sequence numbers. For arbitrary packets see H264Conserves and H265Conserves.
- H.265 has no packetizer; its round trip is against payloads as RFC 7798 has a sender make them.
- InterleavedTransport.EntryIsFrames: packets of 64 KiB and more, whose length does not fit into the header.
- InterleavedStream.Demultiplexed: responses are those of `WholeResponse`; a lower-case length header is treated in LowerCaseDependsOnWhatFollows.
- Mixing receive_response with receive_interleaved_frame: only the latter settles the pending bytes, so runs consist of the latter alone. Connecting, sending and parsing responses are left out.
- The strand is a FIFO of atomic tasks; a finished write's handler may run at any time, which covers every place in the FIFO.
- MediaPipeline: stop(), which discards the queue, and kLive, a direct call; changing speed, buffer or mode while running; the playback speed is a positive rational, whose quotients are truncated to whole milliseconds.
- The priority queue's choice among equal timestamps is arbitrary: every step takes any function that picks an oldest frame.
- JpegBitReader.JpegBitReader.ReadBits: at most 30 bits, beyond which the source's int overflows; the tables in use stay below 16.
- JPEG: frame headers, the symbol lists of the standard tables, counting of units to guess the subsampling.
- URLs: the rest of redirect handling (absolute URLs, ports, headers).
- OpenSSL, FFmpeg, ONVIF, HTTP clients, SDP parsing, UDP transport, timer wheel and scheduler JSON: thin layers or single branches.
