/** Turning RTP packets into interleaved frames for a TCP connection (TcpInterleavedTransport in
    nxnet/rtsp/rtsp_server_session.cpp, WriteEntry in nxnet/rtsp/tcp_write_serializer.cpp). */
module InterleavedTransport {
  import opened Bytes
  import opened Sequences
  import opened InterleavedStream
  import RtspConnection
  import opened RtpFrameBuffer

  /** What one asynchronous write sends.  A shared frame is never written to once it is finalized, so it
      stands here for its packets. */
  datatype WriteEntry =
    | Inline(data: bytes)
    | Shared(packets: seq<bytes>, headers: seq<bytes>)

  predicate WellFormed(entry: WriteEntry) {
    entry.Shared? ==> |entry.headers| == |entry.packets|
  }

  /** '$', channel and the size of the packet, cut to 16 bits. */
  function Header(channel: byte, packet: bytes): (h: bytes)
    ensures |h| == 4
  {
    [RtspConnection.DOLLAR, channel] + BE16(|packet| % 0x1_0000)
  }

  function Headers(channel: byte, packets: seq<bytes>): (h: seq<bytes>)
    ensures |h| == |packets|
  {
    seq(|packets|, i requires 0 <= i < |packets| => Header(channel, packets[i]))
  }

  /** The buffers handed to the write operation. */
  function Buffers(packets: seq<bytes>, headers: seq<bytes>): seq<bytes>
    requires |headers| == |packets|
  {
    if packets == [] then [] else
      var n := |packets| - 1;
      Buffers(packets[..n], headers[..n]) + [headers[n], packets[n]]
  }

  function ToBuffers(entry: WriteEntry): seq<bytes>
    requires WellFormed(entry)
  {
    if entry.Shared? then Buffers(entry.packets, entry.headers) else [entry.data]
  }

  /** The bytes of one write, in order. */
  function EntryBytes(entry: WriteEntry): bytes
    requires WellFormed(entry)
  {
    Concat(ToBuffers(entry))
  }

  /** The packets as interleaved frames, empty ones left out. */
  function Merged(channel: byte, packets: seq<bytes>): bytes {
    if packets == [] then [] else
      var n := |packets| - 1;
      Merged(channel, packets[..n])
      + if packets[n] == [] then [] else Header(channel, packets[n]) + packets[n]
  }

  // ------------------------------------------------------------------- operations

  method EntryBuffers(entry: WriteEntry) returns (buffers: seq<bytes>)
    requires WellFormed(entry)
    ensures buffers == ToBuffers(entry)
  {
    if entry.Inline? { return [entry.data]; }
    var count := |entry.packets|;
    buffers := [];
    for i := 0 to count
      invariant buffers == Buffers(entry.packets[..i], entry.headers[..i])
    {
      assert entry.packets[..i + 1][..i] == entry.packets[..i];
      assert entry.headers[..i + 1][..i] == entry.headers[..i];
      buffers := buffers + [entry.headers[i], entry.packets[i]];
    }
    assert entry.packets[..count] == entry.packets && entry.headers[..count] == entry.headers;
  }

  /** send_rtp_frame: nothing for an empty frame, or on a connection that is down. */
  method FrameEntry(active: bool, channel: byte, frame: RtpFrameBuffer) returns (send: bool, entry: WriteEntry)
    requires frame.Finalized() && |frame.data| < 0x1_0000_0000
    ensures send == (active && frame.packets != [])
    ensures send ==> entry == Shared(frame.packets, Headers(channel, frame.packets))
  {
    entry := Inline([]);
    var count := frame.PacketCount();
    if !active || count == 0 { return false, entry; }
    var headers: seq<bytes>, views: seq<bytes> := [], [];
    ghost var packets := frame.packets;
    for i := 0 to count
      invariant |headers| == i && views == packets[..i]
      invariant forall j | 0 <= j < i :: headers[j] == Header(channel, packets[j])
    {
      var packet := frame.GetPacket(i);
      var length := |packet| % 0x1_0000;
      headers := headers + [[RtspConnection.DOLLAR, channel, length / 0x100, length % 0x100]];
      views := views + [packet];
    }
    assert headers == Headers(channel, packets);
    return true, Shared(views, headers);
  }

  /** send_rtp_batch: one merged buffer. */
  method BatchEntry(active: bool, channel: byte, packets: seq<bytes>) returns (send: bool, entry: WriteEntry)
    ensures send == (active && Merged(channel, packets) != [])
    ensures send ==> entry == Inline(Merged(channel, packets))
  {
    if !active || packets == [] { return false, Inline([]); }
    var merged: bytes := [];
    for i := 0 to |packets|
      invariant merged == Merged(channel, packets[..i])
    {
      assert packets[..i + 1][..i] == packets[..i];
      if packets[i] != [] {
        var length := |packets[i]| % 0x1_0000;
        var header := [RtspConnection.DOLLAR, channel, length / 0x100, length % 0x100];
        assert header == Header(channel, packets[i]);
        merged := merged + header + packets[i];
      }
    }
    assert packets[..|packets|] == packets;
    return merged != [], Inline(merged);
  }

  // ------------------------------------------------------------------- properties

  function FramesFor(channel: byte, packets: seq<bytes>): (items: seq<Item>)
    ensures |items| == |packets|
    ensures forall i | 0 <= i < |items| :: items[i] == Frame(channel, packets[i])
  {
    seq(|packets|, i requires 0 <= i < |packets| => Frame(channel, packets[i]))
  }

  predicate AllFit(packets: seq<bytes>) {
    forall i | 0 <= i < |packets| :: |packets[i]| < 0x1_0000
  }

  lemma ConcatPair(a: bytes, b: bytes)
    ensures Concat([a, b]) == a + b
  {
    ConcatSnoc([a], b);
    assert Concat([a]) == a;
  }

  lemma {:induction false} EncodeAppend(a: seq<Item>, b: seq<Item>)
    requires AllSendable(a) && AllSendable(b)
    ensures AllSendable(a + b) && Encode(a + b) == Encode(a) + Encode(b)
  {
    hide Sendable, ItemBytes;
    if a == [] {
      assert a + b == b;
    } else {
      EncodeAppend(a[1..], b);
      assert (a + b)[0] == a[0] && (a + b)[1..] == a[1..] + b;
    }
  }

  /** One more packet: its header and its bytes behind the others. */
  lemma GatheredSnoc(channel: byte, packets: seq<bytes>)
    requires packets != []
    ensures var n := |packets| - 1;
            EntryBytes(Shared(packets, Headers(channel, packets)))
            == EntryBytes(Shared(packets[..n], Headers(channel, packets[..n])))
               + (Header(channel, packets[n]) + packets[n])
  {
    hide Concat;
    var n := |packets| - 1;
    var init, header := packets[..n], Header(channel, packets[n]);
    assert Headers(channel, packets)[..n] == Headers(channel, init);
    ConcatAppend(Buffers(init, Headers(channel, init)), [header, packets[n]]);
    ConcatPair(header, packets[n]);
  }

  lemma NothingGathered(channel: byte)
    ensures EntryBytes(Shared([], Headers(channel, []))) == [] == Encode(FramesFor(channel, []))
  {
  }

  /** The gathered buffers of a shared frame are the interleaved frames of its packets. */
  lemma {:induction false} EntryIsFrames(channel: byte, packets: seq<bytes>)
    requires AllFit(packets)
    ensures AllSendable(FramesFor(channel, packets))
    ensures EntryBytes(Shared(packets, Headers(channel, packets))) == Encode(FramesFor(channel, packets))
  {
    hide EntryBytes, Encode;
    if packets == [] {
      NothingGathered(channel);
    } else {
      var n := |packets| - 1;
      EntryIsFrames(channel, packets[..n]);
      GatheredSnoc(channel, packets);
      assert FramesFor(channel, packets) == FramesFor(channel, packets[..n]) + [Frame(channel, packets[n])];
      EncodeAppend(FramesFor(channel, packets[..n]), [Frame(channel, packets[n])]);
      OneFrame(channel, packets[n]);
    }
  }

  lemma OneFrame(channel: byte, packet: bytes)
    requires |packet| < 0x1_0000
    ensures AllSendable([Frame(channel, packet)])
    ensures Encode([Frame(channel, packet)]) == Header(channel, packet) + packet
  {
    hide Encode;
    EncodeOne(Frame(channel, packet));
  }

  /** The merged buffer and the gathered one send the same bytes, as long as no packet is empty. */
  lemma {:induction false} MergedIsGathered(channel: byte, packets: seq<bytes>)
    requires forall i | 0 <= i < |packets| :: packets[i] != []
    ensures Merged(channel, packets) == EntryBytes(Shared(packets, Headers(channel, packets)))
  {
    hide EntryBytes, Encode;
    if packets == [] {
      NothingGathered(channel);
    } else {
      MergedIsGathered(channel, packets[..|packets| - 1]);
      GatheredSnoc(channel, packets);
    }
  }
}
