/** From a server's frames to a client's frames, over one TCP connection that also carries other streams and
    RTSP responses: packetizer, interleaving, write queue, socket, demultiplexer, packet parser, depacketizer. */
module EndToEnd {
  import opened Bytes
  import opened Sequences
  import opened InterleavedStream
  import opened InterleavedTransport
  import opened RtspConnection
  import W = TcpWriteSerializer
  import A = FrameAssembly
  import D = RtpH264Depacketizer
  import R = RtpRoundTrip

  /** One submission to the write queue: the packets of one media frame on one channel, or a response. */
  datatype Message = Packets(channel: byte, packets: seq<bytes>) | Text(text: bytes)

  predicate Good(m: Message) {
    match m
    case Packets(channel, packets) => AllFit(packets)
    case Text(text) => Sendable(Response(text))
  }

  predicate AllGood(ms: seq<Message>) {
    forall i | 0 <= i < |ms| :: Good(ms[i])
  }

  function EntryOf(m: Message): W.Entry {
    match m
    case Packets(channel, packets) => Shared(packets, Headers(channel, packets))
    case Text(text) => Inline(text)
  }

  function EntriesOf(ms: seq<Message>): seq<W.Entry> {
    if ms == [] then [] else [EntryOf(ms[0])] + EntriesOf(ms[1..])
  }

  function ItemsOf(ms: seq<Message>): seq<Item> {
    if ms == [] then [] else
      (match ms[0]
       case Packets(channel, packets) => FramesFor(channel, packets)
       case Text(text) => [Response(text)])
      + ItemsOf(ms[1..])
  }

  /** The packets that messages carry on one channel. */
  function Carried(channel: byte, ms: seq<Message>): seq<bytes> {
    if ms == [] then [] else
      (if ms[0].Packets? && ms[0].channel == channel then ms[0].packets else []) + Carried(channel, ms[1..])
  }

  /** What a client keeps of the frames it receives: those of one channel. */
  function OnChannel(channel: byte, frames: seq<(byte, bytes)>): seq<bytes> {
    if frames == [] then [] else
      (if frames[0].0 == channel then [frames[0].1] else []) + OnChannel(channel, frames[1..])
  }

  lemma {:induction false} EntriesAreItems(ms: seq<Message>)
    requires AllGood(ms)
    ensures AllSendable(ItemsOf(ms)) && W.AllBytes(EntriesOf(ms)) == Encode(ItemsOf(ms))
  {
    hide EntryBytes, Sendable, ItemBytes, Encode;
    if ms == [] {
      assert Encode([]) == [] by { NothingEncoded(); }
    } else {
      EntriesAreItems(ms[1..]);
      match ms[0]
      case Packets(channel, packets) =>
        EntryIsFrames(channel, packets);
        EncodeAppend(FramesFor(channel, packets), ItemsOf(ms[1..]));
      case Text(text) =>
        ResponseEncoded(text);
        EncodeAppend([Response(text)], ItemsOf(ms[1..]));
    }
  }

  lemma NothingEncoded()
    ensures Encode([]) == []
  {
  }

  lemma ResponseEncoded(text: bytes)
    requires Sendable(Response(text))
    ensures AllSendable([Response(text)]) && Encode([Response(text)]) == text == EntryBytes(Inline(text))
  {
    hide Sendable, Encode;
    EncodeOne(Response(text));
    assert ToBuffers(Inline(text)) == [] + [text];
    ConcatSnoc([], text);
  }

  lemma {:induction false} OnChannelAppend(channel: byte, a: seq<(byte, bytes)>, b: seq<(byte, bytes)>)
    ensures OnChannel(channel, a + b) == OnChannel(channel, a) + OnChannel(channel, b)
  {
    if a == [] {
      assert a + b == b;
    } else {
      assert (a + b)[0] == a[0] && (a + b)[1..] == a[1..] + b;
      OnChannelAppend(channel, a[1..], b);
      var head := if a[0].0 == channel then [a[0].1] else [];
      var x, y := OnChannel(channel, a[1..]), OnChannel(channel, b);
      assert OnChannel(channel, a) == head + x && OnChannel(channel, a + b) == head + (x + y);
      assert head + (x + y) == (head + x) + y;
    }
  }

  lemma {:induction false} FramesOfAppend(a: seq<Item>, b: seq<Item>)
    ensures FramesOf(a + b) == FramesOf(a) + FramesOf(b)
  {
    if a == [] {
      assert a + b == b;
    } else {
      assert (a + b)[0] == a[0] && (a + b)[1..] == a[1..] + b;
      FramesOfAppend(a[1..], b);
    }
  }

  lemma {:induction false} FramesOnChannel(wanted: byte, channel: byte, packets: seq<bytes>)
    ensures OnChannel(wanted, FramesOf(FramesFor(channel, packets))) == if wanted == channel then packets else []
  {
    if packets != [] {
      FramesOnChannel(wanted, channel, packets[1..]);
      assert FramesFor(channel, packets)[1..] == FramesFor(channel, packets[1..]);
    }
  }

  lemma NoFrames(channel: byte, text: bytes)
    ensures OnChannel(channel, FramesOf([])) == [] == OnChannel(channel, FramesOf([Response(text)]))
  {
    assert FramesOf([Response(text)]) == FramesOf([]);
  }

  /** Demultiplexing by channel gives back what each channel was given. */
  lemma {:induction false} ChannelsAreSeparate(channel: byte, ms: seq<Message>)
    ensures OnChannel(channel, FramesOf(ItemsOf(ms))) == Carried(channel, ms)
  {
    hide OnChannel, FramesOf;
    if ms == [] {
      NoFrames(channel, []);
    } else {
      ChannelsAreSeparate(channel, ms[1..]);
      var first: seq<Item> := match ms[0]
        case Packets(other, packets) => FramesFor(other, packets)
        case Text(text) => [Response(text)];
      FramesOfAppend(first, ItemsOf(ms[1..]));
      OnChannelAppend(channel, FramesOf(first), FramesOf(ItemsOf(ms[1..])));
      match ms[0]
      case Packets(other, packets) => FramesOnChannel(channel, other, packets);
      case Text(text) => NoFrames(channel, text);
    }
  }

  lemma {:induction false} GroupsOfOne(groups: seq<seq<W.Entry>>, es: seq<W.Entry>)
    requires |groups| == |es| && forall i | 0 <= i < |es| :: groups[i] == [es[i]]
    ensures Concat(groups) == es
  {
    if groups != [] {
      GroupsOfOne(groups[1..], es[1..]);
    }
  }

  /** The client's view of a connection: the answers of its depacketizer to the packets of one channel. */
  function Decoded(channel: byte, supply: seq<Arrival>): seq<A.Output> {
    A.Run(D.Handler(), A.RESET, R.Arrived(OnChannel(channel, Drain(Link([], supply, true))))).0
  }

  /** A server packetizes frames, each with its own header extension or none, and posts them to the write queue
      of a connection, each as one entry, between any other frames on other channels and any responses.
      Whatever the order in which strand and socket work, once everything is written without an error, and
      however the bytes are cut into chunks on their way, the client gets exactly these frames, in order, in
      normal form, each with the right key-frame flag. */
  lemma FramesSurviveTheConnection(
      seqNo: uint16, fs: seq<R.MediaFrame>, channel: byte, ms: seq<Message>,
      maxQueueSize: nat, actions: seq<W.Action>, supply: seq<Arrival>)
    requires R.FramesSendable(fs) && AllGood(ms)
    requires Carried(channel, ms) == R.Sent(seqNo, fs)
    requires var s := W.Run(W.Initial(maxQueueSize), actions);
             && s.active && !s.failed && s.tasks == [] && s.flight == []
             && Arriving(supply) == s.sent
    requires var posted := W.HandedOver(actions);
             |posted| == |ms| && (forall i | 0 <= i < |ms| :: posted[i] == [EntryOf(ms[i])])
    requires Alive(supply)
    ensures Decoded(channel, supply) == R.AllAnswers(fs)
  {
    hide *;
    var s, items := W.Run(W.Initial(maxQueueSize), actions), ItemsOf(ms);
    W.EverythingIsSent(maxQueueSize, actions);
    EntriesAt(ms);
    GroupsOfOne(W.HandedOver(actions), EntriesOf(ms));
    EntriesAreItems(ms);
    var link := Link([], supply, true);
    assert link.unread + (Arriving(link.supply) + []) == Encode(items);
    Demultiplexed(link, [], items);
    ChannelsAreSeparate(channel, ms);
    R.RoundTrip(seqNo, fs);
    DecodedIs(channel, supply);
  }

  lemma {:induction false} EntriesAt(ms: seq<Message>)
    ensures |EntriesOf(ms)| == |ms| && forall i | 0 <= i < |ms| :: EntriesOf(ms)[i] == EntryOf(ms[i])
  {
    if ms != [] {
      EntriesAt(ms[1..]);
    }
  }

  lemma DecodedIs(channel: byte, supply: seq<Arrival>)
    ensures Decoded(channel, supply)
         == A.Run(D.Handler(), A.RESET, R.Arrived(OnChannel(channel, Drain(Link([], supply, true))))).0
  {
  }
}
