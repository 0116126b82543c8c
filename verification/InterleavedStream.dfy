/** A TCP stream of interleaved frames and RTSP responses, cut into chunks in any way and put together again
    (RtspConnection::receive_interleaved_frame in nxnet/rtsp/rtsp_connection.cpp; section 10.12 of RFC 2326). */
module InterleavedStream {
  import opened Bytes
  import opened RtspConnection
  import RtspParser
  import opened Sequences

  /** One message of the stream. */
  datatype Item = Frame(channel: byte, data: bytes) | Response(text: bytes)

  predicate Sendable(item: Item) {
    match item
    case Frame(channel, data) => |data| < 0x1_0000
    case Response(text) => text != [] && text[0] != DOLLAR && RtspParser.WholeResponse(text)
  }

  predicate AllSendable(items: seq<Item>) {
    forall i | 0 <= i < |items| :: Sendable(items[i])
  }

  function FrameBytes(channel: byte, data: bytes): bytes
    requires |data| < 0x1_0000
  {
    [DOLLAR, channel] + BE16(|data|) + data
  }

  function ItemBytes(item: Item): (b: bytes)
    requires Sendable(item)
    ensures b != []
  {
    match item
    case Frame(channel, data) => FrameBytes(channel, data)
    case Response(text) => text
  }

  function Encode(items: seq<Item>): bytes
    requires AllSendable(items)
  {
    if items == [] then [] else ItemBytes(items[0]) + Encode(items[1..])
  }

  lemma EncodeOne(item: Item)
    requires Sendable(item)
    ensures AllSendable([item]) && Encode([item]) == ItemBytes(item)
  {
    hide Sendable, ItemBytes;
    assert [item][1..] == [];
    assert ItemBytes(item) + [] == ItemBytes(item);
  }

  function FramesOf(items: seq<Item>): seq<(byte, bytes)> {
    if items == [] then []
    else (if items[0].Frame? then [(items[0].channel, items[0].data)] else []) + FramesOf(items[1..])
  }

  /** All the bytes the socket will bring. */
  function Arriving(supply: seq<Arrival>): bytes {
    if supply == [] then [] else (if supply[0].Data? then supply[0].data else []) + Arriving(supply[1..])
  }

  /** Nothing but data and cancelled reads: the connection lives until the stream ends. */
  predicate Alive(supply: seq<Arrival>) {
    forall i | 0 <= i < |supply| :: supply[i].Data? || supply[i].Cancelled?
  }

  /** The frames a caller gets that calls again and again until the connection is gone. */
  function Drain(link: Link): seq<(byte, bytes)>
    decreases |link.supply|, |link.unread|, link.connected
  {
    if !link.connected then [] else
      var (outcome, after) := Receive(link.unread, link.supply);
      if outcome.Received? then [(outcome.channel, outcome.data)] + Drain(after) else Drain(after)
  }

  // ------------------------------------------------------ one message at the front

  lemma WholeItem(item: Item, more: bytes)
    requires Sendable(item)
    ensures var unread := ItemBytes(item) + more;
            match item
            case Frame(channel, data) =>
              Skippable(unread) == 0 && FrameReady(unread)
              && forall supply :: TakeFrame(unread, supply) == (Received(channel, data), Link(more, supply, true))
            case Response(text) => Skippable(unread) == |text| && unread[|text|..] == more
  {
    hide RtspParser.WholeResponse, RtspParser.FindResponseEnd;
    var unread := ItemBytes(item) + more;
    match item
    case Frame(channel, data) =>
      assert FrameLength(unread) == |data|;
      assert unread[4..4 + |data|] == data && unread[4 + |data|..] == more;
    case Response(text) =>
      RtspParser.CompleteIsTaken(text, more);
  }

  lemma PartOfItem(item: Item, p: nat)
    requires Sendable(item) && p < |ItemBytes(item)|
    ensures var unread := ItemBytes(item)[..p]; Skippable(unread) == 0 && !FrameReady(unread)
  {
    hide RtspParser.WholeResponse, RtspParser.FindResponseEnd;
    match item
    case Frame(channel, data) =>
    case Response(text) =>
      RtspParser.IncompleteIsZero(text, p);
  }

  /** Either the first message is in the buffer as a whole, or the buffer holds only a part of it. */
  lemma FrontOfStream(unread: bytes, coming: bytes, items: seq<Item>)
    requires AllSendable(items) && items != [] && unread + coming == Encode(items)
    ensures var first := ItemBytes(items[0]);
            if |first| <= |unread|
            then unread == first + unread[|first|..] && unread[|first|..] + coming == Encode(items[1..])
            else unread == first[..|unread|]
  {
    hide ItemBytes, Sendable;
    TwoCuts(unread, coming, ItemBytes(items[0]), Encode(items[1..]));
  }

  // ---------------------------------------------------------------------- one call

  /** What one call does to a stream: k responses are skipped, and then a frame comes out, or a read fails. */
  ghost predicate Advances(unread: bytes, supply: seq<Arrival>, rest: bytes, items: seq<Item>, k: nat)
    requires AllSendable(items)
  {
    var (outcome, after) := Receive(unread, supply);
    && k <= |items|
    && (forall i | 0 <= i < k :: items[i].Response?)
    && (outcome.Received? ==>
          && k < |items| && items[k] == Frame(outcome.channel, outcome.data)
          && after.unread + (Arriving(after.supply) + rest) == Encode(items[k + 1..]))
    && (!outcome.Received? ==> after.unread + (Arriving(after.supply) + rest) == Encode(items[k..]))
    && (Alive(supply) ==> Alive(after.supply) && after.connected == !outcome.ConnectionClosed?)
    && (Alive(supply) && rest == [] && !after.connected ==> k == |items|)
  }

  /** Nothing can be taken: the call reads, or ends. */
  lemma ReadFailsAdvances(unread: bytes, supply: seq<Arrival>, rest: bytes, items: seq<Item>)
    requires AllSendable(items) && unread + (Arriving(supply) + rest) == Encode(items)
    requires Skippable(unread) == 0 && !FrameReady(unread)
    requires items != [] ==> |unread| < |ItemBytes(items[0])|
    requires supply == [] || !supply[0].Data?
    ensures Advances(unread, supply, rest, items, 0)
  {
    hide Skippable, FrameReady, Sendable, ItemBytes, Receive, Encode, Arriving, AllSendable;
    Unroll(unread, supply);
    assert items[0..] == items;
    if supply == [] {
      NothingArrives(rest);
      EncodedLength(items);
    } else {
      NoDataArrives(supply);
      assert Alive(supply) ==> Alive(supply[1..]);
    }
  }

  lemma NothingArrives(rest: bytes)
    ensures Arriving([]) + rest == rest
  {
  }

  lemma NoDataArrives(supply: seq<Arrival>)
    requires supply != [] && !supply[0].Data?
    ensures Arriving(supply) == Arriving(supply[1..])
  {
  }

  /** A stream is at least as long as its first message. */
  lemma EncodedLength(items: seq<Item>)
    requires AllSendable(items)
    ensures items != [] ==> |Encode(items)| >= |ItemBytes(items[0])|
  {
    hide Sendable, ItemBytes;
  }

  lemma ReadAdvances(unread: bytes, supply: seq<Arrival>, rest: bytes, items: seq<Item>, k: nat)
    requires AllSendable(items) && supply != [] && supply[0].Data?
    requires Skippable(unread) == 0 && !FrameReady(unread)
    requires Advances(unread + supply[0].data, supply[1..], rest, items, k)
    ensures Advances(unread, supply, rest, items, k)
  {
    hide Skippable, FrameReady, Sendable, Encode, Arriving;
    Unroll(unread, supply);
    assert Alive(supply) ==> Alive(supply[1..]);
  }

  lemma SkipAdvances(unread: bytes, supply: seq<Arrival>, rest: bytes, items: seq<Item>, k: nat)
    requires AllSendable(items) && items != [] && items[0].Response?
    requires Skippable(unread) == |items[0].text| > 0
    requires Advances(unread[|items[0].text|..], supply, rest, items[1..], k)
    ensures Advances(unread, supply, rest, items, k + 1)
  {
    hide Skippable, FrameReady, Sendable, Encode, Arriving;
    Unroll(unread, supply);
    assert items[1..][k..] == items[k + 1..];
    assert k < |items[1..]| ==> items[1..][k + 1..] == items[k + 2..];
    forall i | 0 <= i < k + 1
      ensures items[i].Response?
    {
      if i > 0 { assert items[1..][i - 1] == items[i]; }
    }
  }

  lemma FrameAdvances(unread: bytes, supply: seq<Arrival>, rest: bytes, items: seq<Item>)
    requires AllSendable(items) && items != [] && items[0].Frame?
    requires Skippable(unread) == 0 && FrameReady(unread) && |ItemBytes(items[0])| <= |unread|
    requires TakeFrame(unread, supply)
          == (Received(items[0].channel, items[0].data), Link(unread[|ItemBytes(items[0])|..], supply, true))
    requires unread[|ItemBytes(items[0])|..] + (Arriving(supply) + rest) == Encode(items[1..])
    ensures Advances(unread, supply, rest, items, 0)
  {
    hide Skippable, FrameReady, Sendable, Encode, Arriving, ItemBytes, TakeFrame;
    Unroll(unread, supply);
  }

  lemma {:induction false} OneCall(unread: bytes, supply: seq<Arrival>, rest: bytes, items: seq<Item>)
    returns (k: nat)
    requires AllSendable(items) && unread + (Arriving(supply) + rest) == Encode(items)
    ensures Advances(unread, supply, rest, items, k)
    decreases |supply|, |unread|
  {
    hide RtspParser.FindResponseEnd, Sendable, TakeFrame, Advances;
    if items != [] {
      FrontOfStream(unread, Arriving(supply) + rest, items);
      var first := ItemBytes(items[0]);
      if |first| <= |unread| {
        WholeItem(items[0], unread[|first|..]);
        if items[0].Response? {
          k := OneCall(unread[|first|..], supply, rest, items[1..]);
          SkipAdvances(unread, supply, rest, items, k);
          k := k + 1;
        } else {
          FrameAdvances(unread, supply, rest, items);
          k := 0;
        }
        return;
      }
      PartOfItem(items[0], |unread|);
    }
    if supply != [] && supply[0].Data? {
      var more := unread + supply[0].data;
      assert more + (Arriving(supply[1..]) + rest) == unread + (Arriving(supply) + rest);
      k := OneCall(more, supply[1..], rest, items);
      ReadAdvances(unread, supply, rest, items, k);
    } else {
      ReadFailsAdvances(unread, supply, rest, items);
      k := 0;
    }
  }

  // ----------------------------------------------------------------------- all calls

  lemma {:induction false} FramesBehind(items: seq<Item>, k: nat)
    requires k <= |items| && forall i | 0 <= i < k :: items[i].Response?
    ensures FramesOf(items) == FramesOf(items[k..])
  {
    if k == 0 {
      assert items[0..] == items;
    } else {
      FramesBehind(items[1..], k - 1);
      assert items[1..][k - 1..] == items[k..];
    }
  }

  /** However the stream is cut into chunks, however many reads are cancelled, and wherever the stream breaks
      off (rest is what does not arrive): the frames come out in order, none twice, none altered, and, if the
      stream arrives as a whole, none is missing. */
  lemma {:induction false} Demultiplexed(link: Link, rest: bytes, items: seq<Item>)
    requires link.connected && AllSendable(items)
    requires link.unread + (Arriving(link.supply) + rest) == Encode(items)
    ensures Drain(link) <= FramesOf(items)
    ensures rest == [] && Alive(link.supply) ==> Drain(link) == FramesOf(items)
    decreases |link.supply|, |link.unread|
  {
    hide RtspParser.FindResponseEnd, Sendable, Receive, Encode, Arriving;
    var (outcome, after) := Receive(link.unread, link.supply);
    var k := OneCall(link.unread, link.supply, rest, items);
    FramesBehind(items, k);
    if outcome.Received? {
      assert items[k..][1..] == items[k + 1..];
      Demultiplexed(after, rest, items[k + 1..]);
    } else if after.connected {
      Demultiplexed(after, rest, items[k..]);
    }
  }
}
