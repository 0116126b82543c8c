/** Taking interleaved frames out of a TCP stream
    (RtspConnection in nxnet/rtsp/rtsp_connection.cpp; section 10.12 of RFC 2326). */
module RtspConnection {
  import opened Bytes
  import RtspParser

  /** '$', which opens an interleaved frame. */
  const DOLLAR: byte := 36
  /** The receive buffer is compacted when its read offset passes this. */
  const COMPACT_THRESHOLD := 16384

  /** What one read of the socket brings: bytes, or an error.  A cancelled read leaves the connection up. */
  datatype Arrival = Data(data: bytes) | EndOfFile | Cancelled | Broken

  /** What one call brings. */
  datatype Outcome =
    | Received(channel: byte, data: bytes)
    | NotConnected
    | ConnectionClosed
    | ReceiveFailed

  // ---------------------------------------------------------------- specification

  /** A connection seen from outside: the bytes read but not consumed, what the socket will bring, and whether
      the connection counts as up. */
  datatype Link = Link(unread: bytes, supply: seq<Arrival>, connected: bool)

  function FrameLength(unread: bytes): nat
    requires |unread| >= 4
  {
    unread[2] as int * 256 + unread[3]
  }

  predicate FrameReady(unread: bytes) {
    |unread| >= 4 && unread[0] == DOLLAR && |unread| >= 4 + FrameLength(unread)
  }

  /** The response at the front of the buffer that is skipped there; 0 if there is none, or not all of it. */
  function Skippable(unread: bytes): (n: nat)
    ensures n <= |unread|
  {
    if unread != [] && unread[0] != DOLLAR then RtspParser.FindResponseEnd(unread) else 0
  }

  /** The call ends here: what it brings, and what it leaves, if the next read of the socket fails. */
  function ReadFails(unread: bytes, supply: seq<Arrival>): (Outcome, Link)
    requires supply == [] || !supply[0].Data?
  {
    if supply == [] then (ConnectionClosed, Link(unread, [], false))
    else match supply[0] {
      case EndOfFile => (ConnectionClosed, Link(unread, supply[1..], false))
      case Cancelled => (ReceiveFailed, Link(unread, supply[1..], true))
      case Broken => (ReceiveFailed, Link(unread, supply[1..], false))
    }
  }

  function TakeFrame(unread: bytes, supply: seq<Arrival>): (Outcome, Link)
    requires FrameReady(unread)
  {
    var end := 4 + FrameLength(unread);
    (Received(unread[1], unread[4..end]), Link(unread[end..], supply, true))
  }

  /** One call of receive_interleaved_frame, the previous frame being consumed already. */
  function Receive(unread: bytes, supply: seq<Arrival>): (r: (Outcome, Link))
    ensures !r.0.NotConnected? && (r.0.Received? ==> r.1.connected)
    ensures |r.1.supply| <= |supply|
    ensures r.1.connected && |r.1.supply| == |supply| ==> |r.1.unread| < |unread|
    ensures |r.1.supply| == |supply| ==> |r.1.unread| <= |unread|
    decreases |supply|, |unread|
  {
    if Skippable(unread) > 0 then Receive(unread[Skippable(unread)..], supply)
    else if FrameReady(unread) then TakeFrame(unread, supply)
    else if supply != [] && supply[0].Data? then Receive(unread + supply[0].data, supply[1..])
    else ReadFails(unread, supply)
  }

  lemma Unroll(unread: bytes, supply: seq<Arrival>)
    ensures Receive(unread, supply) ==
            if Skippable(unread) > 0 then Receive(unread[Skippable(unread)..], supply)
            else if FrameReady(unread) then TakeFrame(unread, supply)
            else if supply != [] && supply[0].Data? then Receive(unread + supply[0].data, supply[1..])
            else ReadFails(unread, supply)
  {
  }

  function ReceiveOn(link: Link): (Outcome, Link) {
    if link.connected then Receive(link.unread, link.supply) else (NotConnected, link)
  }

  // --------------------------------------------------------------------- the class

  class RtspConnection {
    var recvBuffer: bytes
    var recvOffset: nat
    var pendingConsume: nat
    var connected: bool
    /** What the peer and the network still have in store for this socket. */
    var socket: seq<Arrival>

    ghost predicate Valid()
      reads this
    {
      recvOffset + pendingConsume <= |recvBuffer|
    }

    /** The unread bytes start behind the frame handed out last. */
    ghost function Abstract(): Link
      requires Valid()
      reads this
    {
      Link(recvBuffer[recvOffset + pendingConsume..], socket, connected)
    }

    constructor (socket: seq<Arrival>)
      ensures Valid() && Abstract() == Link([], socket, true)
    {
      recvBuffer, recvOffset, pendingConsume, connected := [], 0, 0, true;
      this.socket := socket;
    }

    function Available(): nat
      requires Valid()
      reads this
    {
      |recvBuffer| - recvOffset
    }

    /** Moves the bytes not yet consumed to the front; none of them changes. */
    method Compact()
      requires Valid()
      modifies `recvBuffer, `recvOffset
      ensures Valid() && recvOffset == 0
      ensures recvBuffer == old(recvBuffer[recvOffset..])
      ensures Abstract() == old(Abstract())
    {
      if recvOffset == 0 { return; }
      var remaining := |recvBuffer| - recvOffset;
      recvBuffer := recvBuffer[recvOffset..recvOffset + remaining];
      recvOffset := 0;
    }

    /** Appends what the socket brings, or says why it brings nothing.  The bytes in the buffer stay. */
    method ReadMoreData() returns (read: bool, error: Outcome)
      requires Valid() && connected && pendingConsume == 0
      modifies `recvBuffer, `socket, `connected
      ensures Valid() && !error.Received?
      ensures read == (old(socket) != [] && old(socket)[0].Data?)
      ensures read ==>
                && connected && socket == old(socket)[1..]
                && recvBuffer == old(recvBuffer) + old(socket)[0].data
                && recvBuffer[recvOffset..] == old(recvBuffer[recvOffset..]) + old(socket)[0].data
      ensures !read ==>
                && (error, Abstract()) == ReadFails(old(recvBuffer[recvOffset..]), old(socket))
                && recvBuffer == old(recvBuffer)
    {
      read, error := false, ReceiveFailed;
      if socket == [] {
        connected := false;
        return false, ConnectionClosed;
      }
      var arrival := socket[0];
      socket := socket[1..];
      match arrival
      case Data(data) =>
        recvBuffer := recvBuffer + data;
        read := true;
      case EndOfFile =>
        connected := false;
        error := ConnectionClosed;
      case Cancelled =>
      case Broken =>
        connected := false;
    }

    ghost function Front(): bytes
      requires Valid()
      reads this
    {
      recvBuffer[recvOffset..]
    }

    /** The inner loop: skips responses until a frame or nothing is at the front. */
    method SkipResponses() returns (ok: bool, error: Outcome)
      requires Valid() && pendingConsume == 0 && connected
      modifies `recvBuffer, `recvOffset, `socket, `connected
      ensures Valid() && !error.Received?
      ensures !ok ==> (error, Abstract()) == Receive(old(Front()), old(socket))
      ensures ok ==>
                && connected && Receive(Front(), socket) == Receive(old(Front()), old(socket))
                && Skippable(Front()) == 0 && (Front() == [] || Front()[0] == DOLLAR)
      ensures |socket| < old(|socket|) || (|socket| == old(|socket|) && |Front()| <= old(|Front()|))
    {
      hide RtspParser.FindResponseEnd, Receive;
      error := ReceiveFailed;
      while Available() > 0 && recvBuffer[recvOffset] != DOLLAR
        invariant Valid() && connected && !error.Received?
        invariant Receive(Front(), socket) == Receive(old(Front()), old(socket))
        invariant |socket| < old(|socket|) || (|socket| == old(|socket|) && |Front()| <= old(|Front()|))
        decreases |socket|, Available()
      {
        var end := RtspParser.FindEnd(recvBuffer[recvOffset..]);
        Unroll(Front(), socket);
        if end > 0 {
          assert recvBuffer[recvOffset..][end..] == recvBuffer[recvOffset + end..];
          recvOffset := recvOffset + end;
        } else {
          ok, error := ReadMoreData();
          if !ok { return; }
        }
      }
      ok := true;
    }

    /** Hands out the frame at the front, if all of it is there. */
    method TakeFront() returns (ready: bool, outcome: Outcome)
      requires Valid() && pendingConsume == 0 && connected
      modifies `pendingConsume
      ensures Valid() && (!ready ==> pendingConsume == 0)
      ensures ready == FrameReady(Front())
      ensures ready ==>
                && (outcome, Abstract()) == TakeFrame(Front(), socket)
                && pendingConsume == 4 + |outcome.data|
                && outcome.data == recvBuffer[recvOffset + 4..recvOffset + pendingConsume]
    {
      ready, outcome := false, ReceiveFailed;
      if Available() >= 4 && recvBuffer[recvOffset] == DOLLAR {
        var length := recvBuffer[recvOffset + 2] as int * 256 + recvBuffer[recvOffset + 3];
        if Available() >= 4 + length {
          assert Front()[4..4 + length] == recvBuffer[recvOffset + 4..recvOffset + 4 + length];
          assert Front()[4 + length..] == recvBuffer[recvOffset + 4 + length..];
          pendingConsume := 4 + length;
          ready := true;
          outcome := Received(recvBuffer[recvOffset + 1], recvBuffer[recvOffset + 4..recvOffset + 4 + length]);
        }
      }
    }

    /** receive_interleaved_frame: the frame is a view into the buffer that stays until the next call. */
    method ReceiveInterleavedFrame() returns (outcome: Outcome)
      requires Valid()
      modifies this
      ensures Valid()
      ensures (outcome, Abstract()) == ReceiveOn(old(Abstract()))
      ensures outcome.Received? ==>
                && pendingConsume == 4 + |outcome.data|
                && outcome.data == recvBuffer[recvOffset + 4..recvOffset + pendingConsume]
    {
      hide Skippable, FrameReady, TakeFrame, Receive;
      if !connected { return NotConnected; }
      recvOffset := recvOffset + pendingConsume;
      pendingConsume := 0;
      if recvOffset > COMPACT_THRESHOLD {
        Compact();
      }
      ghost var start := old(Abstract());
      while true
        invariant Valid() && pendingConsume == 0 && connected
        invariant Receive(Front(), socket) == Receive(start.unread, start.supply)
        decreases |socket|, Available()
      {
        var ok, error := SkipResponses();
        if !ok { return error; }
        Unroll(Front(), socket);
        var ready, frame := TakeFront();
        if ready { return frame; }
        ok, error := ReadMoreData();
        if !ok { return error; }
      }
    }

    method Close()
      modifies this
      ensures Valid() && Abstract() == Link([], socket, false) && socket == old(socket)
    {
      connected := false;
      recvBuffer, recvOffset, pendingConsume := [], 0, 0;
    }
  }
}
