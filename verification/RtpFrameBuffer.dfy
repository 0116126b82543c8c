/** All RTP packets of one frame in one buffer (nxnet/rtp/rtp_frame_buffer.h). */
module RtpFrameBuffer {
  import opened Bytes
  import opened Sequences

  /** Where each of the packets starts; offsets are 32 bits wide. */
  function Starts(packets: seq<bytes>): (s: seq<uint32>)
    ensures |s| == |packets|
  {
    if packets == [] then [] else
      var init := packets[..|packets| - 1];
      Starts(init) + [|Concat(init)| % 0x1_0000_0000]
  }

  class RtpFrameBuffer {
    var data: bytes
    var packetOffsets: seq<uint32>
    /** The packets begun so far; the last one may still grow. */
    ghost var packets: seq<bytes>

    /** The buffer is being filled. */
    ghost predicate Open()
      reads this
    {
      data == Concat(packets) && packetOffsets == Starts(packets)
    }

    /** The sentinel is in place. */
    ghost predicate Finalized()
      reads this
    {
      data == Concat(packets) && packetOffsets == Starts(packets) + [|data| % 0x1_0000_0000]
    }

    constructor ()
      ensures Open() && packets == []
    {
      data, packetOffsets, packets := [], [], [];
    }

    method Clear()
      modifies this
      ensures Open() && packets == []
    {
      data, packetOffsets, packets := [], [], [];
    }

    method BeginPacket()
      requires Open()
      modifies this
      ensures Open() && packets == old(packets) + [[]]
    {
      ConcatSnoc(packets, []);
      assert (packets + [[]])[..|packets|] == packets;
      packetOffsets := packetOffsets + [|data| % 0x1_0000_0000];
      packets := packets + [[]];
    }

    method Append(s: bytes)
      requires Open() && packets != []
      modifies `data, `packets
      ensures Open() && |packets| == |old(packets)|
      ensures packets == old(packets)[..|packets| - 1] + [old(packets)[|packets| - 1] + s]
    {
      ghost var init, last := packets[..|packets| - 1], packets[|packets| - 1];
      assert packets == init + [last];
      ConcatSnoc(init, last);
      ConcatSnoc(init, last + s);
      assert (init + [last + s])[..|init|] == init;
      assert Concat(init) + last + s == Concat(init) + (last + s);
      data := data + s;
      packets := init + [last + s];
    }

    method FinalizeBuffer()
      requires Open()
      modifies `packetOffsets
      ensures Finalized() && packets == old(packets)
    {
      packetOffsets := packetOffsets + [|data| % 0x1_0000_0000];
    }

    /** A finalized buffer has as many packets as were begun; an empty or unfinished one reports
        what the offsets say. */
    method PacketCount() returns (n: nat)
      ensures Finalized() ==> n == |packets|
      ensures n == if |packetOffsets| > 1 then |packetOffsets| - 1 else 0
    {
      n := if |packetOffsets| > 1 then |packetOffsets| - 1 else 0;
    }

    /** The slices between neighbouring offsets are the packets, as long as the offsets do not wrap. */
    method GetPacket(i: nat) returns (packet: bytes)
      requires Finalized() && i < |packets| && |data| < 0x1_0000_0000
      ensures packet == packets[i]
    {
      SliceIsPacket(packets, i);
      packet := data[packetOffsets[i]..packetOffsets[i + 1]];
    }
  }

  lemma {:induction false} StartsAt(packets: seq<bytes>, i: nat)
    requires i < |packets|
    ensures Starts(packets)[i] == |Concat(packets[..i])| % 0x1_0000_0000
  {
    var n := |packets| - 1;
    if i < n {
      StartsAt(packets[..n], i);
      assert packets[..n][..i] == packets[..i];
    }
  }

  /** Where a packet lies among the others. */
  lemma PacketAt(packets: seq<bytes>, i: nat)
    requires i < |packets|
    ensures Concat(packets) == Concat(packets[..i]) + (packets[i] + Concat(packets[i + 1..]))
    ensures Concat(packets[..i + 1]) == Concat(packets[..i]) + packets[i]
  {
    hide Concat;
    var upTo, behind := packets[..i + 1], packets[i + 1..];
    ConcatUpTo(packets, i);
    assert packets == upTo + behind;
    ConcatAppend(upTo, behind);
    Assoc(Concat(packets[..i]), packets[i], Concat(behind));
  }

  lemma ConcatUpTo(packets: seq<bytes>, i: nat)
    requires i < |packets|
    ensures Concat(packets[..i + 1]) == Concat(packets[..i]) + packets[i]
  {
    hide Concat;
    assert packets[..i + 1] == packets[..i] + [packets[i]];
    ConcatSnoc(packets[..i], packets[i]);
  }

  lemma OffsetAt(packets: seq<bytes>, i: nat)
    requires i <= |packets| && |Concat(packets)| < 0x1_0000_0000
    ensures |Concat(packets[..i])| <= |Concat(packets)|
    ensures (Starts(packets) + [|Concat(packets)| % 0x1_0000_0000])[i] == |Concat(packets[..i])|
  {
    hide Starts, Concat;
    if i < |packets| {
      PacketAt(packets, i);
      StartsAt(packets, i);
    } else {
      assert packets[..i] == packets;
    }
  }

  lemma SliceIsPacket(packets: seq<bytes>, i: nat)
    requires i < |packets| && |Concat(packets)| < 0x1_0000_0000
    ensures var offsets := Starts(packets) + [|Concat(packets)| % 0x1_0000_0000];
            && offsets[i] <= offsets[i + 1] <= |Concat(packets)|
            && Concat(packets)[offsets[i]..offsets[i + 1]] == packets[i]
  {
    hide Starts, Concat;
    OffsetAt(packets, i);
    OffsetAt(packets, i + 1);
    PacketAt(packets, i);
    var all, x, rest := Concat(packets), Concat(packets[..i]), packets[i] + Concat(packets[i + 1..]);
    assert all[0..] == all;
    SplitTail(all, 0, x, rest);
    SplitTail(all, |x|, packets[i], Concat(packets[i + 1..]));
  }
}
