/** Cutting a message into UDP packets: the fragment header and HighBandwidthPublisher::publish
    (src/libs/PubSub/HighBandwidthPublisher.h and .cpp). The packed header is stored in the
    host's byte order, which publisher and subscriber share. */
module Fragmentation {
  import opened ByteSwap
  import opened Wrappers
  import opened Chunking

  const FRAGMENT_HEADER_SIZE: nat := 12
  const MAX_FRAGMENTS: nat := 65535

  /** A packet: FragmentHeader and what follows it. */
  datatype Fragment = Fragment(messageId: u32, fragmentNum: u16, totalFragments: u16, topicLen: u16, body: seq<byte>)

  datatype Message = Message(topic: seq<byte>, payload: seq<byte>)

  // ---- the wire format ----

  function FragmentHeaderBytes(f: Fragment, o: ByteOrder): (r: seq<byte>)
    ensures |r| == FRAGMENT_HEADER_SIZE
  {
    WordBytes(f.messageId, o) + U16Bytes(f.fragmentNum, o) + U16Bytes(f.totalFragments, o)
    + U16Bytes(f.topicLen, o) + U16Bytes(0, o)
  }

  function Wire(f: Fragment, o: ByteOrder): seq<byte> { FragmentHeaderBytes(f, o) + f.body }

  function Unwire(d: seq<byte>, o: ByteOrder): Option<Fragment> {
    if |d| < FRAGMENT_HEADER_SIZE then None
    else Some(Fragment(WordAt(d, 0, o), U16At(d, 4, o), U16At(d, 6, o), U16At(d, 8, o), d[FRAGMENT_HEADER_SIZE..]))
  }

  lemma WireRoundTrip(f: Fragment, o: ByteOrder)
    ensures Unwire(Wire(f, o), o) == Some(f)
  {
    hide WordAt, U16At, WordBytes, U16Bytes;
    var id, num := WordBytes(f.messageId, o), U16Bytes(f.fragmentNum, o);
    var total, len, pad := U16Bytes(f.totalFragments, o), U16Bytes(f.topicLen, o), U16Bytes(0, o);
    var d := Wire(f, o);
    assert d == [] + id + (num + total + len + pad + f.body);
    WordReadBack([], f.messageId, num + total + len + pad + f.body, o);
    assert d == id + num + (total + len + pad + f.body);
    U16ReadBack(id, f.fragmentNum, total + len + pad + f.body, o);
    assert d == (id + num) + total + (len + pad + f.body);
    U16ReadBack(id + num, f.totalFragments, len + pad + f.body, o);
    assert d == (id + num + total) + len + (pad + f.body);
    U16ReadBack(id + num + total, f.topicLen, pad + f.body, o);
    assert d[FRAGMENT_HEADER_SIZE..] == f.body;
  }

  /** Where the fields of FragmentHeader stand, two reserved bytes last. */
  lemma WireLayout(d: seq<byte>, o: ByteOrder)
    ensures Unwire(d, o).Some? <==> |d| >= 12
    ensures |d| >= 12 ==>
              var f := Unwire(d, o).value;
              && f.messageId == WordAt(d, 0, o) && f.fragmentNum == U16At(d, 4, o)
              && f.totalFragments == U16At(d, 6, o) && f.topicLen == U16At(d, 8, o) && f.body == d[12..]
  {
  }

  /** A packet byte by byte, on hosts of either order. */
  lemma WireBytes()
    ensures var f := Fragment(0x0102_0304, 0x0506, 0x0708, 0x090A, [0xFF]);
            && Wire(f, LittleEndian) == [4, 3, 2, 1, 6, 5, 8, 7, 0x0A, 9, 0, 0, 0xFF]
            && Wire(f, BigEndian) == [1, 2, 3, 4, 5, 6, 7, 8, 9, 0x0A, 0, 0, 0xFF]
  {
  }

  // ---- the cut ----

  /** The topic leaves room in the first fragment (mp is the payload room of a fragment). */
  predicate Fits(m: Message, mp: nat) { 0 < mp && |m.topic| <= mp }

  function FirstSpace(m: Message, mp: nat): nat
    requires Fits(m, mp)
  {
    mp - |m.topic|
  }

  function Pieces(m: Message, mp: nat): (r: seq<seq<byte>>)
    requires Fits(m, mp)
    ensures |r| > 0
  {
    var first := FirstSpace(m, mp);
    if |m.payload| <= first then [m.payload] else [m.payload[..first]] + Chunks(m.payload[first..], mp)
  }

  /** numFragmentsCalc */
  function FragmentCount(m: Message, mp: nat): nat
    requires Fits(m, mp)
  {
    var first := FirstSpace(m, mp);
    if |m.payload| > first then 1 + CeilDiv(|m.payload| - first, mp) else 1
  }

  /** A message that publish accepts. */
  predicate Publishable(m: Message, mp: nat) { Fits(m, mp) && FragmentCount(m, mp) <= MAX_FRAGMENTS }

  /** The ceiling-division count is the number of pieces the loop cuts; they rebuild the payload. */
  lemma PiecesRebuild(m: Message, mp: nat)
    requires Fits(m, mp)
    ensures |Pieces(m, mp)| == FragmentCount(m, mp)
    ensures Flatten(Pieces(m, mp)) == m.payload
  {
    hide CeilDiv;
    var first := FirstSpace(m, mp);
    if |m.payload| > first {
      var rest := m.payload[first..];
      ChunksCount(rest, mp);
      ChunksRebuild(rest, mp);
      assert Pieces(m, mp)[1..] == Chunks(rest, mp);
      assert m.payload == m.payload[..first] + rest;
    } else {
      assert Pieces(m, mp)[1..] == [];
    }
  }

  /** The bytes that fragment i carries after its header. */
  function Body(m: Message, mp: nat, i: nat): seq<byte>
    requires Fits(m, mp) && i < |Pieces(m, mp)|
  {
    if i == 0 then m.topic + Pieces(m, mp)[0] else Pieces(m, mp)[i]
  }

  /** No packet exceeds the MTU, every packet but the last is full, and no later one is empty. */
  lemma PiecesFull(m: Message, mp: nat, i: nat)
    requires Fits(m, mp) && i < |Pieces(m, mp)|
    ensures |Body(m, mp, i)| <= mp
    ensures i < |Pieces(m, mp)| - 1 ==> |Body(m, mp, i)| == mp
    ensures i > 0 ==> |Body(m, mp, i)| > 0
  {
    if |m.payload| > FirstSpace(m, mp) && i > 0 {
      ChunksFull(m.payload[FirstSpace(m, mp)..], mp, i - 1);
    }
  }

  function FragmentOf(id: u32, m: Message, mp: nat, i: nat): Fragment
    requires Publishable(m, mp) && i < |Pieces(m, mp)|
  {
    PiecesRebuild(m, mp);
    Fragment(id, i, |Pieces(m, mp)|, if i == 0 then |m.topic| % 0x1_0000 else 0, Body(m, mp, i))
  }

  /** The packets of a message, in sending order. */
  function Packets(id: u32, m: Message, mp: nat, o: ByteOrder): seq<seq<byte>>
    requires Publishable(m, mp)
  {
    seq(|Pieces(m, mp)|, i requires 0 <= i < |Pieces(m, mp)| => Wire(FragmentOf(id, m, mp, i), o))
  }

  /** What packet i of a message holds: the id, its number and the total, the topic's 16-bit
      length in the first one only, and there the topic before the payload. */
  lemma PacketFields(id: u32, m: Message, mp: nat, o: ByteOrder, i: nat)
    requires Publishable(m, mp) && i < |Pieces(m, mp)|
    ensures |Packets(id, m, mp, o)| == |Pieces(m, mp)|
    ensures var f := Unwire(Packets(id, m, mp, o)[i], o);
            && f.Some? && f.value.messageId == id && f.value.fragmentNum == i
            && f.value.totalFragments == |Packets(id, m, mp, o)|
            && f.value.topicLen == (if i == 0 then |m.topic| % 0x1_0000 else 0)
            && f.value.body == (if i == 0 then m.topic else []) + Pieces(m, mp)[i]
  {
    hide Wire, Unwire, Pieces, FragmentCount;
    WireRoundTrip(FragmentOf(id, m, mp, i), o);
  }

  // ---- what a receiver makes of all fragments ----

  /** topicLen is 16 bits wide: of a longer topic the receiver keeps only this prefix. */
  function TopicPrefix(m: Message): nat { |m.topic| % 0x1_0000 }

  function Arriving(m: Message): Message {
    Message(m.topic[..TopicPrefix(m)], m.topic[TopicPrefix(m)..] + m.payload)
  }

  /** A message arrives as it was published exactly when its topic is shorter than 2^16. */
  lemma ArrivesIntactIff(m: Message)
    ensures Arriving(m) == m <==> |m.topic| < 0x1_0000
  {
  }

  /** What slot i of the reassembly buffer must hold. */
  function Slot(m: Message, mp: nat, i: nat): seq<byte>
    requires Fits(m, mp) && i < |Pieces(m, mp)|
  {
    if i == 0 then Body(m, mp, 0)[TopicPrefix(m)..] else Pieces(m, mp)[i]
  }

  lemma SlotsTail(m: Message, mp: nat, slots: seq<seq<byte>>)
    requires Fits(m, mp) && |slots| == |Pieces(m, mp)|
    requires forall i :: 0 <= i < |slots| ==> slots[i] == Slot(m, mp, i)
    ensures slots[1..] == Pieces(m, mp)[1..]
  {
  }

  lemma FlattenFirst(ss: seq<seq<byte>>)
    requires ss != []
    ensures Flatten(ss) == ss[0] + Flatten(ss[1..])
  {
  }

  lemma SplitTopic(topic: seq<byte>, first: seq<byte>, rest: seq<byte>, l: nat)
    requires l <= |topic|
    ensures (topic + first)[..l] == topic[..l]
    ensures (topic + first)[l..] + rest == topic[l..] + (first + rest)
  {
  }

  lemma PrefixFits(m: Message)
    ensures TopicPrefix(m) <= |m.topic|
  {
  }

  lemma SlotsSum(topic: seq<byte>, ps: seq<seq<byte>>, slots: seq<seq<byte>>, l: nat)
    requires l <= |topic| && |ps| == |slots| > 0
    requires slots[0] == (topic + ps[0])[l..] && slots[1..] == ps[1..]
    ensures Flatten(slots) == topic[l..] + Flatten(ps)
  {
    hide Flatten;
    FlattenFirst(slots);
    FlattenFirst(ps);
    SplitTopic(topic, ps[0], Flatten(ps[1..]), l);
  }

  lemma SlotsRebuild(m: Message, mp: nat, slots: seq<seq<byte>>)
    requires Fits(m, mp) && |slots| == |Pieces(m, mp)|
    requires forall i :: 0 <= i < |slots| ==> slots[i] == Slot(m, mp, i)
    ensures Flatten(slots) == Arriving(m).payload
    ensures Body(m, mp, 0)[..TopicPrefix(m)] == Arriving(m).topic
  {
    hide Pieces, FragmentCount, TopicPrefix, Flatten;
    var ps, l := Pieces(m, mp), TopicPrefix(m);
    PiecesRebuild(m, mp);
    SlotsTail(m, mp, slots);
    assert l <= |m.topic| by { PrefixFits(m); }
    SlotsSum(m.topic, ps, slots, l);
    assert Flatten(slots) == m.topic[l..] + m.payload;
    SplitTopic(m.topic, ps[0], [], l);
  }

  // ---- the publisher ----

  lemma FirstPiece(m: Message, mp: nat, n: nat)
    requires Fits(m, mp) && n == if |m.payload| <= FirstSpace(m, mp) then |m.payload| else FirstSpace(m, mp)
    ensures Pieces(m, mp)[0] == m.payload[..n]
    ensures Pieces(m, mp)[1..] == Chunks(m.payload[n..], mp)
  {
  }

  lemma NextPiece(m: Message, mp: nat, i: nat, offset: nat, n: nat)
    requires Fits(m, mp) && 0 < i < |Pieces(m, mp)| && offset <= |m.payload|
    requires Pieces(m, mp)[i..] == Chunks(m.payload[offset..], mp)
    requires n == if |m.payload| - offset <= mp then |m.payload| - offset else mp
    ensures Pieces(m, mp)[i] == m.payload[offset..offset + n]
    ensures Pieces(m, mp)[i + 1..] == Chunks(m.payload[offset + n..], mp)
  {
    var rest := m.payload[offset..];
    assert Pieces(m, mp)[i] == Pieces(m, mp)[i..][0] == Chunks(rest, mp)[0];
    assert Pieces(m, mp)[i + 1..] == Pieces(m, mp)[i..][1..];
    assert rest[n..] == m.payload[offset + n..];
    if |rest| <= mp {
      assert rest[n..] == [];
      assert rest == m.payload[offset..offset + n];
    }
  }

  class Publisher {
    const name: seq<byte>
    const mtu: nat
    const maxPayloadPerFragment: nat
    const host: ByteOrder
    var socketOpen: bool
    var running: bool
    var messageIdCounter: u32

    constructor (name: seq<byte>, mtu: nat, host: ByteOrder, socketOpen: bool)
      requires FRAGMENT_HEADER_SIZE <= mtu
      ensures this.name == name && this.mtu == mtu && this.host == host
      ensures maxPayloadPerFragment == mtu - FRAGMENT_HEADER_SIZE
      ensures this.socketOpen == socketOpen && running == socketOpen && messageIdCounter == 0
    {
      this.name := name;
      this.mtu := mtu;
      this.maxPayloadPerFragment := mtu - FRAGMENT_HEADER_SIZE;
      this.host := host;
      this.socketOpen := socketOpen;
      this.running := socketOpen;
      this.messageIdCounter := 0;
    }

    /** First fragment: topic, then as much payload as fits. What the buffer holds beyond
        the returned size is never sent. */
    method FillFirst(packet: array<byte>, topic: seq<byte>, piece: seq<byte>, ghost f: Fragment)
      returns (bytesToSend: nat)
      requires FRAGMENT_HEADER_SIZE + |topic| + |piece| <= packet.Length && f.body == topic + piece
      requires packet[..FRAGMENT_HEADER_SIZE] == FragmentHeaderBytes(f, host)
      modifies packet
      ensures bytesToSend <= packet.Length && packet[..bytesToSend] == Wire(f, host)
    {
      hide FragmentHeaderBytes;
      var packetDataOffset := FRAGMENT_HEADER_SIZE;
      CopyInto(packet, packetDataOffset, topic);
      assert packet[..packetDataOffset + |topic|] == FragmentHeaderBytes(f, host) + topic;
      packetDataOffset := packetDataOffset + |topic|;
      CopyInto(packet, packetDataOffset, piece);
      bytesToSend := packetDataOffset + |piece|;
      assert packet[..bytesToSend] == FragmentHeaderBytes(f, host) + topic + piece;
    }

    method FillNext(packet: array<byte>, piece: seq<byte>, ghost f: Fragment) returns (bytesToSend: nat)
      requires FRAGMENT_HEADER_SIZE + |piece| <= packet.Length && f.body == piece
      requires packet[..FRAGMENT_HEADER_SIZE] == FragmentHeaderBytes(f, host)
      modifies packet
      ensures bytesToSend <= packet.Length && packet[..bytesToSend] == Wire(f, host)
    {
      hide FragmentHeaderBytes;
      CopyInto(packet, FRAGMENT_HEADER_SIZE, piece);
      bytesToSend := FRAGMENT_HEADER_SIZE + |piece|;
    }

    /** Stores the packed header at the front of the reused buffer. */
    method WriteHeader(packet: array<byte>, messageId: u32, fragmentNum: u16, totalFragments: u16, topicLen: u16,
                       ghost f: Fragment)
      requires FRAGMENT_HEADER_SIZE <= packet.Length
      requires f == Fragment(messageId, fragmentNum, totalFragments, topicLen, f.body)
      modifies packet
      ensures packet[..FRAGMENT_HEADER_SIZE] == FragmentHeaderBytes(f, host)
    {
      WriteU32(packet, 0, messageId, host);
      WriteU16(packet, 4, fragmentNum, host);
      WriteU16(packet, 6, totalFragments, host);
      WriteU16(packet, 8, topicLen, host);
      WriteU16(packet, 10, 0, host);
      hide WordBytes, U16Bytes;
    }

    method SendFragments(messageId: u32, namespacedTopic: seq<byte>, payload: seq<byte>, numFragments: u16,
                         failAt: Option<nat>)
      returns (ok: bool, sent: seq<seq<byte>>)
      requires maxPayloadPerFragment == mtu - FRAGMENT_HEADER_SIZE
      requires Publishable(Message(namespacedTopic, payload), maxPayloadPerFragment)
      requires numFragments == FragmentCount(Message(namespacedTopic, payload), maxPayloadPerFragment)
      ensures var all := Packets(messageId, Message(namespacedTopic, payload), maxPayloadPerFragment, host);
              && (ok <==> failAt.None? || failAt.value >= |all|)
              && sent == if ok then all else all[..failAt.value]
    {
      hide FragmentHeaderBytes, CeilDiv, Chunks, Pieces, FragmentCount, Wire;
      ghost var m, mp := Message(namespacedTopic, payload), maxPayloadPerFragment;
      ghost var all := Packets(messageId, m, mp, host);
      PiecesRebuild(m, mp);
      var topicSize, first := |namespacedTopic|, maxPayloadPerFragment - |namespacedTopic|;
      var packet := new byte[mtu];
      var payloadOffset: nat := 0;
      sent := [];
      for fragNum := 0 to numFragments
        invariant sent == all[..fragNum] && (failAt.Some? ==> failAt.value >= fragNum)
        invariant payloadOffset <= |payload|
        invariant fragNum > 0 ==> Pieces(m, mp)[fragNum..] == Chunks(payload[payloadOffset..], mp)
      {
        ghost var f := FragmentOf(messageId, m, mp, fragNum);
        WriteHeader(packet, messageId, fragNum, numFragments, if fragNum == 0 then topicSize % 0x1_0000 else 0, f);
        var bytesToSend: nat;
        if fragNum == 0 {
          var payloadInFirstFrag := if |payload| <= first then |payload| else first;
          FirstPiece(m, mp, payloadInFirstFrag);
          bytesToSend := FillFirst(packet, namespacedTopic, payload[..payloadInFirstFrag], f);
          payloadOffset := payloadInFirstFrag;
        } else {
          var remainingPayload := |payload| - payloadOffset;
          var payloadInThisFrag := if remainingPayload <= maxPayloadPerFragment then remainingPayload
                                   else maxPayloadPerFragment;
          NextPiece(m, mp, fragNum, payloadOffset, payloadInThisFrag);
          bytesToSend := FillNext(packet, payload[payloadOffset..payloadOffset + payloadInThisFrag], f);
          payloadOffset := payloadOffset + payloadInThisFrag;
        }
        if failAt == Some(fragNum) { return false, sent; }
        sent := sent + [packet[..bytesToSend]];
      }
      return true, sent;
    }

    /** `serialized` is None when serialisation fails; `failAt` is the fragment whose sendto
        fails, if any. A message that is going to be cut needs a topic that fits in the first
        fragment: the source copies it into the packet buffer without a check. */
    method Publish(topic: seq<byte>, serialized: Option<seq<byte>>, failAt: Option<nat>)
      returns (ok: bool, sent: seq<seq<byte>>)
      requires maxPayloadPerFragment == mtu - FRAGMENT_HEADER_SIZE
      requires socketOpen && running && serialized.Some? ==> |name| + 1 + |topic| <= maxPayloadPerFragment
      modifies this`messageIdCounter
      ensures var accepted := socketOpen && running && serialized.Some?
                && FragmentCount(Message(name + [0x2F] + topic, serialized.value), maxPayloadPerFragment) <= 65535;
              if !accepted then !ok && sent == [] && messageIdCounter == old(messageIdCounter)
              else
                var m := Message(name + [0x2F] + topic, serialized.value);
                var all := Packets(old(messageIdCounter), m, maxPayloadPerFragment, host);
                && messageIdCounter == (old(messageIdCounter) + 1) % 0x1_0000_0000
                && (ok <==> failAt.None? || failAt.value >= |all|)
                && sent == if ok then all else all[..failAt.value]
    {
      ok, sent := false, [];
      if !socketOpen || !running || serialized.None? { return; }
      ghost var m := Message(name + [0x2F] + topic, serialized.value);
      var namespacedTopic := name + [0x2F] + topic;
      var payload := serialized.value;
      var topicSize, totalPayloadSize := |namespacedTopic|, |payload|;
      var firstFragPayloadSpace := maxPayloadPerFragment - topicSize;
      var numFragments := 1;
      if totalPayloadSize > firstFragPayloadSpace {
        var remaining := totalPayloadSize - firstFragPayloadSpace;
        numFragments := numFragments + (remaining + maxPayloadPerFragment - 1) / maxPayloadPerFragment;
      }
      assert numFragments == FragmentCount(m, maxPayloadPerFragment);
      if numFragments > MAX_FRAGMENTS { return; }
      var messageId := messageIdCounter;
      messageIdCounter := (messageIdCounter + 1) % 0x1_0000_0000;
      ok, sent := SendFragments(messageId, namespacedTopic, payload, numFragments, failAt);
    }
  }
}
