/** Publisher, lossy network and subscriber together. The publisher numbers its messages
    0, 1, 2, ...; the network may lose, duplicate, reorder and interleave packets; a failing
    sendto leaves only the first fragments of a message in the network. No datagram is longer
    than the subscriber's receive buffer, which is UDP's maximum. */
module MulticastSystem {
  import opened ByteSwap
  import opened Wrappers
  import opened Fragmentation
  import opened Reassembly
  import opened ReassemblyRuns
  import opened DeliveryResults

  datatype Action =
    | Publish(message: Message, count: nat)
    | Lose(packet: seq<byte>)
    | Duplicate(packet: seq<byte>)
    | Receive(packet: seq<byte>, time: int)
    | Clean(time: int)

  /** Messages published, packets under way, and what the subscriber has seen. */
  datatype System = System(sent: seq<Message>, network: multiset<seq<byte>>, events: seq<Event>)

  /** mtu minus header, and the host byte order. */
  datatype Link = Link(mp: nat, o: ByteOrder)

  const MAX_DATAGRAM: nat := 65535

  predicate Enabled(s: System, a: Action, l: Link) {
    match a
    case Publish(m, count) =>
      && |s.sent| < 0x1_0000_0000 && Publishable(m, l.mp) && count <= |Pieces(m, l.mp)|
      && forall i :: 0 <= i < count ==> |Packets(|s.sent|, m, l.mp, l.o)[i]| <= MAX_DATAGRAM
    case Lose(d) => d in s.network
    case Duplicate(d) => d in s.network
    case Receive(d, _) => d in s.network
    case Clean(_) => true
  }

  function Do(s: System, a: Action, l: Link): System
    requires Enabled(s, a, l)
  {
    match a
    case Publish(m, count) =>
      s.(sent := s.sent + [m], network := s.network + multiset(Packets(|s.sent|, m, l.mp, l.o)[..count]))
    case Lose(d) => s.(network := s.network - multiset{d})
    case Duplicate(d) => s.(network := s.network + multiset{d})
    case Receive(d, t) => s.(network := s.network - multiset{d}, events := s.events + [Arrival(d, t)])
    case Clean(t) => s.(events := s.events + [Cleanup(t)])
  }

  /** The system after all actions, or None if one of them was not possible. */
  function Exec(actions: seq<Action>, l: Link): Option<System> {
    if actions == [] then Some(System([], multiset{}, []))
    else
      var s, a := Exec(actions[..|actions| - 1], l), actions[|actions| - 1];
      if s.Some? && Enabled(s.value, a, l) then Some(Do(s.value, a, l)) else None
  }

  // ---- every packet around is some packet of some published message ----

  ghost predicate SystemInv(s: System, l: Link) {
    && Published(s.sent, l.mp)
    && (forall d :: d in s.network ==> Genuine(d, s.sent, l.mp, l.o))
    && AllGenuine(s.events, s.sent, l.mp, l.o)
  }

  lemma GenuineMore(d: seq<byte>, sent: seq<Message>, m: Message, l: Link)
    requires Published(sent, l.mp) && Published(sent + [m], l.mp) && Genuine(d, sent, l.mp, l.o)
    ensures Genuine(d, sent + [m], l.mp, l.o)
  {
    hide Wire, Pieces, FragmentCount, FragmentOf;
    var id: u32, k: nat :| IsPacket(d, sent, l.mp, l.o, id, k);
    assert IsPacket(d, sent + [m], l.mp, l.o, id, k);
  }

  lemma NewGenuine(sent: seq<Message>, m: Message, i: nat, l: Link)
    requires |sent| < 0x1_0000_0000 && Published(sent, l.mp) && Publishable(m, l.mp) && i < |Pieces(m, l.mp)|
    ensures Published(sent + [m], l.mp)
    ensures Genuine(Packets(|sent|, m, l.mp, l.o)[i], sent + [m], l.mp, l.o)
  {
    hide Wire, Pieces, FragmentCount, FragmentOf;
    assert IsPacket(Packets(|sent|, m, l.mp, l.o)[i], sent + [m], l.mp, l.o, |sent|, i);
  }

  lemma SystemInvStep(s: System, a: Action, l: Link)
    requires SystemInv(s, l) && Enabled(s, a, l)
    ensures SystemInv(Do(s, a, l), l)
  {
    hide Wire, Pieces, FragmentCount, FragmentOf, Genuine, Publishable;
    var n := Do(s, a, l);
    if a.Publish? {
      var ps := Packets(|s.sent|, a.message, l.mp, l.o);
      assert Published(n.sent, l.mp);
      forall d | d in n.network
        ensures Genuine(d, n.sent, l.mp, l.o)
      {
        if d in s.network {
          GenuineMore(d, s.sent, a.message, l);
        } else {
          assert d in multiset(ps[..a.count]) && d in ps[..a.count];
          var i :| 0 <= i < a.count && ps[i] == d;
          NewGenuine(s.sent, a.message, i, l);
        }
      }
      forall i | 0 <= i < |n.events| && n.events[i].Arrival?
        ensures Genuine(n.events[i].data, n.sent, l.mp, l.o)
      {
        GenuineMore(n.events[i].data, s.sent, a.message, l);
      }
    } else {
      assert forall d :: d in n.network ==> d in s.network;
    }
  }

  lemma EmptyInv(l: Link)
    ensures SystemInv(System([], multiset{}, []), l)
  {
  }

  lemma {:induction false} ExecInv(actions: seq<Action>, l: Link)
    requires Exec(actions, l).Some?
    ensures SystemInv(Exec(actions, l).value, l)
  {
    hide SystemInv, Enabled, Do;
    if actions == [] {
      EmptyInv(l);
    } else {
      ExecInv(actions[..|actions| - 1], l);
      SystemInvStep(Exec(actions[..|actions| - 1], l).value, actions[|actions| - 1], l);
    }
  }

  // ---- what a genuine datagram brings ----

  function PacketOf(sent: seq<Message>, l: Link, id: u32, k: nat): seq<byte>
    requires Published(sent, l.mp) && id < |sent| && k < |Pieces(sent[id], l.mp)|
  {
    Wire(FragmentOf(id, sent[id], l.mp, k), l.o)
  }

  lemma PacketDecodes(sent: seq<Message>, l: Link, id: u32, k: nat)
    requires Published(sent, l.mp) && id < |sent| && k < |Pieces(sent[id], l.mp)|
    ensures |Pieces(sent[id], l.mp)| <= MAX_FRAGMENTS
    ensures var f := Unwire(PacketOf(sent, l, id, k), l.o);
            f.Some? && f.value.messageId == id && f.value.fragmentNum == k
            && f.value.totalFragments == |Pieces(sent[id], l.mp)|
  {
    PiecesRebuild(sent[id], l.mp);
    hide Wire, Unwire, Pieces, FragmentCount, Body;
    WireRoundTrip(FragmentOf(id, sent[id], l.mp, k), l.o);
  }

  /** A genuine datagram brings a published id, with that message's fragment total. */
  lemma GenuineBrings(e: Event, sent: seq<Message>, l: Link) returns (id: u32, k: u16)
    requires Published(sent, l.mp) && e.Arrival? && Genuine(e.data, sent, l.mp, l.o)
    ensures id < |sent| && k < |Pieces(sent[id], l.mp)| && e.data == PacketOf(sent, l, id, k)
    ensures var f := FragmentIn(e, l.o);
            f.Some? && f.value.messageId == id && f.value.fragmentNum == k
            && f.value.totalFragments == |Pieces(sent[id], l.mp)|
  {
    hide Wire, Unwire, Pieces, FragmentCount, FragmentOf;
    var i: u32, j: nat :| IsPacket(e.data, sent, l.mp, l.o, i, j);
    PacketDecodes(sent, l, i, j);
    id, k := i, j;
  }

  // ---- datagrams are short, so the 16-bit topic length is enough ----

  predicate AllShort(events: seq<Event>) {
    forall i :: 0 <= i < |events| && events[i].Arrival? ==> |events[i].data| <= MAX_DATAGRAM
  }

  ghost predicate Short(s: System) { AllShort(s.events) && forall d :: d in s.network ==> |d| <= MAX_DATAGRAM }

  lemma ShortStep(s: System, a: Action, l: Link)
    requires Short(s) && Enabled(s, a, l)
    ensures Short(Do(s, a, l))
  {
    hide Wire, Pieces, FragmentCount, FragmentOf, Publishable;
    var n := Do(s, a, l);
    forall d | d in n.network
      ensures |d| <= MAX_DATAGRAM
    {
      if a.Publish? && d !in s.network {
        var ps := Packets(|s.sent|, a.message, l.mp, l.o);
        assert d in multiset(ps[..a.count]) && d in ps[..a.count];
      }
    }
  }

  lemma {:induction false} ExecShort(actions: seq<Action>, l: Link)
    requires Exec(actions, l).Some?
    ensures Short(Exec(actions, l).value)
  {
    hide Enabled, Do;
    if actions == [] {
    } else {
      ExecShort(actions[..|actions| - 1], l);
      ShortStep(Exec(actions[..|actions| - 1], l).value, actions[|actions| - 1], l);
    }
  }

  /** What every reachable state of the system satisfies. */
  lemma ExecFacts(actions: seq<Action>, s: System, l: Link)
    requires Exec(actions, l) == Some(s)
    ensures Published(s.sent, l.mp) && AllGenuine(s.events, s.sent, l.mp, l.o)
    ensures AllShort(s.events) && AllSane(s.events, l.o)
  {
    hide Exec, AllGenuine, Published, AllSane;
    ExecInv(actions, l);
    ExecShort(actions, l);
    AllGenuineSane(s.events, s.sent, l.mp, l.o);
  }

  lemma FirstPacketHoldsTopic(sent: seq<Message>, l: Link, id: u32)
    requires Published(sent, l.mp) && id < |sent|
    ensures |PacketOf(sent, l, id, 0)| >= FRAGMENT_HEADER_SIZE + |sent[id].topic|
  {
    hide FragmentHeaderBytes, Pieces, FragmentCount;
  }

  /** A message whose fragment 0 arrived has a topic shorter than 2^16 bytes. */
  lemma {:induction false} ArrivedTopicFits(events: seq<Event>, sent: seq<Message>, l: Link, id: u32)
    requires Published(sent, l.mp) && AllGenuine(events, sent, l.mp, l.o) && AllShort(events)
    requires id < |sent| && 0 in Arrived(events, id, l.o)
    ensures |sent[id].topic| < 0x1_0000
  {
    hide Genuine, FragmentIn, PacketOf, Pieces, Publishable;
    if events == [] {
    } else {
      var prior, e := events[..|events| - 1], events[|events| - 1];
      if 0 in Arrived(prior, id, l.o) {
        ArrivedTopicFits(prior, sent, l, id);
      } else {
        CleanupBringsNothing(Cleanup(e.now), id, l.o);
        var i, k := GenuineBrings(e, sent, l);
        FirstPacketHoldsTopic(sent, l, id);
      }
    }
  }

  /** End to end, over every run of publisher, network and subscriber: whatever is delivered is
      the message that was published under that id, topic and payload. */
  lemma SystemSafe(actions: seq<Action>, s: System, l: Link, timeoutMs: int)
    requires Exec(actions, l) == Some(s)
    ensures AllSane(s.events, l.o)
    ensures forall d :: d in Run(s.events, Setting(timeoutMs, l.o)).delivered ==>
              d.messageId < |s.sent| && d.message == s.sent[d.messageId]
  {
    hide Exec, Run, AllGenuine, Published, Arriving, AllShort, Arrived;
    ExecFacts(actions, s, l);
    var c := Setting(timeoutMs, l.o);
    RunSafe(s.events, c, s.sent, l.mp);
    forall d | d in Run(s.events, c).delivered
      ensures d.message == s.sent[d.messageId]
    {
      DeliveredNeedsFirst(s.events, c, d);
      ArrivedTopicFits(s.events, s.sent, l, d.messageId);
      ArrivesIntactIff(s.sent[d.messageId]);
    }
  }

  // ---- delivery ----

  /** In a run of the whole system, everything that arrives under an id is that message's. */
  lemma OnlyItsPackets(events: seq<Event>, sent: seq<Message>, l: Link, id: u32)
    requires Published(sent, l.mp) && AllGenuine(events, sent, l.mp, l.o) && id < |sent|
    ensures OnlyPacketsOf(events, id, sent[id], l.mp, l.o)
  {
    hide Genuine, FragmentCount, Unwire, Pieces, Wire, FragmentOf, Body;
    forall i | 0 <= i < |events| && Brings(events[i], id, l.o)
      ensures BringsPacketOf(events[i], id, sent[id], l.mp, l.o)
    {
      var j, k := GenuineBrings(events[i], sent, l);
      WireRoundTrip(FragmentOf(id, sent[id], l.mp, k), l.o);
    }
  }

  /** What the last event delivers under a published id, among any genuine datagrams. */
  lemma CompletedDelivers(events: seq<Event>, sent: seq<Message>, l: Link, c: Setting, id: u32)
    requires Published(sent, l.mp) && AllGenuine(events, sent, l.mp, l.o) && AllShort(events) && c.o == l.o
    requires id < |sent| && |Pieces(sent[id], l.mp)| <= MAX_FRAGMENTS && events != []
    requires AllSane(events, l.o) && AllSane(events[..|events| - 1], l.o)
    ensures var prior, e, n := events[..|events| - 1], events[|events| - 1], |Pieces(sent[id], l.mp)|;
            var before, after := Run(prior, c), Run(events, c);
            var completes := Completes(LifeOf(prior, id, n, c), e, id, n, c.o);
            && DeliveriesOf(after.delivered, id) == DeliveriesOf(before.delivered, id) + (if completes then 1 else 0)
            && (completes ==> after.delivered == before.delivered + [Delivery(id, sent[id])] && id !in after.table)
  {
    hide Run, AllGenuine, Pieces, DeliveriesOf, AllSane, AllShort, Arriving, OnlyPacketsOf, FragmentCount, Completes,
         LifeOf, Arrived;
    OnlyItsPackets(events, sent, l, id);
    DeliveredIffCompleted(events, c, id, sent[id], l.mp);
    var prior, e, n := events[..|events| - 1], events[|events| - 1], |Pieces(sent[id], l.mp)|;
    if Completes(LifeOf(prior, id, n, c), e, id, n, c.o) {
      var d := Delivery(id, Arriving(sent[id]));
      assert d in Run(events, c).delivered;
      DeliveredNeedsFirst(events, c, d);
      ArrivedTopicFits(events, sent, l, id);
      ArrivesIntactIff(sent[id]);
    }
  }

  /** The event that brings the last missing packet of a published message, among any genuine
      datagrams. */
  lemma LastPacketDelivers(events: seq<Event>, sent: seq<Message>, l: Link, c: Setting, id: u32)
    requires Published(sent, l.mp) && AllGenuine(events, sent, l.mp, l.o) && AllShort(events) && c.o == l.o
    requires id < |sent| && |Pieces(sent[id], l.mp)| <= MAX_FRAGMENTS
    requires events != [] && CleanedInTime(events, id, c)
    requires AllSane(events, l.o) && AllSane(events[..|events| - 1], l.o)
    requires Arrived(events[..|events| - 1], id, l.o) != Below(|Pieces(sent[id], l.mp)|) == Arrived(events, id, l.o)
    ensures var before, after := Run(events[..|events| - 1], c), Run(events, c);
            && after.delivered == before.delivered + [Delivery(id, sent[id])]
            && DeliveriesOf(after.delivered, id) == 1 && id !in after.table
  {
    hide Run, AllGenuine, Pieces, DeliveriesOf, AllSane, Arrived, CleanedInTime, AllShort, Arriving, OnlyPacketsOf,
         FragmentCount;
    OnlyItsPackets(events, sent, l, id);
    DeliveredAtLastFragment(events, c, id, sent[id], l.mp);
    assert 0 in Below(|Pieces(sent[id], l.mp)|);
    ArrivedTopicFits(events, sent, l, id);
    ArrivesIntactIff(sent[id]);
  }

  lemma PrefixSane(events: seq<Event>, n: nat, o: ByteOrder)
    requires n <= |events| && AllSane(events, o)
    ensures AllSane(events[..n], o)
  {
    hide Sane;
  }

  /** In particular, the event at which the last missing packet of a published message arrives
      delivers that message, once, if no cleanup came too late after its first packet. */
  lemma SystemDeliversInTime(actions: seq<Action>, s: System, l: Link, timeoutMs: int, id: u32)
    requires Exec(actions, l) == Some(s) && id < |s.sent| && s.events != []
    requires CleanedInTime(s.events, id, Setting(timeoutMs, l.o))
    ensures var c, prior := Setting(timeoutMs, l.o), s.events[..|s.events| - 1];
            && AllSane(s.events, l.o) && AllSane(prior, l.o)
            && Publishable(s.sent[id], l.mp) && |Pieces(s.sent[id], l.mp)| <= MAX_FRAGMENTS
            && (Arrived(prior, id, l.o) != Below(|Pieces(s.sent[id], l.mp)|) == Arrived(s.events, id, l.o) ==>
                  && Run(s.events, c).delivered == Run(prior, c).delivered + [Delivery(id, s.sent[id])]
                  && DeliveriesOf(Run(s.events, c).delivered, id) == 1
                  && id !in Run(s.events, c).table)
  {
    hide Exec, Run, AllGenuine, Pieces, DeliveriesOf, AllSane, Arrived, Below, CleanedInTime, AllShort, FragmentCount,
         Fits, PacketOf, Unwire;
    ExecFacts(actions, s, l);
    var c, prior := Setting(timeoutMs, l.o), s.events[..|s.events| - 1];
    PrefixSane(s.events, |s.events| - 1, l.o);
    PacketDecodes(s.sent, l, id, 0);
    if Arrived(prior, id, l.o) != Below(|Pieces(s.sent[id], l.mp)|) == Arrived(s.events, id, l.o) {
      LastPacketDelivers(s.events, s.sent, l, c, id);
    }
  }

  /** End to end, exactly and in every run, whatever is lost, duplicated, reordered or cleaned up
      late: an event delivers a message under a published id if and only if it completes the
      current life of its entry, and then it delivers that very message; so the message has been
      delivered once for each completed life. */
  lemma SystemDelivers(actions: seq<Action>, s: System, l: Link, timeoutMs: int, id: u32)
    requires Exec(actions, l) == Some(s) && id < |s.sent| && s.events != []
    ensures var c, prior, e := Setting(timeoutMs, l.o), s.events[..|s.events| - 1], s.events[|s.events| - 1];
            && AllSane(s.events, l.o) && AllSane(prior, l.o)
            && Publishable(s.sent[id], l.mp) && |Pieces(s.sent[id], l.mp)| <= MAX_FRAGMENTS
            && var n, before, after := |Pieces(s.sent[id], l.mp)|, Run(prior, c), Run(s.events, c);
               var completes := Completes(LifeOf(prior, id, n, c), e, id, n, l.o);
               && DeliveriesOf(after.delivered, id) == DeliveriesOf(before.delivered, id) + (if completes then 1 else 0)
               && (completes ==> after.delivered == before.delivered + [Delivery(id, s.sent[id])] && id !in after.table)
               && DeliveriesOf(after.delivered, id) == LifeOf(s.events, id, n, c).done
  {
    hide Exec, Run, AllGenuine, Pieces, DeliveriesOf, AllSane, LifeOf, Completes, AllShort, FragmentCount, Fits,
         PacketOf, Unwire, OnlyPacketsOf, Collects;
    ExecFacts(actions, s, l);
    var c := Setting(timeoutMs, l.o);
    PrefixSane(s.events, |s.events| - 1, l.o);
    PacketDecodes(s.sent, l, id, 0);
    CompletedDelivers(s.events, s.sent, l, c, id);
    OnlyItsPackets(s.events, s.sent, l, id);
    EntryTracksLife(s.events, c, id, s.sent[id], l.mp);
  }

  // ---- a network that does not duplicate ----

  /** Each packet exists at most once, counting its past arrival. */
  ghost predicate Unduplicated(s: System, l: Link)
    requires Published(s.sent, l.mp)
  {
    forall id: u32, k: u16 :: id < |s.sent| && k < |Pieces(s.sent[id], l.mp)| ==>
      s.network[PacketOf(s.sent, l, id, k)] + ArrivalsOf(s.events, id, k, l.o) <= 1
  }

  lemma {:induction false} NoEarlyArrivals(events: seq<Event>, sent: seq<Message>, l: Link, id: u32, k: u16)
    requires Published(sent, l.mp) && AllGenuine(events, sent, l.mp, l.o) && |sent| <= id
    ensures ArrivalsOf(events, id, k, l.o) == 0
  {
    hide Genuine, FragmentIn, Publishable;
    if events == [] {
    } else {
      var prior, e := events[..|events| - 1], events[|events| - 1];
      assert forall i :: 0 <= i < |prior| ==> prior[i] == events[i];
      NoEarlyArrivals(prior, sent, l, id, k);
      if e.Arrival? { var i, j := GenuineBrings(e, sent, l); } else { CleanupBringsNothing(e, id, l.o); }
    }
  }

  lemma {:induction false} DistinctCount<T>(ps: seq<T>, n: nat, x: T)
    requires n <= |ps| && forall i, j :: 0 <= i < j < |ps| ==> ps[i] != ps[j]
    ensures multiset(ps[..n])[x] <= 1
  {
    if n == 0 {
    } else {
      DistinctCount(ps, n - 1, x);
      assert ps[..n] == ps[..n - 1] + [ps[n - 1]];
      if ps[n - 1] == x { assert x !in ps[..n - 1]; }
    }
  }

  /** Under the new id nothing was around; the packets of the old ids do not change. */
  lemma PublishUnduplicated(s: System, m: Message, count: nat, l: Link, id: u32, k: u16)
    requires SystemInv(s, l) && Unduplicated(s, l) && Enabled(s, Publish(m, count), l)
    requires Published(s.sent + [m], l.mp)
    requires id < |s.sent| + 1 && k < |Pieces((s.sent + [m])[id], l.mp)|
    ensures var n := Do(s, Publish(m, count), l);
            n.network[PacketOf(n.sent, l, id, k)] + ArrivalsOf(n.events, id, k, l.o) <= 1
  {
    hide Wire, Unwire, Pieces, FragmentCount, FragmentOf, Genuine, Publishable, ArrivalsOf, AllGenuine;
    var sent' := s.sent + [m];
    var ps, x := Packets(|s.sent|, m, l.mp, l.o), PacketOf(sent', l, id, k);
    forall i | 0 <= i < |ps|
      ensures ps[i] == PacketOf(sent', l, |s.sent|, i)
      ensures Unwire(ps[i], l.o).Some? && Unwire(ps[i], l.o).value.messageId == |s.sent|
      ensures Unwire(ps[i], l.o).value.fragmentNum == i
    {
      PacketDecodes(sent', l, |s.sent|, i);
    }
    PacketDecodes(sent', l, id, k);
    DistinctCount(ps, count, x);
    if id < |s.sent| {
      assert x == PacketOf(s.sent, l, id, k);
      assert x !in ps[..count];
    } else {
      NoEarlyArrivals(s.events, s.sent, l, id, k);
      if x in s.network {
        var j, i := GenuineBrings(Arrival(x, 0), s.sent, l);
        assert false;
      }
    }
  }

  lemma ReceiveUnduplicated(s: System, d: seq<byte>, t: int, l: Link, id: u32, k: u16)
    requires SystemInv(s, l) && Unduplicated(s, l) && d in s.network
    requires id < |s.sent| && k < |Pieces(s.sent[id], l.mp)|
    ensures var n := Do(s, Receive(d, t), l);
            n.network[PacketOf(n.sent, l, id, k)] + ArrivalsOf(n.events, id, k, l.o) <= 1
  {
    hide Wire, Unwire, Pieces, FragmentCount, FragmentOf, Genuine, Publishable, AllGenuine, PacketOf;
    var e := Arrival(d, t);
    var i, j := GenuineBrings(e, s.sent, l);
    PacketDecodes(s.sent, l, id, k);
    assert (s.events + [e])[..|s.events|] == s.events;
  }

  lemma UnduplicatedStep(s: System, a: Action, l: Link)
    requires SystemInv(s, l) && Unduplicated(s, l) && Enabled(s, a, l) && !a.Duplicate?
    ensures SystemInv(Do(s, a, l), l) && Unduplicated(Do(s, a, l), l)
  {
    SystemInvStep(s, a, l);
    hide Pieces, FragmentCount, FragmentOf, Genuine, Publishable, AllGenuine, PacketOf;
    var n := Do(s, a, l);
    forall id: u32, k: u16 | id < |n.sent| && k < |Pieces(n.sent[id], l.mp)|
      ensures n.network[PacketOf(n.sent, l, id, k)] + ArrivalsOf(n.events, id, k, l.o) <= 1
    {
      match a
      case Publish(m, count) => PublishUnduplicated(s, m, count, l, id, k);
      case Receive(d, t) => ReceiveUnduplicated(s, d, t, l, id, k);
      case Lose(d) =>
      case Clean(t) =>
        CleanupBringsNothing(Cleanup(t), id, l.o);
        assert (s.events + [Cleanup(t)])[..|s.events|] == s.events;
    }
  }

  lemma EmptyUnduplicated(l: Link)
    ensures SystemInv(System([], multiset{}, []), l) && Unduplicated(System([], multiset{}, []), l)
  {
  }

  lemma {:induction false} ExecUnduplicated(actions: seq<Action>, l: Link)
    requires Exec(actions, l).Some? && forall a :: a in actions ==> !a.Duplicate?
    ensures SystemInv(Exec(actions, l).value, l) && Unduplicated(Exec(actions, l).value, l)
  {
    hide SystemInv, Enabled, Do, Unduplicated;
    if actions == [] {
      EmptyUnduplicated(l);
    } else {
      ExecUnduplicated(actions[..|actions| - 1], l);
      UnduplicatedStep(Exec(actions[..|actions| - 1], l).value, actions[|actions| - 1], l);
    }
  }

  /** Over every run in which the network does not duplicate, no message is delivered twice. */
  lemma AtMostOnceWithoutDuplication(actions: seq<Action>, s: System, l: Link, timeoutMs: int, id: u32)
    requires Exec(actions, l) == Some(s) && forall a :: a in actions ==> !a.Duplicate?
    ensures AllSane(s.events, l.o)
    ensures DeliveriesOf(Run(s.events, Setting(timeoutMs, l.o)).delivered, id) <= 1
  {
    hide Exec, Run, AllGenuine, Pieces, ArrivalsOf, BelowTotals, DeliveriesOf, AllSane;
    ExecUnduplicated(actions, l);
    AllGenuineSane(s.events, s.sent, l.mp, l.o);
    ZeroBelowTotals(s.events, id, l.o);
    if id >= |s.sent| { NoEarlyArrivals(s.events, s.sent, l, id, 0); }
    AtMostOnce(s.events, Setting(timeoutMs, l.o), id, 0);
  }
}
