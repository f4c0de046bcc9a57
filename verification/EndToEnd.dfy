/** A publisher and a subscriber object of the same namespace: what is published is handed to the
    handler (src/libs/PubSub/HighBandwidthPublisher.cpp and HighBandwidthSubscriber.cpp). */
module EndToEnd {
  import opened ByteSwap
  import opened Wrappers
  import opened Fragmentation
  import opened Reassembly
  import opened ReassemblyRuns
  import opened DeliveryResults

  /** The packets of m arrive in some order, given by their numbers. */
  function Arrivals(id: u32, m: Message, mp: nat, order: seq<nat>, now: int, o: ByteOrder): seq<Event>
    requires Publishable(m, mp) && forall i :: 0 <= i < |order| ==> order[i] < |Pieces(m, mp)|
  {
    seq(|order|, i requires 0 <= i < |order| => Bring(id, m, mp, order[i], now, o))
  }

  lemma ArrivalsGenuine(id: u32, m: Message, mp: nat, order: seq<nat>, now: int, o: ByteOrder)
    requires Publishable(m, mp) && |Pieces(m, mp)| <= MAX_FRAGMENTS
    requires forall i :: 0 <= i < |order| ==> order[i] < |Pieces(m, mp)|
    ensures var events := Arrivals(id, m, mp, order, now, o);
            && AllSane(events, o) && OnlyPacketsOf(events, id, m, mp, o)
            && forall e :: e in events ==> e.Arrival? && Brings(e, id, o)
  {
    hide Bring, Pieces, Brings, FragmentIn, BringsPacketOf, Sane, FragmentCount, FragmentOf;
    forall i | 0 <= i < |order|
      ensures var e := Bring(id, m, mp, order[i], now, o);
              e.Arrival? && Sane(e.data, o) && Brings(e, id, o) && BringsPacketOf(e, id, m, mp, o)
    {
      BringBrings(id, m, mp, order[i], now, o);
    }
  }

  lemma {:induction false} ArrivedInOrder(id: u32, m: Message, mp: nat, order: seq<nat>, now: int, c: Setting)
    requires Publishable(m, mp) && |Pieces(m, mp)| <= MAX_FRAGMENTS
    requires forall i :: 0 <= i < |order| ==> order[i] < |Pieces(m, mp)|
    ensures var events := Arrivals(id, m, mp, order, now, c.o);
            && CleanedInTime(events, id, c)
            && forall k: u16 :: k in Arrived(events, id, c.o) <==> (k as nat) in order
  {
    hide Bring, Pieces, Brings, FragmentIn, BringsPacketOf, Sane, FragmentCount, FragmentOf, ElapsedMs;
    if order == [] {
    } else {
      var init, k := order[..|order| - 1], order[|order| - 1];
      ArrivedInOrder(id, m, mp, init, now, c);
      BringBrings(id, m, mp, k, now, c.o);
      var events := Arrivals(id, m, mp, order, now, c.o);
      assert events[..|events| - 1] == Arrivals(id, m, mp, init, now, c.o);
      assert order == init + [k];
    }
  }

  /** Where only id's packets arrive, nothing happens under other ids. */
  lemma {:induction false} NoOtherId(events: seq<Event>, c: Setting, id: u32, other: u32)
    requires AllSane(events, c.o) && other != id
    requires forall e :: e in events ==> e.Arrival? && Brings(e, id, c.o)
    ensures other !in Run(events, c).table && DeliveriesOf(Run(events, c).delivered, other) == 0
  {
    hide Next, FragmentIn, Sane;
    if events == [] {
    } else {
      var prior, e := events[..|events| - 1], events[|events| - 1];
      assert e in events;
      NoOtherId(prior, c, id, other);
      OtherIdsUntouched(Run(prior, c), e, c, other);
    }
  }

  lemma BelowMembers(n: u16)
    ensures forall k: u16 :: k in Below(n) <==> k < n
  {
  }

  lemma NothingElse(events: seq<Event>, c: Setting, id: u32)
    requires AllSane(events, c.o) && forall e :: e in events ==> e.Arrival? && Brings(e, id, c.o)
    requires DeliveriesOf(Run(events, c).delivered, id) == 0
    ensures Run(events, c).delivered == []
  {
    hide Run, Brings, Sane, DeliveriesOf;
    var ds := Run(events, c).delivered;
    if ds != [] {
      DeliveryCounts(ds, ds[0]);
      if ds[0].messageId != id { NoOtherId(events, c, id, ds[0].messageId); }
    }
  }

  lemma NothingWaiting(events: seq<Event>, c: Setting, id: u32)
    requires AllSane(events, c.o) && forall e :: e in events ==> e.Arrival? && Brings(e, id, c.o)
    requires id !in Run(events, c).table
    ensures Run(events, c).table == map[]
  {
    hide Run, Brings, Sane;
    forall other: u32
      ensures other !in Run(events, c).table
    {
      if other != id { NoOtherId(events, c, id, other); }
    }
  }

  /** All packets of a message, in any order and with any repetitions before the last missing one:
      the run delivers that message and nothing else, and keeps nothing. */
  lemma ArrivalsDeliver(id: u32, m: Message, mp: nat, order: seq<nat>, now: int, c: Setting)
    requires Publishable(m, mp) && |Pieces(m, mp)| <= MAX_FRAGMENTS && order != []
    requires forall i :: 0 <= i < |order| ==> order[i] < |Pieces(m, mp)|
    requires forall k :: 0 <= k < |Pieces(m, mp)| ==> k in order
    requires order[|order| - 1] !in order[..|order| - 1]
    ensures var events := Arrivals(id, m, mp, order, now, c.o);
            && AllSane(events, c.o)
            && Run(events, c).delivered == [Delivery(id, Arriving(m))] && Run(events, c).table == map[]
  {
    hide Bring, Pieces, Brings, BringsPacketOf, Sane, FragmentCount, FragmentOf, CleanedInTime, Arrived, OnlyPacketsOf,
         Run, Arriving, DeliveriesOf, Below;
    var events, init := Arrivals(id, m, mp, order, now, c.o), order[..|order| - 1];
    ArrivalsGenuine(id, m, mp, order, now, c.o);
    ArrivalsGenuine(id, m, mp, init, now, c.o);
    ArrivedInOrder(id, m, mp, order, now, c);
    ArrivedInOrder(id, m, mp, init, now, c);
    var prior := events[..|events| - 1];
    assert prior == Arrivals(id, m, mp, init, now, c.o);
    var n: u16 := |Pieces(m, mp)|;
    assert Arrived(events, id, c.o) == Below(n) by {
      assert forall k: u16 :: k in Below(n) <==> k < n by { BelowMembers(n); }
    }
    var last: u16 := order[|order| - 1];
    assert last !in Arrived(prior, id, c.o) && last in Arrived(events, id, c.o);
    DeliveredAtLastFragment(events, c, id, m, mp);
    NothingElse(prior, c, id);
    NothingWaiting(events, c, id);
  }

  lemma OneCall(handlers: map<seq<byte>, Handler>, d: Delivery)
    requires d.message.topic in handlers && handlers[d.message.topic].Callback?
    ensures Calls(handlers, [d]) == [Invocation(handlers[d.message.topic].id, d.message)]
  {
    assert [d][..0] == [];
  }

  /** The sent packets as they arrive. */
  method Received(sent: seq<seq<byte>>, order: seq<nat>, now: int, ghost id: u32, ghost m: Message, ghost mp: nat,
                  ghost o: ByteOrder)
    returns (events: seq<Event>)
    requires Publishable(m, mp) && sent == Packets(id, m, mp, o)
    requires forall i :: 0 <= i < |order| ==> order[i] < |Pieces(m, mp)|
    ensures events == Arrivals(id, m, mp, order, now, o)
  {
    hide Wire, Pieces, FragmentCount, FragmentOf;
    events := [];
    for i := 0 to |order|
      invariant |events| == i && forall k :: 0 <= k < i ==> events[k] == Bring(id, m, mp, order[k], now, o)
    {
      events := events + [Arrival(sent[order[i]], now)];
    }
  }

  /** Publish a message to a subscriber with a handler for its topic and nothing waiting. With
      every packet sent, and received in any order with any repetitions up to the last missing
      one, the handler is called once, with the message's payload under the topic with the
      namespace, and nothing else is called. */
  method Exchange(p: Publisher, s: Subscriber, topic: seq<byte>, payload: seq<byte>, callback: nat, order: seq<nat>,
                  now: int)
    requires p.name == s.name && p.host == s.host && s.partialMessages == map[]
    requires p.socketOpen && p.running && p.maxPayloadPerFragment == p.mtu - FRAGMENT_HEADER_SIZE && p.mtu <= 65535
    requires |p.name| + 1 + |topic| <= p.maxPayloadPerFragment
    requires var n := FragmentCount(Message(p.name + [0x2F] + topic, payload), p.maxPayloadPerFragment);
             && n <= 65535 && order != []
             && (forall i :: 0 <= i < |order| ==> order[i] < n) && (forall k :: 0 <= k < n ==> k in order)
             && order[|order| - 1] !in order[..|order| - 1]
    modifies p`messageIdCounter, s`handlers, s`partialMessages, s`invocations
    ensures s.invocations == old(s.invocations) + [Invocation(callback, Message(p.name + [0x2F] + topic, payload))]
    ensures s.partialMessages == map[]
  {
    hide FragmentCount, Pieces, Packets, Run, Arriving, Calls;
    ghost var m, mp, id := Message(p.name + [0x2F] + topic, payload), p.maxPayloadPerFragment, p.messageIdCounter;
    PiecesRebuild(m, mp);
    s.Subscribe(topic, Callback(callback));
    var ok, sent := p.Publish(topic, Some(payload), None);
    var events := Received(sent, order, now, id, m, mp, p.host);
    ghost var c := Setting(s.reassemblyTimeoutMs, s.host);
    ArrivalsDeliver(id, m, mp, order, now, c);
    ReceiveLoop(s, events);
    ArrivesIntactIff(m);
    OneCall(s.handlers, Delivery(id, m));
  }
}
