/** Whole runs of the subscriber: any sequence of datagrams and cleanups
    (src/libs/PubSub/HighBandwidthSubscriber.cpp:191-297). */
module ReassemblyRuns {
  import opened ByteSwap
  import opened Wrappers
  import opened Chunking
  import opened Fragmentation
  import opened Reassembly

  datatype Event = Arrival(data: seq<byte>, now: int) | Cleanup(now: int)

  /** A reassembled message and the id it was collected under. */
  datatype Delivery = Delivery(messageId: u32, message: Message)

  /** The subscriber's setting: cleanup timeout and host byte order. */
  datatype Setting = Setting(timeoutMs: int, o: ByteOrder)

  datatype State = State(table: Table, delivered: seq<Delivery>)

  predicate AllSane(events: seq<Event>, o: ByteOrder) {
    forall i :: 0 <= i < |events| && events[i].Arrival? ==> Sane(events[i].data, o)
  }

  function Next(s: State, e: Event, c: Setting): State
    requires TableInv(s.table) && (e.Arrival? ==> Sane(e.data, c.o))
  {
    match e
    case Cleanup(now) => State(Cleaned(s.table, now, c.timeoutMs), s.delivered)
    case Arrival(data, now) =>
      var (t, m) := Receive(s.table, data, now, c.o);
      State(t, if m.Some? then s.delivered + [Delivery(Unwire(data, c.o).value.messageId, m.value)] else s.delivered)
  }

  lemma NextKeepsInv(s: State, e: Event, c: Setting)
    requires TableInv(s.table) && (e.Arrival? ==> Sane(e.data, c.o))
    ensures TableInv(Next(s, e, c).table)
  {
    hide Unwire;
    if e.Arrival? && Unwire(e.data, c.o).Some? { AcceptKeepsInv(s.table, Unwire(e.data, c.o).value, e.now); }
  }

  /** The state after all events, starting empty. In every reachable state each entry is
      waiting (see Reassembly.Waiting). */
  function Run(events: seq<Event>, c: Setting): (s: State)
    requires AllSane(events, c.o)
    ensures TableInv(s.table)
  {
    if events == [] then State(map[], [])
    else
      var s := Run(events[..|events| - 1], c);
      NextKeepsInv(s, events[|events| - 1], c);
      Next(s, events[|events| - 1], c)
  }

  /** The fragment that an event brings, if any. */
  function FragmentIn(e: Event, o: ByteOrder): Option<Fragment> {
    if e.Arrival? then Unwire(e.data, o) else None
  }

  predicate Brings(e: Event, id: u32, o: ByteOrder) {
    FragmentIn(e, o).Some? && FragmentIn(e, o).value.messageId == id
  }

  function DeliveriesOf(ds: seq<Delivery>, id: u32): nat {
    if ds == [] then 0
    else DeliveriesOf(ds[..|ds| - 1], id) + if ds[|ds| - 1].messageId == id then 1 else 0
  }

  // ---- the subscriber object, run through a sequence of events ----

  /** The handler calls that deliveries lead to, in order. */
  function Calls(handlers: map<seq<byte>, Handler>, ds: seq<Delivery>): seq<Invocation> {
    if ds == [] then []
    else
      var m := ds[|ds| - 1].message;
      Calls(handlers, ds[..|ds| - 1])
      + if m.topic in handlers && handlers[m.topic].Callback? then [Invocation(handlers[m.topic].id, m)] else []
  }

  /** The messages delivered under a topic. */
  function MessagesOn(ds: seq<Delivery>, topic: seq<byte>): seq<Message> {
    if ds == [] then []
    else
      MessagesOn(ds[..|ds| - 1], topic)
      + if ds[|ds| - 1].message.topic == topic then [ds[|ds| - 1].message] else []
  }

  /** The messages that a callback was called with, of those on a topic. */
  function CallsWith(calls: seq<Invocation>, callback: nat, topic: seq<byte>): seq<Message> {
    if calls == [] then []
    else
      var c := calls[|calls| - 1];
      CallsWith(calls[..|calls| - 1], callback, topic)
      + if c.callback == callback && c.message.topic == topic then [c.message] else []
  }

  /** A registered handler is called once for each delivery on its topic, in order, with the
      delivered message; and nothing is called for a topic without a handler. */
  lemma {:induction false} CalledPerDelivery(handlers: map<seq<byte>, Handler>, ds: seq<Delivery>, topic: seq<byte>,
                                             callback: nat)
    ensures topic in handlers && handlers[topic] == Callback(callback) ==>
              CallsWith(Calls(handlers, ds), callback, topic) == MessagesOn(ds, topic)
    ensures !(topic in handlers && handlers[topic].Callback?) ==>
              forall c :: c in Calls(handlers, ds) ==> c.message.topic != topic
  {
    if ds == [] {
    } else {
      var init, m := ds[..|ds| - 1], ds[|ds| - 1].message;
      CalledPerDelivery(handlers, init, topic, callback);
      var earlier, calls := Calls(handlers, init), Calls(handlers, ds);
      if m.topic in handlers && handlers[m.topic].Callback? {
        assert calls == earlier + [Invocation(handlers[m.topic].id, m)] && calls[..|calls| - 1] == earlier;
      } else {
        assert calls == earlier + [] == earlier;
      }
    }
  }

  /** When every topic has a handler, call i is for delivery i. */
  lemma {:induction false} CalledForEach(handlers: map<seq<byte>, Handler>, ds: seq<Delivery>)
    requires forall d :: d in ds ==> d.message.topic in handlers && handlers[d.message.topic].Callback?
    ensures |Calls(handlers, ds)| == |ds|
    ensures forall i :: 0 <= i < |ds| ==>
              && Calls(handlers, ds)[i].message == ds[i].message
              && handlers[ds[i].message.topic] == Callback(Calls(handlers, ds)[i].callback)
  {
    if ds == [] {
    } else {
      var init, m := ds[..|ds| - 1], ds[|ds| - 1].message;
      CalledForEach(handlers, init);
      var calls := Calls(handlers, ds);
      assert m.topic in handlers by { assert ds[|ds| - 1] in ds; }
      assert calls == Calls(handlers, init) + [Invocation(handlers[m.topic].id, m)];
      forall i | 0 <= i < |ds|
        ensures calls[i].message == ds[i].message
        ensures ds[i].message.topic in handlers && handlers[ds[i].message.topic] == Callback(calls[i].callback)
      {
        assert ds[i] in ds;
        if i < |init| { assert calls[i] == Calls(handlers, init)[i] && ds[i] == init[i]; }
      }
    }
  }

  lemma SaneProcessable(t: Table, data: seq<byte>, now: int, o: ByteOrder)
    requires Sane(data, o)
    ensures Processable(t, data, now, o)
  {
  }

  /** One turn of the receive loop. */
  method ReceiveOne(s: Subscriber, e: Event, ghost before: State)
    requires s.partialMessages == before.table && TableInv(before.table) && (e.Arrival? ==> Sane(e.data, s.host))
    modifies s`partialMessages, s`invocations
    ensures var after := Next(before, e, Setting(s.reassemblyTimeoutMs, s.host));
            && s.partialMessages == after.table
            && before.delivered <= after.delivered
            && s.invocations == old(s.invocations) + Calls(s.handlers, after.delivered[|before.delivered|..])
  {
    hide Unwire, Accept, Cleaned, TableInv;
    match e
    case Arrival(data, now) =>
      SaneProcessable(s.partialMessages, data, now, s.host);
      s.ProcessFragment(data, now);
    case Cleanup(now) =>
      s.CleanupStaleMessages(now);
  }

  lemma {:induction false} CallsConcat(handlers: map<seq<byte>, Handler>, a: seq<Delivery>, b: seq<Delivery>)
    ensures Calls(handlers, a + b) == Calls(handlers, a) + Calls(handlers, b)
  {
    if b == [] {
      assert a + b == a;
    } else {
      CallsConcat(handlers, a, b[..|b| - 1]);
      assert (a + b)[..|a + b| - 1] == a + b[..|b| - 1];
    }
  }

  lemma NoCalls(handlers: map<seq<byte>, Handler>)
    ensures Calls(handlers, []) == []
  {
  }

  /** The receive loop: every datagram and every cleanup in turn, on a subscriber that has nothing
      waiting. The table is that of the run, and the handlers are called for its deliveries. */
  method ReceiveLoop(s: Subscriber, events: seq<Event>)
    requires AllSane(events, s.host) && s.partialMessages == map[]
    modifies s`partialMessages, s`invocations
    ensures var r := Run(events, Setting(s.reassemblyTimeoutMs, s.host));
            && s.partialMessages == r.table
            && s.invocations == old(s.invocations) + Calls(s.handlers, r.delivered)
  {
    hide Sane, Next, TableInv, Calls;
    NoCalls(s.handlers);
    var c := Setting(s.reassemblyTimeoutMs, s.host);
    for i := 0 to |events|
      invariant AllSane(events[..i], s.host)
      invariant s.partialMessages == Run(events[..i], c).table
      invariant s.invocations == old(s.invocations) + Calls(s.handlers, Run(events[..i], c).delivered)
    {
      assert events[..i + 1][..i] == events[..i];
      ghost var before := Run(events[..i], c);
      ReceiveOne(s, events[i], before);
      ghost var after := Next(before, events[i], c);
      assert after == Run(events[..i + 1], c);
      CallsConcat(s.handlers, before.delivered, after.delivered[|before.delivered|..]);
      assert before.delivered + after.delivered[|before.delivered|..] == after.delivered;
    }
    assert events[..|events|] == events;
  }

  // ---- frame: events for one id leave the others alone ----

  lemma OtherIdsUntouched(s: State, e: Event, c: Setting, id: u32)
    requires TableInv(s.table) && (e.Arrival? ==> Sane(e.data, c.o))
    requires e.Arrival? && !Brings(e, id, c.o)
    ensures var n := Next(s, e, c);
            && (id in n.table <==> id in s.table) && (id in s.table ==> n.table[id] == s.table[id])
            && DeliveriesOf(n.delivered, id) == DeliveriesOf(s.delivered, id)
            && (n.delivered == s.delivered
                || (|n.delivered| == |s.delivered| + 1 && n.delivered[..|s.delivered|] == s.delivered
                    && n.delivered[|s.delivered|].messageId != id))
  {
  }

  // ---- safety ----

  /** The messages published so far under ids 0, 1, 2, ... are publishable, and few enough
      that the 32-bit counter has not wrapped: ids are distinct. */
  predicate Published(sent: seq<Message>, mp: nat) {
    && |sent| <= 0x1_0000_0000
    && forall i :: 0 <= i < |sent| ==> Publishable(sent[i], mp)
  }

  /** d is packet k of the message published under id. */
  ghost predicate IsPacket(d: seq<byte>, sent: seq<Message>, mp: nat, o: ByteOrder, id: u32, k: nat)
    requires Published(sent, mp)
  {
    id < |sent| && k < |Pieces(sent[id], mp)| && d == Wire(FragmentOf(id, sent[id], mp, k), o)
  }

  ghost predicate Genuine(d: seq<byte>, sent: seq<Message>, mp: nat, o: ByteOrder)
    requires Published(sent, mp)
  {
    exists id: u32, k: nat :: IsPacket(d, sent, mp, o, id, k)
  }

  /** An entry that holds nothing but fragments of m, each in its slot. */
  ghost predicate Collects(p: Partial, m: Message, mp: nat)
    requires Publishable(m, mp)
  {
    && p.totalFragments == |Pieces(m, mp)| == |p.fragments|
    && (forall k :: k in p.received ==> k < |Pieces(m, mp)| && p.fragments[k] == Slot(m, mp, k))
    && (0 in p.received ==> p.topic == Arriving(m).topic)
  }

  lemma FragmentFacts(p: Partial, id: u32, m: Message, mp: nat, k: nat)
    requires Publishable(m, mp) && k < |Pieces(m, mp)| && Collects(p, m, mp)
    ensures |Pieces(m, mp)| <= MAX_FRAGMENTS
    ensures var f := FragmentOf(id, m, mp, k);
            && f.messageId == id && f.fragmentNum == k && f.totalFragments == |Pieces(m, mp)|
            && (k == 0 ==> f.topicLen <= |f.body|)
            && |p.fragments| == p.totalFragments == f.totalFragments
            && Stored(p, f).received == p.received + {k}
            && Stored(p, f).firstFragmentTime == p.firstFragmentTime
            && forall j :: j in Stored(p, f).received ==> j < |Pieces(m, mp)|
  {
  }

  lemma ArrivingSplits(m: Message)
    ensures Arriving(m) == Message(Arriving(m).topic, Arriving(m).payload)
  {
  }

  /** An entry that collects m and has everything holds m. */
  lemma AllSlots(q: Partial, m: Message, mp: nat)
    requires Publishable(m, mp) && Collects(q, m, mp) && |Pieces(m, mp)| <= MAX_FRAGMENTS
    requires q.received == Below(|Pieces(m, mp)|)
    ensures Message(q.topic, Flatten(q.fragments)) == Arriving(m)
  {
    hide Pieces, FragmentCount, Flatten, Slot, Below, TopicPrefix, Body, Arriving;
    assert forall i: u16 :: i < |Pieces(m, mp)| ==> i in q.received;
    SlotsRebuild(m, mp, q.fragments);
    ArrivingSplits(m);
  }

  lemma StoredCollects(p: Partial, id: u32, m: Message, mp: nat, k: nat)
    requires Publishable(m, mp) && k < |Pieces(m, mp)| <= MAX_FRAGMENTS
    requires Collects(p, m, mp)
    ensures Collects(Stored(p, FragmentOf(id, m, mp, k)), m, mp)
  {
  }

  /** Adding packet k of m to an entry that collects m. */
  lemma CollectsStep(p: Partial, id: u32, m: Message, mp: nat, k: nat)
    requires Publishable(m, mp) && k < |Pieces(m, mp)|
    requires Collects(p, m, mp)
    ensures |Pieces(m, mp)| <= MAX_FRAGMENTS
    ensures var r := OutcomeOf(p, FragmentOf(id, m, mp, k));
            && !r.Dropped?
            && (r.Kept? ==> Collects(r.entry, m, mp) && r.entry.received == p.received + {k}
                            && r.entry.firstFragmentTime == p.firstFragmentTime)
            && (r.Completed? ==> r.message == Arriving(m) && k !in p.received
                                 && p.received + {k} == Below(|Pieces(m, mp)|))
            && (k !in p.received && p.received + {k} == Below(|Pieces(m, mp)|) ==> r.Completed?)
  {
    hide Pieces, FragmentCount, Flatten, Arriving, FragmentOf, Stored, Collects, Below;
    FragmentFacts(p, id, m, mp, k);
    var f := FragmentOf(id, m, mp, k);
    var n, q := |Pieces(m, mp)|, Stored(p, f);
    StoredCollects(p, id, m, mp, k);
    CompleteIffAll(q.received, n);
    if q.received == Below(n) { AllSlots(q, m, mp); }
    if k in p.received { assert p.received + {k} == p.received; }
  }

  /** A fresh entry collects any message, having received nothing. */
  lemma OpenedCollects(t: Table, id: u32, m: Message, mp: nat, k: nat, now: int)
    requires TableInv(t) && Publishable(m, mp) && k < |Pieces(m, mp)|
    requires id in t ==> Collects(t[id], m, mp)
    ensures var p := Opened(t, FragmentOf(id, m, mp, k), now);
            && Collects(p, m, mp)
            && p.received == (if id in t then t[id].received else {})
            && p.firstFragmentTime == (if id in t then t[id].firstFragmentTime else now)
  {
  }

  /** Every entry under a published id collects that id's message. */
  ghost predicate TableGenuine(t: Table, sent: seq<Message>, mp: nat)
    requires Published(sent, mp)
  {
    forall id :: id in t ==> id < |sent| && Collects(t[id], sent[id], mp)
  }

  ghost predicate AllGenuine(events: seq<Event>, sent: seq<Message>, mp: nat, o: ByteOrder)
    requires Published(sent, mp)
  {
    forall i :: 0 <= i < |events| && events[i].Arrival? ==> Genuine(events[i].data, sent, mp, o)
  }

  lemma AllGenuineSane(events: seq<Event>, sent: seq<Message>, mp: nat, o: ByteOrder)
    requires Published(sent, mp) && AllGenuine(events, sent, mp, o)
    ensures AllSane(events, o)
  {
  }

  /** What packet k of message m does to the table t, giving n and possibly a delivery: the entry
      under id collects the packet until every index is there, and then leaves. */
  ghost predicate Collected(t: Table, n: Table, delivered: Option<Message>, id: u32, m: Message, mp: nat, k: nat,
                            now: int)
    requires Publishable(m, mp) && |Pieces(m, mp)| <= MAX_FRAGMENTS && k < |Pieces(m, mp)|
  {
    var before := if id in t then t[id].received else {};
    && n - {id} == t - {id}
    && (delivered.Some? <==> k !in before && before + {k} == Below(|Pieces(m, mp)|))
    && (delivered.Some? ==> delivered.value == Arriving(m) && id !in n)
    && (delivered.None? ==>
          && id in n && Collects(n[id], m, mp) && n[id].received == before + {k}
          && n[id].firstFragmentTime == if id in t then t[id].firstFragmentTime else now)
  }

  lemma AcceptFrame(t: Table, f: Fragment, now: int)
    requires OpenedOk(t, f, now) && f.fragmentNum < f.totalFragments
    ensures Accept(t, f, now).0 - {f.messageId} == t - {f.messageId}
  {
  }

  lemma GenuineStep(t: Table, id: u32, m: Message, mp: nat, k: nat, now: int)
    requires TableInv(t) && Publishable(m, mp) && k < |Pieces(m, mp)|
    requires id in t ==> Collects(t[id], m, mp)
    ensures |Pieces(m, mp)| <= MAX_FRAGMENTS
    ensures var f := FragmentOf(id, m, mp, k);
            && f.messageId == id && f.fragmentNum == k < f.totalFragments && OpenedOk(t, f, now)
            && Collected(t, Accept(t, f, now).0, Accept(t, f, now).1, id, m, mp, k, now)
  {
    hide OutcomeOf, Opened, Collects, Pieces, FragmentCount, Arriving, Below, TableInv, Body, CeilDiv, FragmentOf,
         OpenedOk;
    var f := FragmentOf(id, m, mp, k);
    TableInvOpened(t, f, now);
    OpenedCollects(t, id, m, mp, k, now);
    FragmentFacts(Opened(t, f, now), id, m, mp, k);
    CollectsStep(Opened(t, f, now), id, m, mp, k);
    AcceptFrame(t, f, now);
  }

  lemma StepSafe(s: State, e: Event, c: Setting, sent: seq<Message>, mp: nat)
    requires TableInv(s.table) && (e.Arrival? ==> Sane(e.data, c.o))
    requires Published(sent, mp) && (e.Arrival? ==> Genuine(e.data, sent, mp, c.o))
    requires TableGenuine(s.table, sent, mp)
    requires forall d :: d in s.delivered ==> d.messageId < |sent| && d.message == Arriving(sent[d.messageId])
    ensures var n := Next(s, e, c);
            && TableGenuine(n.table, sent, mp)
            && forall d :: d in n.delivered ==> d.messageId < |sent| && d.message == Arriving(sent[d.messageId])
  {
    hide Pieces, FragmentCount, Arriving, Unwire, Collects, TableInv, OutcomeOf, Opened, Wire, Publishable, Body,
         Accept;
    if e.Arrival? {
      var id: u32, k: nat :| IsPacket(e.data, sent, mp, c.o, id, k);
      var f := FragmentOf(id, sent[id], mp, k);
      WireRoundTrip(f, c.o);
      GenuineStep(s.table, id, sent[id], mp, k, e.now);
      var t := Accept(s.table, f, e.now).0;
      forall j | j in t
        ensures j < |sent| && Collects(t[j], sent[j], mp)
      {
        if j != id { assert j in t - {id}; assert j in s.table && t[j] == s.table[j]; }
      }
    }
  }

  /** Safety of whole runs. If every datagram that arrives is some packet of some published
      message, in whatever order, multiplicity and interleaving, and with cleanups anywhere,
      then everything delivered is a published message as it arrives, under its own id, and
      every partial entry holds fragments of one message only. */
  lemma {:induction false} RunSafe(events: seq<Event>, c: Setting, sent: seq<Message>, mp: nat)
    requires Published(sent, mp) && AllGenuine(events, sent, mp, c.o)
    ensures AllSane(events, c.o)
    ensures TableGenuine(Run(events, c).table, sent, mp)
    ensures forall d :: d in Run(events, c).delivered ==>
              d.messageId < |sent| && d.message == Arriving(sent[d.messageId])
  {
    AllGenuineSane(events, sent, mp, c.o);
    if events == [] {
    } else {
      var prior, e := events[..|events| - 1], events[|events| - 1];
      RunSafe(prior, c, sent, mp);
      StepSafe(Run(prior, c), e, c, sent, mp);
    }
  }

  /** The safety theorem in the terms of the publisher's callers: with topics shorter than
      2^16 bytes, every delivered message is exactly one that was published. */
  lemma DeliveredWasPublished(events: seq<Event>, c: Setting, sent: seq<Message>, mp: nat, d: Delivery)
    requires Published(sent, mp) && AllGenuine(events, sent, mp, c.o)
    requires forall m :: m in sent ==> |m.topic| < 0x1_0000
    ensures AllSane(events, c.o)
    ensures d in Run(events, c).delivered ==> d.messageId < |sent| && d.message == sent[d.messageId]
  {
    hide Run, Arriving, AllGenuine, Published;
    RunSafe(events, c, sent, mp);
    if d in Run(events, c).delivered { ArrivesIntactIff(sent[d.messageId]); }
  }
}
