/** Reassembly of fragmented messages: HighBandwidthSubscriber::processFragment,
    cleanupStaleMessages, deliverMessage and subscribe
    (src/libs/PubSub/HighBandwidthSubscriber.cpp). Clock readings are nanoseconds. */
module Reassembly {
  import opened ByteSwap
  import opened Wrappers
  import opened Chunking
  import opened Fragmentation

  // ---- state ----

  datatype Partial = Partial(
    topic: seq<byte>, fragments: seq<seq<byte>>, received: set<u16>, totalFragments: u16, firstFragmentTime: int)

  /** A value-initialised PartialMessage. */
  const NO_PARTIAL := Partial([], [], {}, 0, 0)

  type Table = map<u32, Partial>

  /** An entry that is still waiting: one slot per fragment, something received but not
      everything, and nothing in the slots not yet received. */
  ghost predicate Waiting(p: Partial) {
    && |p.fragments| == p.totalFragments
    && (forall k :: k in p.received ==> k < p.totalFragments)
    && 0 < |p.received| < p.totalFragments
    && (forall k :: 0 <= k < p.totalFragments && k !in p.received ==> p.fragments[k] == [])
    && (0 !in p.received ==> p.topic == [])
  }

  ghost predicate TableInv(t: Table) { forall id :: id in t ==> Waiting(t[id]) }

  // ---- counting received fragments ----

  /** {0, ..., n - 1} */
  function Below(n: u16): (s: set<u16>)
    ensures forall k: u16 :: k in s <==> k < n
  {
    if n == 0 then {} else Below(n - 1) + {n - 1}
  }

  lemma {:induction false} BelowSize(n: u16)
    ensures |Below(n)| == n
  {
    if n == 0 {
    } else {
      BelowSize(n - 1);
    }
  }

  lemma {:induction false} SubsetSize<T>(a: set<T>, b: set<T>)
    requires a <= b
    ensures |a| <= |b|
    ensures |a| == |b| ==> a == b
  {
    if a == {} {
    } else {
      var x :| x in a;
      SubsetSize(a - {x}, b - {x});
    }
  }

  /** The pigeonhole behind `receivedFragments.size() == totalFrags`: as many indices as
      there are means every index. */
  lemma CompleteIffAll(received: set<u16>, n: u16)
    requires forall k :: k in received ==> k < n
    ensures |received| <= n
    ensures |received| == n <==> received == Below(n)
  {
    BelowSize(n);
    SubsetSize(received, Below(n));
  }

  // ---- one fragment ----

  /** The entry under the fragment's id, created or initialised as on its first fragment. */
  function Opened(t: Table, f: Fragment, now: int): Partial {
    var p := if f.messageId in t then t[f.messageId] else NO_PARTIAL;
    if p.fragments == [] then
      p.(totalFragments := f.totalFragments, fragments := seq(f.totalFragments, _ => []), firstFragmentTime := now)
    else p
  }

  function Stored(p: Partial, f: Fragment): Partial
    requires f.fragmentNum < |p.fragments| && (f.fragmentNum == 0 ==> f.topicLen <= |f.body|)
  {
    var q := p.(received := p.received + {f.fragmentNum});
    if f.fragmentNum == 0 then
      q.(topic := f.body[..f.topicLen], fragments := p.fragments[0 := f.body[f.topicLen..]])
    else q.(fragments := p.fragments[f.fragmentNum := f.body])
  }

  /** What a fragment does to its entry: dropped (None), kept waiting, or completed. */
  datatype Outcome = Dropped | Kept(entry: Partial) | Completed(message: Message)

  ghost predicate OpenedOk(t: Table, f: Fragment, now: int) {
    |Opened(t, f, now).fragments| == Opened(t, f, now).totalFragments
  }

  /** The fragment is discarded before its number is used as an index, or the index exists. */
  predicate Indexable(p: Partial, f: Fragment) {
    || p.totalFragments != f.totalFragments
    || f.fragmentNum in p.received
    || (f.fragmentNum == 0 && f.topicLen > |f.body|)
    || f.fragmentNum < f.totalFragments
  }

  function OutcomeOf(p: Partial, f: Fragment): Outcome
    requires |p.fragments| == p.totalFragments && Indexable(p, f)
  {
    if p.totalFragments != f.totalFragments then Dropped
    else if f.fragmentNum in p.received then Kept(p)
    else if f.fragmentNum == 0 && f.topicLen > |f.body| then Dropped
    else
      var q := Stored(p, f);
      if |q.received| == f.totalFragments then Completed(Message(q.topic, Flatten(q.fragments))) else Kept(q)
  }

  function Accept(t: Table, f: Fragment, now: int): (r: (Table, Option<Message>))
    requires OpenedOk(t, f, now) && Indexable(Opened(t, f, now), f)
  {
    match OutcomeOf(Opened(t, f, now), f)
    case Dropped => (t - {f.messageId}, None)
    case Kept(q) => (t[f.messageId := q], None)
    case Completed(m) => (t - {f.messageId}, Some(m))
  }

  lemma TableInvOpened(t: Table, f: Fragment, now: int)
    requires TableInv(t)
    ensures OpenedOk(t, f, now)
    ensures f.messageId in t ==> Opened(t, f, now) == t[f.messageId]
  {
  }

  lemma StoredWaits(p: Partial, f: Fragment)
    requires |p.fragments| == p.totalFragments == f.totalFragments && f.fragmentNum < f.totalFragments
    requires f.fragmentNum !in p.received && (f.fragmentNum == 0 ==> f.topicLen <= |f.body|)
    requires forall k :: k in p.received ==> k < p.totalFragments
    requires forall k :: 0 <= k < p.totalFragments && k !in p.received ==> p.fragments[k] == []
    requires 0 !in p.received ==> p.topic == []
    requires |Stored(p, f).received| != f.totalFragments
    ensures Waiting(Stored(p, f))
  {
    var q := Stored(p, f);
    CompleteIffAll(q.received, q.totalFragments);
    assert f.fragmentNum in q.received;
  }

  /** One fragment keeps the table invariant: what stays is waiting, and an entry leaves the
      moment its last slot is filled. */
  lemma AcceptKeepsInv(t: Table, f: Fragment, now: int)
    requires TableInv(t) && Indexable(Opened(t, f, now), f)
    ensures OpenedOk(t, f, now) && TableInv(Accept(t, f, now).0)
  {
    TableInvOpened(t, f, now);
    var p := Opened(t, f, now);
    var r := OutcomeOf(p, f);
    if r.Kept? && f.fragmentNum !in p.received {
      StoredWaits(p, f);
    } else if r.Kept? {
      assert f.messageId in t;
    }
  }

  /** What a fragment does, case by case. With p the entry under its id: an inconsistent total
      or a topic longer than the data discards the entry; a duplicate changes nothing; otherwise
      the fragment's slot is filled, and when every slot is filled the slots in a row, under the
      first fragment's topic, are delivered and the entry is gone. */
  lemma AcceptCases(t: Table, f: Fragment, now: int)
    requires TableInv(t) && Indexable(Opened(t, f, now), f)
    ensures OpenedOk(t, f, now)
    ensures var id, k, r := f.messageId, f.fragmentNum, Accept(t, f, now);
            var isNew := id !in t;
            var filled := if isNew then {} else t[id].received;
            var bad := k == 0 && f.topicLen > |f.body|;
            var data := if k == 0 && !bad then f.body[f.topicLen..] else f.body;
            && (forall j :: j != id ==> (j in r.0 <==> j in t) && (j in t ==> r.0[j] == t[j]))
            && (!isNew && t[id].totalFragments != f.totalFragments ==> id !in r.0 && r.1 == None)
            && (!isNew && t[id].totalFragments == f.totalFragments && k in filled ==> r == (t, None))
            && ((isNew || (t[id].totalFragments == f.totalFragments && k !in filled)) ==>
                  if bad then id !in r.0 && r.1 == None
                  else if |filled + {k}| == f.totalFragments then
                    && id !in r.0 && r.1.Some?
                    && r.1.value.topic == (if k == 0 then f.body[..f.topicLen] else t[id].topic)
                    && r.1.value.payload
                         == Flatten((if isNew then seq(f.totalFragments, _ => []) else t[id].fragments)[k := data])
                  else
                    && r.1 == None && id in r.0
                    && r.0[id].received == filled + {k} && r.0[id].totalFragments == f.totalFragments
                    && r.0[id].fragments
                         == (if isNew then seq(f.totalFragments, _ => []) else t[id].fragments)[k := data]
                    && r.0[id].topic == (if k == 0 then f.body[..f.topicLen] else if isNew then [] else t[id].topic)
                    && r.0[id].firstFragmentTime == (if isNew then now else t[id].firstFragmentTime))
  {
    TableInvOpened(t, f, now);
    hide Flatten;
    if f.messageId in t { assert t[f.messageId := t[f.messageId]] == t; }
  }

  // ---- time ----

  const NS_PER_MS := 1_000_000

  /** duration_cast to milliseconds truncates towards zero. */
  function ElapsedMs(now: int, since: int): int {
    if now >= since then (now - since) / NS_PER_MS else -((since - now) / NS_PER_MS)
  }

  /** A timeout of T ms is exceeded from (T + 1) * 1 000 000 ns on. */
  lemma ElapsedInNs(now: int, since: int, timeoutMs: int)
    requires timeoutMs >= 0
    ensures ElapsedMs(now, since) > timeoutMs <==> now - since >= (timeoutMs + 1) * 1_000_000
  {
  }

  function Cleaned(t: Table, now: int, timeoutMs: int): Table {
    map id | id in t && ElapsedMs(now, t[id].firstFragmentTime) <= timeoutMs :: t[id]
  }

  // ---- the subscriber ----

  /** A std::function: empty, or some callback. */
  datatype Handler = NoHandler | Callback(id: nat)

  datatype Invocation = Invocation(callback: nat, message: Message)

  /** A datagram whose number is below its total: an index in any table. */
  predicate Sane(data: seq<byte>, o: ByteOrder) {
    Unwire(data, o).Some? ==> Unwire(data, o).value.fragmentNum < Unwire(data, o).value.totalFragments
  }

  /** A datagram that makes the reassembly code index within bounds. */
  predicate Processable(t: Table, data: seq<byte>, now: int, o: ByteOrder) {
    var f := Unwire(data, o);
    f.Some? ==> Indexable(Opened(t, f.value, now), f.value)
  }

  /** The whole effect of a datagram: ignored when shorter than the header. */
  function Receive(t: Table, data: seq<byte>, now: int, o: ByteOrder): (Table, Option<Message>)
    requires TableInv(t) && Processable(t, data, now, o)
  {
    if Unwire(data, o).None? then (t, None)
    else
      TableInvOpened(t, Unwire(data, o).value, now);
      Accept(t, Unwire(data, o).value, now)
  }

  /** The header fields as processFragment reads them. */
  lemma ReceiveIs(t: Table, data: seq<byte>, now: int, o: ByteOrder)
    requires TableInv(t) && Processable(t, data, now, o)
    ensures if |data| < FRAGMENT_HEADER_SIZE then Receive(t, data, now, o) == (t, None)
            else
              var f := Fragment(WordAt(data, 0, o), U16At(data, 4, o), U16At(data, 6, o), U16At(data, 8, o),
                                data[FRAGMENT_HEADER_SIZE..]);
              Indexable(Opened(t, f, now), f) && OpenedOk(t, f, now)
              && Receive(t, data, now, o) == Accept(t, f, now)
  {
    hide WordAt, U16At, Opened, TableInv;
    if |data| >= FRAGMENT_HEADER_SIZE { TableInvOpened(t, Unwire(data, o).value, now); }
  }

  /** fullPayload += frag, for every fragment. */
  method Joined(fragments: seq<seq<byte>>) returns (fullPayload: seq<byte>)
    ensures fullPayload == Flatten(fragments)
  {
    fullPayload := [];
    for k := 0 to |fragments|
      invariant fullPayload + Flatten(fragments[k..]) == Flatten(fragments)
    {
      assert fragments[k..][1..] == fragments[k + 1..];
      fullPayload := fullPayload + fragments[k];
    }
  }

  class Subscriber {
    const name: seq<byte>
    const reassemblyTimeoutMs: int
    const host: ByteOrder
    var handlers: map<seq<byte>, Handler>
    var partialMessages: Table
    ghost var invocations: seq<Invocation>

    constructor (name: seq<byte>, reassemblyTimeoutMs: int, host: ByteOrder)
      ensures this.name == name && this.reassemblyTimeoutMs == reassemblyTimeoutMs && this.host == host
      ensures handlers == map[] && partialMessages == map[] && invocations == []
    {
      this.name := name;
      this.reassemblyTimeoutMs := reassemblyTimeoutMs;
      this.host := host;
      handlers := map[];
      partialMessages := map[];
      invocations := [];
    }

    method Subscribe(topic: seq<byte>, handler: Handler)
      modifies this`handlers
      ensures handlers == old(handlers)[name + [0x2F] + topic := handler]
    {
      handlers := handlers[name + [0x2F] + topic := handler];
    }

    method DeliverMessage(topic: seq<byte>, payload: seq<byte>)
      modifies this`invocations
      ensures topic in handlers && handlers[topic].Callback? ==>
                invocations == old(invocations) + [Invocation(handlers[topic].id, Message(topic, payload))]
      ensures !(topic in handlers && handlers[topic].Callback?) ==> invocations == old(invocations)
    {
      var handler := NoHandler;
      if topic in handlers { handler := handlers[topic]; }
      if handler.Callback? {
        invocations := invocations + [Invocation(handler.id, Message(topic, payload))];
      }
    }

    method ProcessFragment(data: seq<byte>, now: int)
      requires TableInv(partialMessages) && Processable(partialMessages, data, now, host)
      modifies this`partialMessages, this`invocations
      ensures partialMessages == Receive(old(partialMessages), data, now, host).0
      ensures TableInv(partialMessages)
      ensures var m := Receive(old(partialMessages), data, now, host).1;
              if m.Some? && m.value.topic in handlers && handlers[m.value.topic].Callback?
              then invocations == old(invocations) + [Invocation(handlers[m.value.topic].id, m.value)]
              else invocations == old(invocations)
    {
      hide WordAt, U16At, TableInv, Flatten, Receive, Unwire, Processable;
      ReceiveIs(partialMessages, data, now, host);
      if |data| < FRAGMENT_HEADER_SIZE { return; }
      var messageId, fragNum := WordAt(data, 0, host), U16At(data, 4, host);
      var totalFrags, topicLen := U16At(data, 6, host), U16At(data, 8, host);
      var payload := data[FRAGMENT_HEADER_SIZE..];
      ghost var f := Fragment(messageId, fragNum, totalFrags, topicLen, payload);
      AcceptKeepsInv(partialMessages, f, now);

      var partial := if messageId in partialMessages then partialMessages[messageId] else NO_PARTIAL;
      if partial.fragments == [] {
        partial := partial.(totalFragments := totalFrags, fragments := seq(totalFrags, _ => []),
                            firstFragmentTime := now);
      }
      assert partial == Opened(partialMessages, f, now);
      if partial.totalFragments != totalFrags {
        partialMessages := partialMessages - {messageId};
        return;
      }
      if fragNum in partial.received {
        partialMessages := partialMessages[messageId := partial];
        return;
      }
      if fragNum == 0 {
        if topicLen > |payload| {
          partialMessages := partialMessages - {messageId};
          return;
        }
        partial := partial.(topic := payload[..topicLen]);
        partial := partial.(fragments := partial.fragments[0 := payload[topicLen..]]);
      } else {
        partial := partial.(fragments := partial.fragments[fragNum := payload]);
      }
      partial := partial.(received := partial.received + {fragNum});
      if |partial.received| == totalFrags {
        var fullPayload := Joined(partial.fragments);
        partialMessages := partialMessages - {messageId};
        DeliverMessage(partial.topic, fullPayload);
      } else {
        partialMessages := partialMessages[messageId := partial];
      }
    }

    method CleanupStaleMessages(now: int)
      modifies this`partialMessages
      ensures partialMessages == Cleaned(old(partialMessages), now, reassemblyTimeoutMs)
      ensures reassemblyTimeoutMs >= 0 ==>
                forall id :: id in old(partialMessages) ==>
                  (id !in partialMessages <==>
                     now - old(partialMessages)[id].firstFragmentTime >= (reassemblyTimeoutMs + 1) * 1_000_000)
      ensures forall id :: id in partialMessages ==>
                id in old(partialMessages) && partialMessages[id] == old(partialMessages)[id]
    {
      var todo := partialMessages.Keys;
      while todo != {}
        invariant todo <= partialMessages.Keys <= old(partialMessages).Keys
        invariant forall id :: id in partialMessages ==> partialMessages[id] == old(partialMessages)[id]
        invariant forall id :: id in old(partialMessages) && id !in todo ==>
                    (id in partialMessages <==>
                       ElapsedMs(now, old(partialMessages)[id].firstFragmentTime) <= reassemblyTimeoutMs)
        decreases todo
      {
        var it :| it in todo;
        todo := todo - {it};
        if ElapsedMs(now, partialMessages[it].firstFragmentTime) > reassemblyTimeoutMs {
          partialMessages := partialMessages - {it};
        }
      }
    }
  }
}
