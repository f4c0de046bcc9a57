/** When a message is delivered, and how often: results over all runs of the subscriber
    (src/libs/PubSub/HighBandwidthSubscriber.cpp:205-296). */
module DeliveryResults {
  import opened Chunking
  import opened ByteSwap
  import opened Wrappers
  import opened Fragmentation
  import opened Reassembly
  import opened ReassemblyRuns

  // ---- what has arrived of one id ----

  /** The fragment numbers that arrived under id. */
  function Arrived(events: seq<Event>, id: u32, o: ByteOrder): set<u16> {
    if events == [] then {}
    else
      var e := events[|events| - 1];
      Arrived(events[..|events| - 1], id, o) + if Brings(e, id, o) then {FragmentIn(e, o).value.fragmentNum} else {}
  }

  /** When the first fragment of id arrived. */
  function FirstTime(events: seq<Event>, id: u32, o: ByteOrder): Option<int> {
    if events == [] then None
    else
      var first, e := FirstTime(events[..|events| - 1], id, o), events[|events| - 1];
      if first.Some? then first else if Brings(e, id, o) then Some(e.now) else None
  }

  /** No cleanup runs more than the timeout after id's first fragment. */
  predicate CleanedInTime(events: seq<Event>, id: u32, c: Setting) {
    events == []
    || var prior, e := events[..|events| - 1], events[|events| - 1];
       && CleanedInTime(prior, id, c)
       && (e.Cleanup? && FirstTime(prior, id, c.o).Some? ==>
             ElapsedMs(e.now, FirstTime(prior, id, c.o).value) <= c.timeoutMs)
  }

  lemma ElapsedMonotone(now: int, later: int, since: int)
    requires now <= later
    ensures ElapsedMs(now, since) <= ElapsedMs(later, since)
  {
  }

  /** On a clock that has not passed the timeout since the first fragment, every cleanup so
      far was in time. */
  lemma {:induction false} WithinTimeout(events: seq<Event>, id: u32, c: Setting, first: int, until: int)
    requires forall i :: 0 <= i < |events| ==> events[i].now <= until
    requires FirstTime(events, id, c.o) == None || FirstTime(events, id, c.o) == Some(first)
    requires ElapsedMs(until, first) <= c.timeoutMs
    ensures CleanedInTime(events, id, c)
  {
    hide Brings, ElapsedMs;
    if events == [] {
    } else {
      var prior, e := events[..|events| - 1], events[|events| - 1];
      WithinTimeout(prior, id, c, first, until);
      ElapsedMonotone(e.now, until, first);
    }
  }

  ghost predicate BringsPacketOf(e: Event, id: u32, m: Message, mp: nat, o: ByteOrder)
    requires Publishable(m, mp) && Brings(e, id, o)
  {
    var f := FragmentIn(e, o).value;
    f.fragmentNum < |Pieces(m, mp)| && f == FragmentOf(id, m, mp, f.fragmentNum)
  }

  /** Everything that arrives under id is a packet of m. */
  ghost predicate OnlyPacketsOf(events: seq<Event>, id: u32, m: Message, mp: nat, o: ByteOrder)
    requires Publishable(m, mp)
  {
    forall i :: 0 <= i < |events| && Brings(events[i], id, o) ==> BringsPacketOf(events[i], id, m, mp, o)
  }

  // ---- the lives of an entry ----

  /** What has arrived since the entry of an id was last opened, when that was, and how many
      entries have been completed. */
  datatype Life = Life(arrived: set<u16>, since: int, done: nat)

  /** Whether e brings the last missing one of n fragments. */
  predicate Completes(l: Life, e: Event, id: u32, n: u16, o: ByteOrder) {
    && Brings(e, id, o)
    && var k := FragmentIn(e, o).value.fragmentNum;
       k !in l.arrived && l.arrived + {k} == Below(n)
  }

  /** A late cleanup ends a life, and so does completion; the next fragment starts a new one. */
  function LifeStep(l: Life, e: Event, id: u32, n: u16, c: Setting): Life {
    if e.Cleanup? then
      if l.arrived != {} && ElapsedMs(e.now, l.since) > c.timeoutMs then l.(arrived := {}) else l
    else if !Brings(e, id, c.o) then l
    else if Completes(l, e, id, n, c.o) then Life({}, l.since, l.done + 1)
    else
      Life(l.arrived + {FragmentIn(e, c.o).value.fragmentNum}, if l.arrived == {} then e.now else l.since, l.done)
  }

  /** Computed from the arrivals and cleanups alone, without the reassembly table. */
  function LifeOf(events: seq<Event>, id: u32, n: u16, c: Setting): Life {
    if events == [] then Life({}, 0, 0)
    else LifeStep(LifeOf(events[..|events| - 1], id, n, c), events[|events| - 1], id, n, c)
  }

  // ---- delivery ----

  /** The subscriber's entry and deliveries of id are those of the life. */
  ghost predicate Tracks(s: State, l: Life, id: u32, m: Message, mp: nat)
    requires Publishable(m, mp)
  {
    && DeliveriesOf(s.delivered, id) == l.done
    && (l.arrived == {} <==> id !in s.table)
    && (id in s.table ==>
          && s.table[id].received == l.arrived && Collects(s.table[id], m, mp)
          && s.table[id].firstFragmentTime == l.since)
  }

  lemma TracksStep(s: State, e: Event, c: Setting, l: Life, id: u32, m: Message, mp: nat)
    requires TableInv(s.table) && (e.Arrival? ==> Sane(e.data, c.o))
    requires Publishable(m, mp) && |Pieces(m, mp)| <= MAX_FRAGMENTS
    requires Tracks(s, l, id, m, mp)
    requires Brings(e, id, c.o) ==> BringsPacketOf(e, id, m, mp, c.o)
    ensures Tracks(Next(s, e, c), LifeStep(l, e, id, |Pieces(m, mp)|, c), id, m, mp)
    ensures Completes(l, e, id, |Pieces(m, mp)|, c.o) ==>
              Next(s, e, c).delivered == s.delivered + [Delivery(id, Arriving(m))]
  {
    hide Pieces, FragmentCount, Collects, Unwire, Sane, Below, Accept, ElapsedMs, TableInv, FragmentOf, Arriving;
    if Brings(e, id, c.o) {
      GenuineStep(s.table, id, m, mp, FragmentIn(e, c.o).value.fragmentNum, e.now);
      var n := Next(s, e, c);
      if n.delivered != s.delivered { assert n.delivered[..|n.delivered| - 1] == s.delivered; }
    } else if e.Arrival? {
      OtherIdsUntouched(s, e, c, id);
    }
  }

  /** In every run, however late its cleanups and however often packets arrive, the entry of id
      holds exactly what the current life has collected, and the message has been delivered once
      for each completed life. */
  lemma {:induction false} EntryTracksLife(events: seq<Event>, c: Setting, id: u32, m: Message, mp: nat)
    requires AllSane(events, c.o) && Publishable(m, mp) && OnlyPacketsOf(events, id, m, mp, c.o)
    requires |Pieces(m, mp)| <= MAX_FRAGMENTS
    ensures Tracks(Run(events, c), LifeOf(events, id, |Pieces(m, mp)|, c), id, m, mp)
  {
    hide Brings, Pieces, FragmentIn, FragmentCount, Collects, Sane, BringsPacketOf, Next, LifeStep;
    if events == [] {
    } else {
      var prior, e := events[..|events| - 1], events[|events| - 1];
      EntryTracksLife(prior, c, id, m, mp);
      TracksStep(Run(prior, c), e, c, LifeOf(prior, id, |Pieces(m, mp)|, c), id, m, mp);
    }
  }

  /** Delivery, exactly: in every run an event delivers a message of id if and only if it
      completes the current life; then it delivers m, and the entry is gone. */
  lemma DeliveredIffCompleted(events: seq<Event>, c: Setting, id: u32, m: Message, mp: nat)
    requires AllSane(events, c.o) && Publishable(m, mp) && OnlyPacketsOf(events, id, m, mp, c.o)
    requires |Pieces(m, mp)| <= MAX_FRAGMENTS && events != []
    ensures var prior, e := events[..|events| - 1], events[|events| - 1];
            var before, after := Run(prior, c), Run(events, c);
            var completes := Completes(LifeOf(prior, id, |Pieces(m, mp)|, c), e, id, |Pieces(m, mp)|, c.o);
            && DeliveriesOf(after.delivered, id) == DeliveriesOf(before.delivered, id) + (if completes then 1 else 0)
            && (completes ==> after.delivered == before.delivered + [Delivery(id, Arriving(m))] && id !in after.table)
  {
    hide Pieces, Unwire, FragmentCount, Collects, Sane, BringsPacketOf, Next, Below, Arriving, ElapsedMs;
    var prior, e := events[..|events| - 1], events[|events| - 1];
    EntryTracksLife(prior, c, id, m, mp);
    TracksStep(Run(prior, c), e, c, LifeOf(prior, id, |Pieces(m, mp)|, c), id, m, mp);
  }

  // ---- the first life ----

  lemma ArrivedBelow(events: seq<Event>, id: u32, m: Message, mp: nat, o: ByteOrder)
    requires Publishable(m, mp) && OnlyPacketsOf(events, id, m, mp, o)
    requires |Pieces(m, mp)| <= MAX_FRAGMENTS
    ensures Arrived(events, id, o) <= Below(|Pieces(m, mp)|)
  {
  }

  /** While no cleanup is late and not everything has arrived, the first life lasts. */
  lemma {:induction false} FirstLife(events: seq<Event>, c: Setting, id: u32, m: Message, mp: nat)
    requires Publishable(m, mp) && OnlyPacketsOf(events, id, m, mp, c.o) && CleanedInTime(events, id, c)
    requires |Pieces(m, mp)| <= MAX_FRAGMENTS && Arrived(events, id, c.o) != Below(|Pieces(m, mp)|)
    ensures var l, first := LifeOf(events, id, |Pieces(m, mp)|, c), FirstTime(events, id, c.o);
            && l.arrived == Arrived(events, id, c.o) && l.done == 0
            && (first.None? <==> l.arrived == {}) && (first.Some? ==> l.since == first.value)
  {
    hide Pieces, Unwire, FragmentCount, BringsPacketOf, Below, ElapsedMs;
    if events == [] {
    } else {
      var prior, e := events[..|events| - 1], events[|events| - 1];
      ArrivedBelow(events, id, m, mp, c.o);
      ArrivedBelow(prior, id, m, mp, c.o);
      FirstLife(prior, c, id, m, mp);
    }
  }

  /** Until everything has arrived nothing is delivered, and the entry holds exactly what has. */
  lemma EntryTracksArrivals(events: seq<Event>, c: Setting, id: u32, m: Message, mp: nat)
    requires AllSane(events, c.o) && Publishable(m, mp) && OnlyPacketsOf(events, id, m, mp, c.o)
    requires CleanedInTime(events, id, c)
    requires |Pieces(m, mp)| <= MAX_FRAGMENTS && Arrived(events, id, c.o) != Below(|Pieces(m, mp)|)
    ensures var s, arrived := Run(events, c), Arrived(events, id, c.o);
            && DeliveriesOf(s.delivered, id) == 0 && (arrived == {} <==> id !in s.table)
            && (id in s.table ==>
                  && s.table[id].received == arrived && Collects(s.table[id], m, mp)
                  && Some(s.table[id].firstFragmentTime) == FirstTime(events, id, c.o))
  {
    hide Pieces, FragmentCount, Collects, Sane, BringsPacketOf, Run, LifeOf, Arrived, FirstTime, CleanedInTime;
    EntryTracksLife(events, c, id, m, mp);
    FirstLife(events, c, id, m, mp);
  }

  /** Delivery under any arrival order. Whatever precedes, duplicated, reordered and interleaved
      with other ids, the event that brings the last missing fragment delivers the message,
      exactly once, and removes its entry. */
  lemma DeliveredAtLastFragment(events: seq<Event>, c: Setting, id: u32, m: Message, mp: nat)
    requires AllSane(events, c.o) && Publishable(m, mp) && OnlyPacketsOf(events, id, m, mp, c.o)
    requires CleanedInTime(events, id, c)
    requires |Pieces(m, mp)| <= MAX_FRAGMENTS && events != []
    requires Arrived(events[..|events| - 1], id, c.o) != Below(|Pieces(m, mp)|) == Arrived(events, id, c.o)
    ensures var before, after := Run(events[..|events| - 1], c), Run(events, c);
            && after.delivered == before.delivered + [Delivery(id, Arriving(m))]
            && DeliveriesOf(before.delivered, id) == 0 && DeliveriesOf(after.delivered, id) == 1
            && id !in after.table
  {
    hide Pieces, FragmentIn, FragmentCount, Collects, Sane, BringsPacketOf, Next, Below, Arriving, Run, LifeOf,
         FirstTime;
    var prior := events[..|events| - 1];
    FirstLife(prior, c, id, m, mp);
    EntryTracksArrivals(prior, c, id, m, mp);
    DeliveredIffCompleted(events, c, id, m, mp);
  }

  // ---- three runs with a message of two fragments ----

  /** Fragment k of m arrives. */
  function Bring(id: u32, m: Message, mp: nat, k: nat, now: int, o: ByteOrder): Event
    requires Publishable(m, mp) && k < |Pieces(m, mp)|
  {
    Arrival(Wire(FragmentOf(id, m, mp, k), o), now)
  }

  lemma BringBrings(id: u32, m: Message, mp: nat, k: nat, now: int, o: ByteOrder)
    requires Publishable(m, mp) && k < |Pieces(m, mp)| <= MAX_FRAGMENTS
    ensures var e := Bring(id, m, mp, k, now, o);
            && e.Arrival? && e.now == now
            && FragmentIn(e, o) == Some(FragmentOf(id, m, mp, k)) && FragmentIn(e, o).value.fragmentNum == k
            && Brings(e, id, o) && BringsPacketOf(e, id, m, mp, o) && Sane(e.data, o)
  {
    hide Pieces, Wire, Unwire, Body;
    WireRoundTrip(FragmentOf(id, m, mp, k), o);
  }

  lemma LifeAppend(events: seq<Event>, e: Event, id: u32, n: u16, c: Setting)
    ensures LifeOf(events + [e], id, n, c) == LifeStep(LifeOf(events, id, n, c), e, id, n, c)
    ensures Arrived(events + [e], id, c.o)
         == Arrived(events, id, c.o) + if Brings(e, id, c.o) then {FragmentIn(e, c.o).value.fragmentNum} else {}
    ensures FirstTime(events + [e], id, c.o)
         == var first := FirstTime(events, id, c.o);
            if first.Some? then first else if Brings(e, id, c.o) then Some(e.now) else None
    ensures CleanedInTime(events + [e], id, c) <==>
              && CleanedInTime(events, id, c)
              && (e.Cleanup? && FirstTime(events, id, c.o).Some? ==>
                    ElapsedMs(e.now, FirstTime(events, id, c.o).value) <= c.timeoutMs)
  {
    assert (events + [e])[..|events|] == events;
  }

  lemma CleanupBringsNothing(e: Event, id: u32, o: ByteOrder)
    requires e.Cleanup?
    ensures !Brings(e, id, o)
  {
  }

  lemma BelowTwo()
    ensures Below(2) == {0, 1}
  {
    assert forall k: u16 :: k in Below(2) <==> k == 0 || k == 1;
  }

  lemma EmptyLife(id: u32, n: u16, c: Setting)
    ensures LifeOf([], id, n, c) == Life({}, 0, 0) && Arrived([], id, c.o) == {}
    ensures FirstTime([], id, c.o) == None && CleanedInTime([], id, c)
  {
  }

  /** Fragment 0 arrives at time 0, and a late cleanup evicts it. */
  lemma Evicted(id: u32, m: Message, mp: nat, c: Setting, late: int)
    requires Publishable(m, mp) && |Pieces(m, mp)| == 2 && ElapsedMs(late, 0) > c.timeoutMs
    ensures var events := [Bring(id, m, mp, 0, 0, c.o), Cleanup(late)];
            && LifeOf(events, id, 2, c) == Life({}, 0, 0) && Arrived(events, id, c.o) == {0}
            && !CleanedInTime(events, id, c)
  {
    hide Bring, Pieces, Brings, FragmentIn, BringsPacketOf, Sane, Arrived, FirstTime, CleanedInTime, LifeOf, Run,
         ElapsedMs, Below, DeliveriesOf, FragmentCount, FragmentOf;
    BringBrings(id, m, mp, 0, 0, c.o);
    CleanupBringsNothing(Cleanup(late), id, c.o);
    BelowTwo();
    EmptyLife(id, 2, c);
    var a := Bring(id, m, mp, 0, 0, c.o);
    LifeAppend([], a, id, 2, c);
    LifeAppend([a], Cleanup(late), id, 2, c);
    assert [] + [a] == [a] && [a] + [Cleanup(late)] == [a, Cleanup(late)];
  }

  /** From a state without an entry, both packets complete a life. */
  lemma BothArrive(x: seq<Event>, id: u32, m: Message, mp: nat, c: Setting, now: int)
    requires Publishable(m, mp) && |Pieces(m, mp)| == 2 && LifeOf(x, id, 2, c).arrived == {}
    ensures var y := x + [Bring(id, m, mp, 0, now, c.o)] + [Bring(id, m, mp, 1, now, c.o)];
            && LifeOf(y, id, 2, c).arrived == {} && LifeOf(y, id, 2, c).done == LifeOf(x, id, 2, c).done + 1
            && (CleanedInTime(y, id, c) <==> CleanedInTime(x, id, c))
  {
    hide Bring, Pieces, Brings, FragmentIn, BringsPacketOf, Sane, Arrived, FirstTime, CleanedInTime, LifeOf, Run,
         ElapsedMs, Below, DeliveriesOf, FragmentCount, FragmentOf;
    BringBrings(id, m, mp, 0, now, c.o);
    BringBrings(id, m, mp, 1, now, c.o);
    BelowTwo();
    var a, b := Bring(id, m, mp, 0, now, c.o), Bring(id, m, mp, 1, now, c.o);
    LifeAppend(x, a, id, 2, c);
    LifeAppend(x + [a], b, id, 2, c);
  }

  /** A cleanup evicts fragment 0, and both packets arrive afterwards: delivered all the same. */
  lemma EvictedAndDelivered(id: u32, m: Message, mp: nat, c: Setting, late: int)
    requires Publishable(m, mp) && |Pieces(m, mp)| == 2 && ElapsedMs(late, 0) > c.timeoutMs
    ensures var events := [Bring(id, m, mp, 0, 0, c.o), Cleanup(late), Bring(id, m, mp, 0, late, c.o),
                           Bring(id, m, mp, 1, late, c.o)];
            && AllSane(events, c.o) && !CleanedInTime(events, id, c)
            && DeliveriesOf(Run(events, c).delivered, id) == 1
  {
    hide Bring, Pieces, Brings, FragmentIn, BringsPacketOf, Sane, Arrived, FirstTime, CleanedInTime, LifeOf, Run,
         ElapsedMs, Below, DeliveriesOf, FragmentCount, FragmentOf;
    BringBrings(id, m, mp, 0, 0, c.o);
    BringBrings(id, m, mp, 0, late, c.o);
    BringBrings(id, m, mp, 1, late, c.o);
    Evicted(id, m, mp, c, late);
    var x := [Bring(id, m, mp, 0, 0, c.o), Cleanup(late)];
    var a, b := Bring(id, m, mp, 0, late, c.o), Bring(id, m, mp, 1, late, c.o);
    BothArrive(x, id, m, mp, c, late);
    CleanupBringsNothing(Cleanup(late), id, c.o);
    assert x + [a] + [b] == [x[0], x[1], a, b];
    EntryTracksLife(x + [a] + [b], c, id, m, mp);
  }

  /** A cleanup evicts fragment 0, and only the other packet arrives afterwards: everything has
      arrived, and nothing is delivered. */
  lemma EvictedAndLost(id: u32, m: Message, mp: nat, c: Setting, late: int)
    requires Publishable(m, mp) && |Pieces(m, mp)| == 2 && ElapsedMs(late, 0) > c.timeoutMs
    ensures var events := [Bring(id, m, mp, 0, 0, c.o), Cleanup(late), Bring(id, m, mp, 1, late, c.o)];
            && AllSane(events, c.o) && Arrived(events, id, c.o) == Below(2)
            && DeliveriesOf(Run(events, c).delivered, id) == 0
  {
    hide Bring, Pieces, Brings, FragmentIn, BringsPacketOf, Sane, Arrived, FirstTime, CleanedInTime, LifeOf, Run,
         ElapsedMs, Below, DeliveriesOf, FragmentCount, FragmentOf;
    BringBrings(id, m, mp, 0, 0, c.o);
    BringBrings(id, m, mp, 1, late, c.o);
    BelowTwo();
    Evicted(id, m, mp, c, late);
    var x, b := [Bring(id, m, mp, 0, 0, c.o), Cleanup(late)], Bring(id, m, mp, 1, late, c.o);
    LifeAppend(x, b, id, 2, c);
    assert 0 !in LifeOf(x, id, 2, c).arrived + {FragmentIn(b, c.o).value.fragmentNum} && 0 in Below(2);
    CleanupBringsNothing(Cleanup(late), id, c.o);
    assert x + [b] == [x[0], x[1], b];
    EntryTracksLife(x + [b], c, id, m, mp);
  }

  /** Both packets arrive twice, with no cleanup at all: delivered twice. */
  lemma RepeatedAndDeliveredTwice(id: u32, m: Message, mp: nat, c: Setting)
    requires Publishable(m, mp) && |Pieces(m, mp)| == 2
    ensures var a, b := Bring(id, m, mp, 0, 0, c.o), Bring(id, m, mp, 1, 0, c.o);
            && AllSane([a, b, a, b], c.o) && CleanedInTime([a, b, a, b], id, c)
            && DeliveriesOf(Run([a, b, a, b], c).delivered, id) == 2
  {
    hide Bring, Pieces, Brings, FragmentIn, BringsPacketOf, Sane, Arrived, FirstTime, CleanedInTime, LifeOf, Run,
         ElapsedMs, Below, DeliveriesOf, FragmentCount, FragmentOf;
    BringBrings(id, m, mp, 0, 0, c.o);
    BringBrings(id, m, mp, 1, 0, c.o);
    EmptyLife(id, 2, c);
    var a, b := Bring(id, m, mp, 0, 0, c.o), Bring(id, m, mp, 1, 0, c.o);
    BothArrive([], id, m, mp, c, 0);
    BothArrive([] + [a] + [b], id, m, mp, c, 0);
    assert [] + [a] + [b] == [a, b] && [a, b] + [a] + [b] == [a, b, a, b];
    EntryTracksLife([a, b, a, b], c, id, m, mp);
  }

  /** There are such messages. */
  lemma TwoPieces()
    ensures Publishable(Message([1], [2]), 1) && |Pieces(Message([1], [2]), 1)| == 2
  {
  }

  // ---- conservation ----

  /** How often fragment k of id arrived. */
  function ArrivalsOf(events: seq<Event>, id: u32, k: u16, o: ByteOrder): nat {
    if events == [] then 0
    else
      var e := events[|events| - 1];
      ArrivalsOf(events[..|events| - 1], id, k, o)
      + if Brings(e, id, o) && FragmentIn(e, o).value.fragmentNum == k then 1 else 0
  }

  /** 1 if the current entry of id holds fragment k. */
  function Held(t: Table, id: u32, k: u16): nat { if id in t && k in t[id].received then 1 else 0 }

  /** Whatever total a fragment of id claims, k lies below it. */
  predicate BelowTotals(events: seq<Event>, id: u32, k: u16, o: ByteOrder) {
    forall i :: 0 <= i < |events| && Brings(events[i], id, o) ==> k < FragmentIn(events[i], o).value.totalFragments
  }

  lemma NothingHeld(id: u32, k: u16)
    ensures Held(map[], id, k) == 0
  {
  }

  lemma ConservationOutcome(p: Partial, f: Fragment, k: u16)
    requires |p.fragments| == p.totalFragments && f.fragmentNum < f.totalFragments && k < p.totalFragments
    requires forall j :: j in p.received ==> j < p.totalFragments
    ensures var r := OutcomeOf(p, f);
            && (r.Kept? ==> r.entry.totalFragments == p.totalFragments
                            && (k in r.entry.received ==> k in p.received || k == f.fragmentNum))
            && (r.Completed? ==> k in p.received || k == f.fragmentNum)
  {
    hide Flatten, Below;
    if p.totalFragments == f.totalFragments {
      CompleteIffAll(p.received + {f.fragmentNum}, f.totalFragments);
      if p.received + {f.fragmentNum} == Below(f.totalFragments) {
        assert k in p.received + {f.fragmentNum};
      }
    }
  }

  /** A fragment is put into its entry or not; a completed entry gives up one of each, and an
      entry of another total is discarded. */
  lemma ConservationAccept(t: Table, f: Fragment, now: int, k: u16)
    requires TableInv(t) && f.fragmentNum < f.totalFragments && k < f.totalFragments
    requires f.messageId in t ==> k < t[f.messageId].totalFragments
    ensures OpenedOk(t, f, now)
    ensures var (n, m) := Accept(t, f, now);
            && (if m.Some? then 1 else 0) + Held(n, f.messageId, k)
               <= Held(t, f.messageId, k) + (if f.fragmentNum == k then 1 else 0)
            && (f.messageId in n ==> k < n[f.messageId].totalFragments)
  {
    TableInvOpened(t, f, now);
    var p := Opened(t, f, now);
    assert k < p.totalFragments && (forall j :: j in p.received ==> j < p.totalFragments);
    assert f.messageId !in t ==> p.received == {};
    hide OutcomeOf, Opened, TableInv;
    ConservationOutcome(p, f, k);
  }

  lemma ConservationStep(s: State, e: Event, c: Setting, id: u32, k: u16)
    requires TableInv(s.table) && (e.Arrival? ==> Sane(e.data, c.o))
    requires Brings(e, id, c.o) ==> k < FragmentIn(e, c.o).value.totalFragments
    requires id in s.table ==> k < s.table[id].totalFragments
    ensures var n := Next(s, e, c);
            && DeliveriesOf(n.delivered, id) + Held(n.table, id, k)
               <= DeliveriesOf(s.delivered, id) + Held(s.table, id, k)
                  + (if Brings(e, id, c.o) && FragmentIn(e, c.o).value.fragmentNum == k then 1 else 0)
            && (id in n.table ==> k < n.table[id].totalFragments)
  {
    hide Unwire, TableInv, OutcomeOf, Opened;
    if Brings(e, id, c.o) {
      ConservationAccept(s.table, FragmentIn(e, c.o).value, e.now, k);
      hide Accept;
      var n := Next(s, e, c);
      if n.delivered != s.delivered { assert n.delivered[..|n.delivered| - 1] == s.delivered; }
    } else if e.Arrival? {
      OtherIdsUntouched(s, e, c, id);
    }
  }

  /** Conservation of fragments, whoever sends under id and whatever totals they claim: every
      delivery of id, and the entry if it holds fragment k, has used up its own arrival of
      fragment k. */
  lemma {:induction false} Conservation(events: seq<Event>, c: Setting, id: u32, k: u16)
    requires AllSane(events, c.o) && BelowTotals(events, id, k, c.o)
    ensures var s := Run(events, c);
            && DeliveriesOf(s.delivered, id) + Held(s.table, id, k) <= ArrivalsOf(events, id, k, c.o)
            && (id in s.table ==> k < s.table[id].totalFragments)
  {
    hide Brings, FragmentIn, Sane, Next, Held;
    if events == [] {
      assert Held(map[], id, k) == 0 by { NothingHeld(id, k); }
    } else {
      var prior, e := events[..|events| - 1], events[|events| - 1];
      Conservation(prior, c, id, k);
      ConservationStep(Run(prior, c), e, c, id, k);
    }
  }

  /** If some fragment of id arrived at most once, the message was delivered at most once. */
  lemma AtMostOnce(events: seq<Event>, c: Setting, id: u32, k: u16)
    requires AllSane(events, c.o) && BelowTotals(events, id, k, c.o)
    requires ArrivalsOf(events, id, k, c.o) <= 1
    ensures DeliveriesOf(Run(events, c).delivered, id) <= 1
  {
    hide Run, ArrivalsOf, BelowTotals, DeliveriesOf, Held;
    Conservation(events, c, id, k);
  }

  /** Fragment 0 lies below every total. */
  lemma ZeroBelowTotals(events: seq<Event>, id: u32, o: ByteOrder)
    requires AllSane(events, o)
    ensures BelowTotals(events, id, 0, o)
  {
    hide Unwire;
  }

  lemma {:induction false} DeliveryCounts(ds: seq<Delivery>, d: Delivery)
    requires d in ds
    ensures DeliveriesOf(ds, d.messageId) > 0
  {
    if ds[|ds| - 1] == d {
    } else {
      DeliveryCounts(ds[..|ds| - 1], d);
    }
  }

  lemma {:induction false} CountedArrived(events: seq<Event>, id: u32, k: u16, o: ByteOrder)
    ensures ArrivalsOf(events, id, k, o) > 0 <==> k in Arrived(events, id, o)
  {
    hide Brings, FragmentIn;
    if events == [] {
    } else {
      CountedArrived(events[..|events| - 1], id, k, o);
    }
  }

  /** Nothing is delivered under an id without its fragment 0. */
  lemma DeliveredNeedsFirst(events: seq<Event>, c: Setting, d: Delivery)
    requires AllSane(events, c.o) && d in Run(events, c).delivered
    ensures 0 in Arrived(events, d.messageId, c.o)
  {
    hide Run, Arrived, ArrivalsOf, BelowTotals, DeliveriesOf, Held;
    ZeroBelowTotals(events, d.messageId, c.o);
    Conservation(events, c, d.messageId, 0);
    DeliveryCounts(Run(events, c).delivered, d);
    CountedArrived(events, d.messageId, 0, c.o);
  }
}
