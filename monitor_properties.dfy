/**
  What one poll cycle does to the tracking state and which notifications it
  sends, stated over the cycle's specification (module Monitor), which the
  method Tracker.RunCycle is proved to follow.
 */
module MonitorProperties {
  import opened Wrappers
  import opened TimeLeft
  import opened Monitor

  // ---------------------------------------------------------------- views of a cycle's input and output

  /**
    The items that pass the watch list: each of them as often as it occurs in
    the list, no other item, in list order (TrackedItemsConcat).
   */
  function TrackedItems(items: seq<Item>, cfg: Config): (tracked: seq<Item>)
    ensures |tracked| <= |items|
    ensures forall k :: 0 <= k < |tracked| ==> Tracked(tracked[k], cfg)
    decreases |items|
  {
    if items == [] then []
    else
      var it := items[|items| - 1];
      TrackedItems(items[..|items| - 1], cfg) + if Tracked(it, cfg) then [it] else []
  }

  /** Each tracked item is kept as often as it occurs in the list, and no other item is. */
  lemma {:induction false} TrackedItemsCount(items: seq<Item>, cfg: Config)
    ensures forall x :: multiset(TrackedItems(items, cfg))[x] == if Tracked(x, cfg) then multiset(items)[x] else 0
    decreases |items|
  {
    if items != [] {
      var n := |items| - 1;
      assert items == items[..n] + [items[n]];
      TrackedItemsCount(items[..n], cfg);
    }
  }

  /** Filtering keeps the order: the tracked items of a concatenation are those of each part, in turn. */
  lemma {:induction false} TrackedItemsConcat(a: seq<Item>, b: seq<Item>, cfg: Config)
    ensures TrackedItems(a + b, cfg) == TrackedItems(a, cfg) + TrackedItems(b, cfg)
    decreases |b|
  {
    if b == [] {
      assert a + b == a;
    } else {
      var n := |b| - 1;
      assert (a + b)[..|a + b| - 1] == a + b[..n] && (a + b)[|a + b| - 1] == b[n];
      TrackedItemsConcat(a, b[..n], cfg);
    }
  }

  function IdsOf(items: seq<Item>): set<AuctionId> {
    set k | 0 <= k < |items| :: items[k].id
  }

  /** Ids of the items that pass the watch list. */
  function TrackedIds(items: seq<Item>, cfg: Config): set<AuctionId> {
    set k | 0 <= k < |items| && Tracked(items[k], cfg) :: items[k].id
  }

  /** Ids of the items that pass the watch list and are inside the ending-soon window. */
  function SoonIds(items: seq<Item>, cfg: Config): set<AuctionId> {
    set k | 0 <= k < |items| && Tracked(items[k], cfg) && EndingSoon(items[k], cfg) :: items[k].id
  }

  /** Items sharing an id carry the same bid (in particular: ids are unique). */
  predicate ConsistentBids(items: seq<Item>) {
    forall i, j :: 0 <= i < |items| && 0 <= j < |items| && items[i].id == items[j].id ==>
      items[i].currentBid == items[j].currentBid
  }

  predicate UniqueIds(items: seq<Item>) {
    forall i, j :: 0 <= i < j < |items| ==> items[i].id != items[j].id
  }

  /** Number of "new auction" notifications for `id`. */
  function NewAnnouncements(events: seq<Event>, id: AuctionId): nat
    decreases |events|
  {
    if events == [] then 0
    else (if events[0].Announce? && events[0].isNew && events[0].item.id == id then 1 else 0)
         + NewAnnouncements(events[1..], id)
  }

  /** Number of notifications, of either kind, about auction `id`. */
  function EventsAbout(events: seq<Event>, id: AuctionId): nat
    decreases |events|
  {
    if events == [] then 0
    else (if events[0].item.id == id then 1 else 0) + EventsAbout(events[1..], id)
  }

  /** The bid-change notifications as (id, old bid, new bid), in order. */
  function BidChanges(events: seq<Event>): seq<(AuctionId, int, int)>
    decreases |events|
  {
    if events == [] then []
    else (if events[0].BidChange? then [(events[0].item.id, events[0].oldBid, events[0].newBid)] else [])
         + BidChanges(events[1..])
  }

  /**
    The bid changes a steady cycle should report, judged item by item against
    the bids stored before the cycle: a tracked item inside the window whose
    stored bid differs from its current one.
   */
  function ExpectedBidChanges(lastBids: map<AuctionId, int>, items: seq<Item>, cfg: Config): seq<(AuctionId, int, int)>
    decreases |items|
  {
    if items == [] then []
    else
      var it := items[|items| - 1];
      ExpectedBidChanges(lastBids, items[..|items| - 1], cfg)
      + if Tracked(it, cfg) && EndingSoon(it, cfg) && it.id in lastBids && lastBids[it.id] != it.currentBid
        then [(it.id, lastBids[it.id], it.currentBid)] else []
  }

  /** Every tracked item is known, and every tracked item inside the window has its bid stored. */
  predicate Settled(s: TrackerState, items: seq<Item>, cfg: Config) {
    forall k :: 0 <= k < |items| && Tracked(items[k], cfg) ==>
      items[k].id in s.known
      && (EndingSoon(items[k], cfg) ==> items[k].id in s.lastBids && s.lastBids[items[k].id] == items[k].currentBid)
  }

  /**
    What a later cycle sends, judged item by item against the state before the
    cycle: for each tracked item in list order, what its step would send from
    that state.
   */
  function ExpectedSteadyEvents(s: TrackerState, items: seq<Item>, cfg: Config,
                                recentBids: map<AuctionId, seq<string>>): seq<Event>
    decreases |items|
  {
    if items == [] then []
    else
      var it := items[|items| - 1];
      ExpectedSteadyEvents(s, items[..|items| - 1], cfg, recentBids)
      + if Tracked(it, cfg) then SteadyStep(s, it, cfg, recentBids).events else []
  }

  /**
    A notification a later cycle may send: about a tracked item of the list,
    with that item's time text; either a "new auction" announce, or a bid
    change of an item inside the window from a different stored bid to its
    current bid, naming the bidder the lookup for that item gives.
   */
  predicate SentInSteadyCycle(e: Event, items: seq<Item>, cfg: Config, recentBids: map<AuctionId, seq<string>>) {
    && e.item in items && Tracked(e.item, cfg) && e.timeLeft == FormatTimeLeft(e.item.remaining)
    && match e
       case Announce(_, isNew, _) => isNew
       case BidChange(it, newBid, oldBid, bidder, _) =>
         EndingSoon(it, cfg) && newBid == it.currentBid && oldBid != newBid
         && bidder == Bidder(Lookup(recentBids, it.id))
  }

  predicate AllSentInSteadyCycle(events: seq<Event>, items: seq<Item>, cfg: Config, recentBids: map<AuctionId, seq<string>>) {
    forall k :: 0 <= k < |events| ==> SentInSteadyCycle(events[k], items, cfg, recentBids)
  }

  // ---------------------------------------------------------------- small facts

  lemma IdsSnoc(items: seq<Item>, cfg: Config)
    requires items != []
    ensures var n := |items| - 1; var it := items[n];
      && IdsOf(items) == IdsOf(items[..n]) + {it.id}
      && TrackedIds(items, cfg) == TrackedIds(items[..n], cfg) + (if Tracked(it, cfg) then {it.id} else {})
      && SoonIds(items, cfg) == SoonIds(items[..n], cfg) + (if Tracked(it, cfg) && EndingSoon(it, cfg) then {it.id} else {})
  {
    var n := |items| - 1;
    var pre, it := items[..n], items[n];
    assert forall k :: 0 <= k < n ==> pre[k] == items[k];
    assert IdsOf(items) == IdsOf(pre) + {it.id};
    TrackedIdsSnoc(items, cfg);
    SoonIdsSnoc(items, cfg);
  }

  lemma TrackedIdsSnoc(items: seq<Item>, cfg: Config)
    requires items != []
    ensures var n := |items| - 1; var it := items[n];
      TrackedIds(items, cfg) == TrackedIds(items[..n], cfg) + (if Tracked(it, cfg) then {it.id} else {})
  {
    var n := |items| - 1;
    assert forall k :: 0 <= k < n ==> items[..n][k] == items[k];
  }

  lemma SoonIdsSnoc(items: seq<Item>, cfg: Config)
    requires items != []
    ensures var n := |items| - 1; var it := items[n];
      SoonIds(items, cfg) == SoonIds(items[..n], cfg) + (if Tracked(it, cfg) && EndingSoon(it, cfg) then {it.id} else {})
  {
    var n := |items| - 1;
    assert forall k :: 0 <= k < n ==> items[..n][k] == items[k];
  }

  lemma {:induction false} NewAnnouncementsConcat(a: seq<Event>, b: seq<Event>, id: AuctionId)
    ensures NewAnnouncements(a + b, id) == NewAnnouncements(a, id) + NewAnnouncements(b, id)
    decreases |a|
  {
    if a != [] {
      assert (a + b)[1..] == a[1..] + b;
      NewAnnouncementsConcat(a[1..], b, id);
    } else {
      assert a + b == b;
    }
  }

  lemma {:induction false} EventsAboutConcat(a: seq<Event>, b: seq<Event>, id: AuctionId)
    ensures EventsAbout(a + b, id) == EventsAbout(a, id) + EventsAbout(b, id)
    decreases |a|
  {
    if a != [] {
      assert (a + b)[1..] == a[1..] + b;
      EventsAboutConcat(a[1..], b, id);
    } else {
      assert a + b == b;
    }
  }

  /** Notifications that are all about one item count fully for its id and not at all for another. */
  lemma {:induction false} EventsAboutOneItem(events: seq<Event>, it: Item, id: AuctionId)
    requires forall k :: 0 <= k < |events| ==> events[k].item == it
    ensures EventsAbout(events, id) == if it.id == id then |events| else 0
    decreases |events|
  {
    if events != [] {
      EventsAboutOneItem(events[1..], it, id);
    }
  }

  lemma {:induction false} BidChangesConcat(a: seq<Event>, b: seq<Event>)
    ensures BidChanges(a + b) == BidChanges(a) + BidChanges(b)
    decreases |a|
  {
    if a != [] {
      assert (a + b)[1..] == a[1..] + b;
      BidChangesConcat(a[1..], b);
    } else {
      assert a + b == b;
    }
  }

  /** What a later cycle's step for one tracked item sends, in the two views used below. */
  lemma SteadyStepEvents(s: TrackerState, it: Item, cfg: Config, recentBids: map<AuctionId, seq<string>>, id: AuctionId)
    ensures var events := SteadyStep(s, it, cfg, recentBids).events;
      && NewAnnouncements(events, id) == (if it.id == id && it.id !in s.known then 1 else 0)
      && BidChanges(events) == if EndingSoon(it, cfg) && it.id in s.lastBids && s.lastBids[it.id] != it.currentBid
                               then [(it.id, s.lastBids[it.id], it.currentBid)] else []
  {
    var events := SteadyStep(s, it, cfg, recentBids).events;
    var announce := if it.id !in s.known then [Announce(it, true, FormatTimeLeft(it.remaining))] else [];
    assert NewAnnouncements(announce, id) == (if it.id == id && it.id !in s.known then 1 else 0);
    assert BidChanges(announce) == [];
    if events != announce {
      var change := events[|events| - 1];
      assert events == announce + [change];
      NewAnnouncementsConcat(announce, [change], id);
      BidChangesConcat(announce, [change]);
    }
  }

  // ---------------------------------------------------------------- the items of one cycle

  /** Every tracked id ends up known, and nothing else is added. */
  lemma {:induction false} KnownAfterItems(s: TrackerState, items: seq<Item>, cfg: Config,
                                           recentBids: map<AuctionId, seq<string>>, bootstrap: bool)
    ensures ProcessItems(s, items, cfg, recentBids, bootstrap).state.known == s.known + TrackedIds(items, cfg)
    decreases |items|
  {
    if items != [] {
      KnownAfterItems(s, items[..|items| - 1], cfg, recentBids, bootstrap);
      IdsSnoc(items, cfg);
    }
  }

  /** A bid is stored for exactly the ids stored before plus the tracked ids inside the window. */
  lemma {:induction false} BidKeysAfterItems(s: TrackerState, items: seq<Item>, cfg: Config,
                                             recentBids: map<AuctionId, seq<string>>, bootstrap: bool)
    ensures ProcessItems(s, items, cfg, recentBids, bootstrap).state.lastBids.Keys == s.lastBids.Keys + SoonIds(items, cfg)
    decreases |items|
  {
    if items != [] {
      BidKeysAfterItems(s, items[..|items| - 1], cfg, recentBids, bootstrap);
      IdsSnoc(items, cfg);
    }
  }

  /** The stored bid of a tracked item inside the window is its current bid; other stored bids are untouched. */
  lemma BidValuesAfterItems(s: TrackerState, items: seq<Item>, cfg: Config,
                            recentBids: map<AuctionId, seq<string>>, bootstrap: bool)
    requires ConsistentBids(items)
    ensures var bids := ProcessItems(s, items, cfg, recentBids, bootstrap).state.lastBids;
      && (forall k :: 0 <= k < |items| && Tracked(items[k], cfg) && EndingSoon(items[k], cfg) ==>
            items[k].id in bids && bids[items[k].id] == items[k].currentBid)
      && (forall id :: id in s.lastBids && id !in SoonIds(items, cfg) ==> id in bids && bids[id] == s.lastBids[id])
  {
    CurrentBidsStored(s, items, cfg, recentBids, bootstrap);
    OtherBidsKept(s, items, cfg, recentBids, bootstrap);
  }

  lemma CurrentBidsStored(s: TrackerState, items: seq<Item>, cfg: Config,
                          recentBids: map<AuctionId, seq<string>>, bootstrap: bool)
    requires ConsistentBids(items)
    ensures var bids := ProcessItems(s, items, cfg, recentBids, bootstrap).state.lastBids;
      forall k :: 0 <= k < |items| && Tracked(items[k], cfg) && EndingSoon(items[k], cfg) ==>
        items[k].id in bids && bids[items[k].id] == items[k].currentBid
  {
    forall k | 0 <= k < |items| && Tracked(items[k], cfg) && EndingSoon(items[k], cfg)
      ensures var bids := ProcessItems(s, items, cfg, recentBids, bootstrap).state.lastBids;
        items[k].id in bids && bids[items[k].id] == items[k].currentBid
    {
      CurrentBidStored(s, items, cfg, recentBids, bootstrap, k);
    }
  }

  /** One tracked item inside the window: the bid stored for its id is its current bid. */
  lemma {:induction false} CurrentBidStored(s: TrackerState, items: seq<Item>, cfg: Config,
                                            recentBids: map<AuctionId, seq<string>>, bootstrap: bool, k: nat)
    requires ConsistentBids(items) && k < |items| && Tracked(items[k], cfg) && EndingSoon(items[k], cfg)
    ensures var bids := ProcessItems(s, items, cfg, recentBids, bootstrap).state.lastBids;
      items[k].id in bids && bids[items[k].id] == items[k].currentBid
    decreases |items|
  {
    var n := |items| - 1;
    var pre, it := items[..n], items[n];
    if !(Tracked(it, cfg) && EndingSoon(it, cfg) && it.id == items[k].id) {
      assert k < n && pre[k] == items[k];
      ConsistentPrefix(items, n);
      CurrentBidStored(s, pre, cfg, recentBids, bootstrap, k);
    }
  }

  lemma ConsistentPrefix(items: seq<Item>, n: nat)
    requires ConsistentBids(items) && n <= |items|
    ensures ConsistentBids(items[..n])
  {
    assert forall k :: 0 <= k < n ==> items[..n][k] == items[k];
  }

  lemma {:induction false} OtherBidsKept(s: TrackerState, items: seq<Item>, cfg: Config,
                                         recentBids: map<AuctionId, seq<string>>, bootstrap: bool)
    ensures var bids := ProcessItems(s, items, cfg, recentBids, bootstrap).state.lastBids;
      forall id :: id in s.lastBids && id !in SoonIds(items, cfg) ==> id in bids && bids[id] == s.lastBids[id]
    decreases |items|
  {
    if items != [] {
      OtherBidsKept(s, items[..|items| - 1], cfg, recentBids, bootstrap);
      IdsSnoc(items, cfg);
    }
  }

  /** An id that no item of the cycle carries keeps its known-ness and its stored bid. */
  lemma {:induction false} OtherIdsUntouched(s: TrackerState, items: seq<Item>, cfg: Config,
                                             recentBids: map<AuctionId, seq<string>>, bootstrap: bool, id: AuctionId)
    requires id !in IdsOf(items)
    ensures var r := ProcessItems(s, items, cfg, recentBids, bootstrap).state;
      && (id in r.known <==> id in s.known)
      && (id in r.lastBids <==> id in s.lastBids)
      && (id in s.lastBids ==> r.lastBids[id] == s.lastBids[id])
    decreases |items|
  {
    if items != [] {
      IdsSnoc(items, cfg);
      OtherIdsUntouched(s, items[..|items| - 1], cfg, recentBids, bootstrap, id);
    }
  }

  /** In the first cycle every tracked item gets one informational announce, in order, and nothing else. */
  lemma {:induction false} BaselineEvents(s: TrackerState, items: seq<Item>, cfg: Config,
                                          recentBids: map<AuctionId, seq<string>>)
    ensures var events := ProcessItems(s, items, cfg, recentBids, true).events;
      var tracked := TrackedItems(items, cfg);
      && |events| == |tracked|
      && forall k :: 0 <= k < |events| ==>
           events[k] == Announce(tracked[k], false, FormatTimeLeft(tracked[k].remaining))
    decreases |items|
  {
    if items != [] {
      BaselineEvents(s, items[..|items| - 1], cfg, recentBids);
    }
  }

  /** In a later cycle an id is announced as new once if it was unknown and some tracked item carries it, else never. */
  lemma {:induction false} NewAnnouncementsOfItems(s: TrackerState, items: seq<Item>, cfg: Config,
                                                   recentBids: map<AuctionId, seq<string>>, id: AuctionId)
    ensures NewAnnouncements(ProcessItems(s, items, cfg, recentBids, false).events, id)
            == if id !in s.known && id in TrackedIds(items, cfg) then 1 else 0
    decreases |items|
  {
    if items != [] {
      var n := |items| - 1;
      var pre, it := items[..n], items[n];
      NewAnnouncementsOfItems(s, pre, cfg, recentBids, id);
      KnownAfterItems(s, pre, cfg, recentBids, false);
      TrackedIdsSnoc(items, cfg);
      if Tracked(it, cfg) {
        var prev := ProcessItems(s, pre, cfg, recentBids, false);
        var step := SteadyStep(prev.state, it, cfg, recentBids);
        assert ProcessItems(s, items, cfg, recentBids, false).events == prev.events + step.events;
        NewAnnouncementsConcat(prev.events, step.events, id);
        SteadyStepEvents(prev.state, it, cfg, recentBids, id);
      }
    }
  }

  /** With unique ids, a later cycle reports exactly the bid changes judged against the bids stored before it. */
  lemma {:induction false} BidChangesOfItems(s: TrackerState, items: seq<Item>, cfg: Config,
                                             recentBids: map<AuctionId, seq<string>>)
    requires UniqueIds(items)
    ensures BidChanges(ProcessItems(s, items, cfg, recentBids, false).events) == ExpectedBidChanges(s.lastBids, items, cfg)
    decreases |items|
  {
    if items != [] {
      var n := |items| - 1;
      var pre, it := items[..n], items[n];
      assert UniqueIds(pre) by {
        assert forall k :: 0 <= k < n ==> pre[k] == items[k];
      }
      BidChangesOfItems(s, pre, cfg, recentBids);
      if Tracked(it, cfg) {
        var prev := ProcessItems(s, pre, cfg, recentBids, false);
        assert it.id !in IdsOf(pre) by {
          assert forall k :: 0 <= k < n ==> pre[k] == items[k];
        }
        OtherIdsUntouched(s, pre, cfg, recentBids, false, it.id);
        var step := SteadyStep(prev.state, it, cfg, recentBids);
        assert ProcessItems(s, items, cfg, recentBids, false).events == prev.events + step.events;
        BidChangesConcat(prev.events, step.events);
        SteadyStepEvents(prev.state, it, cfg, recentBids, it.id);
      }
    }
  }

  /** Every notification of a later cycle is a "new auction" announce or a bid change as SentInSteadyCycle describes. */
  lemma {:induction false} SteadyEventsOfItemsShape(s: TrackerState, items: seq<Item>, cfg: Config,
                                                    recentBids: map<AuctionId, seq<string>>)
    ensures AllSentInSteadyCycle(ProcessItems(s, items, cfg, recentBids, false).events, items, cfg, recentBids)
    decreases |items|
  {
    if items != [] {
      var n := |items| - 1;
      var pre, it := items[..n], items[n];
      SteadyEventsOfItemsShape(s, pre, cfg, recentBids);
      var prev := ProcessItems(s, pre, cfg, recentBids, false);
      var events := ProcessItems(s, items, cfg, recentBids, false).events;
      forall k | 0 <= k < |prev.events|
        ensures SentInSteadyCycle(prev.events[k], items, cfg, recentBids)
      {
        var e := prev.events[k];
        assert SentInSteadyCycle(e, pre, cfg, recentBids);
        var j :| 0 <= j < n && pre[j] == e.item;
        assert items[j] == e.item;
      }
      if Tracked(it, cfg) {
        var step := SteadyStep(prev.state, it, cfg, recentBids).events;
        assert events == prev.events + step;
        assert it in items by { assert items[n] == it; }
        forall k | 0 <= k < |step| ensures SentInSteadyCycle(step[k], items, cfg, recentBids) {
          StepEventShape(prev.state, it, cfg, recentBids, k);
        }
      }
    }
  }

  /** The notifications of one step of a later cycle, one at a time. */
  lemma StepEventShape(s: TrackerState, it: Item, cfg: Config, recentBids: map<AuctionId, seq<string>>, k: nat)
    requires k < |SteadyStep(s, it, cfg, recentBids).events|
    ensures var e := SteadyStep(s, it, cfg, recentBids).events[k];
      && e.item == it && e.timeLeft == FormatTimeLeft(it.remaining)
      && (e.Announce? ==> e.isNew)
      && (e.BidChange? ==> EndingSoon(it, cfg) && e.newBid == it.currentBid && e.oldBid != e.newBid
                           && e.bidder == Bidder(Lookup(recentBids, it.id)))
  {
  }

  /** A step's notifications depend on the state only through its own id. */
  lemma SteadyStepLocal(s: TrackerState, t: TrackerState, it: Item, cfg: Config, recentBids: map<AuctionId, seq<string>>)
    requires (it.id in s.known <==> it.id in t.known) && (it.id in s.lastBids <==> it.id in t.lastBids)
    requires it.id in s.lastBids ==> s.lastBids[it.id] == t.lastBids[it.id]
    ensures SteadyStep(s, it, cfg, recentBids).events == SteadyStep(t, it, cfg, recentBids).events
  {
  }

  /** With unique ids, a later cycle sends, item by item, what each step would send from the state before the cycle. */
  lemma {:induction false} SteadyEventsOfItems(s: TrackerState, items: seq<Item>, cfg: Config,
                                               recentBids: map<AuctionId, seq<string>>)
    requires UniqueIds(items)
    ensures ProcessItems(s, items, cfg, recentBids, false).events == ExpectedSteadyEvents(s, items, cfg, recentBids)
    decreases |items|
  {
    if items != [] {
      var n := |items| - 1;
      var pre, it := items[..n], items[n];
      assert UniqueIds(pre) by {
        assert forall k :: 0 <= k < n ==> pre[k] == items[k];
      }
      SteadyEventsOfItems(s, pre, cfg, recentBids);
      if Tracked(it, cfg) {
        var prev := ProcessItems(s, pre, cfg, recentBids, false);
        assert it.id !in IdsOf(pre) by {
          assert forall k :: 0 <= k < n ==> pre[k] == items[k];
        }
        OtherIdsUntouched(s, pre, cfg, recentBids, false, it.id);
        SteadyStepLocal(prev.state, s, it, cfg, recentBids);
      }
    }
  }

  /**
    While every stored bid belongs to a known id, one step of a later cycle sends
    at most one notification: an item announced as new had no stored bid, so it
    cannot also be reported outbid in the same step.
   */
  lemma SteadyStepSendsAtMostOne(s: TrackerState, it: Item, cfg: Config, recentBids: map<AuctionId, seq<string>>)
    requires s.lastBids.Keys <= s.known
    ensures |SteadyStep(s, it, cfg, recentBids).events| <= 1
  {
  }

  /** The notifications of one step of a later cycle are about its own item only. */
  lemma StepEventsAbout(s: TrackerState, it: Item, cfg: Config, recentBids: map<AuctionId, seq<string>>, id: AuctionId)
    ensures var events := SteadyStep(s, it, cfg, recentBids).events;
      EventsAbout(events, id) == if it.id == id then |events| else 0
  {
    var events := SteadyStep(s, it, cfg, recentBids).events;
    forall k | 0 <= k < |events| ensures events[k].item == it {
      StepEventShape(s, it, cfg, recentBids, k);
    }
    EventsAboutOneItem(events, it, id);
  }

  /** Judged against one state, the items of a list send nothing about an id none of them carries. */
  lemma {:induction false} ExpectedEventsAboutAbsent(s: TrackerState, items: seq<Item>, cfg: Config,
                                                     recentBids: map<AuctionId, seq<string>>, id: AuctionId)
    requires id !in IdsOf(items)
    ensures EventsAbout(ExpectedSteadyEvents(s, items, cfg, recentBids), id) == 0
    decreases |items|
  {
    if items != [] {
      var n := |items| - 1;
      var pre, it := items[..n], items[n];
      IdsSnoc(items, cfg);
      ExpectedEventsAboutAbsent(s, pre, cfg, recentBids, id);
      var step := if Tracked(it, cfg) then SteadyStep(s, it, cfg, recentBids).events else [];
      assert ExpectedSteadyEvents(s, items, cfg, recentBids) == ExpectedSteadyEvents(s, pre, cfg, recentBids) + step;
      EventsAboutConcat(ExpectedSteadyEvents(s, pre, cfg, recentBids), step, id);
      if Tracked(it, cfg) {
        StepEventsAbout(s, it, cfg, recentBids, id);
      }
    }
  }

  /** Judged against a state whose stored bids belong to known ids, a list with unique ids sends at most one notification per id. */
  lemma {:induction false} ExpectedEventsAboutUnique(s: TrackerState, items: seq<Item>, cfg: Config,
                                                     recentBids: map<AuctionId, seq<string>>, id: AuctionId)
    requires s.lastBids.Keys <= s.known && UniqueIds(items)
    ensures EventsAbout(ExpectedSteadyEvents(s, items, cfg, recentBids), id) <= 1
    decreases |items|
  {
    if items != [] {
      var n := |items| - 1;
      var pre, it := items[..n], items[n];
      assert forall k :: 0 <= k < n ==> pre[k] == items[k];
      ExpectedEventsAboutUnique(s, pre, cfg, recentBids, id);
      var step := if Tracked(it, cfg) then SteadyStep(s, it, cfg, recentBids).events else [];
      assert ExpectedSteadyEvents(s, items, cfg, recentBids) == ExpectedSteadyEvents(s, pre, cfg, recentBids) + step;
      EventsAboutConcat(ExpectedSteadyEvents(s, pre, cfg, recentBids), step, id);
      if Tracked(it, cfg) {
        StepEventsAbout(s, it, cfg, recentBids, id);
        if it.id == id {
          ExpectedEventsAboutAbsent(s, pre, cfg, recentBids, id);
          SteadyStepSendsAtMostOne(s, it, cfg, recentBids);
        }
      }
    }
  }

  /**
    While every stored bid belongs to a known id, a later cycle sends no more
    notifications than the list has tracked entries, each step sending at most one.
   */
  lemma {:induction false} OneEventPerTrackedItem(s: TrackerState, items: seq<Item>, cfg: Config,
                                                  recentBids: map<AuctionId, seq<string>>)
    requires s.lastBids.Keys <= s.known
    ensures |ProcessItems(s, items, cfg, recentBids, false).events| <= |TrackedItems(items, cfg)|
    decreases |items|
  {
    if items != [] {
      var n := |items| - 1;
      OneEventPerTrackedItem(s, items[..n], cfg, recentBids);
    }
  }

  /** After the items are processed, they are all settled in the new state. */
  lemma SettledAfterItems(s: TrackerState, items: seq<Item>, cfg: Config,
                          recentBids: map<AuctionId, seq<string>>, bootstrap: bool)
    requires ConsistentBids(items)
    ensures Settled(ProcessItems(s, items, cfg, recentBids, bootstrap).state, items, cfg)
  {
    KnownAfterItems(s, items, cfg, recentBids, bootstrap);
    BidValuesAfterItems(s, items, cfg, recentBids, bootstrap);
  }

  /** A later cycle over settled items changes nothing and sends nothing. */
  lemma {:induction false} SettledItemsAreSilent(s: TrackerState, items: seq<Item>, cfg: Config,
                                                 recentBids: map<AuctionId, seq<string>>)
    requires Settled(s, items, cfg)
    ensures ProcessItems(s, items, cfg, recentBids, false) == CycleResult(s, [])
    decreases |items|
  {
    if items != [] {
      var n := |items| - 1;
      var pre, it := items[..n], items[n];
      assert forall k :: 0 <= k < n ==> pre[k] == items[k];
      SettledItemsAreSilent(s, pre, cfg, recentBids);
      if Tracked(it, cfg) {
        assert s.known + {it.id} == s.known;
      }
    }
  }

  /** Untracked items can be dropped from the list without changing anything. */
  lemma {:induction false} UntrackedItemsSkipped(s: TrackerState, items: seq<Item>, cfg: Config,
                                                 recentBids: map<AuctionId, seq<string>>, bootstrap: bool)
    ensures ProcessItems(s, items, cfg, recentBids, bootstrap) == ProcessItems(s, TrackedItems(items, cfg), cfg, recentBids, bootstrap)
    decreases |items|
  {
    if items != [] {
      var n := |items| - 1;
      var pre, it := items[..n], items[n];
      UntrackedItemsSkipped(s, pre, cfg, recentBids, bootstrap);
      var tpre := TrackedItems(pre, cfg);
      if Tracked(it, cfg) {
        var tracked := tpre + [it];
        assert TrackedItems(items, cfg) == tracked;
        assert tracked[..|tracked| - 1] == tpre && tracked[|tracked| - 1] == it;
      } else {
        assert TrackedItems(items, cfg) == tpre;
      }
    }
  }

  // ---------------------------------------------------------------- one cycle

  /**
    The first successful cycle sends one informational (not new) announce per
    tracked item, in order, and no bid change; it makes every tracked id known,
    stores bids exactly for tracked items inside the window, and ends the bootstrap.
   */
  lemma BootstrapCycle(s: TrackerState, items: seq<Item>, cfg: Config, recentBids: map<AuctionId, seq<string>>)
    requires s.firstRun
    ensures var r := Cycle(s, Some(items), cfg, recentBids);
      var tracked := TrackedItems(items, cfg);
      && |r.events| == |tracked|
      && (forall k :: 0 <= k < |tracked| ==>
            r.events[k] == Announce(tracked[k], false, FormatTimeLeft(tracked[k].remaining)))
      && r.state.known == s.known + TrackedIds(items, cfg)
      && r.state.lastBids.Keys == s.lastBids.Keys + SoonIds(items, cfg)
      && !r.state.firstRun
  {
    BaselineEvents(s, items, cfg, recentBids);
    KnownAfterItems(s, items, cfg, recentBids, true);
    BidKeysAfterItems(s, items, cfg, recentBids, true);
  }

  /** The bootstrap cycle sends no "new auction" and no bid-change notification. */
  lemma BootstrapSendsNoNews(s: TrackerState, items: seq<Item>, cfg: Config,
                             recentBids: map<AuctionId, seq<string>>, id: AuctionId)
    requires s.firstRun
    ensures NewAnnouncements(Cycle(s, Some(items), cfg, recentBids).events, id) == 0
    ensures BidChanges(Cycle(s, Some(items), cfg, recentBids).events) == []
  {
    BootstrapCycle(s, items, cfg, recentBids);
    NoNewsAmongBaseline(Cycle(s, Some(items), cfg, recentBids).events, id);
  }

  lemma {:induction false} NoNewsAmongBaseline(events: seq<Event>, id: AuctionId)
    requires forall k :: 0 <= k < |events| ==> events[k].Announce? && !events[k].isNew
    ensures NewAnnouncements(events, id) == 0 && BidChanges(events) == []
    decreases |events|
  {
    if events != [] {
      NoNewsAmongBaseline(events[1..], id);
    }
  }

  /**
    A later cycle announces an id as new exactly once when it was unknown and a
    tracked item carries it, never otherwise; the tracked ids become known.
   */
  lemma SteadyNewAnnouncements(s: TrackerState, items: seq<Item>, cfg: Config,
                               recentBids: map<AuctionId, seq<string>>, id: AuctionId)
    requires !s.firstRun
    ensures var r := Cycle(s, Some(items), cfg, recentBids);
      && NewAnnouncements(r.events, id) == (if id !in s.known && id in TrackedIds(items, cfg) then 1 else 0)
      && r.state.known == s.known + TrackedIds(items, cfg)
  {
    NewAnnouncementsOfItems(s, items, cfg, recentBids, id);
    KnownAfterItems(s, items, cfg, recentBids, false);
  }

  /**
    After any successful cycle a tracked item inside the window has its current
    bid stored, a bid is stored for no new id outside the window, and no stored bid is lost.
   */
  lemma StoredBidsAfterCycle(s: TrackerState, items: seq<Item>, cfg: Config, recentBids: map<AuctionId, seq<string>>)
    requires ConsistentBids(items)
    ensures var bids := Cycle(s, Some(items), cfg, recentBids).state.lastBids;
      && bids.Keys == s.lastBids.Keys + SoonIds(items, cfg)
      && (forall k :: 0 <= k < |items| && Tracked(items[k], cfg) && EndingSoon(items[k], cfg) ==>
            bids[items[k].id] == items[k].currentBid)
      && (forall id :: id in s.lastBids && id !in SoonIds(items, cfg) ==> bids[id] == s.lastBids[id])
  {
    BidKeysAfterItems(s, items, cfg, recentBids, s.firstRun);
    BidValuesAfterItems(s, items, cfg, recentBids, s.firstRun);
  }

  /**
    With unique ids, a later cycle sends one bid change per tracked item inside
    the window whose stored bid differs from its current bid, with the stored
    bid as old and the current bid as new, in item order, and no other.
   */
  lemma SteadyBidChanges(s: TrackerState, items: seq<Item>, cfg: Config, recentBids: map<AuctionId, seq<string>>)
    requires !s.firstRun && UniqueIds(items)
    ensures BidChanges(Cycle(s, Some(items), cfg, recentBids).events) == ExpectedBidChanges(s.lastBids, items, cfg)
  {
    BidChangesOfItems(s, items, cfg, recentBids);
  }

  /**
    Every notification of a later cycle concerns a tracked item of the list and
    carries its time text; it is a "new auction" announce, or a bid change of an
    item inside the window, from a different stored bid to the item's current
    bid, naming the bidder the lookup for that item gives.
   */
  lemma SteadyEventsShape(s: TrackerState, items: seq<Item>, cfg: Config, recentBids: map<AuctionId, seq<string>>)
    requires !s.firstRun
    ensures AllSentInSteadyCycle(Cycle(s, Some(items), cfg, recentBids).events, items, cfg, recentBids)
  {
    SteadyEventsOfItemsShape(s, items, cfg, recentBids);
  }

  /**
    With unique ids, a later cycle sends exactly, tracked item by tracked item in
    list order, what that item's step sends from the state before the cycle: its
    "new auction" announce if its id was unknown, then its bid change if it is
    inside the window and its stored bid differs from its current one.
   */
  lemma SteadyEvents(s: TrackerState, items: seq<Item>, cfg: Config, recentBids: map<AuctionId, seq<string>>)
    requires !s.firstRun && UniqueIds(items)
    ensures Cycle(s, Some(items), cfg, recentBids).events == ExpectedSteadyEvents(s, items, cfg, recentBids)
  {
    SteadyEventsOfItems(s, items, cfg, recentBids);
  }

  /** Between cycles, a later cycle sends no more notifications than the list has tracked entries. */
  lemma {:induction false} AtMostOneEventPerItem(s: TrackerState, items: seq<Item>, cfg: Config, recentBids: map<AuctionId, seq<string>>)
    requires WellFormed(s) && !s.firstRun
    ensures |Cycle(s, Some(items), cfg, recentBids).events| <= |TrackedItems(items, cfg)|
  {
    OneEventPerTrackedItem(s, items, cfg, recentBids);
  }

  /**
    Between cycles and with unique ids, a later cycle sends at most one
    notification about each auction: none is both announced as new and
    reported outbid in the same cycle.
   */
  lemma OneEventPerAuction(s: TrackerState, items: seq<Item>, cfg: Config,
                           recentBids: map<AuctionId, seq<string>>, id: AuctionId)
    requires WellFormed(s) && !s.firstRun && UniqueIds(items)
    ensures EventsAbout(Cycle(s, Some(items), cfg, recentBids).events, id) <= 1
  {
    SteadyEvents(s, items, cfg, recentBids);
    ExpectedEventsAboutUnique(s, items, cfg, recentBids, id);
  }

  /** Running a cycle a second time on the same auction list sends nothing and changes nothing. */
  lemma RepeatedCycleIsSilent(s: TrackerState, items: seq<Item>, cfg: Config,
                              recentBids: map<AuctionId, seq<string>>, laterBids: map<AuctionId, seq<string>>)
    requires ConsistentBids(items)
    ensures var first := Cycle(s, Some(items), cfg, recentBids);
      Cycle(first.state, Some(items), cfg, laterBids) == CycleResult(first.state, [])
  {
    var first := Cycle(s, Some(items), cfg, recentBids);
    SettledAfterItems(s, items, cfg, recentBids, s.firstRun);
    assert Settled(first.state, items, cfg);
    SettledItemsAreSilent(first.state, items, cfg, laterBids);
  }

  /** Items that fail the watch list neither change the state nor cause notifications. */
  lemma UntrackedItemsIgnored(s: TrackerState, items: seq<Item>, cfg: Config, recentBids: map<AuctionId, seq<string>>)
    ensures Cycle(s, Some(items), cfg, recentBids) == Cycle(s, Some(TrackedItems(items, cfg)), cfg, recentBids)
  {
    UntrackedItemsSkipped(s, items, cfg, recentBids, s.firstRun);
  }

  // ---------------------------------------------------------------- the process lifetime

  /** One cycle announces an id as new at most once, only if it was unknown, and then knows it. */
  lemma CycleAnnouncesNewAtMostOnce(s: TrackerState, fetched: Option<seq<Item>>, cfg: Config,
                                    recentBids: map<AuctionId, seq<string>>, id: AuctionId)
    ensures var r := Cycle(s, fetched, cfg, recentBids);
      && NewAnnouncements(r.events, id) <= (if id in s.known then 0 else 1)
      && (NewAnnouncements(r.events, id) > 0 ==> id in r.state.known)
  {
    if fetched.Some? {
      if s.firstRun {
        BootstrapSendsNoNews(s, fetched.value, cfg, recentBids, id);
      } else {
        SteadyNewAnnouncements(s, fetched.value, cfg, recentBids, id);
      }
    }
  }

  /** Over any sequence of cycles, an auction is announced as new at most once, and never if it was already known. */
  lemma {:induction false} AnnouncedAsNewAtMostOnce(s: TrackerState, polls: seq<Poll>, cfg: Config, id: AuctionId)
    ensures NewAnnouncements(Run(s, polls, cfg).events, id) <= if id in s.known then 0 else 1
    decreases |polls|
  {
    if polls != [] {
      var first := Cycle(s, polls[0].fetched, cfg, polls[0].recentBids);
      CycleAnnouncesNewAtMostOnce(s, polls[0].fetched, cfg, polls[0].recentBids, id);
      AnnouncedAsNewAtMostOnce(first.state, polls[1..], cfg, id);
      NewAnnouncementsConcat(first.events, Run(first.state, polls[1..], cfg).events, id);
    }
  }

  // ---------------------------------------------------------------- a worked scenario

  /**
    Two cycles with an empty watch list and a one-hour window. The first sees
    auction 1 with two hours left and auction 2 with thirty minutes left at
    bid 100: both are announced as not new, and only auction 2 gets a stored
    bid. The second sees auction 2 at bid 150: exactly one bid change, from
    100 to 150, by the bidder the lookup names.
   */
  lemma OutbidScenario()
    ensures var cfg := Config(1, []);
      var a := Item(1, "a", 10, 5, 2 * SecondsPerHour * MicrosPerSecond);
      var b := Item(2, "b", 100, 50, 30 * SecondsPerMinute * MicrosPerSecond);
      var b2 := b.(currentBid := 150);
      var first := Cycle(Initial, Some([a, b]), cfg, map[]);
      var second := Cycle(first.state, Some([a, b2]), cfg, map[2 := ["bob"]]);
      && first.events == [Announce(a, false, FormatTimeLeft(a.remaining)), Announce(b, false, FormatTimeLeft(b.remaining))]
      && first.state == TrackerState({1, 2}, map[2 := 100], false)
      && second.events == [BidChange(b2, 150, 100, "bob", FormatTimeLeft(b2.remaining))]
      && second.state == TrackerState({1, 2}, map[2 := 150], false)
  {
    var cfg := Config(1, []);
    var a := Item(1, "a", 10, 5, 2 * SecondsPerHour * MicrosPerSecond);
    var b := Item(2, "b", 100, 50, 30 * SecondsPerMinute * MicrosPerSecond);
    var b2 := b.(currentBid := 150);
    assert [a, b][..1] == [a] && [a, b2][..1] == [a];
    assert [a][..0] == [] && [a, b][1] == b && [a, b2][1] == b2;
    assert Tracked(a, cfg) && Tracked(b, cfg) && Tracked(b2, cfg);
    assert !EndingSoon(a, cfg) && EndingSoon(b, cfg) && EndingSoon(b2, cfg);
    var ta, tb, tb2 := FormatTimeLeft(a.remaining), FormatTimeLeft(b.remaining), FormatTimeLeft(b2.remaining);
    assert ProcessItems(Initial, [], cfg, map[], true) == CycleResult(Initial, []);
    assert ProcessItems(Initial, [a], cfg, map[], true) == CycleResult(TrackerState({1}, map[], true), [Announce(a, false, ta)]);
    var first := Cycle(Initial, Some([a, b]), cfg, map[]);
    assert first == CycleResult(TrackerState({1, 2}, map[2 := 100], false), [Announce(a, false, ta), Announce(b, false, tb)]);
    var lookup := map[2 := ["bob"]];
    assert ProcessItems(first.state, [], cfg, lookup, false) == CycleResult(first.state, []);
    assert ProcessItems(first.state, [a], cfg, lookup, false) == CycleResult(first.state, []);
    assert Bidder(Lookup(lookup, 2)) == "bob";
    assert SteadyStep(first.state, b2, cfg, lookup) ==
      CycleResult(TrackerState({1, 2}, map[2 := 150], false), [BidChange(b2, 150, 100, "bob", tb2)]);
  }

  /**
    An auction list that repeats an id with two different bids never settles:
    from a state holding the later bid, each cycle reports the bid going down
    and then up again, and ends in the state it started from.
   */
  lemma RepeatedIdNeverSettles()
    ensures var cfg := Config(1, []);
      var a := Item(7, "x", 100, 50, 60 * MicrosPerSecond);
      var a2 := a.(currentBid := 150);
      var s := TrackerState({7}, map[7 := 150], false);
      var r := Cycle(s, Some([a, a2]), cfg, map[]);
      && WellFormed(s) && !ConsistentBids([a, a2])
      && r.state == s
      && r.events == [BidChange(a, 100, 150, "unknown", FormatTimeLeft(a.remaining)),
                      BidChange(a2, 150, 100, "unknown", FormatTimeLeft(a2.remaining))]
  {
    var cfg := Config(1, []);
    var a := Item(7, "x", 100, 50, 60 * MicrosPerSecond);
    var a2 := a.(currentBid := 150);
    var s := TrackerState({7}, map[7 := 150], false);
    assert [a, a2][..1] == [a] && [a][..0] == [] && [a, a2][1] == a2;
    assert Tracked(a, cfg) && Tracked(a2, cfg) && EndingSoon(a, cfg) && EndingSoon(a2, cfg);
    assert Bidder(Lookup(map[], 7)) == "unknown";
    var mid := TrackerState({7}, map[7 := 100], false);
    assert ProcessItems(s, [a], cfg, map[], false) ==
      CycleResult(mid, [BidChange(a, 100, 150, "unknown", FormatTimeLeft(a.remaining))]);
    assert SteadyStep(mid, a2, cfg, map[]) ==
      CycleResult(s, [BidChange(a2, 150, 100, "unknown", FormatTimeLeft(a2.remaining))]);
  }
}
