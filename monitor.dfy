/**
  One poll cycle of the monitor loop (bot.py:186-220) and the tracking state
  it keeps (bot.py:11-13).

  The network is outside the model. The auction list of a cycle arrives as
  `Some(items)`, or as `None` when the fetch failed or its answer held no
  "items". The user names of an auction's recent bids arrive as an entry of
  `recentBids`, absent when that request answered with a status other than
  200. Notifications are the `Event`s a cycle emits, in the order the bot
  sends them.
 */
module Monitor {
  import opened Wrappers
  import opened TimeLeft
  import opened WatchFilter

  type AuctionId = int

  /** One listed auction; `remaining` is `end_time - now` in microseconds. */
  datatype Item = Item(id: AuctionId, name: string, currentBid: int, minimumBid: int, remaining: int)

  /** The configuration the cycle reads: the alert window in hours and the watch list. */
  datatype Config = Config(thresholdHours: int, watched: seq<string>)

  /** A notification: notify_auction (bot.py:144-156) or notify_new_bid (bot.py:158-174). */
  datatype Event =
    | Announce(item: Item, isNew: bool, timeLeft: string)
    | BidChange(item: Item, newBid: int, oldBid: int, bidder: string, timeLeft: string)

  /** known_auctions, last_bids and first_run. */
  datatype TrackerState = TrackerState(known: set<AuctionId>, lastBids: map<AuctionId, int>, firstRun: bool)

  datatype CycleResult = CycleResult(state: TrackerState, events: seq<Event>)

  /** The state at process start. */
  const Initial := TrackerState({}, map[], true)

  /**
    What the tracking state satisfies between cycles: a stored bid belongs to
    a known auction, and nothing is stored before the first successful poll.
    Inside the first cycle ids are added while first_run is still set, so the
    second half holds again only once the cycle ends; the first half holds
    after every item (ProcessItems).
   */
  predicate WellFormed(s: TrackerState) {
    s.lastBids.Keys <= s.known && (s.firstRun ==> s.known == {} && s.lastBids == map[])
  }

  predicate Tracked(it: Item, cfg: Config) {
    ShouldTrack(it.name, cfg.watched)
  }

  predicate EndingSoon(it: Item, cfg: Config) {
    IsEndingSoon(it.remaining, cfg.thresholdHours)
  }

  /** The bidder named in a bid notification: the newest bid's user, or "unknown" (bot.py:161-164). */
  function Bidder(recent: Option<seq<string>>): (name: string)
    ensures recent.Some? && recent.value != [] ==> name == recent.value[0]
    ensures recent.None? || recent.value == [] ==> name == "unknown"
  {
    match recent
    case Some(names) => if names != [] then names[0] else "unknown"
    case None => "unknown"
  }

  function Lookup(recentBids: map<AuctionId, seq<string>>, id: AuctionId): Option<seq<string>> {
    if id in recentBids then Some(recentBids[id]) else None
  }

  /**
    One tracked item in the first cycle (bot.py:198-201): a single announce,
    not marked new; the id becomes known; inside the window the current bid
    is stored, and no other stored bid changes.
   */
  function BootstrapStep(s: TrackerState, it: Item, cfg: Config): (r: CycleResult)
    ensures |r.events| == 1 && r.events[0].Announce? && !r.events[0].isNew
    ensures r.events[0].item == it && r.events[0].timeLeft == FormatTimeLeft(it.remaining)
    ensures r.state.firstRun == s.firstRun && it.id in r.state.known
    ensures EndingSoon(it, cfg) ==> it.id in r.state.lastBids && r.state.lastBids[it.id] == it.currentBid
    ensures !EndingSoon(it, cfg) ==> r.state.lastBids == s.lastBids
    ensures forall id :: id != it.id ==>
      && (id in r.state.known <==> id in s.known)
      && (id in r.state.lastBids <==> id in s.lastBids)
      && (id in s.lastBids ==> r.state.lastBids[id] == s.lastBids[id])
  {
    var bids := if EndingSoon(it, cfg) then s.lastBids[it.id := it.currentBid] else s.lastBids;
    CycleResult(s.(known := s.known + {it.id}, lastBids := bids),
                [Announce(it, false, FormatTimeLeft(it.remaining))])
  }

  /**
    One tracked item in a later cycle (bot.py:209-220). It first announces the
    item as new exactly when its id was unknown, then reports a bid change
    exactly when the item is inside the window and its stored bid differs from
    the current one: the change carries the stored bid as old, the current bid
    as new, the bidder the lookup names and the time text. Nothing else is
    sent. The state changes as in the first cycle.
   */
  function SteadyStep(s: TrackerState, it: Item, cfg: Config, recentBids: map<AuctionId, seq<string>>): (r: CycleResult)
    ensures var isNew := it.id !in s.known;
      var changed := EndingSoon(it, cfg) && it.id in s.lastBids && s.lastBids[it.id] != it.currentBid;
      && |r.events| == (if isNew then 1 else 0) + (if changed then 1 else 0)
      && (isNew ==> r.events[0] == Announce(it, true, FormatTimeLeft(it.remaining)))
      && (changed ==>
            r.events[|r.events| - 1] ==
            BidChange(it, it.currentBid, s.lastBids[it.id], Bidder(Lookup(recentBids, it.id)), FormatTimeLeft(it.remaining)))
    ensures r.state.firstRun == s.firstRun && r.state.known == s.known + {it.id}
    ensures r.state.lastBids == if EndingSoon(it, cfg) then s.lastBids[it.id := it.currentBid] else s.lastBids
  {
    var announce := if it.id !in s.known then [Announce(it, true, FormatTimeLeft(it.remaining))] else [];
    var known := s.known + {it.id};
    if !EndingSoon(it, cfg) then
      CycleResult(s.(known := known), announce)
    else if it.id !in s.lastBids then
      CycleResult(s.(known := known, lastBids := s.lastBids[it.id := it.currentBid]), announce)
    else if s.lastBids[it.id] != it.currentBid then
      var change := BidChange(it, it.currentBid, s.lastBids[it.id],
                              Bidder(Lookup(recentBids, it.id)), FormatTimeLeft(it.remaining));
      CycleResult(s.(known := known, lastBids := s.lastBids[it.id := it.currentBid]), announce + [change])
    else
      CycleResult(s.(known := known), announce)
  }

  /**
    One tracked item in either mode. The state changes the same way in both:
    the id becomes known, and an item inside the window has its current bid
    stored; only the notifications differ.
   */
  function Step(s: TrackerState, it: Item, cfg: Config, recentBids: map<AuctionId, seq<string>>, bootstrap: bool): (r: CycleResult)
    ensures r.state.firstRun == s.firstRun
    ensures r.state.known == s.known + {it.id}
    ensures r.state.lastBids == if EndingSoon(it, cfg) then s.lastBids[it.id := it.currentBid] else s.lastBids
  {
    if bootstrap then BootstrapStep(s, it, cfg) else SteadyStep(s, it, cfg, recentBids)
  }

  /**
    The items of one cycle processed in order, untracked ones skipped; the
    events are concatenated in item order.
   */
  function ProcessItems(s: TrackerState, items: seq<Item>, cfg: Config,
                        recentBids: map<AuctionId, seq<string>>, bootstrap: bool): (r: CycleResult)
    ensures r.state.firstRun == s.firstRun
    ensures s.known <= r.state.known
    ensures s.lastBids.Keys <= r.state.lastBids.Keys
    ensures s.lastBids.Keys <= s.known ==> r.state.lastBids.Keys <= r.state.known
    decreases |items|
  {
    if items == [] then CycleResult(s, [])
    else
      var prev := ProcessItems(s, items[..|items| - 1], cfg, recentBids, bootstrap);
      var it := items[|items| - 1];
      if !Tracked(it, cfg) then prev
      else
        var step := Step(prev.state, it, cfg, recentBids, bootstrap);
        CycleResult(step.state, prev.events + step.events)
  }

  /** One whole cycle: nothing on a failed fetch; otherwise the items, then first_run cleared. */
  function Cycle(s: TrackerState, fetched: Option<seq<Item>>, cfg: Config,
                 recentBids: map<AuctionId, seq<string>>): (r: CycleResult)
    ensures fetched.None? ==> r.state == s && r.events == []
    ensures fetched.Some? ==> !r.state.firstRun
    ensures s.known <= r.state.known && s.lastBids.Keys <= r.state.lastBids.Keys
    ensures WellFormed(s) ==> WellFormed(r.state)
  {
    match fetched
    case None => CycleResult(s, [])
    case Some(items) =>
      var r := ProcessItems(s, items, cfg, recentBids, s.firstRun);
      CycleResult(r.state.(firstRun := false), r.events)
  }

  /** What one iteration of the endless loop receives: the auction list and the bidder lookups. */
  datatype Poll = Poll(fetched: Option<seq<Item>>, recentBids: map<AuctionId, seq<string>>)

  /** Successive cycles of the monitor loop (bot.py:186-225), events in the order they are sent. */
  function Run(s: TrackerState, polls: seq<Poll>, cfg: Config): (r: CycleResult)
    ensures s.known <= r.state.known
    ensures WellFormed(s) ==> WellFormed(r.state)
    decreases |polls|
  {
    if polls == [] then CycleResult(s, [])
    else
      var first := Cycle(s, polls[0].fetched, cfg, polls[0].recentBids);
      var rest := Run(first.state, polls[1..], cfg);
      CycleResult(rest.state, first.events + rest.events)
  }

  /** The tracking store, updated in place by each cycle as the globals are in the source. */
  class Tracker {
    var known: set<AuctionId>
    var lastBids: map<AuctionId, int>
    var firstRun: bool

    function State(): TrackerState
      reads this
    {
      TrackerState(known, lastBids, firstRun)
    }

    ghost predicate Valid()
      reads this
    {
      WellFormed(State())
    }

    constructor ()
      ensures Valid() && State() == Initial
    {
      known := {};
      lastBids := map[];
      firstRun := true;
    }

    /** The body of the monitor loop for one fetch result (bot.py:188-220). */
    method RunCycle(fetched: Option<seq<Item>>, cfg: Config, recentBids: map<AuctionId, seq<string>>)
      returns (events: seq<Event>)
      requires Valid()
      modifies this
      ensures Valid()
      ensures CycleResult(State(), events) == Cycle(old(State()), fetched, cfg, recentBids)
    {
      events := [];
      if fetched.None? {
        return;
      }
      var items := fetched.value;
      ghost var start := State();
      var bootstrap := firstRun;
      for i := 0 to |items|
        invariant firstRun == bootstrap
        invariant CycleResult(State(), events) == ProcessItems(start, items[..i], cfg, recentBids, bootstrap)
      {
        var it := items[i];
        assert items[..i + 1][..i] == items[..i] && items[..i + 1][i] == it;
        if ShouldTrack(it.name, cfg.watched) {
          var emitted;
          if bootstrap {
            emitted := RegisterBaseline(it, cfg);
          } else {
            emitted := TrackItem(it, cfg, recentBids);
          }
          events := events + emitted;
        }
      }
      assert items[..|items|] == items;
      if bootstrap {
        firstRun := false;
      }
    }

    /** One tracked item of the first cycle (bot.py:198-201). */
    method RegisterBaseline(it: Item, cfg: Config) returns (emitted: seq<Event>)
      modifies this
      ensures CycleResult(State(), emitted) == BootstrapStep(old(State()), it, cfg)
    {
      emitted := [Announce(it, false, FormatTimeLeft(it.remaining))];
      known := known + {it.id};
      if IsEndingSoon(it.remaining, cfg.thresholdHours) {
        lastBids := lastBids[it.id := it.currentBid];
      }
    }

    /** One tracked item of a later cycle (bot.py:209-220). */
    method TrackItem(it: Item, cfg: Config, recentBids: map<AuctionId, seq<string>>) returns (emitted: seq<Event>)
      modifies this
      ensures CycleResult(State(), emitted) == SteadyStep(old(State()), it, cfg, recentBids)
    {
      emitted := [];
      if it.id !in known {
        emitted := [Announce(it, true, FormatTimeLeft(it.remaining))];
        known := known + {it.id};
      }
      if IsEndingSoon(it.remaining, cfg.thresholdHours) {
        if it.id !in lastBids {
          lastBids := lastBids[it.id := it.currentBid];
        } else if lastBids[it.id] != it.currentBid {
          var bidder := Bidder(Lookup(recentBids, it.id));
          emitted := emitted + [BidChange(it, it.currentBid, lastBids[it.id], bidder, FormatTimeLeft(it.remaining))];
          lastBids := lastBids[it.id := it.currentBid];
        }
      }
    }
  }
}
