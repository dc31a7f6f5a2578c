# Auction monitor: a verified model of its change detection

`bot.py` polls an auction site and relays what changes to a Telegram chat.
It keeps three pieces of state for the whole process:

- `known_auctions`, the ids it has already announced;
- `last_bids`, the last bid it saw for each auction in the ending-soon window;
- `first_run`, which is true until the first successful poll.

Each poll cycle goes over the listed auctions and handles only those the
watch list accepts.

- **First cycle.** The bot announces every tracked auction as not new and
  records its id. It stores the current bid of each auction inside the
  ending-soon window.
- **Later cycles.** The bot announces an auction as new the first time its
  id appears. For an auction inside the window, it stores the bid on first
  sight. After that it sends one bid-change notification whenever the
  stored bid differs from the current one, and then overwrites the stored bid.

Three helpers feed these decisions:

- `format_time_left` renders the remaining time as "ended", "Nd Nh Nm", "Nh Nm" or "Nm";
- `is_ending_soon` tests the alert window;
- `should_track` matches the auction's name against the watch list.

The credentials are read from a `key=value` file by `load_telegram_config`.

## How the model is built

The modules are:

- **`Text`**: the Python string operations the code uses, on `seq<char>`:
  - `str.strip()`, with Python's full whitespace set;
  - `str.split(sep)`;
  - `str.lower()`;
  - `pat in s`;
  - `str(n)`.
- **`TimeLeft`**:
  - `format_time_left` and `is_ending_soon` over a remaining duration, given
    as a whole number of microseconds (the resolution of `timedelta`);
  - Python's floor decomposition of a `timedelta` into days, seconds and
    microseconds.
- **`WatchFilter`**: `should_track`.
- **`TelegramConfig`**:
  - the parsing loop of `load_telegram_config`, as a method with a `for` loop;
  - `Entries`, the dictionary the loop fills, defined line by line.
- **`Monitor`**:
  - the tracking state, as class `Tracker` with fields `known`, `lastBids` and `firstRun`;
  - one poll cycle, as method `Tracker.RunCycle`, whose `for` loop updates
    those fields in place, as the loop at bot.py:195-220 updates the globals.
  - `RunCycle` is proved equal to the function `Cycle`, which defines the cycle
    item by item. `Run` chains cycles over a whole sequence of polls.
  - Notifications are `Event`s, emitted in the order the bot sends them:
    - `Announce(item, isNew, timeLeft)`;
    - `BidChange(item, newBid, oldBid, bidder, timeLeft)`.
- **`MonitorProperties`**: what a cycle and a run of cycles do, stated over `Cycle` and `Run`.

The fetch of the auction list arrives as an input: `Some(items)`, or `None`
when the fetch failed or the answer held no "items". The user names of an
auction's recent bids arrive as a map entry, which is absent when that
request answered with a status other than 200. Each item carries its own
remaining time.

Two behaviours of the code shape the model:

- The first cycle is not silent. The code calls `notify_auction(item, is_new=False)`
  for every tracked item, which prints a line and, with credentials present,
  sends a message (bot.py:198). The model emits `Announce(item, false, …)` for each tracked item.
- With days > 0, the text shows three units: days, hours and minutes (bot.py:117-118).

`WellFormed` is the invariant of the tracking state between cycles: every
stored bid belongs to a known id, and nothing is stored while `first_run`
is set. Inside the first cycle ids are added while `first_run` is still
set, so it holds again only once that cycle ends. `Tracker.RunCycle`
requires and keeps it, and `AtMostOneEventPerItem` and `OneEventPerAuction` rely on it.

## Model

| member | source | states |
|---|---|---|
| Monitor.Tracker.constructor | bot.py:11-13 | the process starts with no known auctions, no stored bids and `first_run` set |
| Monitor.Tracker.RunCycle | bot.py:188-220 | the in-place cycle keeps the tracking state well formed and yields exactly the new state and events of `Cycle` on the old state |
| Monitor.Tracker.RegisterBaseline | bot.py:198-201 | one tracked item of the first cycle, done in place, yields exactly what `BootstrapStep` gives |
| Monitor.Tracker.TrackItem | bot.py:209-220 | one tracked item of a later cycle, done in place branch by branch, yields exactly what `SteadyStep` gives |
| Monitor.BootstrapStep | bot.py:198-201 | one tracked item of the first cycle sends exactly one notification, an announce of the item not marked new, with its time text; its id becomes known; inside the window its current bid is stored, outside it the stored bids are untouched; every other id keeps its known-ness and its stored bid |
| Monitor.SteadyStep | bot.py:209-220 | one tracked item of a later cycle sends a "new auction" announce first exactly when its id was unknown; it sends a bid change last exactly when it is inside the window and its stored bid differs from its current bid; the change carries the stored bid as old, the current bid as new, the looked-up bidder and the time text; nothing else is sent; the state changes as in the first cycle |
| Monitor.Step | bot.py:199-220 | in both modes a tracked item makes its id known and, inside the window, its current bid stored; nothing else in the state changes |
| Monitor.ProcessItems | bot.py:195-220 | the item loop never unsets `first_run`, never forgets an id or a stored bid, and keeps every stored bid's id known |
| Monitor.Cycle | bot.py:188-203 | a failed fetch or a missing "items" changes nothing and emits nothing; a successful one clears `first_run`; ids and stored bids only grow; well-formedness is kept |
| Monitor.Run | bot.py:186-225 | over successive cycles the known ids only grow and well-formedness is kept |
| MonitorProperties.BootstrapCycle | bot.py:192-203 | the first cycle emits exactly one non-new announce per tracked item, in order; the known ids gain exactly the tracked ids; stored bids gain exactly the tracked ids inside the window; `first_run` ends |
| MonitorProperties.BootstrapSendsNoNews | bot.py:192-203 | the first cycle sends no "new auction" and no bid-change notification |
| MonitorProperties.SteadyNewAnnouncements | bot.py:211-213 | a later cycle announces an id as new once if it was unknown and some tracked item carries it, and zero times otherwise; the known ids become the old ones plus the tracked ids |
| MonitorProperties.StoredBidsAfterCycle | bot.py:200-220 | when items sharing an id carry the same bid: after a cycle the stored ids are the old ones plus the tracked ids inside the window, each such item's stored bid is its current bid, and every other stored bid is unchanged |
| MonitorProperties.SteadyBidChanges | bot.py:215-220 | with unique ids, a later cycle's bid changes are exactly (id, stored bid, current bid) for the tracked items inside the window whose stored bid differs, in item order |
| MonitorProperties.SteadyEvents | bot.py:205-220 | with unique ids, a later cycle sends, tracked item by tracked item in list order, exactly what that item's step sends from the state before the cycle |
| MonitorProperties.SteadyEventsShape | bot.py:209-220 | every notification of a later cycle is about a tracked item of the list and carries its time text; it is a "new auction" announce, or a bid change of an item inside the window from a different stored bid to its current bid, naming the bidder the lookup for that item gives (bot.py:161-164) |
| MonitorProperties.SteadyStepSendsAtMostOne | bot.py:211-220 | while every stored bid belongs to a known id, one tracked item of a later cycle sends at most one notification: an item announced as new has no stored bid to differ from |
| MonitorProperties.AtMostOneEventPerItem | bot.py:205-220 | between cycles, a later cycle sends no more notifications than the list has tracked entries |
| MonitorProperties.OneEventPerAuction | bot.py:205-220 | between cycles and with unique ids, a later cycle sends at most one notification about each auction, so none is both announced as new and reported outbid in the same cycle |
| MonitorProperties.RepeatedCycleIsSilent | bot.py:205-220 | when items sharing an id carry the same bid: running a cycle again on the same auction list emits nothing and leaves the state as it was |
| MonitorProperties.RepeatedIdNeverSettles | bot.py:209-220 | a list repeating one id with bids 100 and 150, from a state storing 150, reports a change to 100 and then back to 150, and ends in the state it started from, so repeating the cycle never goes quiet |
| MonitorProperties.UntrackedItemsIgnored | bot.py:196-207 | a cycle over the list gives the same state and events as over its tracked items alone |
| MonitorProperties.CycleAnnouncesNewAtMostOnce | bot.py:192-213 | one cycle announces an id as new at most once, never when it was already known, and leaves it known |
| MonitorProperties.AnnouncedAsNewAtMostOnce | bot.py:186-213 | over any sequence of cycles an auction is announced as new at most once, and never when it was already known at the start |
| MonitorProperties.OutbidScenario | bot.py:192-220 | two worked cycles: a bootstrap stores only the ending-soon auction's bid, and a later outbid from 100 to 150 emits exactly one bid change naming the bidder |
| MonitorProperties.TrackedItems | bot.py:196-207 | the filtered list is no longer than the input, and every item in it passes the watch list |
| MonitorProperties.TrackedItemsCount | bot.py:196-207 | each item that passes the watch list is kept as often as it occurs in the list, and no other item is kept |
| MonitorProperties.TrackedItemsConcat | bot.py:195-207 | filtering keeps the list order: the tracked items of a concatenation are those of each part, in turn |
| TimeLeft.ToDelta | bot.py:108 | the duration's timedelta is in normal form (0 <= seconds < 86400, 0 <= microseconds < 10^6) and represents exactly the same duration |
| TimeLeft.DeltaUnique | bot.py:108-113 | the normal form is unique, so `diff.days` and `diff.seconds` are the floor decomposition |
| TimeLeft.RemainingOf | bot.py:110-115 | "ended" exactly when no time remains; otherwise hours < 24, minutes < 60, and the shown days/hours/minutes are within one minute below the whole seconds remaining |
| TimeLeft.Render | bot.py:110-122 | the text is "ended" exactly for no time left; any time left is shown in units that end in minutes |
| TimeLeft.FormatTimeLeft | bot.py:105-122 | the text is "ended" exactly when the remaining duration is <= 0, so any positive duration, even under a minute, gets units, the last being minutes |
| TimeLeft.FormatTimeLeftReadsBack | bot.py:110-122 | reading the text of a duration back gives its decomposition into days, hours and minutes |
| TimeLeft.ParseRender | bot.py:117-122 | the rendering loses nothing: reading the text back gives the decomposition, so the choice of units is unambiguous |
| TimeLeft.RenderedPieces | bot.py:117-122 | with days > 0 the text has three pieces "Nd", "Nh", "Nm"; otherwise with hours > 0 it has two; otherwise one, and each piece reads back as its number |
| TimeLeft.FormatTimeLeftInjective | bot.py:113-122 | two durations get the same text exactly when they have the same decomposition |
| TimeLeft.SameTextIffSameMinute | bot.py:113-122 | for positive durations the text depends only on the number of whole minutes remaining: seconds are truncated, never rounded |
| TimeLeft.WholeMinutes | bot.py:113-115 | days*1440 + hours*60 + minutes is the floor of the duration in minutes |
| TimeLeft.IsEndingSoon | bot.py:124-128 | inside the window the text is not "ended" and shows at most the threshold in hours; a duration showing fewer hours than the threshold is inside |
| TimeLeft.EndingSoonBoundaries | bot.py:128 | the window is half-open: false at exactly zero, true just after it, true at exactly the threshold, false just past it |
| TimeLeft.FormatExamples | bot.py:117-122 | 90061 s renders "1d 1h 1m", 3661 s "1h 1m", 59 s "0m" |
| WatchFilter.LowerAll | bot.py:142 | the lowered watch list has one entry per entry, each equal to it up to case and holding no upper-case letter |
| WatchFilter.ShouldTrack | bot.py:139-142 | true exactly when the watch list is empty or the name equals some entry up to case |
| WatchFilter.TrackedNameHasEntryLength | bot.py:142 | a non-empty list never matches by substring: a tracked name has the length of some entry |
| WatchFilter.ShouldTrackExamples | bot.py:139-142 | "Foo" is tracked by an empty list and by ["foo"], not by ["bar"] or ["fo"] |
| TelegramConfig.LoadTelegramConfig | bot.py:15-32 | the loop computes exactly `CredentialsOf`: no credentials for a missing file, none when a value still holds the template marker, else the two values |
| TelegramConfig.CredentialsOf | bot.py:17-32 | no credentials for a missing file; otherwise the token and the chat id are each the value on the last line defining that key, or "" when none does, and there are no credentials when either holds the template marker |
| TelegramConfig.Lines | bot.py:21 | the lines of the stripped text: at least one, none holding a newline, and joined with newlines they give the stripped text back |
| TelegramConfig.EntryParts | bot.py:22-24 | an entry line's key is the stripped text before its first "=", so it holds no "="; its value is the stripped text after that "="; both occur in the line at those places and carry no surrounding whitespace |
| TelegramConfig.EntriesAreClean | bot.py:20-24 | every key in the dictionary has no "=", and keys and values are stripped |
| TelegramConfig.LastDefinition | bot.py:21-24 | the index of the last line defining the key, or -1, with no later line defining it |
| TelegramConfig.EntriesLastWins | bot.py:21-24 | a key is in the dictionary exactly when some line defines it, and its value is the one on the last such line |
| Text.Strip | bot.py:21-24 | `str.strip()`: the result is a slice of the original starting after its leading whitespace, and it neither starts nor ends with whitespace |
| Text.StripRemovesOnlySpaces | bot.py:21-24 | every character outside the kept slice is whitespace |
| Text.StripIdempotent | bot.py:24 | stripping twice removes nothing more |
| Text.IndexOf | bot.py:22-23 | the position of the first occurrence, or the length when there is none |
| Text.Split | bot.py:21 | `str.split(sep)` never returns an empty list |
| Text.SplitPiecesFree | bot.py:21 | no piece of a split holds the separator |
| Text.JoinSplit | bot.py:21 | the pieces joined with the separator give back the text |
| Text.SplitJoin | bot.py:21 | splitting a join of separator-free pieces gives back the pieces |
| Text.Contains | bot.py:29 | `pat in s` holds exactly when the pattern occurs at some position |
| Text.Lower | bot.py:142 | `str.lower()` gives a string equal to the original up to case with no upper-case letter left |
| Text.LowerEqualIff | bot.py:142 | lowered strings are equal exactly when the strings are equal up to case |
| Text.Decimal | bot.py:118-122 | `str(n)` is a non-empty run of digits with no leading zero |
| Text.ParseDecimalOfDecimal | bot.py:118-122 | reading the digits back gives the number |

## Left out

- Network calls are outside the model: `fetch_auctions`, `fetch_bids`, `send_telegram` and `send_image` (bot.py:36-100, 130-137).
  - The auction list of a cycle is an input.
  - So is the recent-bids lookup that names the bidder.
  - The messages themselves are the `Event`s.
- The `image_sender` heartbeat, the start-up greeting and `asyncio.gather` are left out. They involve only timers and concurrency, and share no state with the tracker.
- The message text and the `print` output are left out, being presentation only. The events carry what the messages show.
- Reading the clock and parsing the ISO end time with its fixed "+03:00" suffix are left out (bot.py:102-103, 107, 126). Each item carries its remaining time as an integer. The model therefore assumes one `now` per item for both helpers, whereas the code reads the clock separately in each call.
- The exception handler and the sleep between cycles are left out (bot.py:222-225).
  - A cycle either fails before it starts (`None`) or runs to the end.
  - The partial update left behind by an exception in mid-cycle is not modelled.
  - In particular, a bids request that raises (bot.py:161) aborts the cycle after the bid change is detected and before the new bid is stored (bot.py:220); the exception lands at bot.py:222-223, and the same change is detected again in the next cycle. The model has no such abort: every change is reported once and the new bid stored.
- Monitor.Cycle: an answer whose "items" is null or not a list is not modelled. The code raises on it and falls into the exception handler; the model takes a list of items.
- MonitorProperties.RepeatedCycleIsSilent and MonitorProperties.StoredBidsAfterCycle: promised only when items sharing an id carry the same bid. An auction list that repeats an id with different bids makes bot.py:215-220 report two bid changes in every cycle and never settle, as `RepeatedIdNeverSettles` shows.
- Monitor.Item: ids and bids are integers, as the site sends them. Values of other JSON types are not modelled.
- Monitor.Config: ALERT_BEFORE_END_HOURS is an integer number of hours. A fractional setting is not modelled.
- The recent-bids lookup is one map per cycle. The code requests it at the moment of each bid change, so two changes in one cycle could see different answers.
- Monitor.Bidder: the case where the first bid entry lacks "user_name" is not modelled. That entry raises in the code and falls into the exception handler.
- Text.Lower: lowers ASCII letters only. Python's `str.lower()` also lowers other alphabets, so the model tracks fewer names for a non-ASCII watch list or name.
- TelegramConfig.LoadTelegramConfig: the existence check and the reading of telegram_key.txt are left out. The file's text arrives as an input, or `None` when the file is missing. Decoding errors are not modelled.
- The `config` module (API_URL, CHECK_INTERVAL, ALERT_BEFORE_END_HOURS, WATCHED_NICKS) is not part of this model. Its values are parameters (`Config`).
