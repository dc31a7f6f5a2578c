/**
  Remaining-time helpers of the bot (bot.py:105-128). The clock and the
  parsing of the auction's end time are outside the model: a remaining
  duration arrives as a whole number of microseconds, the resolution of
  Python's timedelta, and is `end - now` for the caller's `now`.
 */
module TimeLeft {
  import opened Wrappers
  import opened Text

  const MicrosPerSecond := 1_000_000
  const SecondsPerMinute := 60
  const SecondsPerHour := 3600
  const SecondsPerDay := 86400

  /** Python's timedelta in its normal form: any days, 0 <= seconds < 86400, 0 <= microseconds < 10^6. */
  datatype Delta = Delta(days: int, seconds: int, microseconds: int)

  predicate IsNormal(d: Delta) {
    0 <= d.seconds < SecondsPerDay && 0 <= d.microseconds < MicrosPerSecond
  }

  function DeltaMicros(d: Delta): int {
    (d.days * SecondsPerDay + d.seconds) * MicrosPerSecond + d.microseconds
  }

  /** The timedelta of a duration given in microseconds. */
  function ToDelta(micros: int): (d: Delta)
    ensures IsNormal(d) && DeltaMicros(d) == micros
  {
    var totalSeconds := micros / MicrosPerSecond;
    Delta(totalSeconds / SecondsPerDay, totalSeconds % SecondsPerDay, micros % MicrosPerSecond)
  }

  /** The normal form is unique, so `days` and `seconds` are the floor decomposition. */
  lemma DeltaUnique(d: Delta, micros: int)
    requires IsNormal(d) && DeltaMicros(d) == micros
    ensures d == ToDelta(micros)
  {
    var t := d.days * SecondsPerDay + d.seconds;
    assert t == micros / MicrosPerSecond;
    assert d.days == t / SecondsPerDay;
  }

  /** What format_time_left shows: "ended", or whole days, hours within the day and minutes within the hour. */
  datatype Remaining = Ended | Left(days: nat, hours: nat, minutes: nat)

  /** The decomposition bot.py:110-115 makes of a remaining duration. */
  function RemainingOf(micros: int): (t: Remaining)
    ensures t.Ended? <==> micros <= 0
    ensures t.Left? ==> t.hours < 24 && t.minutes < 60
    ensures t.Left? ==>
      var shown := t.days * SecondsPerDay + t.hours * SecondsPerHour + t.minutes * SecondsPerMinute;
      shown <= micros / MicrosPerSecond < shown + SecondsPerMinute
  {
    if micros <= 0 then Ended
    else
      var d := ToDelta(micros);
      Left(d.days, d.seconds / SecondsPerHour, d.seconds % SecondsPerHour / SecondsPerMinute)
  }

  /**
    The text format_time_left builds from the decomposition (bot.py:110-122):
    "ended" for Ended only; any time left is shown in units ending in minutes.
   */
  function Render(t: Remaining): (s: string)
    ensures s == "ended" <==> t.Ended?
    ensures t.Left? ==> |s| >= 2 && s[|s| - 1] == 'm'
  {
    match t
    case Ended => "ended"
    case Left(d, h, m) =>
      var days, hours, minutes := Decimal(d) + "d", Decimal(h) + "h", Decimal(m) + "m";
      var front := if d > 0 then days + " " + hours + " " else if h > 0 then hours + " " else "";
      assert (front + minutes)[|front + minutes| - 1] == minutes[|minutes| - 1] == 'm';
      front + minutes
  }

  /**
    format_time_left for a remaining duration in microseconds: "ended" exactly
    when no time remains, so any positive duration, even under a minute, gets
    units, the last being minutes.
   */
  function FormatTimeLeft(micros: int): (s: string)
    ensures s == "ended" <==> micros <= 0
    ensures micros > 0 ==> |s| >= 2 && s[|s| - 1] == 'm'
  {
    Render(RemainingOf(micros))
  }

  /** The text of a duration reads back as its decomposition into days, hours and minutes. */
  lemma FormatTimeLeftReadsBack(micros: int)
    ensures ParseRemaining(FormatTimeLeft(micros)) == Some(RemainingOf(micros))
  {
    ParseRender(RemainingOf(micros));
  }

  /** Reads one "<digits><unit>" piece. */
  function ParseUnit(piece: string, unit: char): Option<nat> {
    if |piece| >= 2 && piece[|piece| - 1] == unit && AllDigits(piece[..|piece| - 1])
    then Some(ParseDecimal(piece[..|piece| - 1]))
    else None
  }

  /** Reads a text in the format format_time_left produces. */
  function ParseRemaining(s: string): Option<Remaining> {
    if s == "ended" then Some(Ended)
    else
      var pieces := Split(s, ' ');
      if |pieces| == 1 then
        match ParseUnit(pieces[0], 'm')
        case Some(m) => Some(Left(0, 0, m))
        case None => None
      else if |pieces| == 2 then
        match (ParseUnit(pieces[0], 'h'), ParseUnit(pieces[1], 'm'))
        case (Some(h), Some(m)) => Some(Left(0, h, m))
        case _ => None
      else if |pieces| == 3 then
        match (ParseUnit(pieces[0], 'd'), ParseUnit(pieces[1], 'h'), ParseUnit(pieces[2], 'm'))
        case (Some(d), Some(h), Some(m)) => Some(Left(d, h, m))
        case _ => None
      else None
  }

  lemma ParseUnitOfDecimal(n: nat, unit: char)
    requires !IsDigit(unit) && unit != ' '
    ensures ParseUnit(Decimal(n) + [unit], unit) == Some(n)
    ensures ' ' !in Decimal(n) + [unit]
  {
    var piece := Decimal(n) + [unit];
    assert piece[..|piece| - 1] == Decimal(n);
    ParseDecimalOfDecimal(n);
    forall k | 0 <= k < |piece| ensures piece[k] != ' ' {
      if k < |piece| - 1 {
        assert piece[k] == Decimal(n)[k];
      }
    }
  }

  /** The rendering loses nothing: reading it back gives the decomposition. */
  lemma ParseRender(t: Remaining)
    ensures ParseRemaining(Render(t)) == Some(t)
  {
    match t
    case Ended =>
    case Left(d, h, m) =>
      var s := Render(t);
      assert s[|s| - 1] == 'm';
      assert s != "ended";
      var pieces := RenderedPieces(d, h, m);
      SplitJoin(pieces, ' ');
      assert Split(s, ' ') == pieces;
      if d > 0 {
        assert |pieces| == 3;
        assert ParseRemaining(s) == Some(Left(d, h, m));
      } else if h > 0 {
        assert |pieces| == 2;
        assert ParseRemaining(s) == Some(Left(0, h, m));
      } else {
        assert |pieces| == 1;
        assert ParseRemaining(s) == Some(Left(0, 0, m));
      }
  }

  /** The space-separated pieces of the text for Left(d, h, m), each read back by ParseUnit. */
  lemma RenderedPieces(d: nat, h: nat, m: nat) returns (pieces: seq<string>)
    ensures |pieces| >= 1 && Render(Left(d, h, m)) == Join(pieces, ' ')
    ensures forall k :: 0 <= k < |pieces| ==> ' ' !in pieces[k]
    ensures d > 0 ==> |pieces| == 3 && ParseUnit(pieces[0], 'd') == Some(d)
                      && ParseUnit(pieces[1], 'h') == Some(h) && ParseUnit(pieces[2], 'm') == Some(m)
    ensures d == 0 && h > 0 ==> |pieces| == 2 && ParseUnit(pieces[0], 'h') == Some(h) && ParseUnit(pieces[1], 'm') == Some(m)
    ensures d == 0 && h == 0 ==> |pieces| == 1 && ParseUnit(pieces[0], 'm') == Some(m)
  {
    var pd, ph, pm := Decimal(d) + "d", Decimal(h) + "h", Decimal(m) + "m";
    ParseUnitOfDecimal(d, 'd');
    ParseUnitOfDecimal(h, 'h');
    ParseUnitOfDecimal(m, 'm');
    if d > 0 {
      pieces := [pd, ph, pm];
      JoinThree(pd, ph, pm);
    } else if h > 0 {
      pieces := [ph, pm];
      JoinTwo(ph, pm);
    } else {
      pieces := [pm];
    }
  }

  lemma JoinTwo(a: string, b: string)
    ensures Join([a, b], ' ') == a + " " + b
  {
    assert [a, b][1..] == [b];
  }

  lemma JoinThree(a: string, b: string, c: string)
    ensures Join([a, b, c], ' ') == a + " " + b + " " + c
  {
    assert [a, b, c][1..] == [b, c];
    JoinTwo(b, c);
  }

  /** Two durations get the same text exactly when they have the same decomposition. */
  lemma FormatTimeLeftInjective(a: int, b: int)
    ensures FormatTimeLeft(a) == FormatTimeLeft(b) <==> RemainingOf(a) == RemainingOf(b)
  {
    ParseRender(RemainingOf(a));
    ParseRender(RemainingOf(b));
  }

  /** The shown text depends only on the whole minutes remaining: seconds are cut off, never rounded. */
  lemma SameTextIffSameMinute(a: int, b: int)
    requires a > 0 && b > 0
    ensures FormatTimeLeft(a) == FormatTimeLeft(b) <==>
            a / (SecondsPerMinute * MicrosPerSecond) == b / (SecondsPerMinute * MicrosPerSecond)
  {
    FormatTimeLeftInjective(a, b);
    WholeMinutes(a);
    WholeMinutes(b);
    var ta, tb := RemainingOf(a), RemainingOf(b);
    if ta.days * 1440 + ta.hours * 60 + ta.minutes == tb.days * 1440 + tb.hours * 60 + tb.minutes {
      MinutesDetermineRemaining(ta, tb);
    }
  }

  /** The decomposition of a positive duration counts exactly its whole minutes. */
  lemma WholeMinutes(micros: int)
    requires micros > 0
    ensures var t := RemainingOf(micros);
      t.days * 1440 + t.hours * 60 + t.minutes == micros / (SecondsPerMinute * MicrosPerSecond)
  {
    var t := RemainingOf(micros);
    var secs := micros / MicrosPerSecond;
    var mins := t.days * 1440 + t.hours * 60 + t.minutes;
    assert mins * 60 <= secs < mins * 60 + 60;
    assert secs / 60 == mins;
    assert micros / (SecondsPerMinute * MicrosPerSecond) == secs / 60;
  }

  lemma MinutesDetermineRemaining(x: Remaining, y: Remaining)
    requires x.Left? && y.Left?
    requires x.hours < 24 && x.minutes < 60 && y.hours < 24 && y.minutes < 60
    requires x.days * 1440 + x.hours * 60 + x.minutes == y.days * 1440 + y.hours * 60 + y.minutes
    ensures x == y
  {
    var hx, hy := x.days * 24 + x.hours, y.days * 24 + y.hours;
    assert hx * 60 + x.minutes == hy * 60 + y.minutes;
    assert hx == hy;
    assert x.days == y.days;
  }

  /** is_ending_soon (bot.py:124-128): strictly some time left and at most the alert window. */
  function IsEndingSoon(micros: int, thresholdHours: int): (soon: bool)
    ensures soon ==> FormatTimeLeft(micros) != "ended"
    ensures soon ==> RemainingOf(micros).days * 24 + RemainingOf(micros).hours <= thresholdHours
    ensures RemainingOf(micros).Left? && RemainingOf(micros).days * 24 + RemainingOf(micros).hours < thresholdHours ==> soon
  {
    0 < micros <= thresholdHours * SecondsPerHour * MicrosPerSecond
  }

  /** The window is half-open: closed at the threshold, open at zero. */
  lemma EndingSoonBoundaries(thresholdHours: int)
    requires thresholdHours > 0
    ensures !IsEndingSoon(0, thresholdHours)
    ensures IsEndingSoon(1, thresholdHours)
    ensures IsEndingSoon(thresholdHours * SecondsPerHour * MicrosPerSecond, thresholdHours)
    ensures !IsEndingSoon(thresholdHours * SecondsPerHour * MicrosPerSecond + 1, thresholdHours)
  {
  }

  /** Three renderings worked out by hand: 90061 s, 3661 s and 59 s. */
  lemma FormatExamples()
    ensures FormatTimeLeft(90061 * MicrosPerSecond) == "1d 1h 1m"
    ensures FormatTimeLeft(3661 * MicrosPerSecond) == "1h 1m"
    ensures FormatTimeLeft(59 * MicrosPerSecond) == "0m"
  {
    assert Decimal(0) == "0" && Decimal(1) == "1";
    assert RemainingOf(90061 * MicrosPerSecond) == Left(1, 1, 1);
    assert RemainingOf(3661 * MicrosPerSecond) == Left(0, 1, 1);
    assert RemainingOf(59 * MicrosPerSecond) == Left(0, 0, 0);
  }
}
