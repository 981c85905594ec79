/** The "Due in N day(s)/hour(s)/minute(s)" confirmation that follows a
    successful add. The gap between the scheduled time and the clock is a
    Python `timedelta`; the summary reads its normalised `days` and `seconds`
    fields, picks the largest non-zero unit among days, hours and minutes, and
    appends an "s" exactly when the amount exceeds one. */
module DueIn {
  import Text

  const MicrosPerSecond := 1_000_000
  const SecondsPerMinute := 60
  const SecondsPerHour := 3600
  const SecondsPerDay := 86400
  const MicrosPerMinute := SecondsPerMinute * MicrosPerSecond
  const MicrosPerDay := SecondsPerDay * MicrosPerSecond

  /** `timedelta(microseconds = diff).days`: whole days, rounded towards minus
      infinity (Dafny's `/` by a positive divisor floors, as Python's does). */
  function Days(diff: int): (d: int)
    ensures d * MicrosPerDay <= diff < d * MicrosPerDay + MicrosPerDay
  {
    diff / MicrosPerDay
  }

  /** `timedelta(microseconds = diff).seconds`: the whole seconds left over once
      the days are taken out, always within one day. */
  function SecondsOfDay(diff: int): (s: nat)
    ensures s < SecondsPerDay
    ensures Days(diff) * MicrosPerDay + s * MicrosPerSecond <= diff
    ensures diff < Days(diff) * MicrosPerDay + (s + 1) * MicrosPerSecond
  {
    (diff % MicrosPerDay) / MicrosPerSecond
  }

  datatype Unit = Day | Hour | Minute

  /** How long one unit is, in seconds. */
  function UnitSeconds(u: Unit): nat {
    match u
    case Day => SecondsPerDay
    case Hour => SecondsPerHour
    case Minute => SecondsPerMinute
  }

  datatype Summary = Summary(amount: nat, unit: Unit)

  /** The summary for a gap of `diff` microseconds between the scheduled time
      and the clock: days when there is at least one, else the hours within the
      day when there is at least one, else the minutes within the hour. */
  function Summarize(diff: int): (s: Summary)
    ensures s.unit == Day <==> Days(diff) > 0
    ensures s.unit == Day ==> s.amount == Days(diff)
    ensures s.unit == Hour ==> 1 <= s.amount < 24
    ensures s.unit == Minute ==> s.amount < 60
  {
    var days := Days(diff);
    var hours := SecondsOfDay(diff) / SecondsPerHour;
    var minutes := SecondsOfDay(diff) % SecondsPerHour / SecondsPerMinute;
    if days > 0 then Summary(days, Day)
    else if hours > 0 then Summary(hours, Hour)
    else Summary(minutes, Minute)
  }

  /** Reference definition: the largest unit a gap of `secs` whole seconds
      holds at least once, minutes when it holds none. */
  function LargestUnit(secs: nat): Unit {
    if secs >= SecondsPerDay then Day
    else if secs >= SecondsPerHour then Hour
    else Minute
  }

  lemma FloorOfWholeSeconds(diff: int)
    requires diff >= 0
    ensures Days(diff) == diff / MicrosPerSecond / SecondsPerDay
    ensures Days(diff) == 0 ==> SecondsOfDay(diff) == diff / MicrosPerSecond
  {
    var q := diff / MicrosPerDay;
    var r := diff % MicrosPerDay;
    assert diff == q * MicrosPerDay + r;
    var rs := r / MicrosPerSecond;
    assert r == rs * MicrosPerSecond + r % MicrosPerSecond;
    assert diff == (q * SecondsPerDay + rs) * MicrosPerSecond + r % MicrosPerSecond;
    assert diff / MicrosPerSecond == q * SecondsPerDay + rs;
  }

  /** For a scheduled time that is ahead of the clock, the summary counts the
      whole units of the largest unit that fits into the gap: the amount is the
      gap divided by that unit's length, rounded down. */
  lemma SummarizeAhead(diff: int)
    requires diff >= 0
    ensures Summarize(diff).unit == LargestUnit(diff / MicrosPerSecond)
    ensures Summarize(diff).amount == diff / MicrosPerSecond / UnitSeconds(Summarize(diff).unit)
  {
    FloorOfWholeSeconds(diff);
  }

  /** Below one day of gap, ahead of the clock or behind it (the gap is then
      normalised to minus some days plus the seconds within a day), the summary
      is the largest of hours and minutes that the seconds within the day hold,
      and the amount is those seconds in that unit, rounded down. */
  lemma SummarizeWithinDay(diff: int)
    requires Days(diff) <= 0
    ensures Summarize(diff).unit == LargestUnit(SecondsOfDay(diff))
    ensures Summarize(diff).amount == SecondsOfDay(diff) / UnitSeconds(Summarize(diff).unit)
  {
  }

  /** A scheduled time less than a minute ahead reads "0 minute". */
  lemma SubMinuteReadsZero(diff: int)
    requires 0 <= diff < MicrosPerMinute
    ensures Render(Summarize(diff)) == "0 minute"
  {
    FloorOfWholeSeconds(diff);
  }

  /** The confirmation for a reminder five minutes ahead reads "5 minutes". */
  lemma FiveMinutesAhead()
    ensures Render(Summarize(5 * MicrosPerMinute)) == "5 minutes"
  {
    var diff := 5 * MicrosPerMinute;
    assert Days(diff) == 0;
    assert SecondsOfDay(diff) == 300;
    assert Text.Decimal(5) == "5";
  }

  /** When the clock has already passed the scheduled time (the two clock reads
      of an add are a moment apart), the negative gap is normalised to minus one
      day plus a remainder, so a gap of minus one microsecond reads "23 hours". */
  lemma PastByOneMicrosecond()
    ensures Render(Summarize(-1)) == "23 hours"
  {
    assert Days(-1) == -1;
    assert SecondsOfDay(-1) == 86399;
    assert Text.Decimal(23) == "23";
  }

  function UnitName(u: Unit): string {
    match u
    case Day => "day"
    case Hour => "hour"
    case Minute => "minute"
  }

  /** The text shown after "Due in ". */
  function Render(s: Summary): string {
    Text.Decimal(s.amount) + " " + UnitName(s.unit) + (if s.amount > 1 then "s" else "")
  }

  /** The unit is pluralised exactly when the amount exceeds one, and the text
      starts with the amount written in decimal, followed by a space. */
  lemma RenderPlural(s: Summary)
    ensures Render(s)[|Render(s)| - 1] == 's' <==> s.amount > 1
    ensures |Render(s)| == |Text.Decimal(s.amount)| + 1 + |UnitName(s.unit)| + (if s.amount > 1 then 1 else 0)
    ensures Render(s)[|Text.Decimal(s.amount)|] == ' '
    ensures |Render(s)| >= |Text.Decimal(s.amount)| + 1 + |UnitName(s.unit)|
    ensures Render(s)[|Text.Decimal(s.amount)| + 1..|Text.Decimal(s.amount)| + 1 + |UnitName(s.unit)|] == UnitName(s.unit)
    ensures Text.DecimalValue(Render(s)[..|Text.Decimal(s.amount)|]) == s.amount
  {
    var d := Text.Decimal(s.amount);
    assert Render(s)[..|d|] == d;
    Text.DecimalRoundTrip(s.amount);
  }

  /** No unit's name starts another's, so the unit can be read back from the
      text after the number. */
  lemma UnitNameReadsBack(u: Unit, v: Unit)
    requires |UnitName(u)| <= |UnitName(v)| && UnitName(v)[..|UnitName(u)|] == UnitName(u)
    ensures u == v
  {
    assert UnitName(v)[0] == UnitName(u)[0];
  }
}
