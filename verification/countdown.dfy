/** The countdown shown for the next exam: every second the remaining time until the
    target instant is split into whole days, hours, minutes and seconds; once the target
    is reached (or cannot be parsed) the display is all zeros and the timer stops. */
module Countdown {
  import opened Wrappers
  import opened Time

  /** The four numbers on the display. */
  datatype TimeRemaining = TimeRemaining(days: int, hours: int, minutes: int, seconds: int)

  /** What one timer callback leaves behind: the new display and whether the interval is
      still installed (`clearInterval` has not been called). */
  datatype TimerState = TimerState(display: TimeRemaining, running: bool)

  /** The display before the first callback runs. */
  const Initial: TimeRemaining := TimeRemaining(0, 0, 0, 0)

  /** A display whose hours, minutes and seconds are within their clock ranges. */
  predicate Normal(t: TimeRemaining)
  {
    t.days >= 0 && 0 <= t.hours < 24 && 0 <= t.minutes < 60 && 0 <= t.seconds < 60
  }

  /** The milliseconds a display stands for. */
  function Compose(t: TimeRemaining): int
  {
    t.days * MsPerDay + t.hours * MsPerHour + t.minutes * MsPerMinute + t.seconds * MsPerSecond
  }

  /** The split of a positive difference: floor division by a day, then the remainder
      within the day by an hour, within the hour by a minute, within the minute by a
      second. The display is normal and accounts for the difference up to the dropped
      milliseconds. */
  function Breakdown(difference: int): (t: TimeRemaining)
    requires difference > 0
    ensures Normal(t)
    ensures Compose(t) <= difference < Compose(t) + MsPerSecond
  {
    var days := difference / MsPerDay;
    var hours := (difference % MsPerDay) / MsPerHour;
    var minutes := (difference % MsPerHour) / MsPerMinute;
    var seconds := (difference % MsPerMinute) / MsPerSecond;
    BreakdownAccounts(difference);
    TimeRemaining(days, hours, minutes, seconds)
  }

  /** The arithmetic behind the contract of `Breakdown`. */
  lemma BreakdownAccounts(d: int)
    requires d > 0
    ensures var t := TimeRemaining(d / MsPerDay, (d % MsPerDay) / MsPerHour,
                                   (d % MsPerHour) / MsPerMinute, (d % MsPerMinute) / MsPerSecond);
            Normal(t) && Compose(t) <= d < Compose(t) + MsPerSecond
  {
    var inDay, inHour, inMinute := d % MsPerDay, d % MsPerHour, d % MsPerMinute;
    var hours, minutes, seconds := inDay / MsPerHour, inHour / MsPerMinute, inMinute / MsPerSecond;
    ModOfMultipleMod(d, MsPerHour, 24);
    ModOfMultipleMod(d, MsPerMinute, 60);
    assert inDay == hours * MsPerHour + inHour;
    assert inHour == minutes * MsPerMinute + inMinute;
    assert inMinute == seconds * MsPerSecond + inMinute % MsPerSecond;
    MulOrder(24, hours, MsPerHour);
    MulOrder(60, minutes, MsPerMinute);
    MulOrder(60, seconds, MsPerSecond);
  }

  /** Recomposition is the inverse of `Breakdown`: a normal display plus fewer than a
      second of extra milliseconds breaks down to that same display. */
  lemma BreakdownOfCompose(t: TimeRemaining, ms: int)
    requires Normal(t) && 0 <= ms < MsPerSecond && Compose(t) + ms > 0
    ensures Breakdown(Compose(t) + ms) == t
  {
    var d := Compose(t) + ms;
    var inMinute := t.seconds * MsPerSecond + ms;
    var inHour := t.minutes * MsPerMinute + inMinute;
    var inDay := t.hours * MsPerHour + inHour;
    MulOrder(t.seconds, 59, MsPerSecond);
    MulOrder(t.minutes, 59, MsPerMinute);
    MulOrder(t.hours, 23, MsPerHour);
    DivModUnique(d, MsPerDay, t.days, inDay);
    DivModUnique(inDay, MsPerHour, t.hours, inHour);
    DivModUnique(inHour, MsPerMinute, t.minutes, inMinute);
    DivModUnique(inMinute, MsPerSecond, t.seconds, ms);
    ModOfMultipleMod(d, MsPerHour, 24);
    ModOfMultipleMod(d, MsPerMinute, 60);
  }

  /** One timer callback: `target` is the parsed target instant (`None` for an Invalid
      Date, whose difference is NaN and fails the `difference > 0` test). */
  function TimerTick(target: Option<int>, now: int): (s: TimerState)
    ensures Normal(s.display)
    ensures s.running <==> target.Some? && target.value > now
    ensures s.running ==> Compose(s.display) <= target.value - now < Compose(s.display) + MsPerSecond
    ensures !s.running ==> s.display == Initial
  {
    match target
    case Some(t) =>
      var difference := t - now;
      if difference > 0 then TimerState(Breakdown(difference), true)
      else TimerState(Initial, false)
    case None => TimerState(Initial, false)
  }

  /** A difference of one day, one hour, one minute and one second shows as 1/1/1/1. */
  lemma BreakdownExample()
    ensures Breakdown(90_061_000) == TimeRemaining(1, 1, 1, 1)
  {
    BreakdownOfCompose(TimeRemaining(1, 1, 1, 1), 0);
  }
}
