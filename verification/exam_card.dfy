/** The per-exam card: the start time split off the time range, the upcoming/past
    classification that picks the card's colour, and the "days remaining" label shown
    under an upcoming exam. */
module ExamCard {
  import opened Wrappers
  import opened Time
  import opened Exams
  import Text

  /** The colour state of a card: grey when past, green when upcoming, yellow otherwise. */
  datatype Status = Past | Upcoming | Neutral

  /** The remaining-time line under an upcoming card: "tomorrow", or "N days remaining". */
  datatype Label = Tomorrow | DaysLeft(days: int)

  /** What the card derives from its exam at the instant `now`. */
  datatype CardView = CardView(startTime: string, isUpcoming: bool, isPast: bool,
                               daysUntil: Option<int>)

  /** `examDate > now` and `examDate < now`: both comparisons are false on an Invalid
      Date. */
  predicate IsUpcoming(start: Option<int>, now: int)
  {
    start.Some? && start.value > now
  }

  predicate IsPast(start: Option<int>, now: int)
  {
    start.Some? && start.value < now
  }

  /** `getTimeUntilExam`: the remaining time in days, rounded up; `None` stands for the
      NaN an Invalid Date yields. The result is the number of whole or partial days left. */
  function DaysUntil(start: Option<int>, now: int): (r: Option<int>)
    ensures r.Some? <==> start.Some?
    ensures r.Some? ==> (r.value - 1) * MsPerDay < start.value - now <= r.value * MsPerDay
  {
    match start
    case Some(s) => Some(CeilDiv(s - now, MsPerDay))
    case None => None
  }

  /** The card's derived state for `exam` at `now`. */
  function View(exam: Exam, parse: DateParser, now: int): (v: CardView)
    ensures v.startTime == Text.StartTime(exam.time)
    ensures v.daysUntil == DaysUntil(SessionStart(exam, parse), now)
    ensures v.isUpcoming <==> v.daysUntil.Some? && v.daysUntil.value >= 1
    ensures v.isPast <==> SessionStart(exam, parse).Some? && SessionStart(exam, parse).value < now
    ensures v.isPast ==> v.daysUntil.Some? && v.daysUntil.value <= 0
    ensures !(v.isUpcoming && v.isPast)
  {
    var start := SessionStart(exam, parse);
    var v := CardView(Text.StartTime(exam.time), IsUpcoming(start, now), IsPast(start, now),
                      DaysUntil(start, now));
    if start.Some? then CeilDivPositiveIff(start.value - now, MsPerDay); v else v
  }

  /** The colour chosen by the nested conditional: past wins, then upcoming. */
  function StatusOf(v: CardView): Status
  {
    if v.isPast then Past else if v.isUpcoming then Upcoming else Neutral
  }

  /** The remaining-time line, present only on an upcoming card. */
  function LabelOf(v: CardView): Option<Label>
  {
    if !v.isUpcoming || v.daysUntil.None? then None
    else if v.daysUntil.value == 1 then Some(Tomorrow)
    else Some(DaysLeft(v.daysUntil.value))
  }

  /** The card is neutral (yellow) exactly when its start equals `now`, or when the start
      cannot be parsed. */
  lemma NeutralIffNow(exam: Exam, parse: DateParser, now: int)
    ensures var start := SessionStart(exam, parse);
            StatusOf(View(exam, parse, now)) == Neutral <==> start.None? || start.value == now
  {
  }

  /** The three colours follow the order of start and `now`. */
  lemma StatusFollowsOrder(exam: Exam, parse: DateParser, now: int)
    requires SessionStart(exam, parse).Some?
    ensures var s := SessionStart(exam, parse).value;
            var st := StatusOf(View(exam, parse, now));
            (st == Upcoming <==> s > now) && (st == Past <==> s < now)
  {
  }

  /** An upcoming exam is always at least one day away in the rounded-up count. */
  lemma UpcomingHasDays(exam: Exam, parse: DateParser, now: int)
    requires View(exam, parse, now).isUpcoming
    ensures View(exam, parse, now).daysUntil.Some?
    ensures View(exam, parse, now).daysUntil.value >= 1
  {
    var s := SessionStart(exam, parse).value;
    CeilDivPositive(s - now, MsPerDay);
  }

  /** The "tomorrow" label is shown exactly when the exam starts within the next day. */
  lemma TomorrowIffWithinDay(exam: Exam, parse: DateParser, now: int)
    ensures var start := SessionStart(exam, parse);
            (LabelOf(View(exam, parse, now)) == Some(Tomorrow)) <==>
            (start.Some? && 0 < start.value - now <= MsPerDay)
  {
    var start := SessionStart(exam, parse);
    if start.Some? {
      CeilDivIsOne(start.value - now, MsPerDay);
    }
  }

  /** Any other label counts at least two days. */
  lemma DaysLeftAtLeastTwo(exam: Exam, parse: DateParser, now: int)
    requires LabelOf(View(exam, parse, now)).Some?
    requires LabelOf(View(exam, parse, now)).value.DaysLeft?
    ensures LabelOf(View(exam, parse, now)).value.days >= 2
  {
    UpcomingHasDays(exam, parse, now);
  }

  /** The day count never increases as time passes. */
  lemma DaysUntilNonIncreasing(start: int, now1: int, now2: int)
    requires now1 <= now2
    ensures DaysUntil(Some(start), now2).value <= DaysUntil(Some(start), now1).value
  {
    CeilDivMonotone(start - now2, start - now1, MsPerDay);
  }
}
