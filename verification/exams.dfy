/** The exam record shared by every component, and the two ways the components turn it
    into an instant. Date parsing (`new Date(`${date}T${time}`)`, interpreted in the local
    time zone) is not modelled: it is a parameter of every operation, a function from the
    text handed to the `Date` constructor to milliseconds, `None` for an Invalid Date. */
module Exams {
  import opened Wrappers
  import Text

  /** One scheduled exam: `date` is `"YYYY-MM-DD"`, `time` either `"HH:MM"` or a range
      `"HH:MM - HH:MM"`, `day` the weekday name shown on the card. */
  datatype Exam = Exam(id: int, subject: string, date: string, time: string, day: string)

  /** Local-time parsing of an ISO-like date-time text into epoch milliseconds. */
  type DateParser = string -> Option<int>

  /** The text the components hand to the `Date` constructor. */
  function DateTimeText(date: string, time: string): string
  {
    date + "T" + time
  }

  /** The start instant as the exam card and the reminder scheduler compute it: the date
      joined with the start of the time range. */
  function SessionStart(e: Exam, parse: DateParser): Option<int>
  {
    parse(DateTimeText(e.date, Text.StartTime(e.time)))
  }

  /** The start instant as the schedule page computes it: the date joined with the whole
      `time` field, without splitting off a range end. */
  function ScheduledStart(e: Exam, parse: DateParser): Option<int>
  {
    parse(DateTimeText(e.date, e.time))
  }

  /** When the `time` field carries no range both computations agree. */
  lemma StartsAgreeWithoutRange(e: Exam, parse: DateParser)
    requires forall j :: 0 <= j < |e.time| ==> !Text.SeparatorAt(e.time, j)
    ensures SessionStart(e, parse) == ScheduledStart(e, parse)
  {
    Text.StartTimeWithoutSeparator(e.time);
  }
}
