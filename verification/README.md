# Exam countdown: a Dafny model of its time arithmetic and reminder bookkeeping

The application shows a fixed list of exams. It highlights the soonest upcoming exam
with a live countdown and can raise browser notifications one day, one hour and thirty
minutes before each exam. This project models the logic under that interface, with
instants as integer milliseconds:

- `time.dfy` (`Time`): the millisecond unit constants and the ceiling division that
  stands for `Math.ceil(ms / unit)`.
- `text.dfy` (`Text`): the start time split off a `"HH:MM - HH:MM"` range
  (`time.split(' - ')[0]`) and the decimal text of an exam id (`${exam.id}`).
- `exams.dfy` (`Exams`): the exam record. It also gives the two ways the components turn
  an exam into an instant. Parsing the date text is a parameter `DateParser`, with `None`
  for JavaScript's Invalid Date.
- `countdown.dfy` (`Countdown`): one callback of the countdown timer. A positive
  difference is split into days, hours, minutes and seconds. Otherwise the display is
  cleared to zeros and the timer stops.
- `exam_card.dfy` (`ExamCard`): a card's upcoming/past classification, its colour state,
  the rounded-up days until the exam, and the "tomorrow" / "N days remaining" label.
- `schedule.dfy` (`Schedule`): the schedule page's `getNextExam` and its "remaining
  exams" and "total exams" statistics. `getNextExam` filters the upcoming exams,
  stable-sorts them by start and takes the head.
- `notifications.dfy` (`Notifications`): one reminder check (`checkNotifications`). It
  takes the exams, the settings, the notification permission, `now`, the parser and the
  key store (a `set<string>` standing for `localStorage`). It returns the reminders
  emitted, in order, and the new store.

Two points about the code shape the model:

- The code has three reminders: one day, one hour and thirty minutes before the exam.
- The schedule page parses `date + "T" + time` with the whole `time` field. The card and
  the scheduler parse the date joined with the split-off start time. `Exams.SessionStart`
  and `Exams.ScheduledStart` keep the two apart, and `Exams.StartsAgreeWithoutRange`
  shows they agree for the `"HH:MM"` times the schedule uses.

## Model

| member | source | states |
|---|---|---|
| `Time.CeilDiv` | src/components/NotificationSystem.tsx:43-45 | The rounded-up quotient of the time difference by a unit: the unique `q` with `(q - 1) * b < a <= q * b`. |
| `Text.StartTime` | src/components/ExamCard.tsx:18 | The start time is a prefix of `time` that contains no `" - "`. When it is shorter than `time`, a `" - "` follows it immediately. So it is the text before the first separator, or the whole string when there is none. |
| `Text.StartTimeOfRange` | src/components/NotificationSystem.tsx:40 | For a range `start + " - " + rest` whose start has no separator, the start time is `start`. |
| `Text.IdTextInjective` | src/components/NotificationSystem.tsx:49 | Distinct exam ids render as distinct decimal texts, negative ids included. |
| `Exams.StartsAgreeWithoutRange` | src/pages/Index.tsx:72 | When `time` contains no `" - "`, the page's instant and the card's and scheduler's instant are the same. |
| `Countdown.Breakdown` | src/components/CountdownTimer.tsx:29-33 | For a positive difference: days >= 0, hours < 24, minutes < 60, seconds < 60. The recomposed milliseconds are at most the difference and fall short of it by less than one second. |
| `Countdown.BreakdownOfCompose` | src/components/CountdownTimer.tsx:30-33 | Recomposition is inverse to the split. A normal display plus under a second of extra milliseconds splits back into that display. |
| `Countdown.BreakdownExample` | src/components/CountdownTimer.tsx:30-33 | 90 061 000 ms shows as 1 day, 1 hour, 1 minute, 1 second. |
| `Countdown.TimerTick` | src/components/CountdownTimer.tsx:25-38 | The timer keeps running exactly when the target parses and lies after `now`. A running display accounts for the difference to within a second. A stopped display is the all-zero initial state. The display is never negative. |
| `ExamCard.DaysUntil` | src/components/ExamCard.tsx:24-28 | The rounded-up day count `d` satisfies `(d - 1)` days < start - now <= `d` days. It is absent exactly when the start does not parse. |
| `ExamCard.View` | src/components/ExamCard.tsx:18-28 | The card is upcoming exactly when its rounded-up day count exists and is at least 1. It is past exactly when its start parses and lies before `now`. A past card has a day count of at most 0. A card is never both upcoming and past. |
| `ExamCard.NeutralIffNow` | src/components/ExamCard.tsx:21-40 | The neutral (yellow) state occurs exactly when the start equals `now` or does not parse. |
| `ExamCard.StatusFollowsOrder` | src/components/ExamCard.tsx:31-40 | For a parsed start, the card is green exactly when start > now and grey exactly when start < now. |
| `ExamCard.UpcomingHasDays` | src/components/ExamCard.tsx:21-28 | An upcoming card's day count exists and is at least 1. |
| `ExamCard.TomorrowIffWithinDay` | src/components/ExamCard.tsx:60-63 | The "tomorrow" label shows exactly when 0 < start - now <= 86 400 000. |
| `ExamCard.DaysLeftAtLeastTwo` | src/components/ExamCard.tsx:63 | The "N days remaining" label always has N >= 2. |
| `ExamCard.DaysUntilNonIncreasing` | src/components/ExamCard.tsx:25-26 | The day count never increases as `now` advances. |
| `Schedule.UpcomingExams` | src/pages/Index.tsx:71-74 | Every kept exam is from the list, starts after `now` and carries its parsed start. Every exam of the list that starts after `now` is kept. The result is empty exactly when no exam starts after `now`. |
| `Schedule.UpcomingPositions` | src/pages/Index.tsx:71-74 | The filter keeps input order. The filtered list is the upcoming exams read at strictly increasing positions of the list, each with its start. Every upcoming position appears, so no exam is dropped or repeated. |
| `Schedule.SortByStartSorts` | src/pages/Index.tsx:76-79 | The sort returns a permutation of the upcoming exams, ordered by ascending start. |
| `Schedule.NextExam` | src/pages/Index.tsx:69-81 | No next exam exactly when none starts after `now`. Otherwise the result is an exam of the list at a position where it starts after `now`, no upcoming exam starts earlier, and every upcoming exam before it in the list starts strictly later. |
| `Schedule.HeadIsNext` | src/pages/Index.tsx:76-80 | The head of the stably sorted upcoming exams is the exam at that position, with its start. |
| `Schedule.NextAtUnique` | src/pages/Index.tsx:76-80 | At most one position qualifies, so ties between equal starts go to the earliest in input order. |
| `Schedule.UpcomingCount` | src/pages/Index.tsx:118 | The "remaining exams" figure is the number of list positions whose exam starts after `now`. It is at most the "total exams" figure. |
| `Schedule.CountIsIndexCount` | src/pages/Index.tsx:118 | The filtered list has exactly one entry per upcoming position. |
| `Schedule.NextExistsIffCount` | src/pages/Index.tsx:99-118 | At one instant, the countdown section shows exactly when the remaining-exams figure is positive. |
| `Schedule.UpcomingCountNonIncreasing` | src/pages/Index.tsx:118 | The upcoming positions at a later instant are among those at an earlier one, so the remaining-exams figure never grows as time passes. |
| `Schedule.CountLaterImpliesNext` | src/pages/Index.tsx:70-118 | A positive count at the later clock read implies a next exam at the earlier read. So the countdown section is present whenever the count is positive. |
| `Notifications.KeyInjective` | src/components/NotificationSystem.tsx:49 | Distinct (exam id, reminder) pairs have distinct store keys, so deduplication is per pair. |
| `Notifications.RuleIsWindow` | src/components/NotificationSystem.tsx:43-80 | The one-day rule holds exactly when 0 < diff <= 86 400 000. The one-hour rule holds exactly when 0 < diff <= 3 600 000. The thirty-minute rule holds exactly when 1 740 000 < diff <= 1 800 000. The `hoursDiff <= 25` and `minutesDiff <= 70` conjuncts exclude nothing. |
| `Notifications.FiresOnlyAhead` | src/components/NotificationSystem.tsx:42-80 | A reminder fires only for an exam that starts after `now` and at most a day ahead. |
| `Notifications.Offer` | src/components/NotificationSystem.tsx:48-61 | One rule emits exactly when it fires and its key is absent. The emitted notification is the one built for that exam and rule. Afterwards a fired rule's key is stored, and the store gained exactly the emitted key. |
| `Notifications.ExamStep` | src/components/NotificationSystem.tsx:38-93 | After an exam's three rules, every fired rule's key is stored. Each emission is for this exam and a rule that fired. The store gained exactly the fresh tags emitted. |
| `Notifications.Sweep` | src/components/NotificationSystem.tsx:38-97 | Over the list, earlier emissions are kept and only fresh tags are added. Every fired key of every listed exam ends up stored. Each emission comes from a listed exam whose rule fired. |
| `Notifications.Tick` | src/components/NotificationSystem.tsx:26-98 | Disabled settings or a permission other than granted give no emission and an unchanged store. Otherwise the store grows by exactly the emitted tags. No tag was present before or is emitted twice. Every emission is justified by a listed exam. Every fired key is stored afterwards. |
| `Notifications.TickIdempotent` | src/components/NotificationSystem.tsx:50-59 | A second check with the same inputs on the resulting store emits nothing and leaves that store as it is. |
| `Notifications.NeverTwice` | src/components/NotificationSystem.tsx:50-59 | A later check, whatever its time, settings or permission, never re-emits a tag an earlier check emitted. |
| `Notifications.EmitsEveryNewFiring` | src/components/NotificationSystem.tsx:48-60 | During an active check, a rule that fires for a listed exam with an absent key has its notification emitted. |
| `Notifications.StoreGrowsByFiredKeys` | src/components/NotificationSystem.tsx:38-96 | The store only grows, and only by the keys of rules that fired for exams in the list. |
| `Notifications.NothingForStartedExams` | src/components/NotificationSystem.tsx:42-80 | When every exam has started or does not parse, a check emits nothing and leaves the store unchanged. |
| `Notifications.UnparsableSkipped` | src/components/NotificationSystem.tsx:38-96 | Inserting an exam whose start does not parse anywhere in the list changes nothing about the check. |
| `Notifications.OneDayCrossing` | src/components/NotificationSystem.tsx:43-60 | The one-day rule does not hold 25 hours ahead. At 20 hours ahead it emits once, and a repeated check emits nothing. |

## Left out

- Timers: the countdown's one-second interval, the scheduler's immediate check plus the
  one-minute interval, and `clearInterval`. A single callback is modelled as one function
  application (`Countdown.TimerTick`, `Notifications.Tick`). Re-running the effect when
  the exams or settings change is not modelled.
- Date parsing: `new Date(...)`, its local-time-zone interpretation and `getTime()` are the
  `DateParser` parameter. A read of the clock (`new Date()`) is an explicit `now`
  parameter. Several reads within one render share one `now`, except as stated below.
- Floating point: `Math.ceil` and `Math.floor` of double quotients become exact integer
  division. They agree for the millisecond ranges a schedule spans, but that is not proved.
- `Notifications.Tick`: `new Notification(...)` is modelled as never throwing. In the
  code, a throw (or a throwing `localStorage` call) jumps to the `catch`. That skips the
  key write and the exam's remaining rules, so such a reminder is retried at the next
  check.
- `Notifications.Tick`: the store keeps only the presence of a key. The code reads
  `getItem` for truthiness. A key holding an empty string, written by some other code,
  would read as absent. Only this code writes these keys, and it always writes `'true'`.
- Notification payload: the title, icon and Arabic body text are reduced to the fields
  the body is built from (subject, start time), the tag and `silent = !settings.sound`.
- Rendering: JSX, class names, the end time shown on a card, `padStart`, icons.
- Wiring: the page mounts the scheduler without its `settings` prop
  (src/pages/Index.tsx:139). The model takes explicit settings.
- The hard-coded exam list of the page.
- `Schedule.SortByStart`: its stability is proved only through the head it yields
  (`Schedule.HeadIsNext`, `Schedule.NextAtUnique`). There is no full order-preservation
  statement about the whole sorted list.
- Exam ids are integers of magnitude below 10^21. JavaScript renders larger ids in
  exponent form, and a `number` also allows fractional ids. Neither case is modelled.
- `Schedule.UpcomingCount`: the count takes one `now` for the whole filter. The page
  reads the clock again for each exam inside that filter (src/pages/Index.tsx:118). The
  count over separate per-exam instants is not modelled. `Schedule.UpcomingCountNonIncreasing`
  shows only that the single-instant count never grows as that instant advances.
- `Schedule.NextExistsIffCount`: the iff holds only when the next exam and the
  remaining-exams count are taken at one instant. The page reads the clock once for
  `getNextExam` (src/pages/Index.tsx:70). It reads it again, later, once per exam in the
  count's filter (src/pages/Index.tsx:118). `Schedule.CountLaterImpliesNext` proves the
  direction that survives a later read: a positive count implies a next exam. The count
  taking a separate instant per exam is not modelled.
