/** The reminder scheduler. While reminders are enabled a check runs once immediately and
    then every minute; each check walks the exams in order and, for each of the three
    reminders (one day, one hour, thirty minutes before the start), emits a notification
    when its rule holds and its key is not yet in the browser's key-value store, then
    writes the key. The store is modelled as the set of keys present; the notification
    sink as the sequence of emitted reminders. */
module Notifications {
  import opened Wrappers
  import opened Time
  import opened Exams
  import Text

  /** The user's reminder settings. */
  datatype Settings = Settings(enabled: bool, oneDayBefore: bool, oneHourBefore: bool,
                               thirtyMinBefore: bool, sound: bool)

  /** The platform's notification support: absent (`"Notification" in window` is false)
      or present with one of the three permission states. */
  datatype Permission = Unsupported | Default | Denied | Granted

  /** The three reminders the scheduler knows. */
  datatype Threshold = OneDay | OneHour | ThirtyMin

  /** One emitted notification: the exam it is about, which reminder it is, the text
      fields its body is built from, its tag (the store key) and its `silent` flag. */
  datatype Reminder = Reminder(examId: int, threshold: Threshold, subject: string,
                               startTime: string, tag: string, silent: bool)

  /** What a check has produced so far: the reminders emitted, in order, and the store. */
  datatype TickState = TickState(emitted: seq<Reminder>, store: set<string>)

  /** The key suffix of each reminder. */
  function Suffix(t: Threshold): string
  {
    match t
    case OneDay => "-1day"
    case OneHour => "-1hour"
    case ThirtyMin => "-30min"
  }

  /** The store key `${exam.id}-1day`, `${exam.id}-1hour` or `${exam.id}-30min`. */
  function Key(id: int, t: Threshold): string
  {
    Text.IdText(id) + Suffix(t)
  }

  /** Keys identify the exam id and the reminder: distinct pairs never share a key, so the
      store deduplicates per (exam id, reminder) and nothing coarser. */
  lemma KeyInjective(a: int, t: Threshold, b: int, u: Threshold)
    ensures Key(a, t) == Key(b, u) ==> a == b && t == u
  {
    if Key(a, t) == Key(b, u) {
      var ka, kb := Key(a, t), Key(b, u);
      var sa, sb := Suffix(t), Suffix(u);
      assert ka[|ka| - 1] == sa[|sa| - 1] && kb[|kb| - 1] == sb[|sb| - 1];
      assert t == u;
      assert ka[..|Text.IdText(a)|] == Text.IdText(a);
      assert kb[..|Text.IdText(b)|] == Text.IdText(b);
      Text.IdTextInjective(a, b);
    }
  }

  /** Whether the settings ask for a reminder. */
  predicate Selected(settings: Settings, t: Threshold)
  {
    match t
    case OneDay => settings.oneDayBefore
    case OneHour => settings.oneHourBefore
    case ThirtyMin => settings.thirtyMinBefore
  }

  /** The rule of each reminder as the check writes it, over the rounded-up day, hour and
      minute counts of the time left before the start. */
  predicate RuleHolds(t: Threshold, timeDiff: int)
  {
    var daysDiff := CeilDiv(timeDiff, MsPerDay);
    var hoursDiff := CeilDiv(timeDiff, MsPerHour);
    var minutesDiff := CeilDiv(timeDiff, MsPerMinute);
    match t
    case OneDay => daysDiff == 1 && hoursDiff <= 25
    case OneHour => hoursDiff == 1 && minutesDiff <= 70
    case ThirtyMin => minutesDiff == 30
  }

  /** The window of remaining time in which each reminder is due. */
  predicate Window(t: Threshold, timeDiff: int)
  {
    match t
    case OneDay => 0 < timeDiff <= MsPerDay
    case OneHour => 0 < timeDiff <= MsPerHour
    case ThirtyMin => 29 * MsPerMinute < timeDiff <= 30 * MsPerMinute
  }

  /** Each rule holds exactly on its window: the extra `hoursDiff <= 25` and
      `minutesDiff <= 70` conjuncts never exclude anything. */
  lemma RuleIsWindow(t: Threshold, timeDiff: int)
    ensures RuleHolds(t, timeDiff) <==> Window(t, timeDiff)
  {
    match t
    case OneDay =>
      CeilDivIsOne(timeDiff, MsPerDay);
      if 0 < timeDiff <= MsPerDay {
        CeilDivAtMost(timeDiff, MsPerHour, 24);
      }
    case OneHour =>
      CeilDivIsOne(timeDiff, MsPerHour);
      if 0 < timeDiff <= MsPerHour {
        CeilDivAtMost(timeDiff, MsPerMinute, 60);
      }
    case ThirtyMin =>
      CeilDivIs(timeDiff, MsPerMinute, 30);
  }

  /** A reminder fires for an exam when it is selected, the start parses, and its rule
      holds for the time left. */
  predicate Fires(e: Exam, t: Threshold, settings: Settings, now: int, parse: DateParser)
  {
    && Selected(settings, t)
    && SessionStart(e, parse).Some?
    && RuleHolds(t, SessionStart(e, parse).value - now)
  }

  /** A reminder only ever fires while the exam is still ahead, and at most a day ahead. */
  lemma FiresOnlyAhead(e: Exam, t: Threshold, settings: Settings, now: int, parse: DateParser)
    requires Fires(e, t, settings, now, parse)
    ensures now < SessionStart(e, parse).value <= now + MsPerDay
  {
    RuleIsWindow(t, SessionStart(e, parse).value - now);
  }

  /** The notification built for an exam and a reminder. */
  function Notify(e: Exam, t: Threshold, settings: Settings): Reminder
  {
    Reminder(e.id, t, e.subject, Text.StartTime(e.time), Key(e.id, t), !settings.sound)
  }

  /** The set of tags of a sequence of reminders. */
  function Tags(rs: seq<Reminder>): set<string>
  {
    set i | 0 <= i < |rs| :: rs[i].tag
  }

  /** `added` is what a stretch of the check emitted while the store went from `before` to
      `after`: the store gained exactly the tags emitted, none of which it held before,
      and no tag was emitted twice. */
  predicate Fresh(added: seq<Reminder>, before: set<string>, after: set<string>)
  {
    && after == before + Tags(added)
    && (forall i :: 0 <= i < |added| ==> added[i].tag !in before)
    && (forall i, j :: 0 <= i < j < |added| ==> added[i].tag != added[j].tag)
  }

  /** `next` continues `prev`: it keeps the earlier emissions and adds fresh ones. */
  predicate Grows(prev: TickState, next: TickState)
  {
    && |prev.emitted| <= |next.emitted|
    && next.emitted[..|prev.emitted|] == prev.emitted
    && Fresh(next.emitted[|prev.emitted|..], prev.store, next.store)
  }

  lemma TagsSingle(x: Reminder)
    ensures Tags([x]) == {x.tag}
  {
    assert [x][0] == x;
  }

  lemma TagsAppend(x: seq<Reminder>, y: seq<Reminder>)
    ensures Tags(x + y) == Tags(x) + Tags(y)
  {
    var xy := x + y;
    forall k | k in Tags(xy) ensures k in Tags(x) + Tags(y)
    {
      var i :| 0 <= i < |xy| && xy[i].tag == k;
      if i >= |x| { assert y[i - |x|] == xy[i]; }
    }
    forall k | k in Tags(y) ensures k in Tags(xy)
    {
      var i :| 0 <= i < |y| && y[i].tag == k;
      assert xy[i + |x|] == y[i];
    }
    assert forall i :: 0 <= i < |x| ==> xy[i] == x[i];
  }

  /** Fresh stretches compose. */
  lemma FreshAppend(x: seq<Reminder>, y: seq<Reminder>, s0: set<string>, s1: set<string>,
                    s2: set<string>)
    requires Fresh(x, s0, s1) && Fresh(y, s1, s2)
    ensures Fresh(x + y, s0, s2)
  {
    TagsAppend(x, y);
    var xy := x + y;
    forall i, j | 0 <= i < j < |xy| ensures xy[i].tag != xy[j].tag
    {
      if j >= |x| {
        assert xy[j] == y[j - |x|];
        if i < |x| {
          assert xy[i].tag in Tags(x);
        } else {
          assert xy[i] == y[i - |x|];
        }
      }
    }
  }

  /** Continuation is transitive. */
  lemma GrowsTrans(a: TickState, b: TickState, c: TickState)
    requires Grows(a, b) && Grows(b, c)
    ensures Grows(a, c)
  {
    var x, y := b.emitted[|a.emitted|..], c.emitted[|b.emitted|..];
    assert c.emitted[|a.emitted|..] == x + y;
    FreshAppend(x, y, a.store, b.store, c.store);
  }

  /** One reminder rule for one exam: notify and record the key when the rule fires and
      the key is absent, otherwise change nothing. */
  function Offer(st: TickState, e: Exam, t: Threshold, settings: Settings, now: int,
                 parse: DateParser): (r: TickState)
    ensures Grows(st, r)
    ensures Fires(e, t, settings, now, parse) ==> Key(e.id, t) in r.store
    ensures |r.emitted| > |st.emitted| <==>
              Fires(e, t, settings, now, parse) && Key(e.id, t) !in st.store
    ensures forall i :: |st.emitted| <= i < |r.emitted| ==>
              r.emitted[i].threshold == t && FromExam(r.emitted[i], e, settings, now, parse)
  {
    var key := Key(e.id, t);
    if Fires(e, t, settings, now, parse) && key !in st.store then
      var n := Notify(e, t, settings);
      var r := TickState(st.emitted + [n], st.store + {key});
      assert r.emitted[|st.emitted|..] == [n];
      TagsSingle(n);
      r
    else
      assert st.emitted[|st.emitted|..] == [];
      assert Tags([]) == {};
      st
  }

  /** `r` is the notification built for exam `e` by a reminder rule that fired. */
  predicate FromExam(r: Reminder, e: Exam, settings: Settings, now: int, parse: DateParser)
  {
    Fires(e, r.threshold, settings, now, parse) && r == Notify(e, r.threshold, settings)
  }

  /** Every reminder in `rs` from position `from` on was emitted for an exam of `exams`
      whose rule fired. */
  predicate Justified(rs: seq<Reminder>, from: int, exams: seq<Exam>, settings: Settings,
                      now: int, parse: DateParser)
  {
    forall i :: 0 <= from <= i < |rs| ==>
      exists e :: e in exams && FromExam(rs[i], e, settings, now, parse)
  }

  /** All keys an exam's rules call for are in the store. */
  predicate Covered(e: Exam, settings: Settings, now: int, parse: DateParser, store: set<string>)
  {
    forall t :: Fires(e, t, settings, now, parse) ==> Key(e.id, t) in store
  }

  /** The body of the `forEach` callback for one exam: the one-day, one-hour and
      thirty-minute rules in that order, each seeing the keys the previous ones wrote. */
  function ExamStep(st: TickState, e: Exam, settings: Settings, now: int, parse: DateParser)
    : (r: TickState)
    ensures Grows(st, r)
    ensures Covered(e, settings, now, parse, r.store)
    ensures forall i :: |st.emitted| <= i < |r.emitted| ==>
              FromExam(r.emitted[i], e, settings, now, parse)
  {
    var s1 := Offer(st, e, OneDay, settings, now, parse);
    var s2 := Offer(s1, e, OneHour, settings, now, parse);
    var s3 := Offer(s2, e, ThirtyMin, settings, now, parse);
    ChainOfOffers(st, s1, s2, s3, e, settings, now, parse);
    s3
  }

  /** The bookkeeping behind `ExamStep`: three consecutive offers for one exam. */
  lemma ChainOfOffers(st: TickState, s1: TickState, s2: TickState, s3: TickState, e: Exam,
                      settings: Settings, now: int, parse: DateParser)
    requires s1 == Offer(st, e, OneDay, settings, now, parse)
    requires s2 == Offer(s1, e, OneHour, settings, now, parse)
    requires s3 == Offer(s2, e, ThirtyMin, settings, now, parse)
    ensures Grows(st, s3)
    ensures Covered(e, settings, now, parse, s3.store)
    ensures forall i :: |st.emitted| <= i < |s3.emitted| ==>
              FromExam(s3.emitted[i], e, settings, now, parse)
  {
    GrowsTrans(st, s1, s2);
    GrowsTrans(st, s2, s3);
    ChainCovers(st, s1, s2, s3, e, settings, now, parse);
    ChainFromExam(st, s1, s2, s3, e, settings, now, parse);
  }

  lemma ChainCovers(st: TickState, s1: TickState, s2: TickState, s3: TickState, e: Exam,
                    settings: Settings, now: int, parse: DateParser)
    requires s1 == Offer(st, e, OneDay, settings, now, parse)
    requires s2 == Offer(s1, e, OneHour, settings, now, parse)
    requires s3 == Offer(s2, e, ThirtyMin, settings, now, parse)
    ensures Covered(e, settings, now, parse, s3.store)
  {
    assert s1.store <= s2.store <= s3.store;
  }

  lemma ChainFromExam(st: TickState, s1: TickState, s2: TickState, s3: TickState, e: Exam,
                      settings: Settings, now: int, parse: DateParser)
    requires s1 == Offer(st, e, OneDay, settings, now, parse)
    requires s2 == Offer(s1, e, OneHour, settings, now, parse)
    requires s3 == Offer(s2, e, ThirtyMin, settings, now, parse)
    ensures forall i :: |st.emitted| <= i < |s3.emitted| ==>
              FromExam(s3.emitted[i], e, settings, now, parse)
  {
    assert s3.emitted[..|s2.emitted|] == s2.emitted;
    assert s2.emitted[..|s1.emitted|] == s1.emitted;
    assert forall i :: |st.emitted| <= i < |s1.emitted| ==> s3.emitted[i] == s1.emitted[i];
    assert forall i :: |s1.emitted| <= i < |s2.emitted| ==> s3.emitted[i] == s2.emitted[i];
  }

  /** `exams.forEach(...)`: the exams in list order, each step seeing the store the
      earlier ones left. */
  function Sweep(exams: seq<Exam>, settings: Settings, now: int, parse: DateParser,
                 st: TickState): (r: TickState)
    ensures Grows(st, r)
    ensures forall e :: e in exams ==> Covered(e, settings, now, parse, r.store)
    ensures Justified(r.emitted, |st.emitted|, exams, settings, now, parse)
    decreases |exams|
  {
    if exams == [] then st
    else
      var s1 := ExamStep(st, exams[0], settings, now, parse);
      var r := Sweep(exams[1..], settings, now, parse, s1);
      SweepStep(exams, settings, now, parse, st, s1, r);
      r
  }

  /** The bookkeeping behind `Sweep`: the first exam's step followed by the rest. */
  lemma SweepStep(exams: seq<Exam>, settings: Settings, now: int, parse: DateParser,
                  st: TickState, s1: TickState, r: TickState)
    requires exams != []
    requires s1 == ExamStep(st, exams[0], settings, now, parse)
    requires Grows(s1, r)
    requires forall e :: e in exams[1..] ==> Covered(e, settings, now, parse, r.store)
    requires Justified(r.emitted, |s1.emitted|, exams[1..], settings, now, parse)
    ensures Grows(st, r)
    ensures forall e :: e in exams ==> Covered(e, settings, now, parse, r.store)
    ensures Justified(r.emitted, |st.emitted|, exams, settings, now, parse)
  {
    GrowsTrans(st, s1, r);
    assert forall e :: e in exams ==> e == exams[0] || e in exams[1..];
    forall i | |st.emitted| <= i < |r.emitted|
      ensures exists e :: e in exams && FromExam(r.emitted[i], e, settings, now, parse)
    {
      if i < |s1.emitted| {
        assert r.emitted[i] == s1.emitted[i];
        assert FromExam(r.emitted[i], exams[0], settings, now, parse);
      } else {
        assert exists e :: e in exams[1..] && FromExam(r.emitted[i], e, settings, now, parse);
        var e :| e in exams[1..] && FromExam(r.emitted[i], e, settings, now, parse);
        assert e in exams;
      }
    }
  }

  /** One check (`checkNotifications`), including the `settings.enabled` guard under which
      the checks are scheduled at all. With reminders disabled or without granted
      permission nothing is emitted and the store is untouched; otherwise the store gains
      exactly the keys of the reminders emitted, each emitted once, each absent before,
      each for an exam of the list whose rule fired, and afterwards every fired rule's key
      is present. */
  function Tick(exams: seq<Exam>, settings: Settings, permission: Permission, now: int,
                parse: DateParser, store: set<string>): (r: TickState)
    ensures !settings.enabled ==> r == TickState([], store)
    ensures permission != Granted ==> r == TickState([], store)
    ensures Fresh(r.emitted, store, r.store)
    ensures Justified(r.emitted, 0, exams, settings, now, parse)
    ensures settings.enabled && permission == Granted ==>
              forall e :: e in exams ==> Covered(e, settings, now, parse, r.store)
  {
    if !settings.enabled || permission != Granted then TickState([], store)
    else
      var r := Sweep(exams, settings, now, parse, TickState([], store));
      assert r.emitted[0..] == r.emitted;
      r
  }

  /** An offer whose key is already stored whenever its rule fires changes nothing. */
  lemma OfferQuiet(st: TickState, e: Exam, t: Threshold, settings: Settings, now: int,
                   parse: DateParser)
    requires Fires(e, t, settings, now, parse) ==> Key(e.id, t) in st.store
    ensures Offer(st, e, t, settings, now, parse) == st
  {
  }

  /** An exam whose fired keys are all stored leaves the state unchanged. */
  lemma ExamStepQuiet(st: TickState, e: Exam, settings: Settings, now: int, parse: DateParser)
    requires Covered(e, settings, now, parse, st.store)
    ensures ExamStep(st, e, settings, now, parse) == st
  {
    assert Fires(e, OneDay, settings, now, parse) ==> Key(e.id, OneDay) in st.store;
    assert Fires(e, OneHour, settings, now, parse) ==> Key(e.id, OneHour) in st.store;
    assert Fires(e, ThirtyMin, settings, now, parse) ==> Key(e.id, ThirtyMin) in st.store;
    OfferQuiet(st, e, OneDay, settings, now, parse);
    OfferQuiet(st, e, OneHour, settings, now, parse);
    OfferQuiet(st, e, ThirtyMin, settings, now, parse);
  }

  /** When every rule that fires already has its key stored, a sweep changes nothing. */
  lemma {:induction false} SweepQuiet(exams: seq<Exam>, settings: Settings, now: int,
                                      parse: DateParser, st: TickState)
    requires forall e :: e in exams ==> Covered(e, settings, now, parse, st.store)
    ensures Sweep(exams, settings, now, parse, st) == st
    decreases |exams|
  {
    if exams != [] {
      ExamStepQuiet(st, exams[0], settings, now, parse);
      assert forall x :: x in exams[1..] ==> x in exams;
      SweepQuiet(exams[1..], settings, now, parse, st);
    }
  }

  /** Idempotence: a second check at the same instant over the same exams and settings
      emits nothing and leaves the store as the first check left it. */
  lemma TickIdempotent(exams: seq<Exam>, settings: Settings, permission: Permission,
                       now: int, parse: DateParser, store: set<string>)
    ensures var first := Tick(exams, settings, permission, now, parse, store);
            Tick(exams, settings, permission, now, parse, first.store)
              == TickState([], first.store)
  {
    var first := Tick(exams, settings, permission, now, parse, store);
    if settings.enabled && permission == Granted {
      SweepQuiet(exams, settings, now, parse, TickState([], first.store));
    }
  }

  /** No check emits a key a previous check has emitted: once written, a key suppresses
      its reminder in every later check, whatever the time, settings or permission. */
  lemma NeverTwice(exams: seq<Exam>, settings: Settings, permission: Permission, now: int,
                   exams': seq<Exam>, settings': Settings, permission': Permission,
                   now': int, parse: DateParser, store: set<string>)
    ensures var first := Tick(exams, settings, permission, now, parse, store);
            var second := Tick(exams', settings', permission', now', parse, first.store);
            forall i, j :: 0 <= i < |first.emitted| && 0 <= j < |second.emitted| ==>
              first.emitted[i].tag != second.emitted[j].tag
  {
    var first := Tick(exams, settings, permission, now, parse, store);
    assert forall i :: 0 <= i < |first.emitted| ==> first.emitted[i].tag in Tags(first.emitted);
  }

  /** A rule that fires during an active check and whose key was absent gets its
      notification emitted in that check (by this exam, or by an earlier exam of the list
      with the same id). */
  lemma EmitsEveryNewFiring(exams: seq<Exam>, settings: Settings, now: int,
                            parse: DateParser, store: set<string>, e: Exam, t: Threshold)
    requires settings.enabled
    requires e in exams && Fires(e, t, settings, now, parse) && Key(e.id, t) !in store
    ensures var r := Tick(exams, settings, Granted, now, parse, store);
            exists i :: 0 <= i < |r.emitted| && r.emitted[i].tag == Key(e.id, t)
  {
    var r := Tick(exams, settings, Granted, now, parse, store);
    assert Covered(e, settings, now, parse, r.store);
    assert Key(e.id, t) in Tags(r.emitted);
  }

  /** The store only grows, and only by keys of exams in the list whose rules fired. */
  lemma StoreGrowsByFiredKeys(exams: seq<Exam>, settings: Settings, permission: Permission,
                              now: int, parse: DateParser, store: set<string>)
    ensures var r := Tick(exams, settings, permission, now, parse, store);
            && store <= r.store
            && forall k :: k in r.store && k !in store ==>
                 exists e :: e in exams && FiredKey(k, e, settings, now, parse)
  {
    var r := Tick(exams, settings, permission, now, parse, store);
    forall k | k in r.store && k !in store
      ensures exists e :: e in exams && FiredKey(k, e, settings, now, parse)
    {
      var i :| 0 <= i < |r.emitted| && r.emitted[i].tag == k;
      var e :| e in exams && FromExam(r.emitted[i], e, settings, now, parse);
      assert FiredKey(k, e, settings, now, parse);
    }
  }

  /** `k` is the key of a rule that fired for `e`. */
  predicate FiredKey(k: string, e: Exam, settings: Settings, now: int, parse: DateParser)
  {
    exists t :: Fires(e, t, settings, now, parse) && k == Key(e.id, t)
  }

  /** A check over exams that have all started (or whose start cannot be parsed) emits
      nothing and leaves the store unchanged. */
  lemma NothingForStartedExams(exams: seq<Exam>, settings: Settings, permission: Permission,
                               now: int, parse: DateParser, store: set<string>)
    requires forall e :: e in exams ==>
               SessionStart(e, parse).None? || SessionStart(e, parse).value <= now
    ensures Tick(exams, settings, permission, now, parse, store) == TickState([], store)
  {
    forall e, t | e in exams && Fires(e, t, settings, now, parse)
      ensures false
    {
      FiresOnlyAhead(e, t, settings, now, parse);
    }
    SweepQuiet(exams, settings, now, parse, TickState([], store));
  }

  /** Sweeping a concatenation is sweeping the parts in turn. */
  lemma {:induction false} SweepConcat(a: seq<Exam>, b: seq<Exam>, settings: Settings,
                                       now: int, parse: DateParser, st: TickState)
    ensures Sweep(a + b, settings, now, parse, st)
              == Sweep(b, settings, now, parse, Sweep(a, settings, now, parse, st))
    decreases |a|
  {
    if a != [] {
      assert (a + b)[1..] == a[1..] + b;
      SweepConcat(a[1..], b, settings, now, parse,
                  ExamStep(st, a[0], settings, now, parse));
    } else {
      assert a + b == b;
    }
  }

  /** An exam whose start cannot be parsed is skipped without affecting the others. */
  lemma UnparsableSkipped(a: seq<Exam>, e: Exam, b: seq<Exam>, settings: Settings,
                          permission: Permission, now: int, parse: DateParser,
                          store: set<string>)
    requires SessionStart(e, parse).None?
    ensures Tick(a + [e] + b, settings, permission, now, parse, store)
              == Tick(a + b, settings, permission, now, parse, store)
  {
    if settings.enabled && permission == Granted {
      SweepSkips(a, e, b, settings, now, parse, TickState([], store));
    }
  }

  /** The sweep-level statement of `UnparsableSkipped`. */
  lemma SweepSkips(a: seq<Exam>, e: Exam, b: seq<Exam>, settings: Settings, now: int,
                   parse: DateParser, st: TickState)
    requires SessionStart(e, parse).None?
    ensures Sweep(a + [e] + b, settings, now, parse, st) == Sweep(a + b, settings, now, parse, st)
  {
    var sa := Sweep(a, settings, now, parse, st);
    var eb := [e] + b;
    calc {
      Sweep(a + [e] + b, settings, now, parse, st);
      { assert a + [e] + b == a + eb; }
      Sweep(a + eb, settings, now, parse, st);
      { SweepConcat(a, eb, settings, now, parse, st); }
      Sweep(eb, settings, now, parse, sa);
      { SkipOne(e, b, settings, now, parse, sa); }
      Sweep(b, settings, now, parse, sa);
      { SweepConcat(a, b, settings, now, parse, st); }
      Sweep(a + b, settings, now, parse, st);
    }
  }

  /** The step of `UnparsableSkipped` at the unparsable exam itself. */
  lemma SkipOne(e: Exam, b: seq<Exam>, settings: Settings, now: int, parse: DateParser,
                st: TickState)
    requires SessionStart(e, parse).None?
    ensures Sweep([e] + b, settings, now, parse, st) == Sweep(b, settings, now, parse, st)
  {
    ExamStepQuiet(st, e, settings, now, parse);
    assert ([e] + b)[1..] == b;
  }

  /** The one-day reminder is not due 25 hours ahead (two days rounded up) but is 20 hours
      ahead, and it fires once over repeated checks at that time. */
  lemma OneDayCrossing(e: Exam, settings: Settings, now: int, parse: DateParser,
                       store: set<string>)
    requires settings.enabled && settings.oneDayBefore
    requires SessionStart(e, parse) == Some(now + 20 * MsPerHour)
    requires Key(e.id, OneDay) !in store
    ensures !RuleHolds(OneDay, 25 * MsPerHour)
    ensures var first := Tick([e], settings, Granted, now, parse, store);
            && Key(e.id, OneDay) in first.store
            && (exists i :: 0 <= i < |first.emitted| && first.emitted[i].tag == Key(e.id, OneDay))
            && Tick([e], settings, Granted, now, parse, first.store).emitted == []
  {
    RuleIsWindow(OneDay, 25 * MsPerHour);
    RuleIsWindow(OneDay, 20 * MsPerHour);
    EmitsEveryNewFiring([e], settings, now, parse, store, e, OneDay);
    TickIdempotent([e], settings, Granted, now, parse, store);
  }
}
