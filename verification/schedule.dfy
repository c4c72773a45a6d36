/** The schedule page's own logic: choosing the next exam for the countdown (filter the
    exams starting after `now`, sort them by start with the engine's stable sort, take the
    head) and the two statistics, remaining exams and total exams. The page parses the
    whole `time` field, not the start of a range. */
module Schedule {
  import opened Wrappers
  import opened Exams
  import ExamCard

  /** An upcoming exam together with its parsed start. */
  datatype Timed = Timed(exam: Exam, start: int)

  /** `new Date(`${date}T${time}`) > now`: the card's comparison applied to the page's
      instant, false on an Invalid Date. */
  predicate IsUpcoming(e: Exam, parse: DateParser, now: int)
  {
    ExamCard.IsUpcoming(ScheduledStart(e, parse), now)
  }

  /** The start of an upcoming exam. */
  function StartOf(e: Exam, parse: DateParser, now: int): int
    requires IsUpcoming(e, parse, now)
  {
    ScheduledStart(e, parse).value
  }

  /** `exams.filter(...)`: the upcoming exams in input order, each paired with its start. */
  function UpcomingExams(exams: seq<Exam>, parse: DateParser, now: int): (u: seq<Timed>)
    ensures |u| <= |exams|
    ensures forall k :: 0 <= k < |u| ==>
              u[k].exam in exams && IsUpcoming(u[k].exam, parse, now)
              && u[k].start == StartOf(u[k].exam, parse, now)
    ensures forall i :: 0 <= i < |exams| && IsUpcoming(exams[i], parse, now) ==>
              Timed(exams[i], StartOf(exams[i], parse, now)) in u
    ensures |u| == 0 <==> forall i :: 0 <= i < |exams| ==> !IsUpcoming(exams[i], parse, now)
    decreases |exams|
  {
    if exams == [] then []
    else
      var init, last := exams[..|exams| - 1], exams[|exams| - 1];
      assert forall i :: 0 <= i < |init| ==> init[i] == exams[i];
      UpcomingExams(init, parse, now)
        + (if IsUpcoming(last, parse, now) then [Timed(last, StartOf(last, parse, now))] else [])
  }

  /** Non-decreasing by start. */
  predicate Sorted(s: seq<Timed>)
  {
    forall i, j :: 0 <= i < j < |s| ==> s[i].start <= s[j].start
  }

  /** Inserts `x`, which comes after every element of `s` in input order, behind every
      element whose start is not later than its own: equal starts keep input order. */
  function InsertLast(x: Timed, s: seq<Timed>): (r: seq<Timed>)
    ensures |r| == |s| + 1
    ensures multiset(r) == multiset(s) + multiset{x}
    decreases |s|
  {
    if s == [] then [x]
    else if s[|s| - 1].start <= x.start then s + [x]
    else
      assert s == s[..|s| - 1] + [s[|s| - 1]];
      InsertLast(x, s[..|s| - 1]) + [s[|s| - 1]]
  }

  /** Every element of a permutation of `s` plus `x` is `x` or an element of `s`. */
  lemma InsertLastMembers(x: Timed, s: seq<Timed>, i: int)
    requires 0 <= i < |InsertLast(x, s)|
    ensures InsertLast(x, s)[i] == x || InsertLast(x, s)[i] in s
  {
    var r := InsertLast(x, s);
    assert r[i] in multiset(r);
  }

  /** Insertion keeps a sorted list sorted. */
  lemma {:induction false} InsertLastSorted(x: Timed, s: seq<Timed>)
    requires Sorted(s)
    ensures Sorted(InsertLast(x, s))
    decreases |s|
  {
    if s != [] && s[|s| - 1].start > x.start {
      var init, last := s[..|s| - 1], s[|s| - 1];
      InsertLastSorted(x, init);
      var ri := InsertLast(x, init);
      forall i | 0 <= i < |ri|
        ensures ri[i].start <= last.start
      {
        InsertLastMembers(x, init, i);
      }
      assert InsertLast(x, s) == ri + [last];
    }
  }

  /** The head after insertion: `x` when it starts strictly before the current head,
      otherwise the current head stays in front. */
  lemma {:induction false} InsertLastHead(x: Timed, s: seq<Timed>)
    requires Sorted(s) && |s| > 0
    ensures InsertLast(x, s)[0] == (if x.start < s[0].start then x else s[0])
    decreases |s|
  {
    if s[|s| - 1].start > x.start && |s| > 1 {
      InsertLastHead(x, s[..|s| - 1]);
    }
  }

  /** The stable sort of the filtered list by ascending start (`dateA - dateB`). */
  function SortByStart(u: seq<Timed>): (r: seq<Timed>)
    ensures |r| == |u|
    decreases |u|
  {
    if u == [] then [] else InsertLast(u[|u| - 1], SortByStart(u[..|u| - 1]))
  }

  /** The sort returns a sorted permutation of its input. */
  lemma {:induction false} SortByStartSorts(u: seq<Timed>)
    ensures Sorted(SortByStart(u))
    ensures multiset(SortByStart(u)) == multiset(u)
    decreases |u|
  {
    if u != [] {
      var init, last := u[..|u| - 1], u[|u| - 1];
      assert u == init + [last];
      SortByStartSorts(init);
      InsertLastSorted(last, SortByStart(init));
    }
  }

  /** `i` is the exam a stable sort puts first: it is upcoming, no upcoming exam starts
      earlier, and every upcoming exam before it in the list starts strictly later. */
  predicate IsNextAt(exams: seq<Exam>, parse: DateParser, now: int, i: int)
  {
    && 0 <= i < |exams|
    && IsUpcoming(exams[i], parse, now)
    && (forall j :: 0 <= j < |exams| && IsUpcoming(exams[j], parse, now) ==>
          StartOf(exams[i], parse, now) <= StartOf(exams[j], parse, now))
    && (forall j :: 0 <= j < i && IsUpcoming(exams[j], parse, now) ==>
          StartOf(exams[i], parse, now) < StartOf(exams[j], parse, now))
  }

  /** `getNextExam`: the head of the sorted upcoming exams, `None` (`undefined`) when
      there are none. */
  function NextExam(exams: seq<Exam>, parse: DateParser, now: int): (r: Option<Exam>)
    ensures match r
              case None => forall i :: 0 <= i < |exams| ==> !IsUpcoming(exams[i], parse, now)
              case Some(e) => exists i :: IsNextAt(exams, parse, now, i) && exams[i] == e
  {
    var sorted := SortByStart(UpcomingExams(exams, parse, now));
    if |sorted| == 0 then None
    else
      HeadIsNext(exams, parse, now);
      Some(sorted[0].exam)
  }

  /** Appending an exam to the list either keeps the next position or, when the new exam
      is upcoming and starts strictly earlier, moves it to the new exam. */
  lemma NextAtExtends(exams: seq<Exam>, parse: DateParser, now: int, k: int)
    requires |exams| > 0 && IsNextAt(exams[..|exams| - 1], parse, now, k)
    ensures var last := exams[|exams| - 1];
            if IsUpcoming(last, parse, now)
               && StartOf(last, parse, now) < StartOf(exams[k], parse, now)
            then IsNextAt(exams, parse, now, |exams| - 1)
            else IsNextAt(exams, parse, now, k)
  {
    var init := exams[..|exams| - 1];
    assert forall j :: 0 <= j < |init| ==> init[j] == exams[j];
  }

  /** With no earlier upcoming exam, an upcoming last exam is the next one. */
  lemma NextAtAlone(exams: seq<Exam>, parse: DateParser, now: int)
    requires |exams| > 0 && IsUpcoming(exams[|exams| - 1], parse, now)
    requires forall j :: 0 <= j < |exams| - 1 ==> !IsUpcoming(exams[j], parse, now)
    ensures IsNextAt(exams, parse, now, |exams| - 1)
  {
  }

  /** The head of the sorted upcoming exams is the exam at the position `IsNextAt`
      describes. */
  lemma HeadIsNext(exams: seq<Exam>, parse: DateParser, now: int)
    requires exists i :: 0 <= i < |exams| && IsUpcoming(exams[i], parse, now)
    ensures |SortByStart(UpcomingExams(exams, parse, now))| > 0
    ensures exists i :: IsNextAt(exams, parse, now, i) &&
              SortByStart(UpcomingExams(exams, parse, now))[0]
                == Timed(exams[i], StartOf(exams[i], parse, now))
  {
    assert |UpcomingExams(exams, parse, now)| > 0;
    var i := HeadIndex(exams, parse, now);
  }

  /** Appending an exam that is not upcoming leaves the filtered list unchanged. */
  lemma UpcomingSkipsLast(exams: seq<Exam>, parse: DateParser, now: int)
    requires |exams| > 0
    ensures !IsUpcoming(exams[|exams| - 1], parse, now) ==>
              UpcomingExams(exams, parse, now) == UpcomingExams(exams[..|exams| - 1], parse, now)
  {
  }

  /** Appending an upcoming exam appends it to the filtered list, and the sort inserts it
      into the sorted earlier ones. */
  lemma UpcomingTakesLast(exams: seq<Exam>, parse: DateParser, now: int)
    requires |exams| > 0 && IsUpcoming(exams[|exams| - 1], parse, now)
    ensures var last := exams[|exams| - 1];
            var tl := Timed(last, StartOf(last, parse, now));
            && UpcomingExams(exams, parse, now)
                 == UpcomingExams(exams[..|exams| - 1], parse, now) + [tl]
            && SortByStart(UpcomingExams(exams, parse, now))
              == InsertLast(tl, SortByStart(UpcomingExams(exams[..|exams| - 1], parse, now)))
  {
    var last := exams[|exams| - 1];
    var tl := Timed(last, StartOf(last, parse, now));
    var ui := UpcomingExams(exams[..|exams| - 1], parse, now);
    var u := UpcomingExams(exams, parse, now);
    assert u == ui + [tl];
    assert u[..|u| - 1] == ui;
  }

  /** The head of the sorted upcoming exams exists and is the exam at position `k`,
      which is the position `IsNextAt` describes. */
  predicate HeadAt(exams: seq<Exam>, parse: DateParser, now: int, k: int)
  {
    && IsNextAt(exams, parse, now, k)
    && |SortByStart(UpcomingExams(exams, parse, now))| > 0
    && SortByStart(UpcomingExams(exams, parse, now))[0]
         == Timed(exams[k], StartOf(exams[k], parse, now))
  }

  /** Inductive step when the appended exam is not upcoming. */
  lemma HeadStepSkip(exams: seq<Exam>, parse: DateParser, now: int, k0: int)
    requires |exams| > 0 && !IsUpcoming(exams[|exams| - 1], parse, now)
    requires HeadAt(exams[..|exams| - 1], parse, now, k0)
    ensures HeadAt(exams, parse, now, k0)
  {
    UpcomingSkipsLast(exams, parse, now);
    NextAtExtends(exams, parse, now, k0);
  }

  /** Inductive step when the appended exam is upcoming and earlier ones exist. */
  lemma HeadStepTake(exams: seq<Exam>, parse: DateParser, now: int, k0: int) returns (k: int)
    requires |exams| > 0 && IsUpcoming(exams[|exams| - 1], parse, now)
    requires HeadAt(exams[..|exams| - 1], parse, now, k0)
    ensures HeadAt(exams, parse, now, k)
  {
    var n := |exams|;
    var last := exams[n - 1];
    var tl := Timed(last, StartOf(last, parse, now));
    UpcomingTakesLast(exams, parse, now);
    assert exams[..n - 1][k0] == exams[k0];
    SortByStartSorts(UpcomingExams(exams[..n - 1], parse, now));
    InsertLastHead(tl, SortByStart(UpcomingExams(exams[..n - 1], parse, now)));
    NextAtExtends(exams, parse, now, k0);
    k := if tl.start < StartOf(exams[k0], parse, now) then n - 1 else k0;
  }

  /** Inductive step when the appended exam is the only upcoming one. */
  lemma HeadStepAlone(exams: seq<Exam>, parse: DateParser, now: int)
    requires |exams| > 0 && IsUpcoming(exams[|exams| - 1], parse, now)
    requires |UpcomingExams(exams[..|exams| - 1], parse, now)| == 0
    ensures HeadAt(exams, parse, now, |exams| - 1)
  {
    var init := exams[..|exams| - 1];
    assert forall j :: 0 <= j < |init| ==> init[j] == exams[j];
    UpcomingTakesLast(exams, parse, now);
    NextAtAlone(exams, parse, now);
  }

  /** The position of the sorted head, found by induction on the list. */
  lemma {:induction false} HeadIndex(exams: seq<Exam>, parse: DateParser, now: int)
    returns (k: int)
    requires |UpcomingExams(exams, parse, now)| > 0
    ensures HeadAt(exams, parse, now, k)
    decreases |exams|
  {
    var n := |exams|;
    var init := exams[..n - 1];
    var last := exams[n - 1];
    if IsUpcoming(last, parse, now) {
      if |UpcomingExams(init, parse, now)| == 0 {
        HeadStepAlone(exams, parse, now);
        k := n - 1;
        assert HeadAt(exams, parse, now, k);
      } else {
        var k0 := HeadIndex(init, parse, now);
        k := HeadStepTake(exams, parse, now, k0);
        assert HeadAt(exams, parse, now, k);
      }
    } else {
      UpcomingSkipsLast(exams, parse, now);
      assert |UpcomingExams(init, parse, now)| > 0;
      var k0 := HeadIndex(init, parse, now);
      HeadStepSkip(exams, parse, now, k0);
      k := k0;
      assert HeadAt(exams, parse, now, k);
    }
  }

  /** At most one position satisfies `IsNextAt`: the choice among equal starts is fixed by
      input order. */
  lemma NextAtUnique(exams: seq<Exam>, parse: DateParser, now: int, i: int, k: int)
    requires IsNextAt(exams, parse, now, i) && IsNextAt(exams, parse, now, k)
    ensures i == k
  {
  }

  /** The indices of the exams that start after `now`. */
  function UpcomingIndices(exams: seq<Exam>, parse: DateParser, now: int): set<int>
  {
    set i | 0 <= i < |exams| && IsUpcoming(exams[i], parse, now)
  }

  /** The "remaining exams" statistic: the length of the filtered list, which is the
      number of exams starting after `now` and never more than the total. */
  function UpcomingCount(exams: seq<Exam>, parse: DateParser, now: int): (n: nat)
    ensures n == |UpcomingIndices(exams, parse, now)|
    ensures n <= TotalCount(exams)
  {
    CountIsIndexCount(exams, parse, now);
    |UpcomingExams(exams, parse, now)|
  }

  /** The "total exams" statistic. */
  function TotalCount(exams: seq<Exam>): nat
  {
    |exams|
  }

  /** Appending an exam adds its index to the upcoming indices exactly when it is
      upcoming. */
  lemma IndicesStep(exams: seq<Exam>, parse: DateParser, now: int)
    requires |exams| > 0
    ensures var before := UpcomingIndices(exams[..|exams| - 1], parse, now);
            UpcomingIndices(exams, parse, now)
              == if IsUpcoming(exams[|exams| - 1], parse, now) then before + {|exams| - 1}
                 else before
  {
    var init := exams[..|exams| - 1];
    assert forall j :: 0 <= j < |init| ==> init[j] == exams[j];
  }

  /** The filtered list has one entry per upcoming index. */
  lemma {:induction false} CountIsIndexCount(exams: seq<Exam>, parse: DateParser, now: int)
    ensures |UpcomingExams(exams, parse, now)| == |UpcomingIndices(exams, parse, now)|
    decreases |exams|
  {
    if exams == [] {
      assert UpcomingIndices(exams, parse, now) == {};
    } else {
      CountIsIndexCount(exams[..|exams| - 1], parse, now);
      CountStep(exams, parse, now);
    }
  }

  /** Appending an exam keeps the filtered list and the upcoming indices the same size. */
  lemma CountStep(exams: seq<Exam>, parse: DateParser, now: int)
    requires |exams| > 0
    requires var init := exams[..|exams| - 1];
             |UpcomingExams(init, parse, now)| == |UpcomingIndices(init, parse, now)|
    ensures |UpcomingExams(exams, parse, now)| == |UpcomingIndices(exams, parse, now)|
  {
    var n := |exams|;
    var init := exams[..n - 1];
    IndicesStep(exams, parse, now);
    var before, after := UpcomingIndices(init, parse, now), UpcomingIndices(exams, parse, now);
    if IsUpcoming(exams[n - 1], parse, now) {
      assert n - 1 !in before;
      assert |after| == |before| + 1;
      UpcomingTakesLast(exams, parse, now);
    } else {
      UpcomingSkipsLast(exams, parse, now);
    }
  }

  /** `idx` lists, in strictly increasing order, exactly the upcoming positions of
      `exams`, and `u` holds the exams at those positions with their starts. */
  predicate PositionsOf(exams: seq<Exam>, parse: DateParser, now: int, u: seq<Timed>,
                        idx: seq<int>)
  {
    && |idx| == |u|
    && (forall k :: 0 <= k < |idx| ==>
          && 0 <= idx[k] < |exams| && IsUpcoming(exams[idx[k]], parse, now)
          && u[k] == Timed(exams[idx[k]], StartOf(exams[idx[k]], parse, now)))
    && (forall k, l :: 0 <= k < l < |idx| ==> idx[k] < idx[l])
    && (forall i :: 0 <= i < |exams| && IsUpcoming(exams[i], parse, now) ==> i in idx)
  }

  /** Appending an exam that is not upcoming keeps the positions. */
  lemma PositionsSkip(exams: seq<Exam>, parse: DateParser, now: int, u: seq<Timed>,
                      idx: seq<int>)
    requires |exams| > 0 && !IsUpcoming(exams[|exams| - 1], parse, now)
    requires PositionsOf(exams[..|exams| - 1], parse, now, u, idx)
    ensures PositionsOf(exams, parse, now, u, idx)
  {
    var init := exams[..|exams| - 1];
    assert forall j :: 0 <= j < |init| ==> init[j] == exams[j];
  }

  /** Appending an upcoming exam appends its position. */
  lemma PositionsTake(exams: seq<Exam>, parse: DateParser, now: int, u: seq<Timed>,
                      idx: seq<int>)
    requires |exams| > 0 && IsUpcoming(exams[|exams| - 1], parse, now)
    requires PositionsOf(exams[..|exams| - 1], parse, now, u, idx)
    ensures var last := exams[|exams| - 1];
            PositionsOf(exams, parse, now, u + [Timed(last, StartOf(last, parse, now))],
                        idx + [|exams| - 1])
  {
    var init := exams[..|exams| - 1];
    assert forall j :: 0 <= j < |init| ==> init[j] == exams[j];
  }

  /** `filter` keeps input order: the filtered list is the upcoming exams read off at a
      strictly increasing sequence of positions, and that sequence holds every upcoming
      position. */
  lemma {:induction false} UpcomingPositions(exams: seq<Exam>, parse: DateParser, now: int)
    returns (idx: seq<int>)
    ensures PositionsOf(exams, parse, now, UpcomingExams(exams, parse, now), idx)
    decreases |exams|
  {
    if exams == [] {
      idx := [];
    } else {
      var n := |exams|;
      var init := exams[..n - 1];
      var prev := UpcomingPositions(init, parse, now);
      if IsUpcoming(exams[n - 1], parse, now) {
        UpcomingTakesLast(exams, parse, now);
        PositionsTake(exams, parse, now, UpcomingExams(init, parse, now), prev);
        idx := prev + [n - 1];
      } else {
        UpcomingSkipsLast(exams, parse, now);
        PositionsSkip(exams, parse, now, UpcomingExams(init, parse, now), prev);
        idx := prev;
      }
    }
  }

  /** An exam upcoming at a later instant is upcoming at an earlier one, so the
      remaining-exams count never grows as time passes. */
  lemma UpcomingCountNonIncreasing(exams: seq<Exam>, parse: DateParser, now1: int, now2: int)
    requires now1 <= now2
    ensures UpcomingIndices(exams, parse, now2) <= UpcomingIndices(exams, parse, now1)
    ensures UpcomingCount(exams, parse, now2) <= UpcomingCount(exams, parse, now1)
  {
    var later, earlier := UpcomingIndices(exams, parse, now2), UpcomingIndices(exams, parse, now1);
    assert later <= earlier;
    assert earlier == later + (earlier - later);
  }

  /** The page reads the clock for the next exam first and again, later, for the count.
      A positive count at the later read implies a next exam at the earlier one. */
  lemma CountLaterImpliesNext(exams: seq<Exam>, parse: DateParser, now1: int, now2: int)
    requires now1 <= now2
    ensures UpcomingCount(exams, parse, now2) > 0 ==> NextExam(exams, parse, now1).Some?
  {
    UpcomingCountNonIncreasing(exams, parse, now1, now2);
    NextExistsIffCount(exams, parse, now1);
  }

  /** The countdown section is shown exactly when the remaining-exams count is positive. */
  lemma NextExistsIffCount(exams: seq<Exam>, parse: DateParser, now: int)
    ensures NextExam(exams, parse, now).Some? <==> UpcomingCount(exams, parse, now) > 0
  {
  }
}
