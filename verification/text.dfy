/** The two pieces of string handling the core relies on: taking the start of a
    `"HH:MM - HH:MM"` time range (`time.split(' - ')[0]`), and rendering an exam id as
    decimal text inside a reminder key (`${exam.id}`). */
module Text {

  /** The separator between the start and the end of a time range. */
  const Separator: string := " - "

  /** True when the separator occurs in `s` starting at index `i`. */
  predicate SeparatorAt(s: string, i: int)
  {
    0 <= i && i + |Separator| <= |s| && s[i..i + |Separator|] == Separator
  }

  /** The index of the first separator at or after `from`, or `|s|` when there is none. */
  function FirstSeparator(s: string, from: nat): (i: nat)
    requires from <= |s|
    ensures from <= i <= |s|
    ensures i < |s| ==> SeparatorAt(s, i)
    ensures forall j :: from <= j < i ==> !SeparatorAt(s, j)
    decreases |s| - from
  {
    if from == |s| || SeparatorAt(s, from) then from else FirstSeparator(s, from + 1)
  }

  /** The first field of `time.split(' - ')`: the text before the first separator, or the
      whole string when the separator does not occur. The contract characterises that
      field completely: it is a prefix of `time`, no separator starts inside it, and when
      it is shorter than `time` a separator follows it immediately. */
  function StartTime(time: string): (r: string)
    ensures r <= time
    ensures forall j :: 0 <= j < |r| ==> !SeparatorAt(time, j)
    ensures |r| < |time| ==> SeparatorAt(time, |r|)
  {
    time[..FirstSeparator(time, 0)]
  }

  /** A time without a separator is its own start time, as for the single `"HH:MM"`
      times of the schedule. */
  lemma StartTimeWithoutSeparator(time: string)
    requires forall j :: 0 <= j < |time| ==> !SeparatorAt(time, j)
    ensures StartTime(time) == time
  {
  }

  /** A range `start + " - " + rest` whose start contains no separator yields `start`. */
  lemma StartTimeOfRange(start: string, rest: string)
    requires forall j :: 0 <= j < |start| ==> !SeparatorAt(start + Separator + rest, j)
    ensures StartTime(start + Separator + rest) == start
  {
    var time := start + Separator + rest;
    assert time[|start|..|start| + |Separator|] == Separator;
    assert SeparatorAt(time, |start|);
    var r := StartTime(time);
    assert |r| <= |start|;
    assert time[..|start|] == start;
  }

  /** The decimal digit for `d`. */
  function DigitChar(d: int): (c: char)
    requires 0 <= d < 10
    ensures '0' <= c <= '9'
  {
    "0123456789"[d]
  }

  /** Decimal text of a natural number, most significant digit first, no leading zeros. */
  function NatText(n: nat): (r: string)
    ensures 1 <= |r|
    ensures forall i :: 0 <= i < |r| ==> '0' <= r[i] <= '9'
    ensures |r| == 1 <==> n < 10
    decreases n
  {
    if n < 10 then [DigitChar(n)] else NatText(n / 10) + [DigitChar(n % 10)]
  }

  /** `DigitChar` is injective. */
  lemma DigitCharInjective(a: int, b: int)
    requires 0 <= a < 10 && 0 <= b < 10
    ensures DigitChar(a) == DigitChar(b) ==> a == b
  {
  }

  /** Distinct naturals have distinct decimal texts. */
  lemma {:induction false} NatTextInjective(a: nat, b: nat)
    ensures NatText(a) == NatText(b) ==> a == b
    decreases a
  {
    if NatText(a) == NatText(b) {
      if a < 10 || b < 10 {
        DigitCharInjective(a, b);
      } else {
        var ta, tb := NatText(a), NatText(b);
        assert ta[|ta| - 1] == DigitChar(a % 10) && tb[|tb| - 1] == DigitChar(b % 10);
        DigitCharInjective(a % 10, b % 10);
        assert ta[..|ta| - 1] == NatText(a / 10);
        assert tb[..|tb| - 1] == NatText(b / 10);
        NatTextInjective(a / 10, b / 10);
      }
    }
  }

  /** The decimal text of an integer exam id: a minus sign before the digits of a negative
      number. This is how a JavaScript template literal renders integers of magnitude below
      10^21; larger ones it writes in exponent form. */
  function IdText(id: int): (r: string)
    ensures 1 <= |r|
    ensures r[0] == '-' <==> id < 0
    ensures forall i :: 0 < i < |r| ==> '0' <= r[i] <= '9'
  {
    if id < 0 then "-" + NatText(-id) else NatText(id)
  }

  /** Distinct ids have distinct texts. */
  lemma IdTextInjective(a: int, b: int)
    ensures IdText(a) == IdText(b) ==> a == b
  {
    if IdText(a) == IdText(b) {
      if a < 0 {
        assert IdText(a)[1..] == NatText(-a) && IdText(b)[1..] == NatText(-b);
        NatTextInjective(-a, -b);
      } else {
        NatTextInjective(a, b);
      }
    }
  }
}
