/** The French rendering of the time left before a departure
    (`_timedelta_to_str`). A Python `timedelta` is normalised: a whole number
    of days, which may be negative, and a number of seconds in `[0, 86400)`. */
module Delay {
  import opened Text

  const SecondsPerDay := 86400

  datatype Duration = Duration(days: int, seconds: int)

  /** A normalised duration; microseconds are not part of the model. */
  type TimeDelta = d: Duration | 0 <= d.seconds < SecondsPerDay witness Duration(0, 0)

  /** Hours, minutes and seconds within the day. */
  datatype ClockTime = ClockTime(hours: nat, minutes: nat, seconds: nat)

  /** `divmod(seconds, 3600)`, then `divmod` of the remainder by 60. */
  function Split(seconds: int): (c: ClockTime)
    requires 0 <= seconds < SecondsPerDay
    ensures c.hours < 24 && c.minutes < 60 && c.seconds < 60
    ensures c.hours * 3600 + c.minutes * 60 + c.seconds == seconds
  {
    var rem := seconds % 3600;
    ClockTime(seconds / 3600, rem / 60, rem % 60)
  }

  /** The bounds and the sum determine the split: there is one way only to
      write a time of day as hours, minutes and seconds. */
  lemma SplitUnique(seconds: int, c: ClockTime)
    requires 0 <= seconds < SecondsPerDay
    requires c.minutes < 60 && c.seconds < 60
    requires c.hours * 3600 + c.minutes * 60 + c.seconds == seconds
    ensures c == Split(seconds)
  {
    var rem := c.minutes * 60 + c.seconds;
    assert 0 <= rem < 3600;
    assert seconds / 3600 == c.hours && seconds % 3600 == rem;
    assert rem / 60 == c.minutes && rem % 60 == c.seconds;
  }

  /** The four forms of the text, first match wins, stated on the raw
      seconds of the duration. */
  lemma TimedeltaToStrCases(t: TimeDelta)
    ensures t.days > 0 ==> TimedeltaToStr(t) == NatToString(t.days) + " jours"
    ensures t.days <= 0 && t.seconds >= 3600 && t.seconds % 3600 < 60 ==>
      TimedeltaToStr(t) == NatToString(t.seconds / 3600) + " heures"
    ensures t.days <= 0 && t.seconds >= 3600 && t.seconds % 3600 >= 60 ==>
      TimedeltaToStr(t) == NatToString(t.seconds / 3600) + " heures et "
                           + NatToString(t.seconds % 3600 / 60) + " minutes"
    ensures t.days <= 0 && t.seconds < 60 ==> TimedeltaToStr(t) == "moins d'une minute"
    ensures t.days <= 0 && 60 <= t.seconds < 3600 ==>
      TimedeltaToStr(t) == NatToString(t.seconds / 60) + " minutes"
  {
  }

  /** The leftover seconds never show: two durations alike down to the
      minute are rendered alike. */
  lemma SecondsNotShown(a: TimeDelta, b: TimeDelta)
    requires a.days == b.days && a.seconds / 60 == b.seconds / 60
    ensures TimedeltaToStr(a) == TimedeltaToStr(b)
  {
    var m := a.seconds / 60;
    assert a.seconds / 3600 == m / 60 && a.seconds % 3600 / 60 == m % 60;
    assert b.seconds / 3600 == m / 60 && b.seconds % 3600 / 60 == m % 60;
  }

  /** With no whole day ahead (a negative day count is a departure in the
      past) only the seconds field decides the text. */
  lemma PastDaysNotShown(a: TimeDelta, b: TimeDelta)
    requires a.days <= 0 && b.days <= 0 && a.seconds == b.seconds
    ensures TimedeltaToStr(a) == TimedeltaToStr(b)
  {
  }

  /** What the text tells the listener, read off the raw duration: a number
      of days, hours and minutes, less than a minute, or minutes. */
  datatype Reading = Days(days: nat) | HoursMinutes(hours: nat, minutes: nat) | UnderAMinute | Minutes(minutes: nat)

  function ReadingOf(t: TimeDelta): Reading
  {
    if t.days > 0 then Days(t.days)
    else if t.seconds >= 3600 then HoursMinutes(t.seconds / 3600, t.seconds % 3600 / 60)
    else if t.seconds < 60 then UnderAMinute
    else Minutes(t.seconds / 60)
  }

  /** The French sentence for a reading. */
  function Render(r: Reading): string
  {
    match r
    case Days(d) => NatToString(d) + " jours"
    case HoursMinutes(h, m) =>
      NatToString(h) + " heures" + (if m > 0 then " et " + NatToString(m) + " minutes" else "")
    case UnderAMinute => "moins d'une minute"
    case Minutes(m) => NatToString(m) + " minutes"
  }

  /** `_timedelta_to_str`: the text is the rendering of the reading taken
      straight from the raw days and seconds. */
  function TimedeltaToStr(t: TimeDelta): (r: string)
    ensures r == Render(ReadingOf(t))
  {
    var c := Split(t.seconds);
    if t.days > 0 then
      NatToString(t.days) + " jours"
    else if c.hours > 0 then
      NatToString(c.hours) + " heures"
        + (if c.minutes > 0 then " et " + NatToString(c.minutes) + " minutes" else "")
    else if c.minutes < 1 then
      "moins d'une minute"
    else
      NatToString(c.minutes) + " minutes"
  }

  /** A number in front of a text that does not start with a digit can be
      read back, and so can the text. */
  lemma NumberThenText(x: nat, y: nat, r1: string, r2: string)
    requires NatToString(x) + r1 == NatToString(y) + r2
    requires r1 != [] && !IsDigit(r1[0]) && r2 != [] && !IsDigit(r2[0])
    ensures x == y && r1 == r2
  {
    var a, b := NatToString(x), NatToString(y);
    assert (a + r1)[|a|] == r1[0] && (b + r2)[|b|] == r2[0];
    assert |a| == |b|;
    assert a == (a + r1)[..|a|] && b == (b + r2)[..|b|];
    NatToStringInjective(x, y);
    assert r1 == (a + r1)[|a|..] && r2 == (b + r2)[|b|..];
  }

  /** The text after the leading number of a reading that has one. */
  function Tail(r: Reading): string
    requires !r.UnderAMinute?
  {
    match r
    case Days(_) => " jours"
    case HoursMinutes(_, m) => " heures" + (if m > 0 then " et " + NatToString(m) + " minutes" else "")
    case Minutes(_) => " minutes"
  }

  function Lead(r: Reading): nat
    requires !r.UnderAMinute?
  {
    match r
    case Days(d) => d
    case HoursMinutes(h, _) => h
    case Minutes(m) => m
  }

  lemma RenderSplit(r: Reading)
    requires !r.UnderAMinute?
    ensures Render(r) == NatToString(Lead(r)) + Tail(r)
    ensures |Tail(r)| >= 2 && Tail(r)[0] == ' '
    ensures Tail(r)[1] == match r case Days(_) => 'j' case HoursMinutes(_, _) => 'h' case Minutes(_) => 'm'
  {
  }

  /** Only "moins d'une minute" does not start with a digit. */
  lemma RenderStartsWithDigit(r: Reading)
    ensures IsDigit(Render(r)[0]) <==> !r.UnderAMinute?
  {
    if !r.UnderAMinute? {
      RenderSplit(r);
      assert Render(r)[0] == NatToString(Lead(r))[0];
    }
  }

  /** The optional " et {m} minutes" part gives its minutes back. */
  lemma MinutesPartInjective(m1: nat, m2: nat)
    requires (if m1 > 0 then " et " + NatToString(m1) + " minutes" else "")
          == (if m2 > 0 then " et " + NatToString(m2) + " minutes" else "")
    ensures m1 == m2
  {
    if m1 > 0 && m2 > 0 {
      var t1, t2 := " et " + NatToString(m1) + " minutes", " et " + NatToString(m2) + " minutes";
      assert NatToString(m1) + " minutes" == t1[4..];
      assert NatToString(m2) + " minutes" == t2[4..];
      NumberThenText(m1, m2, " minutes", " minutes");
    }
  }

  /** Different readings give different texts. */
  lemma RenderInjective(r1: Reading, r2: Reading)
    requires Render(r1) == Render(r2)
    ensures r1 == r2
  {
    RenderStartsWithDigit(r1);
    RenderStartsWithDigit(r2);
    if !r1.UnderAMinute? && !r2.UnderAMinute? {
      RenderSplit(r1);
      RenderSplit(r2);
      NumberThenText(Lead(r1), Lead(r2), Tail(r1), Tail(r2));
      assert Tail(r1)[1] == Tail(r2)[1];
      if r1.HoursMinutes? {
        assert Tail(r1) == " heures" + Tail(r1)[7..] && Tail(r2) == " heures" + Tail(r2)[7..];
        MinutesPartInjective(r1.minutes, r2.minutes);
      }
    }
  }

  /** Two durations get the same text exactly when they read the same: the
      text loses nothing of the reading and adds nothing to it. */
  lemma SameTextIffSameReading(a: TimeDelta, b: TimeDelta)
    ensures TimedeltaToStr(a) == TimedeltaToStr(b) <==> ReadingOf(a) == ReadingOf(b)
  {
    if TimedeltaToStr(a) == TimedeltaToStr(b) {
      RenderInjective(ReadingOf(a), ReadingOf(b));
    }
  }

  /** A departure 400 seconds in the past is `timedelta(-1, 86000)`, and the
      text then reads as almost a full day ahead. */
  lemma PastDepartureExample()
    ensures TimedeltaToStr(Duration(-1, 86000)) == "23 heures et 53 minutes"
  {
    assert Split(86000) == ClockTime(23, 53, 20);
    assert TimedeltaToStr(Duration(-1, 86000))
        == NatToString(23) + " heures" + (" et " + NatToString(53) + " minutes");
    assert NatToString(23) == "23";
    assert NatToString(53) == "53";
  }

  lemma TimedeltaToStrExamples()
    ensures TimedeltaToStr(Duration(0, 2 * 3600 + 15 * 60)) == "2 heures et 15 minutes"
    ensures TimedeltaToStr(Duration(0, 0)) == "moins d'une minute"
    ensures TimedeltaToStr(Duration(3, 4 * 3600 + 30 * 60)) == "3 jours"
    ensures TimedeltaToStr(Duration(0, 3600 + 59)) == "1 heures"
    ensures TimedeltaToStr(Duration(0, 7 * 60 + 30)) == "7 minutes"
  {
    assert Split(2 * 3600 + 15 * 60) == ClockTime(2, 15, 0);
    assert TimedeltaToStr(Duration(0, 2 * 3600 + 15 * 60))
        == NatToString(2) + " heures" + (" et " + NatToString(15) + " minutes");
    assert NatToString(2) == "2";
    assert NatToString(15) == "15";
    assert Split(0) == ClockTime(0, 0, 0);
    assert TimedeltaToStr(Duration(3, 4 * 3600 + 30 * 60)) == NatToString(3) + " jours";
    assert NatToString(3) == "3";
    assert Split(3600 + 59) == ClockTime(1, 0, 59);
    assert TimedeltaToStr(Duration(0, 3600 + 59)) == NatToString(1) + " heures" + "";
    assert NatToString(1) == "1";
    assert Split(7 * 60 + 30) == ClockTime(0, 7, 30);
    assert TimedeltaToStr(Duration(0, 7 * 60 + 30)) == NatToString(7) + " minutes";
    assert NatToString(7) == "7";
  }
}
