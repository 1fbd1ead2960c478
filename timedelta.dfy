/** Python's `datetime.timedelta`, reduced to what the serialisers use. A
    duration is a whole number of microseconds (timedelta's resolution) of
    either sign; `ToString` is CPython's `timedelta.__str__`, and `Parse`
    reads its output back. */
module Timedelta {

  import opened Wrappers
  import opened Strings


  /** `timedelta(hours=h, minutes=m, seconds=s, milliseconds=ms)` for int
      arguments: each argument scaled to microseconds and summed, exactly. */
  function FromParts(hours: int, minutes: int, seconds: int, milliseconds: int): int {
    hours * 3_600_000_000 + minutes * 60_000_000 + seconds * 1_000_000 + milliseconds * 1000
  }

  /** The three fields CPython normalises a timedelta to: `days` of either
      sign, then `0 <= seconds < 86400` and `0 <= microseconds < 10^6`. */

  function Days(d: int): int {
    (d / 1_000_000) / 86_400
  }

  function Seconds(d: int): (s: nat)
    ensures s < 86_400
  {
    (d / 1_000_000) % 86_400
  }

  function Microseconds(d: int): (us: nat)
    ensures us < 1_000_000
  {
    d % 1_000_000
  }

  /** The normalised fields add back up to the duration. */
  lemma Normalised(d: int)
    ensures d == Days(d) * 86_400_000_000 + (Seconds(d) * 1_000_000 + Microseconds(d))
  {
  }

  /** Rendering */

  /** `"%d:%02d:%02d"` of the hours, minutes and seconds in a second of the
      day, split as CPython does with two `divmod`s by 60. */
  function ClockText(seconds: nat): string {
    var minutes, ss := seconds / 60, seconds % 60;
    var hh, mm := minutes / 60, minutes % 60;
    Decimal(hh) + (":" + (FixedDigits(mm, 2) + (":" + FixedDigits(ss, 2))))
  }

  /** `"%d day%s, "` before the clock, present only when there are days; the
      plural "s" is left off only when the day count is 1 or -1. */
  function DayPrefix(days: int): string {
    if days == 0 then ""
    else SignedDecimal(days) + (if days == 1 || days == -1 then " day, " else " days, ")
  }

  /** `".%06d"` of the microseconds, present only when they are not zero. */
  function FractionText(us: nat): string {
    if us == 0 then "" else "." + FixedDigits(us, 6)
  }

  /** `str(timedelta)`: `H:MM:SS`, then `.ffffff` only when the microsecond
      field is non-zero, after a `D day(s), ` prefix only when the day field is
      non-zero (so a negative duration reads `-1 day, 23:59:59.500000`). The
      text starts with a minus sign exactly when the duration is negative. */
  function ToString(d: int): (s: string)
    ensures |s| > 0 && (s[0] == '-' <==> d < 0)
  {
    var s := DayPrefix(Days(d)) + (ClockText(Seconds(d)) + FractionText(Microseconds(d)));
    LeadingMinus(d, s);
    s
  }

  /** Only a negative duration has a negative day field, and only that field
      is written with a sign; every other text starts with a digit. */
  lemma LeadingMinus(d: int, s: string)
    requires s == DayPrefix(Days(d)) + (ClockText(Seconds(d)) + FractionText(Microseconds(d)))
    ensures |s| > 0 && (s[0] == '-' <==> d < 0)
  {
    var days := Days(d);
    assert days < 0 <==> d < 0;
    var clock := ClockText(Seconds(d));
    DecimalDigits(Seconds(d) / 60 / 60);
    assert IsDigit(clock[0]);
    if days == 0 {
      assert s[0] == clock[0];
    } else {
      DecimalDigits(if days < 0 then -days else days);
      assert s[0] == SignedDecimal(days)[0];
    }
  }

  /** A character that is neither a digit nor found in the fixed parts of
      the rendering (`:`, `.`, `-` and the words of the day prefix). */
  predicate Foreign(c: char) {
    !IsDigit(c) && c !in ":.- dayds,"
  }

  lemma ForeignNotInDigits(s: string, c: char)
    requires AllDigits(s) && Foreign(c)
    ensures c !in s
  {
  }

  /** The text of a duration holds none of the characters the serialisers
      use as separators: no line break and no `>`, so it can stand on a line
      of its own and before ` --> `. */
  lemma {:induction false} ToStringAvoids(d: int, c: char)
    requires Foreign(c)
    ensures c !in ToString(d)
  {
    var days, seconds, us := Days(d), Seconds(d), Microseconds(d);
    var minutes := seconds / 60;
    DecimalDigits(minutes / 60);
    ForeignNotInDigits(Decimal(minutes / 60), c);
    FixedDigitsValue(minutes % 60, 2);
    ForeignNotInDigits(FixedDigits(minutes % 60, 2), c);
    FixedDigitsValue(seconds % 60, 2);
    ForeignNotInDigits(FixedDigits(seconds % 60, 2), c);
    FixedDigitsValue(us, 6);
    ForeignNotInDigits(FixedDigits(us, 6), c);
    DecimalDigits(if days < 0 then -days else days);
    ForeignNotInDigits(Decimal(if days < 0 then -days else days), c);
    assert c !in DayPrefix(days);
    assert c !in ClockText(seconds);
    assert c !in FractionText(us);
  }

  lemma ToStringOneLine(d: int)
    ensures '\n' !in ToString(d) && '>' !in ToString(d)
  {
    ToStringAvoids(d, '\n');
    ToStringAvoids(d, '>');
  }

  /** Parsing, by position */

  /** Reads nothing, or `.ffffff`: the microseconds and the position after them. */
  function ParseFractionAt(s: string, i: nat): Option<(nat, nat)> {
    if i < |s| && s[i] == '.' then ParseFixedAt(s, i + 1, 6) else Some((0, i))
  }

  /** Reads `H:MM:SS` or `H:MM:SS.ffffff` at position `i`: the microseconds
      it denotes and the position after it. */
  function ParseClockAt(s: string, i: nat): Option<(int, nat)> {
    var hh :- ParseNatAt(s, i);
    var i1 :- SkipAt(s, hh.1, ':');
    var mm :- ParseFixedAt(s, i1, 2);
    var i2 :- SkipAt(s, mm.1, ':');
    var ss :- ParseFixedAt(s, i2, 2);
    var us :- ParseFractionAt(s, ss.1);
    Some(((hh.0 * 3600 + mm.0 * 60 + ss.0) * 1_000_000 + us.0, us.1))
  }

  /** Reads a leading `D day, ` or `D days, ` at position `i`: the days and
      the position where the clock starts. A text without one has no days. */
  function SplitDaysAt(s: string, i: nat): (int, nat) {
    match ParseIntAt(s, i)
    case None => (0, i)
    case Some((days, j)) =>
      if At(s, j, " day, ") then (days, j + 6)
      else if At(s, j, " days, ") then (days, j + 7)
      else (0, i)
  }

  /** Reads a duration written as `ToString` writes it, at position `i`: its
      value and the position after it. */
  function ParseAt(s: string, i: nat): Option<(int, nat)> {
    var split := SplitDaysAt(s, i);
    var t :- ParseClockAt(s, split.1);
    Some((split.0 * 86_400_000_000 + t.0, t.1))
  }

  /** Reads a whole text as a duration. */
  function Parse(s: string): Option<int> {
    var r :- ParseAt(s, 0);
    if r.1 == |s| then Some(r.0) else None
  }

  /** Reading back what the renderer writes */

  lemma ParseFractionText(s: string, i: nat, us: nat, e: nat)
    requires us < 1_000_000
    requires At(s, i, FractionText(us)) && e == i + |FractionText(us)|
    requires e >= |s| || s[e] != '.'
    ensures ParseFractionAt(s, i) == Some((us, e))
  {
    if us != 0 {
      assert Pow10(6) == 1_000_000;
      AtSplit(s, i, ".", FixedDigits(us, 6));
      AtHead(s, i, ".");
      ParseFixedDigits(s, i + 1, us, 6);
    }
  }

  /** ParseClockAt, step by step: `p1` to `p5` are the positions after the
      hours, the first colon, the minutes, the second colon and the seconds. */
  lemma ParseClockSteps(s: string, i: nat, hh: nat, mm: nat, ss: nat, us: nat,
                        p1: nat, p2: nat, p3: nat, p4: nat, p5: nat, e: nat, total: int)
    requires ParseNatAt(s, i) == Some((hh, p1)) && SkipAt(s, p1, ':') == Some(p2)
    requires ParseFixedAt(s, p2, 2) == Some((mm, p3)) && SkipAt(s, p3, ':') == Some(p4)
    requires ParseFixedAt(s, p4, 2) == Some((ss, p5))
    requires ParseFractionAt(s, p5) == Some((us, e))
    requires total == (hh * 3600 + mm * 60 + ss) * 1_000_000 + us
    ensures ParseClockAt(s, i) == Some((total, e))
  {
  }

  lemma HmsOfSeconds(seconds: nat, hh: nat, mm: nat, ss: nat)
    requires hh == seconds / 60 / 60 && mm == seconds / 60 % 60 && ss == seconds % 60
    ensures hh * 3600 + mm * 60 + ss == seconds
  {
    var minutes := seconds / 60;
    assert seconds == minutes * 60 + seconds % 60;
    assert minutes == minutes / 60 * 60 + minutes % 60;
  }

  /** The clock text, split at its colons, stands where the whole does;
      `i1` is the position of the first colon. */
  lemma ClockTextAt(s: string, i: nat, seconds: nat, hh: nat, mm: nat, ss: nat, i1: nat)
    requires At(s, i, ClockText(seconds))
    requires hh == seconds / 60 / 60 && mm == seconds / 60 % 60 && ss == seconds % 60
    requires i1 == i + |Decimal(hh)|
    ensures At(s, i, Decimal(hh)) && i1 + 6 <= |s| && s[i1] == ':' && At(s, i1 + 1, FixedDigits(mm, 2))
            && s[i1 + 3] == ':' && At(s, i1 + 4, FixedDigits(ss, 2))
            && |ClockText(seconds)| == i1 + 6 - i
  {
    AtSplit(s, i, Decimal(hh), ":" + (FixedDigits(mm, 2) + (":" + FixedDigits(ss, 2))));
    AtSplit(s, i1, ":", FixedDigits(mm, 2) + (":" + FixedDigits(ss, 2)));
    AtSplit(s, i1 + 1, FixedDigits(mm, 2), ":" + FixedDigits(ss, 2));
    AtSplit(s, i1 + 3, ":", FixedDigits(ss, 2));
    AtHead(s, i1, ":");
    AtHead(s, i1 + 3, ":");
  }

  /** ParseClockAt reads back the clock and fraction the renderer writes;
      `t` and `e` name the microseconds read and the position after them. */
  lemma ParseClockText(s: string, i: nat, seconds: nat, us: nat, t: int, e: nat)
    requires us < 1_000_000
    requires At(s, i, ClockText(seconds) + FractionText(us))
    requires t == seconds * 1_000_000 + us && e == i + |ClockText(seconds) + FractionText(us)|
    requires e >= |s| || s[e] != '.'
    ensures ParseClockAt(s, i) == Some((t, e))
  {
    var hh, mm, ss := seconds / 60 / 60, seconds / 60 % 60, seconds % 60;
    var i1 := i + |Decimal(hh)|;
    AtSplit(s, i, ClockText(seconds), FractionText(us));
    ClockTextAt(s, i, seconds, hh, mm, ss, i1);
    HmsOfSeconds(seconds, hh, mm, ss);
    ClockFieldsRead(s, i, hh, mm, ss, us, i1, e);
    ParseClockSteps(s, i, hh, mm, ss, us, i1, i1 + 1, i1 + 3, i1 + 4, i1 + 6, e, t);
  }

  /** The clock fields, written at their places, are read back one by one. */
  lemma ClockFieldsRead(s: string, i: nat, hh: nat, mm: nat, ss: nat, us: nat, i1: nat, e: nat)
    requires mm < 100 && ss < 100 && us < 1_000_000
    requires At(s, i, Decimal(hh)) && i1 == i + |Decimal(hh)| && i1 + 6 <= |s|
    requires s[i1] == ':' && At(s, i1 + 1, FixedDigits(mm, 2))
    requires s[i1 + 3] == ':' && At(s, i1 + 4, FixedDigits(ss, 2))
    requires At(s, i1 + 6, FractionText(us)) && e == i1 + 6 + |FractionText(us)|
    requires e >= |s| || s[e] != '.'
    ensures ParseNatAt(s, i) == Some((hh, i1)) && SkipAt(s, i1, ':') == Some(i1 + 1)
    ensures ParseFixedAt(s, i1 + 1, 2) == Some((mm, i1 + 3)) && SkipAt(s, i1 + 3, ':') == Some(i1 + 4)
    ensures ParseFixedAt(s, i1 + 4, 2) == Some((ss, i1 + 6))
    ensures ParseFractionAt(s, i1 + 6) == Some((us, e))
  {
    ParseNatDecimal(s, i, hh);
    assert Pow10(2) == 100;
    ParseFixedDigits(s, i1 + 1, mm, 2);
    ParseFixedDigits(s, i1 + 4, ss, 2);
    ParseFractionText(s, i1 + 6, us, e);
  }

  /** Without a day prefix the text starts with the hour numeral and a colon,
      so no days are read. */
  lemma SplitDaysOfClock(s: string, i: nat, seconds: nat)
    requires At(s, i, ClockText(seconds))
    ensures SplitDaysAt(s, i) == (0, i)
  {
    var hh := seconds / 60 / 60;
    var j := i + |Decimal(hh)|;
    ClockTextAt(s, i, seconds, hh, seconds / 60 % 60, seconds % 60, j);
    ParseNatDecimal(s, i, hh);
    DecimalDigits(hh);
    AtHead(s, i, Decimal(hh));
    assert ParseIntAt(s, i) == Some((hh as int, j));
    assert !At(s, j, " day, ") by {
      assert s[j + 0] != " day, "[0];
    }
    assert !At(s, j, " days, ") by {
      assert s[j + 0] != " days, "[0];
    }
  }

  /** After the day count, either suffix is recognised and skipped. */
  lemma SplitDaysSuffix(s: string, i: nat, days: int, j: nat, suffix: string, k: nat)
    requires ParseIntAt(s, i) == Some((days, j))
    requires suffix == " day, " || suffix == " days, "
    requires At(s, j, suffix) && k == j + |suffix|
    ensures SplitDaysAt(s, i) == (days, k)
  {
    if suffix == " days, " {
      assert !At(s, j, " day, ") by {
        assert s[j + 4] == suffix[4] && suffix[4] != " day, "[4];
      }
    }
  }

  /** A day prefix is read back as its day count. */
  lemma SplitDaysOfPrefix(s: string, i: nat, days: int)
    requires days != 0
    requires At(s, i, DayPrefix(days))
    ensures SplitDaysAt(s, i) == (days, i + |DayPrefix(days)|)
  {
    var suffix := if days == 1 || days == -1 then " day, " else " days, ";
    SplitDaysOfPieces(s, i, days, SignedDecimal(days), suffix);
  }

  /** A signed day count and either suffix are read back as the count. */
  lemma SplitDaysOfPieces(s: string, i: nat, days: int, count: string, suffix: string)
    requires count == SignedDecimal(days)
    requires suffix == " day, " || suffix == " days, "
    requires At(s, i, count + suffix)
    ensures SplitDaysAt(s, i) == (days, i + |count| + |suffix|)
  {
    var j := i + |count|;
    assert At(s, i, count) && At(s, j, suffix) && s[j] == ' ' by {
      AtSplit(s, i, count, suffix);
      AtHead(s, j, suffix);
    }
    ParseIntSigned(s, i, days);
    SplitDaysSuffix(s, i, days, j, suffix, j + |suffix|);
  }

  lemma ParseSteps(s: string, i: nat, days: int, j: nat, t: int, e: nat, total: int)
    requires SplitDaysAt(s, i) == (days, j)
    requires ParseClockAt(s, j) == Some((t, e))
    requires total == days * 86_400_000_000 + t
    ensures ParseAt(s, i) == Some((total, e))
  {
  }

  /** The day prefix, when there is one, is read back as the day count,
      and the clock starts right after it, at `j`. */
  lemma SplitDaysOfText(s: string, i: nat, days: int, seconds: nat, j: nat)
    requires At(s, i, DayPrefix(days) + ClockText(seconds))
    requires j == i + |DayPrefix(days)|
    ensures SplitDaysAt(s, i) == (days, j)
  {
    AtSplit(s, i, DayPrefix(days), ClockText(seconds));
    if days == 0 {
      SplitDaysOfClock(s, i, seconds);
    } else {
      SplitDaysOfPrefix(s, i, days);
    }
  }

  lemma ParseAtPieces(s: string, i: nat, days: int, seconds: nat, us: nat, j: nat, t: int, e: nat, total: int)
    requires us < 1_000_000
    requires At(s, i, DayPrefix(days) + ClockText(seconds))
    requires At(s, j, ClockText(seconds) + FractionText(us))
    requires j == i + |DayPrefix(days)| && t == seconds * 1_000_000 + us
    requires e == j + |ClockText(seconds) + FractionText(us)| && total == days * 86_400_000_000 + t
    requires e >= |s| || s[e] != '.'
    ensures ParseAt(s, i) == Some((total, e))
  {
    SplitDaysOfText(s, i, days, seconds, j);
    ParseClockText(s, j, seconds, us, t, e);
    ParseSteps(s, i, days, j, t, e, total);
  }

  /** ParseAt reads back the text made of a day prefix, a clock and a
      fraction, provided no `.` follows it at `e`. */
  lemma ParseAtFields(s: string, i: nat, days: int, seconds: nat, us: nat, e: nat, total: int)
    requires us < 1_000_000
    requires At(s, i, DayPrefix(days) + (ClockText(seconds) + FractionText(us)))
    requires e == i + |DayPrefix(days) + (ClockText(seconds) + FractionText(us))|
    requires total == days * 86_400_000_000 + (seconds * 1_000_000 + us)
    requires e >= |s| || s[e] != '.'
    ensures ParseAt(s, i) == Some((total, e))
  {
    var j := i + |DayPrefix(days)|;
    assert At(s, i, DayPrefix(days) + ClockText(seconds)) && At(s, j, ClockText(seconds) + FractionText(us))
           && e == j + |ClockText(seconds) + FractionText(us)| by {
      AtSplit(s, i, DayPrefix(days), ClockText(seconds) + FractionText(us));
      AtSplit(s, j, ClockText(seconds), FractionText(us));
      AtJoin(s, i, DayPrefix(days), ClockText(seconds));
    }
    ParseAtPieces(s, i, days, seconds, us, j, seconds * 1_000_000 + us, e, total);
  }

  /** ParseAt reads back, from any text it stands in, the duration whose
      text it is, provided no `.` follows it. */
  lemma ParseAtToString(s: string, i: nat, d: int, e: nat)
    requires At(s, i, ToString(d)) && e == i + |ToString(d)|
    requires e >= |s| || s[e] != '.'
    ensures ParseAt(s, i) == Some((d, e))
  {
    Normalised(d);
    ParseAtFields(s, i, Days(d), Seconds(d), Microseconds(d), e, d);
  }

  /** Every duration is read back from its text. */
  lemma ParseToString(d: int)
    ensures Parse(ToString(d)) == Some(d)
  {
    AtWhole(ToString(d));
    ParseAtToString(ToString(d), 0, d, |ToString(d)|);
  }

  /** No two durations render alike. */
  lemma ToStringInjective(a: int, b: int)
    requires ToString(a) == ToString(b)
    ensures a == b
  {
    ParseToString(a);
    ParseToString(b);
  }

  /** Half a second before zero is the day before, at half a second to
      midnight. */
  lemma NegativeExample()
    ensures ToString(-500_000) == "-1 day, 23:59:59.500000"
  {
    NegativeFields();
    DayBeforeText();
    LastSecondText();
    HalfSecondText();
  }

  lemma NegativeFields()
    ensures Days(-500_000) == -1 && Seconds(-500_000) == 86_399 && Microseconds(-500_000) == 500_000
  {
  }

  lemma DayBeforeText()
    ensures DayPrefix(-1) == "-1 day, "
  {
    assert Decimal(1) == "1";
  }

  lemma LastSecondText()
    ensures ClockText(86_399) == "23:59:59"
  {
    assert Decimal(23) == "23";
    assert FixedDigits(59, 2) == "59";
  }

  lemma HalfSecondText()
    ensures FractionText(500_000) == ".500000"
  {
    assert FixedDigits(500_000, 6) == "500000" by {
      assert FixedDigits(500, 3) == "500";
    }
  }

  /** Whole seconds take no fraction, and one day takes no plural. */
  lemma OneDayExample()
    ensures ToString(90_061_000_000) == "1 day, 1:01:01"
  {
    OneDayFields();
    assert DayPrefix(1) == "1 day, " by {
      assert Decimal(1) == "1";
    }
    HourMinuteSecondText();
  }

  lemma OneDayFields()
    ensures Days(90_061_000_000) == 1 && Seconds(90_061_000_000) == 3_661 && Microseconds(90_061_000_000) == 0
  {
  }

  lemma HourMinuteSecondText()
    ensures ClockText(3_661) == "1:01:01"
  {
    assert Decimal(1) == "1";
    assert FixedDigits(1, 2) == "01";
  }

  /** Ten and a half seconds. */
  lemma TenAndAHalfSeconds()
    ensures ToString(10_500_000) == "0:00:10.500000"
  {
    assert Days(10_500_000) == 0 && Seconds(10_500_000) == 10 && Microseconds(10_500_000) == 500_000;
    assert ClockText(10) == "0:00:10" by {
      assert Decimal(0) == "0";
      assert FixedDigits(0, 2) == "00" && FixedDigits(10, 2) == "10";
    }
    HalfSecondText();
  }
}
