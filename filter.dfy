/** One VideoSkip filter: the time range to act on and the classification,
    and its two-line text `START --> END` / `CATEGORY ACTION SEVERITY (DESCRIPTION)`. */
module Filter {

  import opened Wrappers
  import opened Strings
  import Timedelta

  /** `VideoSkipFilter`: where filtering starts and ends (microseconds), the
      category (e.g. "profanity"), the severity (documented as 1, 2 or 3 but
      never checked), the action (e.g. "audio") and a free-text description. */
  datatype VideoSkipFilter = VideoSkipFilter(
    start: int,
    end: int,
    category: string,
    severity: int,
    action: string,
    description: string)

  /** The first line: start, then end, as they are, with no swapping. */
  function TimeRange(f: VideoSkipFilter): string {
    Timedelta.ToString(f.start) + " --> " + Timedelta.ToString(f.end)
  }

  /** The second line, in the order category, action, severity, description
      (not the order the fields are declared in). */
  function Details(f: VideoSkipFilter): string {
    f.category + " " + (f.action + " " + (SignedDecimal(f.severity) + " (" + f.description + ")"))
  }

  /** `str(filter)`: the time range, a line break and the details. The text
      always ends with `)`, and the description stands right before it,
      after ` (`: read back from the end, the text gives the description
      whatever it holds. */
  function FilterToString(f: VideoSkipFilter): (s: string)
    ensures |s| > 0 && s[|s| - 1] == ')'
    ensures DescriptionFromEnd(s, |f.description|) == Some(f.description)
  {
    var s := TimeRange(f) + "\n" + Details(f);
    var r2 := SignedDecimal(f.severity) + " (" + f.description + ")";
    var r1 := f.action + " " + r2;
    AtSuffix(s, TimeRange(f) + "\n", Details(f));
    EndsWithDescriptionAt(s, |TimeRange(f) + "\n"|, f.category, f.action, SignedDecimal(f.severity), f.description, r1, r2);
    s
  }

  /** Reads the first line back: the text before ` --> ` and the text after
      it, each a whole duration. The arrow is found by its `>`, which no
      rendered duration holds. */
  function ParseTimeRange(line: string): Option<(int, int)> {
    var k := FindFrom(line, 0, '>');
    if k < 3 || !At(line, k - 3, " --> ") then None
    else
      var a :- Timedelta.Parse(line[..k - 3]);
      var b :- Timedelta.Parse(line[k + 2..]);
      Some((a, b))
  }

  /** Reads the second line back: the category and the action, each ended
      by a space, the severity numeral, ` (`, and the description up to the
      final `)`. */
  function ParseDetails(line: string): Option<(string, string, int, string)> {
    var k1 := FindFrom(line, 0, ' ');
    var q :- SkipAt(line, k1, ' ');
    var k2 := FindFrom(line, q, ' ');
    var r :- SkipAt(line, k2, ' ');
    var sev :- ParseIntAt(line, r);
    if At(line, sev.1, " (") && sev.1 + 2 < |line| && line[|line| - 1] == ')'
    then Some((line[..k1], line[q..k2], sev.0, line[sev.1 + 2..|line| - 1]))
    else None
  }

  /** Reads a filter text back, line by line. */
  function ParseFilter(s: string): Option<VideoSkipFilter> {
    var k := IndexOf(s, '\n');
    if k == |s| then None
    else
      var times :- ParseTimeRange(s[..k]);
      var details :- ParseDetails(s[k + 1..]);
      Some(VideoSkipFilter(times.0, times.1, details.0, details.2, details.1, details.3))
  }

  /** The two durations of the first line are read back, start first. */
  lemma TimeRangeRoundTrip(f: VideoSkipFilter)
    ensures ParseTimeRange(TimeRange(f)) == Some((f.start, f.end))
  {
    var t1, t2 := Timedelta.ToString(f.start), Timedelta.ToString(f.end);
    Timedelta.ToStringOneLine(f.start);
    AtWhole(TimeRange(f));
    ArrowPieces(TimeRange(f), t1, t2);
    Timedelta.ParseToString(f.start);
    Timedelta.ParseToString(f.end);
    TimeRangeSteps(TimeRange(f), |t1|, f.start, f.end);
  }

  /** In `t1 --> t2`, with no `>` in `t1`, the first `>` is the arrow's and
      the texts on either side are `t1` and `t2`. */
  lemma ArrowPieces(line: string, t1: string, t2: string)
    requires At(line, 0, t1 + " --> " + t2) && |line| == |t1| + 5 + |t2| && '>' !in t1
    ensures FindFrom(line, 0, '>') == |t1| + 3 && At(line, |t1|, " --> ")
    ensures line[..|t1|] == t1 && line[|t1| + 5..] == t2
  {
    var e := |t1|;
    AtSplit(line, 0, t1 + " --> ", t2);
    AtSplit(line, 0, t1, " --> ");
    assert " --> " == " --" + "> ";
    AtSplit(line, e, " --", "> ");
    AtHead(line, e + 3, "> ");
    AtJoin(line, 0, t1, " --");
    FindFromAt(line, 0, t1 + " --", '>');
    AtSlice(line, 0, t1);
    assert line[..e] == line[0..e];
    AtTail(line, e + 5, t2);
  }

  /** Reading the first line with ` --> ` after `e` characters and the text
      on either side read as a duration. */
  lemma TimeRangeSteps(line: string, e: nat, a: int, b: int)
    requires FindFrom(line, 0, '>') == e + 3 && At(line, e, " --> ")
    requires Timedelta.Parse(line[..e]) == Some(a) && Timedelta.Parse(line[e + 5..]) == Some(b)
    ensures ParseTimeRange(line) == Some((a, b))
  {
  }

  /** Where the severity, ` (`, the description and `)` stand. */
  lemma TailPieces(s: string, i: nat, sv: string, desc: string)
    requires At(s, i, sv + " (" + desc + ")")
    ensures At(s, i, sv) && At(s, i + |sv|, " (") && At(s, i + |sv| + 2, desc)
    ensures s[i + |sv| + 2 + |desc|] == ')'
  {
    AtSplit(s, i, sv + " (" + desc, ")");
    AtSplit(s, i, sv + " (", desc);
    AtSplit(s, i, sv, " (");
    assert s[i + |sv| + 2 + |desc| + 0] == ")"[0];
  }

  /** The positions in a second line: `k1` and `k2` of the two spaces after
      the category and the action, `q` and `r` right after them, `e` right
      after the severity. */
  predicate DetailPositions(cat: string, act: string, sv: string, k1: nat, q: nat, k2: nat, r: nat, e: nat) {
    k1 == |cat| && q == k1 + 1 && k2 == q + |act| && r == k2 + 1 && e == r + |sv|
  }

  /** Where each piece of a second line stands, `r1` and `r2` being what
      follows the first and the second space. */
  lemma DetailsPieces(d: string, cat: string, act: string, sv: string, desc: string, r1: string, r2: string,
                      k1: nat, q: nat, k2: nat, r: nat, e: nat)
    requires r2 == sv + " (" + desc + ")" && r1 == act + " " + r2
    requires At(d, 0, cat + " " + r1) && |d| == |cat| + 1 + |r1|
    requires DetailPositions(cat, act, sv, k1, q, k2, r, e)
    ensures At(d, 0, cat) && k1 < |d| && d[k1] == ' ' && At(d, q, act) && k2 < |d| && d[k2] == ' '
    ensures At(d, r, sv) && At(d, e, " (") && At(d, e + 2, desc)
    ensures d[|d| - 1] == ')' && |d| == e + 2 + |desc| + 1
  {
    AtWord(d, 0, cat, r1);
    AtWord(d, q, act, r2);
    TailPieces(d, r, sv, desc);
  }

  /** A second line is read back field by field when category and action
      hold no space. */
  lemma DetailsRead(d: string, cat: string, act: string, sev: int, desc: string, r1: string, r2: string)
    requires ' ' !in cat && ' ' !in act
    requires r2 == SignedDecimal(sev) + " (" + desc + ")" && r1 == act + " " + r2
    requires At(d, 0, cat + " " + r1) && |d| == |cat| + 1 + |r1|
    ensures ParseDetails(d) == Some((cat, act, sev, desc))
  {
    var sv := SignedDecimal(sev);
    var k1 := |cat|;
    var q := k1 + 1;
    var k2 := q + |act|;
    var r := k2 + 1;
    var e := r + |sv|;
    DetailsPieces(d, cat, act, sv, desc, r1, r2, k1, q, k2, r, e);
    assert FindFrom(d, 0, ' ') == k1 && FindFrom(d, q, ' ') == k2 by {
      FindFromAt(d, 0, cat, ' ');
      FindFromAt(d, q, act, ' ');
    }
    assert ParseIntAt(d, r) == Some((sev, e)) by {
      AtHead(d, e, " (");
      ParseIntSigned(d, r, sev);
    }
    assert d[..k1] == cat && d[q..k2] == act && d[e + 2..|d| - 1] == desc by {
      AtSlice(d, 0, cat);
      AtSlice(d, q, act);
      AtSlice(d, e + 2, desc);
    }
    DetailsSteps(d, k1, q, k2, r, sev, e);
  }

  /** The second line of a filter is read back as its category, action,
      severity and description when category and action hold no space. */
  lemma DetailsRoundTrip(f: VideoSkipFilter)
    requires ' ' !in f.category && ' ' !in f.action
    ensures ParseDetails(Details(f)) == Some((f.category, f.action, f.severity, f.description))
  {
    var r2 := SignedDecimal(f.severity) + " (" + f.description + ")";
    AtWhole(Details(f));
    DetailsRead(Details(f), f.category, f.action, f.severity, f.description, f.action + " " + r2, r2);
  }

  /** Reading a second line, with each step's result named. */
  lemma DetailsSteps(d: string, k1: nat, q: nat, k2: nat, r: nat, sev: int, e: nat)
    requires FindFrom(d, 0, ' ') == k1 && SkipAt(d, k1, ' ') == Some(q)
    requires FindFrom(d, q, ' ') == k2 && SkipAt(d, k2, ' ') == Some(r)
    requires ParseIntAt(d, r) == Some((sev, e))
    requires At(d, e, " (") && e + 2 < |d| && d[|d| - 1] == ')'
    ensures ParseDetails(d) == Some((d[..k1], d[q..k2], sev, d[e + 2..|d| - 1]))
  {
  }

  /** A filter is read back from its text whenever its category and action
      hold no space: the text loses nothing, keeps start before end and each
      field of the second line in its place. */
  lemma FilterRoundTrip(f: VideoSkipFilter)
    requires ' ' !in f.category && ' ' !in f.action
    ensures ParseFilter(FilterToString(f)) == Some(f)
  {
    TimeRangeOneLine(f);
    FirstLineOf(TimeRange(f), Details(f));
    IndexOfFirst(FilterToString(f), '\n');
    TimeRangeRoundTrip(f);
    DetailsRoundTrip(f);
  }

  /** No two filters whose category and action hold no space render alike. */
  lemma FilterToStringInjective(f: VideoSkipFilter, g: VideoSkipFilter)
    requires ' ' !in f.category && ' ' !in f.action
    requires ' ' !in g.category && ' ' !in g.action
    requires FilterToString(f) == FilterToString(g)
    ensures f == g
  {
    FilterRoundTrip(f);
    FilterRoundTrip(g);
  }

  /** The first line is the time range, start before end; when category,
      action and description hold no line break, that is the only break. */
  lemma FilterLines(f: VideoSkipFilter)
    ensures FirstLine(FilterToString(f)) == Timedelta.ToString(f.start) + " --> " + Timedelta.ToString(f.end)
    ensures '\n' !in f.category + f.action + f.description ==> CountChar(FilterToString(f), '\n') == 1
  {
    TimeRangeOneLine(f);
    FirstLineOf(TimeRange(f), Details(f));
    if '\n' !in f.category + f.action + f.description {
      DetailsOneLine(f);
      OneBreak(TimeRange(f), Details(f));
    }
  }

  /** The time range holds no line break. */
  lemma TimeRangeOneLine(f: VideoSkipFilter)
    ensures '\n' !in TimeRange(f)
  {
    Timedelta.ToStringOneLine(f.start);
    Timedelta.ToStringOneLine(f.end);
  }

  /** The second line holds no line break when its text fields hold none. */
  lemma DetailsOneLine(f: VideoSkipFilter)
    requires '\n' !in f.category + f.action + f.description
    ensures '\n' !in Details(f)
  {
    SignedDecimalAvoids(f.severity, '\n');
    assert '\n' !in f.category && '\n' !in f.action && '\n' !in f.description;
  }

  /** The `n` characters before a final `)` when ` (` precedes them. */
  function DescriptionFromEnd(s: string, n: nat): Option<string> {
    if |s| >= n + 3 && s[|s| - 1] == ')' && s[|s| - n - 3..|s| - n - 1] == " ("
    then Some(s[|s| - n - 1..|s| - 1])
    else None
  }

  /** A second line that ends a string ends it with ` (`, the description
      and `)`. */
  lemma EndsWithDescriptionAt(s: string, o: nat, cat: string, act: string, sv: string, desc: string,
                              r1: string, r2: string)
    requires r2 == sv + " (" + desc + ")" && r1 == act + " " + r2
    requires At(s, o, cat + " " + r1) && |s| == o + |cat| + 1 + |r1|
    ensures |s| > 0 && s[|s| - 1] == ')'
    ensures DescriptionFromEnd(s, |desc|) == Some(desc)
  {
    var i := o + |cat| + 1 + |act| + 1;
    AtWord(s, o, cat, r1);
    AtWord(s, o + |cat| + 1, act, r2);
    TailPieces(s, i, sv, desc);
    AtSlice(s, i + |sv|, " (");
    AtSlice(s, i + |sv| + 2, desc);
  }

  /** A severity of 1, 2 or 3 takes exactly one digit, two places after the
      action. */
  lemma SeverityOneDigit(f: VideoSkipFilter)
    requires 1 <= f.severity <= 3
    ensures |Details(f)| == |f.category| + |f.action| + |f.description| + 6
    ensures Details(f)[|f.category| + |f.action| + 2] == DigitChar(f.severity)
  {
    var d := Details(f);
    var sv := SignedDecimal(f.severity);
    assert sv == [DigitChar(f.severity)];
    AtWhole(d);
    AtWord(d, 0, f.category, f.action + " " + (sv + " (" + f.description + ")"));
    AtWord(d, |f.category| + 1, f.action, sv + " (" + f.description + ")");
    AtHead(d, |f.category| + |f.action| + 2, sv + " (" + f.description + ")");
  }
}
