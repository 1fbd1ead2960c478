/** Deriving filters from subtitles: each subtitle entry whose text the
    predicate classifies becomes one "audio" filter over the entry's time
    span, shifted by an offset and widened by a margin on both sides. Also
    the conversion of a subtitle time to a duration and the data URL the
    screenshot image is wrapped in. */
module Util {

  import opened Wrappers
  import opened Strings
  import Timedelta
  import opened Predicates
  import opened Filter

  /** Subtitle times and entries */

  /** A subtitle time as the subtitle parser gives it. */
  datatype SubRipTime = SubRipTime(hours: int, minutes: int, seconds: int, milliseconds: int)

  /** A subtitle entry: when it is shown, when it is hidden, and its text
      with the markup tags already removed. */
  datatype SubRipItem = SubRipItem(start: SubRipTime, end: SubRipTime, text: string)

  /** `sub_to_timedelta(t)`: `timedelta(hours=…, minutes=…, seconds=…,
      milliseconds=…)`, in microseconds. The whole time is a number of
      milliseconds, counted out field by field. */
  function SubToTimedelta(t: SubRipTime): (d: int)
    ensures d == (((t.hours * 60 + t.minutes) * 60 + t.seconds) * 1000 + t.milliseconds) * 1000
  {
    Timedelta.FromParts(t.hours, t.minutes, t.seconds, t.milliseconds)
  }

  /** The subtitle time a duration of whole milliseconds stands for, each
      field in its clock range. */
  function TimeOfDuration(d: int): SubRipTime {
    var millis := d / 1000;
    var secs := millis / 1000;
    var mins := secs / 60;
    SubRipTime(mins / 60, mins % 60, secs % 60, millis % 1000)
  }

  /** A subtitle time with its fields in their clock ranges. */
  predicate ClockTime(t: SubRipTime) {
    0 <= t.hours && 0 <= t.minutes < 60 && 0 <= t.seconds < 60 && 0 <= t.milliseconds < 1000
  }

  lemma DivMod60(q: int, r: int)
    requires 0 <= r < 60
    ensures (q * 60 + r) / 60 == q && (q * 60 + r) % 60 == r
  {
  }

  lemma DivMod1000(q: int, r: int)
    requires 0 <= r < 1000
    ensures (q * 1000 + r) / 1000 == q && (q * 1000 + r) % 1000 == r
  {
  }

  /** No information is lost: a subtitle time in clock ranges is given back
      by the duration it converts to. */
  lemma SubToTimedeltaRoundTrip(t: SubRipTime)
    requires ClockTime(t)
    ensures TimeOfDuration(SubToTimedelta(t)) == t
  {
    var mins := t.hours * 60 + t.minutes;
    var secs := mins * 60 + t.seconds;
    var millis := secs * 1000 + t.milliseconds;
    DivMod1000(millis, 0);
    DivMod1000(secs, t.milliseconds);
    DivMod60(mins, t.seconds);
    DivMod60(t.hours, t.minutes);
  }

  /** Later clock times convert to longer durations. */
  lemma SubToTimedeltaMonotone(a: SubRipTime, b: SubRipTime)
    requires ClockTime(a) && ClockTime(b)
    requires a.hours < b.hours
          || (a.hours == b.hours && a.minutes < b.minutes)
          || (a.hours == b.hours && a.minutes == b.minutes && a.seconds < b.seconds)
          || (a.hours == b.hours && a.minutes == b.minutes && a.seconds == b.seconds && a.milliseconds < b.milliseconds)
    ensures SubToTimedelta(a) < SubToTimedelta(b)
  {
    var ma, mb := a.hours * 60 + a.minutes, b.hours * 60 + b.minutes;
    assert ma <= mb && (ma == mb ==> a.hours == b.hours && a.minutes == b.minutes) by {
      if a.hours < b.hours {
        assert (b.hours - a.hours) * 60 >= 60;
      }
    }
    var sa, sb := ma * 60 + a.seconds, mb * 60 + b.seconds;
    assert sa <= sb && (sa == sb ==> ma == mb && a.seconds == b.seconds) by {
      if ma < mb {
        assert (mb - ma) * 60 >= 60;
      }
    }
    var la, lb := sa * 1000 + a.milliseconds, sb * 1000 + b.milliseconds;
    assert la < lb by {
      if sa < sb {
        assert (sb - sa) * 1000 >= 1000;
      }
    }
  }

  /** Deriving filters */

  /** The filter for an entry the predicate classified as `r`: the entry's
      span, shifted by the offset and widened by the margin at both ends. */
  function FilterFor(sub: SubRipItem, offset: int, margin: int, r: SubtitlePredicateResult): (f: VideoSkipFilter)
    ensures f.end - f.start == (SubToTimedelta(sub.end) - SubToTimedelta(sub.start)) + 2 * margin
    ensures (f.start + f.end) - (SubToTimedelta(sub.start) + SubToTimedelta(sub.end)) == 2 * offset
  {
    VideoSkipFilter(
      start := SubToTimedelta(sub.start) + offset - margin,
      end := SubToTimedelta(sub.end) + offset + margin,
      category := r.category,
      severity := r.severity,
      action := "audio",
      description := r.description)
  }

  /** What one entry yields: its filter when the predicate gives a result
      (a result record is always truthy), nothing otherwise. */
  function Emitted(sub: SubRipItem, offset: int, margin: int,
                   classify: string -> Option<SubtitlePredicateResult>): seq<VideoSkipFilter>
  {
    match classify(sub.text)
    case Some(r) => [FilterFor(sub, offset, margin, r)]
    case None => []
  }

  /** The filters `get_filters_from_subtitles` yields, entry by entry.
      Nothing is emitted for an unclassified entry, so there are at most as
      many filters as entries. */
  function DerivedFilters(subs: seq<SubRipItem>, offset: int, margin: int,
                          classify: string -> Option<SubtitlePredicateResult>): (fs: seq<VideoSkipFilter>)
    ensures |fs| <= |subs|
  {
    if subs == [] then []
    else
      DerivedFilters(subs[..|subs| - 1], offset, margin, classify)
        + Emitted(subs[|subs| - 1], offset, margin, classify)
  }

  /** `get_filters_from_subtitles`: walks the entries in order and appends
      one filter for each entry the predicate classifies. */
  method GetFiltersFromSubtitles(subs: seq<SubRipItem>, offset: int, margin: int,
                                 classify: string -> Option<SubtitlePredicateResult>)
    returns (filters: seq<VideoSkipFilter>)
    ensures filters == DerivedFilters(subs, offset, margin, classify)
  {
    filters := [];
    var i := 0;
    while i < |subs|
      invariant 0 <= i <= |subs|
      invariant filters == DerivedFilters(subs[..i], offset, margin, classify)
    {
      var sub := subs[i];
      var result := classify(sub.text);
      if result.Some? {
        filters := filters + [FilterFor(sub, offset, margin, result.value)];
      }
      assert subs[..i + 1][..i] == subs[..i];
      i := i + 1;
    }
    assert subs[..i] == subs;
  }

  /** The positions of the entries the predicate classifies, in order. */
  function Matches(subs: seq<SubRipItem>, classify: string -> Option<SubtitlePredicateResult>): (m: seq<nat>)
    ensures forall j :: 0 <= j < |m| ==> m[j] < |subs|
  {
    if subs == [] then []
    else
      Matches(subs[..|subs| - 1], classify)
        + (if classify(subs[|subs| - 1].text).Some? then [|subs| - 1] else [])
  }

  /** The matching positions are exactly the classified entries, strictly
      increasing. */
  lemma {:induction false} MatchesExactly(subs: seq<SubRipItem>, classify: string -> Option<SubtitlePredicateResult>)
    ensures forall j, k :: 0 <= j < k < |Matches(subs, classify)| ==>
      Matches(subs, classify)[j] < Matches(subs, classify)[k]
    ensures forall i :: 0 <= i < |subs| ==> (i in Matches(subs, classify) <==> classify(subs[i].text).Some?)
  {
    if subs != [] {
      var n := |subs| - 1;
      var init := subs[..n];
      MatchesExactly(init, classify);
      forall i | 0 <= i < n
        ensures subs[i] == init[i]
      {
      }
    }
  }

  /** Filter `j` comes from the `j`-th classified entry: its start and end
      are the entry's, shifted by the offset and widened by the margin, its
      classification is the predicate's result, and its action is "audio". */
  lemma {:induction false} DerivedFromMatches(subs: seq<SubRipItem>, offset: int, margin: int,
                                              classify: string -> Option<SubtitlePredicateResult>)
    ensures |DerivedFilters(subs, offset, margin, classify)| == |Matches(subs, classify)|
    ensures forall j :: 0 <= j < |Matches(subs, classify)| ==>
      var e := subs[Matches(subs, classify)[j]];
      var f := DerivedFilters(subs, offset, margin, classify)[j];
      && classify(e.text).Some?
      && f.start == SubToTimedelta(e.start) + offset - margin
      && f.end == SubToTimedelta(e.end) + offset + margin
      && f.category == classify(e.text).value.category
      && f.severity == classify(e.text).value.severity
      && f.description == classify(e.text).value.description
      && f.action == "audio"
  {
    MatchesExactly(subs, classify);
    if subs != [] {
      var n := |subs| - 1;
      var init := subs[..n];
      DerivedFromMatches(init, offset, margin, classify);
      MatchesExactly(init, classify);
      var ds, ms := DerivedFilters(subs, offset, margin, classify), Matches(subs, classify);
      var di, mi := DerivedFilters(init, offset, margin, classify), Matches(init, classify);
      forall j | 0 <= j < |ms|
        ensures subs[ms[j]] == (if j < |mi| then init[mi[j]] else subs[n])
        ensures ds[j] == (if j < |di| then di[j] else FilterFor(subs[n], offset, margin, classify(subs[n].text).value))
      {
      }
    }
  }

  /** No filter at all exactly when the predicate classifies no entry. */
  lemma NoneDerived(subs: seq<SubRipItem>, offset: int, margin: int,
                    classify: string -> Option<SubtitlePredicateResult>)
    ensures DerivedFilters(subs, offset, margin, classify) == [] <==>
      forall i :: 0 <= i < |subs| ==> classify(subs[i].text) == None
  {
    DerivedFromMatches(subs, offset, margin, classify);
    MatchesExactly(subs, classify);
    if DerivedFilters(subs, offset, margin, classify) != [] {
      var i := Matches(subs, classify)[0];
      assert classify(subs[i].text).Some?;
    } else {
      forall i | 0 <= i < |subs|
        ensures classify(subs[i].text) == None
      {
      }
    }
  }

  /** Deriving is entry by entry: the filters of two runs of entries are the
      filters of the first run, then those of the second. */
  lemma {:induction false} DerivedAppend(a: seq<SubRipItem>, b: seq<SubRipItem>, offset: int, margin: int,
                                         classify: string -> Option<SubtitlePredicateResult>)
    ensures DerivedFilters(a + b, offset, margin, classify)
      == DerivedFilters(a, offset, margin, classify) + DerivedFilters(b, offset, margin, classify)
  {
    if b == [] {
      assert a + b == a;
    } else {
      var n := |b| - 1;
      assert (a + b)[..|a + b| - 1] == a + b[..n];
      assert (a + b)[|a + b| - 1] == b[n];
      DerivedAppend(a, b[..n], offset, margin, classify);
    }
  }

  /** Each filter spans its entry's span plus twice the margin; with a
      non-negative margin and an entry that does not end before it starts,
      the filter starts no later than it ends. Nothing is clamped: a start
      before zero stays negative. */
  lemma DerivedWidth(subs: seq<SubRipItem>, offset: int, margin: int,
                     classify: string -> Option<SubtitlePredicateResult>, j: nat)
    requires j < |Matches(subs, classify)|
    ensures j < |DerivedFilters(subs, offset, margin, classify)|
    ensures var e := subs[Matches(subs, classify)[j]];
      var f := DerivedFilters(subs, offset, margin, classify)[j];
      && f.end - f.start == (SubToTimedelta(e.end) - SubToTimedelta(e.start)) + 2 * margin
      && (margin >= 0 && SubToTimedelta(e.start) <= SubToTimedelta(e.end) ==> f.start <= f.end)
  {
    DerivedFromMatches(subs, offset, margin, classify);
    MatchesExactly(subs, classify);
  }

  /** Two entries of which only the first is classified give that entry's
      filter alone. */
  lemma FirstOfTwo(first: SubRipItem, second: SubRipItem, offset: int, margin: int,
                   classify: string -> Option<SubtitlePredicateResult>, r: SubtitlePredicateResult)
    requires classify(first.text) == Some(r) && classify(second.text) == None
    ensures DerivedFilters([first, second], offset, margin, classify) == [FilterFor(first, offset, margin, r)]
  {
    assert [first, second][..1] == [first];
    assert [first][..0] == [];
    assert DerivedFilters([first], offset, margin, classify) == Emitted(first, offset, margin, classify);
    assert Emitted(second, offset, margin, classify) == [];
  }

  /** With the blasphemy predicate, no offset and a half-second margin, a
      line naming God shown from 0:00:01 to 0:00:02 gives one profanity
      filter from 0:00:00.500 to 0:00:02.500, and a greeting gives none. */
  lemma BlasphemyExample()
    ensures DerivedFilters(
      [SubRipItem(SubRipTime(0, 0, 1, 0), SubRipTime(0, 0, 2, 0), "Oh my God!"),
       SubRipItem(SubRipTime(0, 0, 3, 0), SubRipTime(0, 0, 4, 0), "Hello there")],
      0, 500_000, HasBlasphemy)
      == [VideoSkipFilter(500_000, 2_500_000, "profanity", 3, "audio", "blasphemy auto-detected from subtitles")]
  {
    var first := SubRipItem(SubRipTime(0, 0, 1, 0), SubRipTime(0, 0, 2, 0), "Oh my God!");
    var second := SubRipItem(SubRipTime(0, 0, 3, 0), SubRipTime(0, 0, 4, 0), "Hello there");
    OhMyGodMatches();
    HelloThereDoesNotMatch();
    FirstOfTwo(first, second, 0, 500_000, HasBlasphemy, BLASPHEMY);
  }

  /** Data URLs */

  /** `format_base64_data_url`: the `data:` scheme, the media type, the
      `;base64` marker and the encoded data after a comma, as in section 3
      of RFC 2397. The URL gives back its media type, parameters included,
      and its data whenever the data holds no `;`, as base64 data never
      does. */
  function FormatBase64DataUrl(mimeType: string, encodedData: string): (url: string)
    ensures ';' !in encodedData ==> ParseDataUrl(url) == Some((mimeType, encodedData))
  {
    var url := "data:" + mimeType + ";base64," + encodedData;
    ReadDataUrl(url, mimeType, encodedData);
    url
  }

  /** Reads a base64 data URL back: the media type up to the last `;`,
      which must start `;base64,`, and the data after it. */
  function ParseDataUrl(url: string): Option<(string, string)> {
    if !At(url, 0, "data:") then None
    else
      match LastIndexOf(url, ';')
      case None => None
      case Some(k) =>
        if 5 <= k && At(url, k, ";base64,") then Some((url[5..k], url[k + 8..])) else None
  }

  lemma ReadDataUrl(url: string, mimeType: string, encodedData: string)
    requires url == "data:" + mimeType + ";base64," + encodedData
    ensures ';' !in encodedData ==> ParseDataUrl(url) == Some((mimeType, encodedData))
  {
    if ';' in encodedData {
      return;
    }
    var k := 5 + |mimeType|;
    AtWhole(url);
    DataUrlFields(url, mimeType, encodedData, k);
    DataUrlLastSemicolon(url, mimeType, encodedData, k);
    LastIndexOfAt(url, k, ';');
  }

  /** The scheme, the marker and the two fields stand where they were put. */
  lemma DataUrlFields(url: string, mimeType: string, encodedData: string, k: nat)
    requires At(url, 0, "data:" + mimeType + ";base64," + encodedData)
    requires |url| == 5 + |mimeType| + 8 + |encodedData| && k == 5 + |mimeType|
    ensures At(url, 0, "data:") && At(url, k, ";base64,") && url[5..k] == mimeType && url[k + 8..] == encodedData
  {
    AtSplit(url, 0, "data:" + mimeType + ";base64,", encodedData);
    AtSplit(url, 0, "data:" + mimeType, ";base64,");
    AtSplit(url, 0, "data:", mimeType);
    AtSlice(url, 5, mimeType);
    AtTail(url, k + 8, encodedData);
  }

  /** The marker's `;` is the last one when the data holds none. */
  lemma DataUrlLastSemicolon(url: string, mimeType: string, encodedData: string, k: nat)
    requires url == "data:" + mimeType + ";base64," + encodedData && k == 5 + |mimeType|
    requires ';' !in encodedData
    ensures k < |url| && url[k] == ';' && ';' !in url[k + 1..]
  {
    assert url == ("data:" + mimeType) + (";" + ("base64," + encodedData));
    assert url[k + 1..] == "base64," + encodedData;
    assert ';' !in "base64,";
  }

  /** The example from the function's documentation. */
  lemma DataUrlExample()
    ensures FormatBase64DataUrl("image/jpeg", "YXNkZg==") == "data:image/jpeg;base64,YXNkZg=="
  {
  }
}
