/** A whole VideoSkip file: the screenshot, the filters, the service
    offsets and the image, as sections separated by blank lines. */
module File {

  import opened Wrappers
  import opened Strings
  import opened Screenshot
  import opened Filter
  import Timedelta

  /** `VideoSkipFile`. The service offsets (a `Dict[str, float]` in the
      source) are kept as their entries in insertion order, with whole
      numbers as values. */
  datatype VideoSkipFile = VideoSkipFile(
    screenshot: VideoSkipScreenshot,
    filters: seq<VideoSkipFilter>,
    serviceOffsets: seq<(string, int)>)

  /** Offsets rendering */

  /** One `"key": value` member of a JSON object. */
  function OffsetEntry(key: string, value: int): string {
    "\"" + key + "\": " + SignedDecimal(value)
  }

  /** The members for the offsets, in order. */
  function OffsetEntries(offsets: seq<(string, int)>): (entries: seq<string>)
    ensures |entries| == |offsets|
    ensures forall i :: 0 <= i < |offsets| ==> entries[i] == OffsetEntry(offsets[i].0, offsets[i].1)
  {
    if offsets == [] then [] else [OffsetEntry(offsets[0].0, offsets[0].1)] + OffsetEntries(offsets[1..])
  }

  /** `json.dumps(service_offsets)` with its default separators, for keys
      that need no escaping and whole-number values: a JSON object, which is
      `{}` exactly when there are no offsets. */
  function OffsetsJson(offsets: seq<(string, int)>): (s: string)
    ensures |s| >= 2 && s[0] == '{' && s[|s| - 1] == '}'
    ensures s == "{}" <==> offsets == []
  {
    var body := Join(", ", OffsetEntries(offsets));
    assert offsets != [] ==> |body| >= |OffsetEntries(offsets)[0]| > 0;
    "{" + body + "}"
  }

  /** Reading the offsets back */

  /** Reads `"key": value` at position `i`: the entry and the position after
      the value. The key runs to the next `"`. */
  function ParseEntryAt(s: string, i: nat): (r: Option<((string, int), nat)>)
    ensures r.Some? ==> i < r.value.1
  {
    var i1 :- SkipAt(s, i, '"');
    var k := FindFrom(s, i1, '"');
    if !At(s, k, "\": ") then None
    else
      var v :- ParseIntAt(s, k + 3);
      Some(((s[i1..k], v.0), v.1))
  }

  /** Reads items separated by `, ` from position `i`, each with `readAt`:
      the items and the position after the last one. An item that takes up
      no text fails the reading. */
  function ReadListAt<T>(s: string, i: nat, readAt: (string, nat) -> Option<(T, nat)>): Option<(seq<T>, nat)>
    decreases |s| - i
  {
    var x :- readAt(s, i);
    if x.1 <= i then None
    else if At(s, x.1, ", ") then
      var rest :- ReadListAt(s, x.1 + 2, readAt);
      Some(([x.0] + rest.0, rest.1))
    else Some(([x.0], x.1))
  }

  /** Reads an offsets text back: `{}`, or entries between `{` and `}`. */
  function ParseOffsets(s: string): Option<seq<(string, int)>> {
    if s == "{}" then Some([])
    else if |s| < 2 || s[0] != '{' then None
    else
      var r :- ReadListAt(s, 1, ParseEntryAt);
      if r.1 + 1 == |s| && s[r.1] == '}' then Some(r.0) else None
  }

  /** `xs` are read one by one from position `i` on, each advancing and each
      but the last followed by `, `; the last ends at `e`, with no `, ` after
      it. */
  predicate ItemsRead<T(==)>(s: string, i: nat, readAt: (string, nat) -> Option<(T, nat)>, xs: seq<T>, e: nat)
    decreases |xs|
  {
    && |xs| > 0
    && readAt(s, i).Some? && readAt(s, i).value.0 == xs[0]
    && var j := readAt(s, i).value.1;
    && i < j
    && if |xs| == 1 then j == e && !At(s, j, ", ")
       else At(s, j, ", ") && ItemsRead(s, j + 2, readAt, xs[1..], e)
  }

  /** Items read one by one are read as a list. */
  lemma {:induction false} ReadListAll<T>(s: string, i: nat, readAt: (string, nat) -> Option<(T, nat)>,
                                          xs: seq<T>, e: nat)
    requires ItemsRead(s, i, readAt, xs, e)
    ensures ReadListAt(s, i, readAt) == Some((xs, e))
    decreases |xs|
  {
    if |xs| > 1 {
      ReadListAll(s, readAt(s, i).value.1 + 2, readAt, xs[1..], e);
      assert [xs[0]] + xs[1..] == xs;
    } else {
      assert xs == [xs[0]];
    }
  }

  /** One item read from `i` and ending at `e`, with no `, ` after it. */
  lemma ItemsReadOne<T>(s: string, i: nat, readAt: (string, nat) -> Option<(T, nat)>, x: T, e: nat)
    requires readAt(s, i) == Some((x, e)) && i < e && !At(s, e, ", ")
    ensures ItemsRead(s, i, readAt, [x], e)
  {
  }

  /** An item read from `i` and followed by `, ` and more items. */
  lemma ItemsReadCons<T>(s: string, i: nat, readAt: (string, nat) -> Option<(T, nat)>,
                             xs: seq<T>, j: nat, e: nat)
    requires |xs| > 1 && readAt(s, i) == Some((xs[0], j)) && i < j && At(s, j, ", ")
    requires ItemsRead(s, j + 2, readAt, xs[1..], e)
    ensures ItemsRead(s, i, readAt, xs, e)
  {
  }

  /** An entry, followed by a character that is not a digit, reads back as
      its key and value. */
  lemma ReadEntry(s: string, i: nat, key: string, value: int, e: nat)
    requires '"' !in key
    requires At(s, i, OffsetEntry(key, value)) && e == i + |OffsetEntry(key, value)|
    requires e < |s| && !IsDigit(s[e])
    ensures ParseEntryAt(s, i) == Some(((key, value), e))
  {
    var k := i + 1 + |key|;
    var sd := SignedDecimal(value);
    assert At(s, i, "\"" + key + "\": ") && At(s, k + 3, sd) by {
      AtSplit(s, i, "\"" + key + "\": ", sd);
    }
    assert s[i] == '"' && FindFrom(s, i + 1, '"') == k && s[i + 1..k] == key && At(s, k, "\": ") by {
      AtSplit(s, i, "\"" + key, "\": ");
      AtSplit(s, i, "\"", key);
      AtHead(s, i, "\"");
      AtHead(s, k, "\": ");
      FindFromAt(s, i + 1, key, '"');
      AtSlice(s, i + 1, key);
    }
    assert ParseIntAt(s, k + 3) == Some((value, e)) by {
      ParseIntSigned(s, k + 3, value);
    }
  }

  /** The entry for `key` and `value` stands at position `i` of `s`, its key
      holds no `"` and a character that is not a digit follows it. */
  predicate EntryFollowed(s: string, i: nat, key: string, value: int) {
    var e := i + |OffsetEntry(key, value)|;
    '"' !in key && At(s, i, OffsetEntry(key, value)) && e < |s| && !IsDigit(s[e])
  }

  /** `readAt` reads every entry that stands followed by a non-digit back as
      its key and value. */
  ghost predicate ReadsEntries(readAt: (string, nat) -> Option<((string, int), nat)>) {
    forall s: string, i: nat, key: string, value: int {:trigger EntryFollowed(s, i, key, value)} ::
      EntryFollowed(s, i, key, value) ==> readAt(s, i) == Some(((key, value), i + |OffsetEntry(key, value)|))
  }

  /** `ParseEntryAt` is such a reader. */
  lemma EntryReader()
    ensures ReadsEntries(ParseEntryAt)
  {
    forall s: string, i: nat, key: string, value: int | EntryFollowed(s, i, key, value)
      ensures ParseEntryAt(s, i) == Some(((key, value), i + |OffsetEntry(key, value)|))
    {
      ReadEntry(s, i, key, value, i + |OffsetEntry(key, value)|);
    }
  }

  /** A reader of single entries reads an entry that stands followed by a
      non-digit. */
  lemma ReaderGives(readAt: (string, nat) -> Option<((string, int), nat)>, s: string, i: nat, x: (string, int))
    requires ReadsEntries(readAt) && EntryFollowed(s, i, x.0, x.1)
    ensures readAt(s, i) == Some((x, i + |OffsetEntry(x.0, x.1)|))
  {
  }

  /** The last entry, followed by `}`, stands followed by a non-digit and has
      no `, ` after it. */
  lemma LastEntryStands(s: string, i: nat, x: (string, int), j: nat)
    requires '"' !in x.0
    requires At(s, i, OffsetEntry(x.0, x.1) + "}") && j == i + |OffsetEntry(x.0, x.1)|
    ensures EntryFollowed(s, i, x.0, x.1) && !At(s, j, ", ")
  {
    AtSplit(s, i, OffsetEntry(x.0, x.1), "}");
    AtHead(s, j, "}");
    assert s[j + 0] != ", "[0];
  }

  /** An entry followed by `, ` and more stands followed by a non-digit, and
      the rest stands after the separator. */
  lemma NextEntryStands(s: string, i: nat, x: (string, int), rest: string, j: nat)
    requires '"' !in x.0
    requires At(s, i, OffsetEntry(x.0, x.1) + ", " + rest + "}") && j == i + |OffsetEntry(x.0, x.1)|
    ensures EntryFollowed(s, i, x.0, x.1) && At(s, j, ", ") && At(s, j + 2, rest + "}")
  {
    var first := OffsetEntry(x.0, x.1);
    assert first + ", " + rest + "}" == first + (", " + (rest + "}"));
    AtThree(s, i, first, ", ", rest + "}");
    AtHead(s, j, ", ");
  }

  /** Entries joined by `, ` and followed by `}` are read back one by one,
      by any reader of single entries, when no key holds a `"`. */
  lemma {:induction false} EntriesRead(s: string, i: nat, offsets: seq<(string, int)>, e: nat,
                                       readAt: (string, nat) -> Option<((string, int), nat)>)
    requires |offsets| > 0 && ReadsEntries(readAt)
    requires forall k :: 0 <= k < |offsets| ==> '"' !in offsets[k].0
    requires At(s, i, Join(", ", OffsetEntries(offsets)) + "}")
    requires e == i + |Join(", ", OffsetEntries(offsets))|
    ensures ItemsRead(s, i, readAt, offsets, e)
    decreases |offsets|
  {
    var x := offsets[0];
    var first := OffsetEntry(x.0, x.1);
    var j := i + |first|;
    if |offsets| == 1 {
      assert readAt(s, i) == Some((x, e)) && i < e && !At(s, e, ", ") by {
        assert Join(", ", OffsetEntries(offsets)) == first;
        LastEntryStands(s, i, x, j);
        ReaderGives(readAt, s, i, x);
      }
      assert offsets == [x];
      ItemsReadOne(s, i, readAt, x, e);
    } else {
      var rest := Join(", ", OffsetEntries(offsets[1..]));
      assert readAt(s, i) == Some((offsets[0], j)) && i < j && At(s, j, ", ")
        && At(s, j + 2, rest + "}") && e == j + 2 + |rest| by {
        assert Join(", ", OffsetEntries(offsets)) == first + ", " + rest by {
          assert OffsetEntries(offsets)[1..] == OffsetEntries(offsets[1..]);
        }
        NextEntryStands(s, i, x, rest, j);
        ReaderGives(readAt, s, i, x);
      }
      PlainKeysTail(offsets);
      EntriesRead(s, j + 2, offsets[1..], e, readAt);
      ItemsReadCons(s, i, readAt, offsets, j, e);
    }
  }

  lemma PlainKeysTail(offsets: seq<(string, int)>)
    requires |offsets| > 0
    requires forall k :: 0 <= k < |offsets| ==> '"' !in offsets[k].0
    ensures forall k :: 0 <= k < |offsets[1..]| ==> '"' !in offsets[1..][k].0
  {
    forall k | 0 <= k < |offsets| - 1
      ensures '"' !in offsets[1..][k].0
    {
      assert offsets[1..][k] == offsets[k + 1];
    }
  }

  /** The offsets are read back from their text when no key holds a `"`. */
  lemma OffsetsRoundTrip(offsets: seq<(string, int)>)
    requires forall k :: 0 <= k < |offsets| ==> '"' !in offsets[k].0
    ensures ParseOffsets(OffsetsJson(offsets)) == Some(offsets)
  {
    if offsets != [] {
      var s := OffsetsJson(offsets);
      var body := Join(", ", OffsetEntries(offsets));
      var e := 1 + |body|;
      assert |s| == e + 1 && s[0] == '{' && s[e] == '}' && s != "{}" && At(s, 1, body + "}") by {
        assert s == "{" + (body + "}");
        AtSuffix(s, "{", body + "}");
      }
      assert ReadListAt(s, 1, ParseEntryAt) == Some((offsets, e)) by {
        EntryReader();
        EntriesRead(s, 1, offsets, e, ParseEntryAt);
        ReadListAll(s, 1, ParseEntryAt, offsets, e);
      }
    }
  }

  /** Offsets whose keys hold no `"` and that render alike are equal. */
  lemma OffsetsJsonInjective(a: seq<(string, int)>, b: seq<(string, int)>)
    requires forall k :: 0 <= k < |a| ==> '"' !in a[k].0
    requires forall k :: 0 <= k < |b| ==> '"' !in b[k].0
    requires OffsetsJson(a) == OffsetsJson(b)
    ensures a == b
  {
    OffsetsRoundTrip(a);
    OffsetsRoundTrip(b);
  }

  /** The offsets the command line writes render as `{"google": 0}`. */
  lemma GoogleOffsets()
    ensures OffsetsJson([("google", 0)]) == "{\"google\": 0}"
  {
    assert OffsetEntries([("google", 0)]) == [OffsetEntry("google", 0)];
    assert SignedDecimal(0) == "0";
  }

  /** The offsets text is a single line when no key holds a line break. */
  lemma OffsetsOneLine(offsets: seq<(string, int)>)
    requires forall i :: 0 <= i < |offsets| ==> '\n' !in offsets[i].0
    ensures '\n' !in OffsetsJson(offsets)
  {
    var entries := OffsetEntries(offsets);
    forall i | 0 <= i < |entries|
      ensures '\n' !in entries[i]
    {
      SignedDecimalAvoids(offsets[i].1, '\n');
    }
    JoinAvoids(", ", entries, '\n');
  }

  /** File rendering */

  /** `str(f)` of each filter, in list order. */
  function FilterTexts(fs: seq<VideoSkipFilter>): seq<string> {
    seq(|fs|, i requires 0 <= i < |fs| => FilterToString(fs[i]))
  }

  /** `str(file)`: the screenshot text, the filter texts joined by blank
      lines, the offsets, and the image, each pair of them separated by a
      blank line; that is, the sections joined by blank lines. */
  function FileToString(f: VideoSkipFile): (s: string)
    ensures s == Join("\n\n", Sections(f))
  {
    var filters := Join("\n\n", FilterTexts(f.filters));
    SectionsJoin(f);
    ScreenshotToString(f.screenshot) + "\n\n" + filters + "\n\n"
      + OffsetsJson(f.serviceOffsets) + "\n\n" + f.screenshot.imageBase64
  }

  /** The sections of the text, one per blank-line-separated piece: with no
      filters, the filter section is empty. */
  function FilterSections(fs: seq<VideoSkipFilter>): (parts: seq<string>)
    ensures |parts| >= 1
  {
    if fs == [] then [""] else FilterTexts(fs)
  }

  function Sections(f: VideoSkipFile): (parts: seq<string>)
    ensures |parts| >= 4
  {
    [ScreenshotToString(f.screenshot)] + FilterSections(f.filters)
      + [OffsetsJson(f.serviceOffsets), f.screenshot.imageBase64]
  }

  /** Reading a file text back */

  /** What a file text gives back: the screenshot's timestamp and
      description, the filters, the offsets text and the image. */
  datatype FileText = FileText(
    timestamp: int,
    description: string,
    filters: seq<VideoSkipFilter>,
    offsets: string,
    imageBase64: string)

  /** Reads each text in order; fails when one of them fails. */
  function ReadEach<T>(texts: seq<string>, read: string -> Option<T>): Option<seq<T>> {
    if texts == [] then Some([])
    else
      var x :- read(texts[0]);
      var rest :- ReadEach(texts[1..], read);
      Some([x] + rest)
  }

  /** Reads the sections: the screenshot first, the offsets and the image
      last, and the filters (or one empty section) between them. */
  function ParseSections(parts: seq<string>): Option<FileText> {
    if |parts| < 4 then None
    else
      var sc :- ParseScreenshot(parts[0]);
      var middle := parts[1..|parts| - 2];
      var fs :- if middle == [""] then Some([]) else ReadEach(middle, ParseFilter);
      Some(FileText(sc.0, sc.1, fs, parts[|parts| - 2], parts[|parts| - 1]))
  }

  /** Splits a file text at its blank lines and reads the sections. */
  function ParseFile(s: string): Option<FileText> {
    ParseSections(SplitBlank(s))
  }

  /** A filter whose category and action are single words and whose text
      fields hold no line break. */
  predicate PlainFilter(g: VideoSkipFilter) {
    ' ' !in g.category && ' ' !in g.action && '\n' !in g.category + g.action + g.description
  }

  /** The texts a file is read back from: a description that holds no blank
      line and neither is empty nor starts with a line break, plain
      filters, offset keys without line breaks or `"`, and an image without
      line breaks. */
  predicate Readable(f: VideoSkipFile) {
    var d := f.screenshot.description;
    && |d| > 0 && d[0] != '\n' && NoBlankLine(d)
    && (forall i :: 0 <= i < |f.filters| ==> PlainFilter(f.filters[i]))
    && (forall i :: 0 <= i < |f.serviceOffsets| ==> '\n' !in f.serviceOffsets[i].0 && '"' !in f.serviceOffsets[i].0)
    && '\n' !in f.screenshot.imageBase64
  }

  /** Layout */

  /** The pieces of `str(file)` are the sections joined by blank lines. */
  lemma SectionsJoin(f: VideoSkipFile)
    ensures ScreenshotToString(f.screenshot) + "\n\n" + Join("\n\n", FilterTexts(f.filters)) + "\n\n"
      + OffsetsJson(f.serviceOffsets) + "\n\n" + f.screenshot.imageBase64 == Join("\n\n", Sections(f))
  {
    var a := ScreenshotToString(f.screenshot);
    var fs := FilterSections(f.filters);
    var o, img := OffsetsJson(f.serviceOffsets), f.screenshot.imageBase64;
    assert Join("\n\n", fs) == Join("\n\n", FilterTexts(f.filters));
    assert ([a] + fs)[1..] == fs;
    assert Join("\n\n", [a] + fs) == a + "\n\n" + Join("\n\n", fs);
    assert Join("\n\n", [o, img]) == o + "\n\n" + img by {
      assert [o, img][1..] == [img];
    }
    JoinAppend("\n\n", [a] + fs, [o, img]);
    Regroup(a, Join("\n\n", fs), o, img);
  }

  /** Moves the brackets of the five-piece concatenation. */
  lemma Regroup(a: string, m: string, o: string, img: string)
    ensures (a + "\n\n" + m) + "\n\n" + (o + "\n\n" + img) == a + "\n\n" + m + "\n\n" + o + "\n\n" + img
  {
  }

  /** The layout of `str(file)`: with filters, every section, each filter
      text in list order, separated by exactly one blank line; with none,
      the screenshot text is followed by two blank lines and the offsets. */
  lemma FileLayout(f: VideoSkipFile)
    ensures f.filters != [] ==>
      FileToString(f) == Join("\n\n", [ScreenshotToString(f.screenshot)] + FilterTexts(f.filters)
                                      + [OffsetsJson(f.serviceOffsets), f.screenshot.imageBase64])
    ensures f.filters == [] ==>
      FileToString(f) == ScreenshotToString(f.screenshot) + "\n\n\n\n" + OffsetsJson(f.serviceOffsets)
                         + "\n\n" + f.screenshot.imageBase64
  {
    if f.filters == [] {
      assert Join("\n\n", FilterTexts(f.filters)) == "";
      EmptyMiddle(ScreenshotToString(f.screenshot), OffsetsJson(f.serviceOffsets), f.screenshot.imageBase64);
    }
  }

  lemma EmptyMiddle(a: string, o: string, img: string)
    ensures a + "\n\n" + "" + "\n\n" + o + "\n\n" + img == a + "\n\n\n\n" + o + "\n\n" + img
  {
    assert a + "\n\n" + "" == a + "\n\n";
  }

  /** The text begins with the screenshot text and ends with the image,
      verbatim. */
  lemma FileEnds(f: VideoSkipFile)
    ensures var s, a := FileToString(f), ScreenshotToString(f.screenshot);
      |a| <= |s| && s[..|a|] == a
    ensures var s, img := FileToString(f), f.screenshot.imageBase64;
      |img| <= |s| && s[|s| - |img|..] == img
  {
    PrefixAndSuffix(FileToString(f), ScreenshotToString(f.screenshot), Join("\n\n", FilterTexts(f.filters)),
      OffsetsJson(f.serviceOffsets), f.screenshot.imageBase64);
  }

  lemma PrefixAndSuffix(s: string, a: string, m: string, o: string, b: string)
    requires s == a + "\n\n" + m + "\n\n" + o + "\n\n" + b
    ensures |a| <= |s| && s[..|a|] == a
    ensures |b| <= |s| && s[|s| - |b|..] == b
  {
  }

  /** Reading back */

  /** Each section of a readable file holds no blank line. */
  lemma SectionsNoBlank(f: VideoSkipFile)
    requires Readable(f)
    ensures forall i :: 0 <= i < |Sections(f)| ==> NoBlankLine(Sections(f)[i])
  {
    var sc := f.screenshot;
    assert NoBlankLine(ScreenshotToString(sc)) by {
      Timedelta.ToStringOneLine(sc.timestamp);
      LineThenText(Timedelta.ToString(sc.timestamp), sc.description);
    }
    FilterSectionsNoBlank(f.filters);
    assert NoBlankLine(OffsetsJson(f.serviceOffsets)) by {
      OffsetsOneLine(f.serviceOffsets);
      NoBreakNoBlank(OffsetsJson(f.serviceOffsets));
    }
    NoBreakNoBlank(sc.imageBase64);
    NoBlankParts(Sections(f), ScreenshotToString(sc), FilterSections(f.filters),
      OffsetsJson(f.serviceOffsets), sc.imageBase64);
  }

  lemma NoBlankParts(parts: seq<string>, a: string, middle: seq<string>, o: string, img: string)
    requires parts == [a] + middle + [o, img]
    requires NoBlankLine(a) && NoBlankLine(o) && NoBlankLine(img)
    requires forall i :: 0 <= i < |middle| ==> NoBlankLine(middle[i])
    ensures forall i :: 0 <= i < |parts| ==> NoBlankLine(parts[i])
  {
    forall i | 0 <= i < |parts|
      ensures NoBlankLine(parts[i])
    {
      if 0 < i <= |middle| {
        assert parts[i] == middle[i - 1];
      }
    }
  }

  /** The filter section holds no blank line when every filter is plain. */
  lemma FilterSectionsNoBlank(fs: seq<VideoSkipFilter>)
    requires forall i :: 0 <= i < |fs| ==> PlainFilter(fs[i])
    ensures forall i :: 0 <= i < |FilterSections(fs)| ==> NoBlankLine(FilterSections(fs)[i])
  {
    forall i | 0 <= i < |fs|
      ensures NoBlankLine(FilterToString(fs[i]))
    {
      FilterNoBlank(fs[i]);
    }
  }

  /** A plain filter's text holds no blank line. */
  lemma FilterNoBlank(g: VideoSkipFilter)
    requires PlainFilter(g)
    ensures NoBlankLine(FilterToString(g))
  {
    TimeRangeOneLine(g);
    DetailsOneLine(g);
    var d := Details(g);
    assert d[0] in d;
    NoBreakNoBlank(d);
    LineThenText(TimeRange(g), d);
  }

  /** Splitting a readable file's text at blank lines gives its sections
      back. */
  lemma SplitSections(f: VideoSkipFile)
    requires Readable(f)
    ensures SplitBlank(FileToString(f)) == Sections(f)
  {
    SectionsNoBlank(f);
    SplitBlankJoin(Sections(f));
  }

  /** Texts that each read back as the matching value read back as the
      values, in order. */
  lemma {:induction false} ReadEachAll<T>(texts: seq<string>, read: string -> Option<T>, xs: seq<T>)
    requires |texts| == |xs|
    requires forall i :: 0 <= i < |xs| ==> read(texts[i]) == Some(xs[i])
    ensures ReadEach(texts, read) == Some(xs)
  {
    if xs != [] {
      forall i | 0 <= i < |xs| - 1
        ensures read(texts[1..][i]) == Some(xs[1..][i])
      {
        assert texts[1..][i] == texts[i + 1];
      }
      ReadEachAll(texts[1..], read, xs[1..]);
      assert xs == [xs[0]] + xs[1..];
    }
  }

  /** The filter section reads back as the filters: one empty section for
      none, else each filter text in order. */
  lemma FilterSectionsRead(fs: seq<VideoSkipFilter>)
    requires forall i :: 0 <= i < |fs| ==> PlainFilter(fs[i])
    ensures fs == [] ==> FilterSections(fs) == [""]
    ensures fs != [] ==> FilterSections(fs) != [""] && ReadEach(FilterSections(fs), ParseFilter) == Some(fs)
  {
    if fs != [] {
      var ts := FilterTexts(fs);
      forall i | 0 <= i < |fs|
        ensures ParseFilter(ts[i]) == Some(fs[i])
      {
        FilterRoundTrip(fs[i]);
      }
      ReadEachAll(ts, ParseFilter, fs);
      assert ts[0] != "" by {
        assert |ts[0]| == |FilterToString(fs[0])|;
      }
    }
  }

  /** Sections with a screenshot text first, the filter section in the
      middle and the offsets and image last read back piece by piece. */
  lemma ReadSections(parts: seq<string>, a: string, middle: seq<string>, o: string, img: string,
                     ts: int, desc: string, fs: seq<VideoSkipFilter>)
    requires parts == [a] + middle + [o, img] && |middle| >= 1
    requires ParseScreenshot(a) == Some((ts, desc))
    requires middle == [""] ==> fs == []
    requires middle != [""] ==> ReadEach(middle, ParseFilter) == Some(fs)
    ensures ParseSections(parts) == Some(FileText(ts, desc, fs, o, img))
  {
    assert parts[1..|parts| - 2] == middle;
  }

  /** The sections of a readable file read back as its content. */
  lemma ParseSectionsOf(f: VideoSkipFile)
    requires Readable(f)
    ensures ParseSections(Sections(f)) == Some(FileText(f.screenshot.timestamp, f.screenshot.description,
      f.filters, OffsetsJson(f.serviceOffsets), f.screenshot.imageBase64))
  {
    ScreenshotRoundTrip(f.screenshot);
    FilterSectionsRead(f.filters);
    ReadSections(Sections(f), ScreenshotToString(f.screenshot), FilterSections(f.filters),
      OffsetsJson(f.serviceOffsets), f.screenshot.imageBase64,
      f.screenshot.timestamp, f.screenshot.description, f.filters);
  }

  /** A readable file's text is read back as the screenshot's timestamp and
      description, every filter in order, the offsets text and the image. */
  lemma FileRoundTrip(f: VideoSkipFile)
    requires Readable(f)
    ensures ParseFile(FileToString(f)) == Some(FileText(f.screenshot.timestamp, f.screenshot.description,
      f.filters, OffsetsJson(f.serviceOffsets), f.screenshot.imageBase64))
  {
    SplitSections(f);
    ParseSectionsOf(f);
  }

  /** Readable files with the same text agree on everything rendered: the
      timestamp, the description, the filters, the offsets and the image. */
  lemma FileToStringInjective(f: VideoSkipFile, g: VideoSkipFile)
    requires Readable(f) && Readable(g)
    requires FileToString(f) == FileToString(g)
    ensures f == g
  {
    FileRoundTrip(f);
    FileRoundTrip(g);
    OffsetsJsonInjective(f.serviceOffsets, g.serviceOffsets);
  }

  /** A file with a screenshot taken at 10.5 seconds, no filters and the
      offsets the command line writes: the timestamp line, the description
      line, three empty lines, the offsets line, one empty line and the
      image. */
  lemma NoFiltersExample(image: string)
    ensures FileToString(VideoSkipFile(VideoSkipScreenshot(image, 10_500_000, "screenshot"), [], [("google", 0)]))
      == "0:00:10.500000\nscreenshot\n\n\n\n{\"google\": 0}\n\n" + image
  {
    var sc := VideoSkipScreenshot(image, 10_500_000, "screenshot");
    FileLayout(VideoSkipFile(sc, [], [("google", 0)]));
    GoogleOffsets();
    ScreenshotText(sc);
    LiteralLayout("0:00:10.500000\nscreenshot", "{\"google\": 0}", image);
  }

  lemma ScreenshotText(sc: VideoSkipScreenshot)
    requires sc.timestamp == 10_500_000 && sc.description == "screenshot"
    ensures ScreenshotToString(sc) == "0:00:10.500000\nscreenshot"
  {
    var t := "0:00:10.500000";
    assert Timedelta.ToString(sc.timestamp) == t by {
      Timedelta.TenAndAHalfSeconds();
    }
    ScreenshotOfText(sc, t);
    LiteralLine(t, sc.description);
  }

  lemma LiteralLine(t: string, d: string)
    requires t == "0:00:10.500000" && d == "screenshot"
    ensures t + "\n" + d == "0:00:10.500000\nscreenshot"
  {
  }

  lemma ScreenshotOfText(sc: VideoSkipScreenshot, t: string)
    requires Timedelta.ToString(sc.timestamp) == t
    ensures ScreenshotToString(sc) == t + "\n" + sc.description
  {
  }

  lemma LiteralLayout(a: string, o: string, image: string)
    requires a == "0:00:10.500000\nscreenshot" && o == "{\"google\": 0}"
    ensures a + "\n\n\n\n" + o + "\n\n" + image == "0:00:10.500000\nscreenshot\n\n\n\n{\"google\": 0}\n\n" + image
  {
  }
}
