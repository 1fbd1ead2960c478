# skip-subtitles in Dafny

A model of the core of `skip_subtitles`, which turns a subtitle file into a
VideoSkip filter file. There are two halves.

- **Deriving filters.** Each subtitle entry whose text a content predicate
  classifies becomes one `audio` filter. The filter covers the entry's time
  span, shifted by an offset and widened by a margin on both sides. The
  stock predicate, `has_blasphemy`, is a case-insensitive substring test
  against four words.
- **Rendering text.** A filter renders as `START --> END` and
  `CATEGORY ACTION SEVERITY (DESCRIPTION)`. A screenshot renders as its
  timestamp and description. A whole file renders as the screenshot, the
  filters, the service offsets as JSON and the image, separated by blank
  lines.

Durations are whole numbers of microseconds of either sign, the resolution
of Python's `timedelta`. They are rendered as CPython's `timedelta.__str__`
does: `H:MM:SS`, then `.ffffff` only when there are microseconds, after a
`D day(s), ` prefix when the day field is not zero. A negative duration
therefore reads `-1 day, 23:59:59.500000`.

Every rendering has a reader beside it, and a lemma proves that the reader
gives the rendered values back:

- `Timedelta.Parse` for durations;
- `Filter.ParseFilter` for filters;
- `Screenshot.ParseScreenshot` for screenshots;
- `File.ParseFile`, built on `Strings.SplitBlank` (Python's
  `str.split("\n\n")`), for whole files;
- `File.ParseOffsets` for the service offsets as JSON;
- `Util.ParseDataUrl` for data URLs, which takes the media type up to the
  last `;`.

These readers are not in the program. They exist so that "the text loses
nothing and keeps every field in its place" can be stated and proved.

Modules, one per file:

| file | module | models |
|---|---|---|
| `wrappers.dfy` | `Wrappers` | `Option` |
| `strings.dfy` | `Strings` | `str(int)`, `"%02d"`, ASCII `casefold`, `in` on strings, `sep.join`, `split("\n\n")`, first line, reading numerals and text by position, last occurrence of a character |
| `timedelta.dfy` | `Timedelta` | `timedelta(hours=…, …)` and `str(timedelta)`, plus a reader |
| `predicates.dfy` | `Predicates` | `SubtitlePredicateResult`, `has_blasphemy` |
| `filter.dfy` | `Filter` | `VideoSkipFilter` and its `__str__` |
| `screenshot.dfy` | `Screenshot` | `VideoSkipScreenshot` and its `__str__` |
| `file.dfy` | `File` | `VideoSkipFile` and its `__str__`, `json.dumps` of the offsets |
| `util.dfy` | `Util` | `get_filters_from_subtitles` (a method with a loop), `sub_to_timedelta`, `format_base64_data_url` |

`get_filters_from_subtitles` and `sub_to_timedelta` appear twice, in
`skip_subtitles/_util.py` and `skip_subtitles/util.py`, with the same text.
They are modelled once, so both copies compute the same filters on every
input. Each table row cites the first copy and names the lines of the second.

## Model

| member | source | states |
|---|---|---|
| Timedelta.ToString | skip_subtitles/_video_skip/filter.py:40 | `str(timedelta)` is never empty, and it starts with `-` exactly when the duration is negative. |
| Timedelta.Normalised | skip_subtitles/_video_skip/filter.py:40 | A duration is rendered from its days, its seconds of the day and its microseconds, which add back up to it. The seconds lie in 0..86399 and the microseconds in 0..999999, as CPython normalises a timedelta. |
| Timedelta.ParseToString | skip_subtitles/_video_skip/filter.py:40 | Every duration, including negative ones and ones longer than a day, is read back from its text. |
| Timedelta.ToStringInjective | skip_subtitles/_video_skip/filter.py:40 | Two durations with the same text are equal. |
| Timedelta.ToStringOneLine | skip_subtitles/_video_skip/screenshot.py:16 | A rendered duration holds no line break and no `>`. So it cannot break the two-line layouts or the ` --> ` arrow. |
| Timedelta.NegativeExample | skip_subtitles/_video_skip/filter.py:40 | Half a second before zero renders as `-1 day, 23:59:59.500000`. |
| Timedelta.OneDayExample | skip_subtitles/_video_skip/filter.py:40 | A day, an hour, a minute and a second render as `1 day, 1:01:01`: no plural and no fraction. |
| Timedelta.TenAndAHalfSeconds | skip_subtitles/_video_skip/screenshot.py:16 | 10.5 seconds renders as `0:00:10.500000`. |
| Predicates.HasBlasphemy | skip_subtitles/predicates.py:12-24 | `has_blasphemy` gives a result exactly when some listed word occurs in the case-folded text. |
| Predicates.HasBlasphemyIff | skip_subtitles/predicates.py:12-24 | There is a result exactly when `god`, `jesus`, `christ` or `lord` occurs in the case-folded text. The result is then category `profanity`, severity 3 and description `blasphemy auto-detected from subtitles`; otherwise it is None. |
| Predicates.AnyWordInMeansOccurs | skip_subtitles/predicates.py:19 | The short-circuiting `any` over the word list holds exactly when some folded word is a substring of the text. |
| Predicates.BlasphemyWordsFolded | skip_subtitles/predicates.py:13-19 | The listed words are already lower case, so folding them changes nothing. |
| Predicates.EmptyTextHasNoBlasphemy | skip_subtitles/predicates.py:19-24 | The empty text gives None. |
| Predicates.CaseInsensitive | skip_subtitles/predicates.py:19 | Texts that differ only in letter case give the same result. |
| Predicates.MonotoneUnderExtension | skip_subtitles/predicates.py:19 | If a text matches, every text that contains it matches. |
| Predicates.GodlyMatches | skip_subtitles/predicates.py:19 | There is no word boundary: `godly` matches. |
| Predicates.OhMyGodMatches | skip_subtitles/predicates.py:19 | `Oh my God!` matches. |
| Predicates.HelloThereDoesNotMatch | skip_subtitles/predicates.py:19-24 | `Hello there` gives None. |
| Filter.FilterToString | skip_subtitles/_video_skip/filter.py:39-40 | `str(filter)` always ends with `)`. The description, whatever it holds, is read back verbatim from the end of the text, between ` (` and that `)`. |
| Filter.FilterRoundTrip | skip_subtitles/_video_skip/filter.py:39-40 | When category and action are single words, the filter is read back whole from its text. |
| Filter.TimeRangeRoundTrip | skip_subtitles/_video_skip/filter.py:40 | The first line reads back as start, then end, unswapped and unclamped even when start is after end. |
| Filter.DetailsRoundTrip | skip_subtitles/_video_skip/filter.py:40 | When category and action are single words, the second line reads back in the order category, action, severity, description. This is not the order the fields are declared in. |
| Filter.FilterToStringInjective | skip_subtitles/_video_skip/filter.py:39-40 | Two such filters with the same text are equal. |
| Filter.FilterLines | skip_subtitles/_video_skip/filter.py:40 | The first line is `START --> END`. When category, action and description hold no line break, the text has exactly one. |
| Filter.SeverityOneDigit | skip_subtitles/_video_skip/filter.py:24-27 | A severity of 1, 2 or 3, the documented range, renders as one digit, two places after the action. |
| Screenshot.ScreenshotRoundTrip | skip_subtitles/_video_skip/screenshot.py:15-16 | The text reads back as the timestamp and the description, whatever the description holds. |
| Screenshot.ImageNotRendered | skip_subtitles/_video_skip/screenshot.py:9-16 | The image takes no part in the text. Screenshots that agree on timestamp and description render alike. |
| Screenshot.ScreenshotToString | skip_subtitles/_video_skip/screenshot.py:15-16 | The first line is the rendered timestamp, and the description follows verbatim after the first line break. |
| Screenshot.ScreenshotTwoLines | skip_subtitles/_video_skip/screenshot.py:16 | The text is exactly two lines when the description holds no line break. |
| File.FileToString | skip_subtitles/_video_skip/file.py:17-24 | `str(file)` is its sections joined by blank lines. The sections are the screenshot text, each filter text (or one empty section when there are no filters), the offsets and the image. |
| File.FileLayout | skip_subtitles/_video_skip/file.py:18-24 | With filters, the filter texts stand in list order, each separated from the next by exactly one blank line. With none, the screenshot text is followed by `\n\n\n\n` and the offsets. |
| File.FileEnds | skip_subtitles/_video_skip/file.py:20-23 | The text begins with the screenshot text and ends with the image, both verbatim. |
| File.SplitSections | skip_subtitles/_video_skip/file.py:17-24 | Splitting a readable file's text at blank lines gives its sections back. |
| File.FileRoundTrip | skip_subtitles/_video_skip/file.py:17-24 | A readable file's text reads back as the screenshot's timestamp and description, every filter in order, the offsets text and the image. |
| File.FileToStringInjective | skip_subtitles/_video_skip/file.py:17-24 | Readable files with the same text are equal. |
| File.OffsetsJson | skip_subtitles/_video_skip/file.py:22 | `json.dumps` of the offsets is a JSON object: it starts with `{` and ends with `}`, and it is `{}` exactly when there are no offsets. |
| File.OffsetsRoundTrip | skip_subtitles/_video_skip/file.py:22 | When no key holds a `"`, the offsets are read back from their text, every key and value in order. |
| File.OffsetsJsonInjective | skip_subtitles/_video_skip/file.py:22 | Two such maps with the same text are equal. |
| File.GoogleOffsets | skip_subtitles/_video_skip/file.py:22 | The offsets `{"google": 0}` render as `{"google": 0}`. |
| File.OffsetsOneLine | skip_subtitles/_video_skip/file.py:22 | The offsets text is one line when no key holds a line break. |
| File.NoFiltersExample | skip_subtitles/_video_skip/file.py:17-24 | A screenshot at 10.5 s, no filters and the offsets `{"google": 0}` give the timestamp line, the description line, three empty lines, the offsets line, one empty line and the image. |
| Util.SubToTimedelta | skip_subtitles/_util.py:34-44 | The duration is `((h*60 + m)*60 + s)*1000 + ms` milliseconds. The copy at skip_subtitles/util.py:31-41 is the same code. |
| Util.SubToTimedeltaRoundTrip | skip_subtitles/_util.py:39-44 | A subtitle time with its fields in clock ranges is given back by its duration: nothing is lost. |
| Util.SubToTimedeltaMonotone | skip_subtitles/_util.py:39-44 | A later clock time converts to a longer duration. |
| Util.GetFiltersFromSubtitles | skip_subtitles/_util.py:13-31 | The loop returns `DerivedFilters`: one `audio` filter per classified entry, in entry order, as the `Util.Derived…` rows below prove. The copy at skip_subtitles/util.py:10-28 is the same code. |
| Util.Matches | skip_subtitles/_util.py:21-23 | The positions of the classified entries all lie within the entries. |
| Util.MatchesExactly | skip_subtitles/_util.py:21-23 | Those positions strictly increase, and a position is among them exactly when the predicate gives a result for that entry. |
| Util.DerivedFromMatches | skip_subtitles/_util.py:21-30 | There is one filter per classified entry, and filter j comes from the j-th classified entry. Its start is the entry's start + offset - margin. Its end is the entry's end + offset + margin. Category, severity and description are the predicate's. The action is `audio`. The copy at skip_subtitles/util.py:18-27 is the same code. |
| Util.FilterFor | skip_subtitles/_util.py:24-31 | The filter for one entry is the entry's span widened by the margin on both sides: its width is the entry's plus twice the margin. It is shifted by the offset: its midpoint is the entry's plus the offset. The copy at skip_subtitles/util.py:21-28 is the same code. |
| Util.DerivedFilters | skip_subtitles/_util.py:21-31 | There are no more filters than entries. The copy at skip_subtitles/util.py:18-28 is the same code. |
| Util.NoneDerived | skip_subtitles/_util.py:21-23 | There are no filters exactly when the predicate gives None for every entry. |
| Util.DerivedAppend | skip_subtitles/_util.py:21-31 | Deriving works entry by entry. The filters of two runs of entries are those of the first run followed by those of the second. |
| Util.DerivedWidth | skip_subtitles/_util.py:25-26 | Each filter's end minus its start is the entry's span plus twice the margin. With a non-negative margin and an entry that does not end before it starts, the filter starts no later than it ends. A negative start is kept. The copy at skip_subtitles/util.py:22-23 is the same code. |
| Util.BlasphemyExample | skip_subtitles/_util.py:21-31 | Take `Oh my God!` from 0:00:01 to 0:00:02 and `Hello there` after it, with no offset and a half-second margin. The result is exactly one profanity `audio` filter, from 0:00:00.500 to 0:00:02.500. |
| Util.FormatBase64DataUrl | skip_subtitles/_util.py:47-70 | The data URL gives back its media type, with any `;` parameters such as `;charset=US-ASCII`, and its data, whenever the data holds no `;`. Base64 data never does. |
| Util.DataUrlExample | skip_subtitles/_util.py:66-70 | `image/jpeg` and `YXNkZg==` give `data:image/jpeg;base64,YXNkZg==`. |

## Left out

- `Timedelta`: `datetime.timedelta` belongs to Python's standard library and is not part of this model's source. Its `__str__` is modelled after CPython's behaviour.
- `File.OffsetsJson`: models `json.dumps` only for integer values and for keys that need no escaping. Float formatting (`0.0`), escaping and `ensure_ascii` are not modelled. The dictionary is kept as its entries in insertion order, and duplicate keys are not excluded.
- `File.OffsetsRoundTrip`: holds for keys without `"` only. Such a key would need escaping, which is not modelled.
- `File.OffsetsJsonInjective`: has the same restriction as `File.OffsetsRoundTrip`.
- `Strings.Casefold`: lower-cases ASCII letters only. Unicode `casefold` is not modelled.
- `Filter.FilterRoundTrip`: requires single-word category and action. With spaces the second line no longer says where one field ends.
- `Filter.FilterToString`: states the description as read back from the end of the text by `Filter.DescriptionFromEnd`, rather than as a slice equation on the text.
- `File.FileRoundTrip`: holds for readable files only. The description must be non-empty, must not start with a line break, must hold no blank line and must not end with a line break. Filter fields, offset keys and the image must hold no line break, category and action must be single words, and offset keys must hold no `"`. Otherwise the blank-line layout is ambiguous.
- `File.SplitSections`: has the same restriction as `File.FileRoundTrip`.
- `File.FileToStringInjective`: has the same restriction as `File.FileRoundTrip`.
- `Timedelta.FromParts`, `Util.SubToTimedelta`, `Util.FilterFor`: durations are unbounded integers. CPython's `timedelta` is limited to at most 999,999,999 days either way and raises `OverflowError` beyond that, in `sub_to_timedelta` and in `+ offset - margin` (skip_subtitles/_util.py:25-26). That range and its error are not modelled.
- `Util.SubToTimedeltaRoundTrip`: holds for clock-range times only (minutes and seconds below 60, milliseconds below 1000).
- `Util.SubToTimedeltaMonotone`: holds for clock-range times only.
- `get_filters_from_subtitles` is a generator. It is modelled by the list it produces, which is how the command uses it (`list(...)`). Laziness is not modelled.
- The predicate is a total function from text to an optional result. A predicate that raises is not modelled.
- Subtitle parsing (pysrt) and `text_without_tags` are not modelled. Entries are given records of start time, end time and tag-free text.
- `limit_image_resolution` (skip_subtitles/_util.py:73-91) is not modelled. It relies on PIL and floating-point division, and its branches use the `-1` sentinel as a limit: with no width limit it scales by `max_width / image.width`, a negative factor, so no scale rule could be stated.
- `image_to_base64` (skip_subtitles/_util.py:94-100) is not modelled: it is a JPEG encoder and a base64 library call.
- The command-line layer (skip_subtitles/_command.py, skip_subtitles/__main__.py) is not modelled. It covers argument parsing and file I/O, and it converts float seconds to `timedelta` with rounding.
- skip_subtitles/_command.py:79 passes `serviceOffsets=`, but the field is named `service_offsets` (skip_subtitles/_video_skip/file.py:15). The model uses the field. The map it passes, `{"google": 0}`, is covered by `File.GoogleOffsets`.
- No `name=seconds` parser for service offsets exists: the map is fixed, with a TODO, at skip_subtitles/_command.py:79-82. The model has no such parser.
- Severity is documented as 1, 2 or 3 but never checked. The model follows the code and accepts any integer.
- skip_subtitles/_predicates.py, which skip_subtitles/_util.py:10 imports, is not part of this model. The record is taken from skip_subtitles/predicates.py.
- `Util.FormatBase64DataUrl`: the round trip holds for data without `;`. The data is documented as base64, whose alphabet has no `;`, but the code does not check it, and the model does not either.
- The doctest at skip_subtitles/_util.py:67 calls a keyword-only function positionally. `Util.DataUrlExample` takes the expected value and drops the call form.
- Logging (skip_subtitles/_logging.py) and the doctest runner (test/test_doctests.py) are not modelled.
