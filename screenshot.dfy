/** The screenshot record of a VideoSkip file and its two-line text: the
    timestamp, then the description. */
module Screenshot {

  import opened Wrappers
  import opened Strings
  import Timedelta

  /** `VideoSkipScreenshot`: the encoded image, where in the video it was
      taken (in microseconds) and a free-text description. */
  datatype VideoSkipScreenshot = VideoSkipScreenshot(
    imageBase64: string,
    timestamp: int,
    description: string)

  /** `str(screenshot)`: the rendered timestamp, a line break and the
      description. The image is not part of the text. The first line is the
      rendered timestamp, and the description follows it verbatim after the
      first line break. */
  function ScreenshotToString(sc: VideoSkipScreenshot): (s: string)
    ensures FirstLine(s) == Timedelta.ToString(sc.timestamp) && |FirstLine(s)| < |s|
    ensures s[|Timedelta.ToString(sc.timestamp)| + 1..] == sc.description
  {
    Timedelta.ToStringOneLine(sc.timestamp);
    FirstLineOf(Timedelta.ToString(sc.timestamp), sc.description);
    Timedelta.ToString(sc.timestamp) + "\n" + sc.description
  }

  /** Reads a screenshot text back: the duration on the first line and
      everything after that line break as the description. */
  function ParseScreenshot(s: string): Option<(int, string)> {
    var t :- Timedelta.ParseAt(s, 0);
    var p :- SkipAt(s, t.1, '\n');
    Some((t.0, s[p..]))
  }

  /** Reading with the duration read and the line break found. */
  lemma ParseScreenshotSteps(s: string, ts: int, e: nat)
    requires Timedelta.ParseAt(s, 0) == Some((ts, e))
    requires e < |s| && s[e] == '\n'
    ensures ParseScreenshot(s) == Some((ts, s[e + 1..]))
  {
  }

  /** The text of a screenshot is read back as its timestamp and its
      description, whatever the description holds. */
  lemma ScreenshotRoundTrip(sc: VideoSkipScreenshot)
    ensures ParseScreenshot(ScreenshotToString(sc)) == Some((sc.timestamp, sc.description))
  {
    AtWhole(ScreenshotToString(sc));
    ReadScreenshotText(ScreenshotToString(sc), sc.timestamp, sc.description);
  }

  /** A rendered duration, a line break and then `desc` read back as the
      duration and `desc`. */
  lemma ReadScreenshotText(s: string, ts: int, desc: string)
    requires At(s, 0, Timedelta.ToString(ts) + "\n" + desc)
    requires |s| == |Timedelta.ToString(ts)| + 1 + |desc|
    ensures ParseScreenshot(s) == Some((ts, desc))
  {
    var e := |Timedelta.ToString(ts)|;
    assert s[e] == '\n' && s[e + 1..] == desc by {
      AtSplit(s, 0, Timedelta.ToString(ts) + "\n", desc);
      AtSplit(s, 0, Timedelta.ToString(ts), "\n");
      AtHead(s, e, "\n");
      AtTail(s, e + 1, desc);
    }
    assert Timedelta.ParseAt(s, 0) == Some((ts, e)) by {
      AtSplit(s, 0, Timedelta.ToString(ts) + "\n", desc);
      AtSplit(s, 0, Timedelta.ToString(ts), "\n");
      Timedelta.ParseAtToString(s, 0, ts, e);
    }
    ParseScreenshotSteps(s, ts, e);
  }

  /** The image does not take part in the text: screenshots that agree on
      timestamp and description render alike. */
  lemma ImageNotRendered(a: VideoSkipScreenshot, b: VideoSkipScreenshot)
    requires a.timestamp == b.timestamp && a.description == b.description
    ensures ScreenshotToString(a) == ScreenshotToString(b)
  {
  }

  /** With a one-line description the text is exactly two lines. */
  lemma ScreenshotTwoLines(sc: VideoSkipScreenshot)
    requires '\n' !in sc.description
    ensures CountChar(ScreenshotToString(sc), '\n') == 1
  {
    var t := Timedelta.ToString(sc.timestamp);
    Timedelta.ToStringOneLine(sc.timestamp);
    CountCharAbsent(t, '\n');
    CountCharAbsent(sc.description, '\n');
    CountCharAppend(t, "\n", '\n');
    CountCharAppend(t + "\n", sc.description, '\n');
    assert CountChar("\n", '\n') == 1;
  }
}
