/**
 * Transcript fetching helpers: the video id taken from a YouTube URL, the
 * `[MM:SS] text` serialisation of transcript snippets, and the layout of the
 * saved transcript file. Fetching from YouTube and writing the file are I/O and
 * stay outside the model.
 */
module GetTranscripts {
  import opened Wrappers
  import opened Text
  import opened Patterns

  // ------------------------------------------------------------ video id

  /** `[a-zA-Z0-9_-]` */
  predicate IdChar(c: char) {
    ('a' <= c <= 'z') || ('A' <= c <= 'Z') || ('0' <= c <= '9') || c == '_' || c == '-'
  }

  /** Eleven id characters start at `i`. */
  predicate IdAt(s: string, i: nat) {
    i + 11 <= |s| && forall k :: i <= k < i + 11 ==> IdChar(s[k])
  }

  /** The regex `(?:v=|youtu\.be/)([a-zA-Z0-9_-]{11})` tried at position `p`:
      the group it captures, if it matches there. */
  function MatchAt(s: string, p: nat): (r: Option<string>)
    ensures r.Some? ==> |r.value| == 11 && forall k :: 0 <= k < 11 ==> IdChar(r.value[k])
  {
    if OccursAt(s, "v=", p) && IdAt(s, p + 2) then Some(s[p + 2..p + 13])
    else if OccursAt(s, "youtu.be/", p) && IdAt(s, p + 9) then Some(s[p + 9..p + 20])
    else None
  }

  /** `re.search` from position `p` on: the first position that matches wins. */
  function ScanFrom(s: string, p: nat): Option<string>
    decreases |s| - p
  {
    if p >= |s| then None
    else match MatchAt(s, p)
      case Some(id) => Some(id)
      case None => ScanFrom(s, p + 1)
  }

  /** `extract_video_id`: the captured id of the leftmost match, or ValueError. */
  function ExtractVideoId(url: string): (r: Result<string, string>)
    ensures r.Success? ==> |r.value| == 11 && forall k :: 0 <= k < 11 ==> IdChar(r.value[k])
  {
    match ScanFrom(url, 0)
    case Some(id) =>
      ScanFromLeftmost(url, 0);
      Success(id)
    case None => Failure("Invalid YouTube URL.")
  }

  /** The scan finds nothing exactly when no position from `p` on matches. */
  lemma {:induction false} ScanFromNone(s: string, p: nat)
    ensures ScanFrom(s, p).None? <==> forall q :: p <= q < |s| ==> MatchAt(s, q).None?
    decreases |s| - p
  {
    if p < |s| && MatchAt(s, p).None? {
      ScanFromNone(s, p + 1);
    }
  }

  /** A successful scan returns the match at the leftmost matching position. */
  lemma {:induction false} ScanFromLeftmost(s: string, p: nat)
    requires ScanFrom(s, p).Some?
    ensures exists q :: p <= q < |s| && MatchAt(s, q) == ScanFrom(s, p) &&
                        (forall q' :: p <= q' < q ==> MatchAt(s, q').None?)
    decreases |s| - p
  {
    if MatchAt(s, p).None? {
      ScanFromLeftmost(s, p + 1);
      var q :| p + 1 <= q < |s| && MatchAt(s, q) == ScanFrom(s, p + 1) &&
               (forall q' :: p + 1 <= q' < q ==> MatchAt(s, q').None?);
      assert forall q' :: p <= q' < q ==> MatchAt(s, q').None?;
    } else {
      assert MatchAt(s, p) == ScanFrom(s, p);
    }
  }

  /** `extract_video_id` raises exactly when no position of the URL matches, and
      otherwise returns what the leftmost match captures. */
  lemma ExtractVideoIdLeftmost(url: string)
    ensures ExtractVideoId(url).Failure? <==> forall q :: 0 <= q < |url| ==> MatchAt(url, q).None?
    ensures ExtractVideoId(url).Success? ==>
      exists q :: 0 <= q < |url| && MatchAt(url, q) == Some(ExtractVideoId(url).value) &&
        forall q' :: 0 <= q' < q ==> MatchAt(url, q').None?
  {
    ScanFromNone(url, 0);
    if ScanFrom(url, 0).Some? {
      ScanFromLeftmost(url, 0);
    }
  }

  /** A position holding neither `v` nor `y` cannot start a match. */
  lemma NoMatchAt(s: string, p: nat)
    requires p < |s| && s[p] != 'v' && s[p] != 'y'
    ensures MatchAt(s, p).None?
  {
    assert !OccursAt(s, "v=", p) by {
      if p + 2 <= |s| {
        assert s[p..p + 2][0] == s[p];
      }
    }
    assert !OccursAt(s, "youtu.be/", p) by {
      if p + 9 <= |s| {
        assert s[p..p + 9][0] == s[p];
      }
    }
  }

  /** Positions holding neither `v` nor `y` are passed over by the scan. */
  lemma {:induction false} SkipPlain(s: string, p: nat, q: nat)
    requires p <= q <= |s| && 'v' !in s[p..q] && 'y' !in s[p..q]
    ensures ScanFrom(s, p) == ScanFrom(s, q)
    decreases q - p
  {
    if p < q {
      assert s[p] == s[p..q][0];
      NoMatchAt(s, p);
      assert s[p + 1..q] == s[p..q][1..];
      SkipPlain(s, p + 1, q);
    }
  }

  /** A `y` whose fifth successor is not `.` cannot start a match. */
  lemma DecoyNoMatch(s: string, p: nat)
    requires p + 5 < |s| && s[p] == 'y' && s[p + 5] != '.'
    ensures MatchAt(s, p).None?
  {
    assert !OccursAt(s, "v=", p) by {
      if p + 2 <= |s| {
        assert s[p..p + 2][0] == s[p];
      }
    }
    assert !OccursAt(s, "youtu.be/", p) by {
      if p + 9 <= |s| {
        assert s[p..p + 9][5] == s[p + 5];
      }
    }
  }

  /** A marker followed by eleven id characters matches at the marker. */
  lemma MatchMarker(s: string, p: nat, marker: string, id: string)
    requires marker == "v=" || marker == "youtu.be/"
    requires |id| == 11 && forall k :: 0 <= k < 11 ==> IdChar(id[k])
    requires p + |marker| + 11 <= |s|
    requires s[p..p + |marker|] == marker && s[p + |marker|..p + |marker| + 11] == id
    ensures MatchAt(s, p) == Some(id)
  {
    var n := p + |marker|;
    assert forall k :: n <= k < n + 11 ==> s[k] == id[k - n];
    assert IdAt(s, n);
    if marker == "youtu.be/" {
      assert !OccursAt(s, "v=", p) by {
        assert s[p..p + 2][0] == marker[0];
      }
    }
  }

  /** An id right after `v=` or `youtu.be/`, with neither `v` nor `y` before the
      marker, is what is extracted; characters after the eleventh are ignored. */
  lemma ExtractAfterMarker(pre: string, marker: string, id: string, rest: string)
    requires marker == "v=" || marker == "youtu.be/"
    requires 'v' !in pre && 'y' !in pre
    requires |id| == 11 && forall k :: 0 <= k < 11 ==> IdChar(id[k])
    ensures ExtractVideoId(pre + marker + id + rest) == Success(id)
  {
    var s := pre + marker + id + rest;
    var p := |pre|;
    assert s[0..p] == pre;
    SkipPlain(s, 0, p);
    var n := p + |marker|;
    assert s[p..n] == marker;
    assert s[n..n + 11] == id;
    MatchMarker(s, p, marker, id);
  }

  /** A `y` that does not begin `youtu.be/`, followed by characters that are
      neither `v` nor `y`, is passed over by the scan. */
  lemma SkipDecoy(s: string, p: nat, q: nat)
    requires p < q <= |s| && p + 5 < |s| && s[p] == 'y' && s[p + 5] != '.'
    requires 'v' !in s[p + 1..q] && 'y' !in s[p + 1..q]
    ensures ScanFrom(s, p) == ScanFrom(s, q)
  {
    DecoyNoMatch(s, p);
    SkipPlain(s, p + 1, q);
  }

  /** A `y` that does not begin `youtu.be/` is skipped like any other character. */
  lemma ExtractAfterDecoy(pre: string, decoy: string, marker: string, id: string, rest: string)
    requires marker == "v=" || marker == "youtu.be/"
    requires 'v' !in pre && 'y' !in pre && 'v' !in decoy && 'y' !in decoy
    requires |decoy| >= 5 && decoy[4] != '.'
    requires |id| == 11 && forall k :: 0 <= k < 11 ==> IdChar(id[k])
    ensures ExtractVideoId(pre + "y" + decoy + marker + id + rest) == Success(id)
  {
    var s := pre + "y" + decoy + marker + id + rest;
    var p := |pre|;
    var q := p + 1 + |decoy|;
    var n := q + |marker|;
    assert s[0..p] == pre;
    assert s[p] == 'y' && s[p + 5] == decoy[4];
    assert s[p + 1..q] == decoy;
    assert s[q..n] == marker;
    assert s[n..n + 11] == id;
    SkipPlain(s, 0, p);
    SkipDecoy(s, p, q);
    MatchMarker(s, q, marker, id);
  }

  /** The short-link form from the repository's tests. */
  lemma ExtractShortLink()
    ensures ExtractVideoId("https://youtu.be/dQw4w9WgXcQ") == Success("dQw4w9WgXcQ")
  {
    IdLiteral();
    ShortLinkPieces();
    ExtractAfterMarker("https://", "youtu.be/", "dQw4w9WgXcQ", "");
  }

  /** The watch-page form from the repository's tests: the `y` of `youtube.com`
      before `v=` does not begin `youtu.be/`. */
  lemma ExtractWatchLink()
    ensures ExtractVideoId("https://www.youtube.com/watch?v=dQw4w9WgXcQ") == Success("dQw4w9WgXcQ")
  {
    IdLiteral();
    WatchLinkPieces();
    ExtractAfterDecoy("https://www.", "outube.com/watch?", "v=", "dQw4w9WgXcQ", "");
  }

  lemma ShortLinkPieces()
    ensures "https://" + "youtu.be/" + "dQw4w9WgXcQ" + "" == "https://youtu.be/dQw4w9WgXcQ"
  {
  }

  lemma WatchLinkPieces()
    ensures "https://www." + "y" + "outube.com/watch?" + "v=" + "dQw4w9WgXcQ" + ""
      == "https://www.youtube.com/watch?v=dQw4w9WgXcQ"
  {
  }

  lemma IdLiteral()
    ensures forall k :: 0 <= k < 11 ==> IdChar("dQw4w9WgXcQ"[k])
  {
  }

  // ------------------------------------------------------------ formatting

  /** A transcript snippet: its text and its start time in whole seconds (the
      float start rounded down, which is all `// 60` and `% 60` then use). */
  datatype Snippet = Snippet(text: string, start: nat)

  /** `f"{minutes:02d}:{seconds:02d}"` */
  function Clock(start: nat): string {
    Pad2(start / 60) + ":" + Pad2(start % 60)
  }

  /** `f"[{time_str}] {t.text}"` */
  function Line(t: Snippet): string {
    "[" + Clock(t.start) + "] " + t.text
  }

  function Lines(ts: seq<Snippet>): (r: seq<string>)
    ensures |r| == |ts|
  {
    seq(|ts|, k requires 0 <= k < |ts| => Line(ts[k]))
  }

  /** The clock reads back as the start time: the minutes before the colon and
      the two-digit seconds after it give `minutes * 60 + seconds == start`, with
      seconds below 60. */
  lemma ClockRoundTrip(start: nat)
    ensures |Clock(start)| >= 5 && Clock(start)[|Clock(start)| - 3] == ':'
    ensures var c := Clock(start);
      && (forall k :: 0 <= k < |c| - 3 ==> IsDigit(c[k]))
      && (forall k :: |c| - 2 <= k < |c| ==> IsDigit(c[k]))
      && DecimalValue(c[|c| - 2..]) < 60
      && DecimalValue(c[..|c| - 3]) * 60 + DecimalValue(c[|c| - 2..]) == start
  {
    var m := Pad2(start / 60);
    var sec := Pad2(start % 60);
    var c := Clock(start);
    assert |sec| == 2;
    assert c[..|c| - 3] == m;
    assert c[|c| - 2..] == sec;
    Pad2RoundTrip(start / 60);
    Pad2RoundTrip(start % 60);
  }

  /** The snippet from the repository's tests. */
  lemma HelloLine()
    ensures Line(Snippet("Hello", 0)) == "[00:00] Hello"
  {
    assert Pad2(0) == "00";
  }

  /** Under 100 minutes the clock is exactly what the cleaners delete, so a
      formatted line cleans to the space and text after it. */
  lemma LineCleaned(t: Snippet)
    requires t.start < 6000
    ensures IsTimestamp(Line(t)[..7])
    ensures RemoveTimestamps(Line(t)) == RemoveTimestamps(" " + t.text)
  {
    var l := Line(t);
    var m := Pad2(t.start / 60);
    var sec := Pad2(t.start % 60);
    assert |m| == 2 && |sec| == 2;
    assert l[..7] == "[" + m + ":" + sec + "]";
    assert l == l[..7] + (" " + t.text);
    TimestampDeleted(l[..7], " " + t.text);
  }

  /** From 100 minutes on the minutes take three digits, the clock no longer has
      the `[dd:dd]` shape, and a line without other brackets survives cleaning. */
  lemma LineSurvives(t: Snippet)
    requires t.start >= 6000 && '[' !in t.text
    ensures RemoveTimestamps(Line(t)) == Line(t)
  {
    var l := Line(t);
    var tail := Clock(t.start) + "] " + t.text;
    assert l == "[" + tail && l[1..] == tail;
    LongClockHead(t);
    BracketKept(l);
    ClockBracketFree(t.start);
    TailBracketFree(Clock(t.start), t.text);
  }

  /** A clock of 100 minutes or more has a digit where `[dd:dd]` has its colon. */
  lemma LongClockHead(t: Snippet)
    requires t.start >= 6000
    ensures var l := Line(t); |l| >= 7 && l[0] == '[' && !IsTimestamp(l[..7])
  {
    var l := Line(t);
    var m := Pad2(t.start / 60);
    assert |m| >= 3;
    assert l[3] == m[2] && IsDigit(m[2]);
    assert l[..7][3] == l[3];
  }

  lemma ClockBracketFree(start: nat)
    ensures '[' !in Clock(start)
  {
    ClockRoundTrip(start);
    var c := Clock(start);
    forall k | 0 <= k < |c| ensures c[k] != '[' {
      if k != |c| - 3 {
        assert IsDigit(c[k]);
      }
    }
  }

  lemma TailBracketFree(c: string, text: string)
    requires '[' !in c && '[' !in text
    ensures '[' !in c + "] " + text
  {
    var tail := c + "] " + text;
    forall k | 0 <= k < |tail| ensures tail[k] != '[' {
      if k >= |c| + 2 {
        assert tail[k] == text[k - |c| - 2];
      } else if k < |c| {
        assert tail[k] == c[k];
      }
    }
  }

  /** `format_transcript`, the loop over the snippets. */
  method FormatTranscript(transcript: seq<Snippet>) returns (r: string)
    ensures r == Join("\n", Lines(transcript))
    ensures transcript == [] ==> r == ""
  {
    var formatted: seq<string> := [];
    for i := 0 to |transcript|
      invariant formatted == Lines(transcript[..i])
    {
      var t := transcript[i];
      var timeStr := Pad2(t.start / 60) + ":" + Pad2(t.start % 60);
      formatted := formatted + ["[" + timeStr + "] " + t.text];
    }
    assert transcript[..|transcript|] == transcript;
    r := Join("\n", formatted);
  }

  /** A formatted line holds a newline only where its snippet text does. */
  lemma LineNoNewline(t: Snippet)
    requires '\n' !in t.text
    ensures '\n' !in Line(t)
  {
    var l := Line(t);
    var c := Clock(t.start);
    ClockRoundTrip(t.start);
    forall k | 0 <= k < |l| ensures l[k] != '\n' {
      if 1 <= k < |c| + 1 && k - 1 != |c| - 3 {
        assert l[k] == c[k - 1];
        assert IsDigit(c[k - 1]);
      } else if k >= |c| + 3 {
        assert l[k] == t.text[k - |c| - 3];
      }
    }
  }

  /** One line per snippet, in order: splitting the formatted text at newlines
      gives back the lines when no snippet text holds a newline. */
  lemma FormattedLines(ts: seq<Snippet>)
    requires ts != []
    requires forall k :: 0 <= k < |ts| ==> '\n' !in ts[k].text
    ensures Split(Join("\n", Lines(ts)), '\n') == Lines(ts)
  {
    forall k | 0 <= k < |ts| ensures '\n' !in Lines(ts)[k] {
      LineNoNewline(ts[k]);
    }
    SplitJoin('\n', Lines(ts));
  }

  // ------------------------------------------------------------ saving

  /** The output file inside the `transcripts` directory. */
  function SavePath(outputFile: string): string {
    PathJoin("transcripts", outputFile)
  }

  /** The fixed header line `save_transcript` writes after the title. */
  const Header := "Transcript with Timestamps"

  /** What `save_transcript` writes: the title, a blank line, the fixed header,
      a blank line, then the transcript text. */
  function SavedContent(title: string, text: string): string {
    title + "\n\n" + Header + "\n\n" + text
  }

  /** Read back line by line, the saved file is the title, an empty line, the
      header, an empty line, and then the transcript's own lines. */
  lemma SavedLines(title: string, text: string)
    requires '\n' !in title
    ensures Split(SavedContent(title, text), '\n') == [title, "", Header, ""] + Split(text, '\n')
  {
    assert '\n' !in Header;
    SavedShape(title, text);
    SplitBlankLines(title, Header, text);
  }

  lemma SavedShape(title: string, text: string)
    ensures SavedContent(title, text) == title + ['\n'] + (['\n'] + (Header + ['\n'] + (['\n'] + text)))
  {
    BlankLine(Header, text);
    BlankLine(title, Header + "\n\n" + text);
    assert SavedContent(title, text) == title + "\n\n" + (Header + "\n\n" + text);
  }

  /** A blank line between two pieces is two single newlines. */
  lemma BlankLine(a: string, b: string)
    ensures a + "\n\n" + b == a + ['\n'] + (['\n'] + b)
  {
    assert "\n\n" == ['\n'] + ['\n'];
  }

  /** A line followed by a blank line, then the rest. */
  lemma SplitBlankLine(a: string, rest: string)
    requires '\n' !in a
    ensures Split(a + ['\n'] + (['\n'] + rest), '\n') == [a, ""] + Split(rest, '\n')
  {
    var nl := ['\n'];
    assert nl + rest == [] + nl + rest;
    SplitCons([], '\n', rest);
    SplitCons(a, '\n', nl + rest);
  }

  /** Two lines each followed by a blank line, then free text. */
  lemma SplitBlankLines(a: string, b: string, text: string)
    requires '\n' !in a && '\n' !in b
    ensures Split(a + ['\n'] + (['\n'] + (b + ['\n'] + (['\n'] + text))), '\n')
      == [a, "", b, ""] + Split(text, '\n')
  {
    SplitBlankLine(b, text);
    SplitBlankLine(a, b + ['\n'] + (['\n'] + text));
  }
}
