/**
 * The regular-expression passes that several core files share, each written as
 * the left-to-right scan Python's `re` module performs:
 *   - `re.sub(r"\[\d{2}:\d{2}\]", "", text)` (both transcript cleaners);
 *   - `re.split(r"(?<=[.!?])\s+", text)` and its `' +'` variant (the two cleaners);
 *   - `re.sub(r'<thought>.*?</thought>', '', s, flags=re.DOTALL)` and the `<think>`
 *     form (every language-model reply post-processor).
 */
module Patterns {
  import opened Wrappers
  import opened Text

  // ------------------------------------------------------------ timestamps

  /** The seven characters `[dd:dd]` that `\[\d{2}:\d{2}\]` matches. */
  predicate IsTimestamp(t: string) {
    && |t| == 7 && t[0] == '[' && IsDigit(t[1]) && IsDigit(t[2]) && t[3] == ':'
    && IsDigit(t[4]) && IsDigit(t[5]) && t[6] == ']'
  }

  /** One left-to-right pass deleting non-overlapping `[dd:dd]` spans; every other
      character is kept in order. */
  function RemoveTimestamps(s: string): (r: string)
    ensures |r| <= |s|
    ensures '[' !in s ==> r == s
    decreases |s|
  {
    if |s| >= 7 && IsTimestamp(s[..7]) then RemoveTimestamps(s[7..])
    else if s == [] then []
    else
      assert '[' !in s ==> '[' !in s[1..];
      [s[0]] + RemoveTimestamps(s[1..])
  }

  /** Text without `[` passes through untouched and does not disturb what follows. */
  lemma {:induction false} TimestampFreePrefix(p: string, t: string)
    requires '[' !in p
    ensures RemoveTimestamps(p + t) == p + RemoveTimestamps(t)
    decreases |p|
  {
    if p != [] {
      var s := p + t;
      assert s[0] == p[0] && p[0] != '[';
      assert !(|s| >= 7 && IsTimestamp(s[..7])) by {
        if |s| >= 7 { assert s[..7][0] == s[0]; }
      }
      assert s[1..] == p[1..] + t;
      TimestampFreePrefix(p[1..], t);
      assert RemoveTimestamps(s) == [p[0]] + RemoveTimestamps(s[1..]);
      assert [p[0]] + p[1..] == p;
    } else {
      assert p + t == t;
    }
  }

  /** A leading `[dd:dd]` is deleted whole. */
  lemma TimestampDeleted(t: string, u: string)
    requires IsTimestamp(t)
    ensures RemoveTimestamps(t + u) == RemoveTimestamps(u)
  {
    assert (t + u)[..7] == t;
    assert (t + u)[7..] == u;
  }

  /** A `[` that does not open a timestamp is kept, and scanning resumes after it. */
  lemma BracketKept(s: string)
    requires s != [] && s[0] == '[' && !(|s| >= 7 && IsTimestamp(s[..7]))
    ensures RemoveTimestamps(s) == "[" + RemoveTimestamps(s[1..])
  {
  }

  /** The pass is not repeated: a timestamp nested two characters into another
      (`[0[00:00]0:00]`) is deleted and closes up a new timestamp that survives. */
  lemma SinglePassLeavesTimestamp(t: string)
    requires IsTimestamp(t)
    ensures RemoveTimestamps(t[..2] + t + t[2..]) == t
  {
    var s := t[..2] + t + t[2..];
    var rest := t + t[2..];
    DoubledPieces(t, s, rest);
    BracketKept(s);
    TimestampFreePrefix([t[1]], rest);
    TimestampDeleted(t, t[2..]);
    TimestampTail(t);
  }

  lemma DoubledPieces(t: string, s: string, rest: string)
    requires IsTimestamp(t) && s == t[..2] + t + t[2..] && rest == t + t[2..]
    ensures s != [] && s[0] == '[' && |s| >= 7 && !IsTimestamp(s[..7])
    ensures s[1..] == [t[1]] + rest && '[' !in [t[1]]
    ensures "[" + [t[1]] + t[2..] == t
  {
    assert s[..7][2] == t[0];
  }

  lemma TimestampTail(t: string)
    requires IsTimestamp(t)
    ensures '[' !in t[2..]
  {
    assert t[2..] == [t[2], t[3], t[4], t[5], t[6]];
  }

  // ------------------------------------------------------------ sentence split

  /** What may separate two sentences: `\s` (any whitespace) or ` ` (spaces only). */
  datatype Gap = AnyWhitespace | SpacesOnly

  predicate IsGapChar(g: Gap, c: char) {
    match g
    case AnyWhitespace => IsSpace(c)
    case SpacesOnly => c == ' '
  }

  predicate IsTerminal(c: char) {
    c == '.' || c == '!' || c == '?'
  }

  /** The lookbehind `(?<=[.!?])` holds at `i` and a gap run starts there. */
  predicate BreakAt(g: Gap, s: string, i: int) {
    0 < i < |s| && IsTerminal(s[i - 1]) && IsGapChar(g, s[i])
  }

  /** No position inside `p` where the split pattern would match. */
  predicate NoBreakInside(g: Gap, p: string) {
    forall k :: 0 < k < |p| ==> !(IsTerminal(p[k - 1]) && IsGapChar(g, p[k]))
  }

  predicate AllGap(g: Gap, w: string) {
    forall k :: 0 <= k < |w| ==> IsGapChar(g, w[k])
  }

  /** End of the greedy gap run that starts at `i`. */
  function GapEnd(g: Gap, s: string, i: nat): (j: nat)
    requires i <= |s|
    ensures i <= j <= |s|
    ensures forall k :: i <= k < j ==> IsGapChar(g, s[k])
    ensures j == |s| || !IsGapChar(g, s[j])
    decreases |s| - i
  {
    if i < |s| && IsGapChar(g, s[i]) then GapEnd(g, s, i + 1) else i
  }

  /** The pieces `re.split` returns: the current piece began at `start`, and the
      scan has reached `i`. */
  function Pieces(g: Gap, s: string, start: nat, i: nat): (r: seq<string>)
    requires start <= i <= |s|
    ensures |r| >= 1
    decreases |s| - i
  {
    if i == |s| then [s[start..]]
    else if BreakAt(g, s, i) then [s[start..i]] + Pieces(g, s, GapEnd(g, s, i), GapEnd(g, s, i))
    else Pieces(g, s, start, i + 1)
  }

  /** The separators the split consumed, in the same scan. */
  function Gaps(g: Gap, s: string, start: nat, i: nat): (r: seq<string>)
    requires start <= i <= |s|
    ensures |r| + 1 == |Pieces(g, s, start, i)|
    decreases |s| - i
  {
    if i == |s| then []
    else if BreakAt(g, s, i) then [s[i..GapEnd(g, s, i)]] + Gaps(g, s, GapEnd(g, s, i), GapEnd(g, s, i))
    else Gaps(g, s, start, i + 1)
  }

  function SplitSentences(g: Gap, s: string): seq<string> {
    Pieces(g, s, 0, 0)
  }

  function Separators(g: Gap, s: string): seq<string> {
    Gaps(g, s, 0, 0)
  }

  /** Interleaves pieces with the separators between them. */
  function Weave(ps: seq<string>, ws: seq<string>): string
    requires |ps| == |ws| + 1
    decreases |ws|
  {
    if ws == [] then ps[0] else ps[0] + ws[0] + Weave(ps[1..], ws[1..])
  }

  /** The shape of one split: pieces and separators alternate and rebuild the text;
      every separator is a maximal gap run right after `.`, `!` or `?`, which stays
      on the piece before it; no piece contains a place where the pattern matches. */
  ghost predicate SplitShape(g: Gap, s: string, ps: seq<string>, ws: seq<string>) {
    && |ps| == |ws| + 1
    && Weave(ps, ws) == s
    && (forall k :: 0 <= k < |ws| ==> ws[k] != [] && AllGap(g, ws[k]))
    && (forall k :: 0 <= k < |ws| ==> ps[k] != [] && IsTerminal(ps[k][|ps[k]| - 1]))
    && (forall k :: 0 < k < |ps| ==> ps[k] == [] || !IsGapChar(g, ps[k][0]))
    && (forall k :: 0 <= k < |ps| ==> NoBreakInside(g, ps[k]))
  }

  lemma {:induction false} PiecesShape(g: Gap, s: string, start: nat, i: nat)
    requires start <= i <= |s|
    requires start > 0 ==> start == |s| || !IsGapChar(g, s[start])
    requires forall k :: start < k < i ==> !BreakAt(g, s, k)
    ensures SplitShape(g, s[start..], Pieces(g, s, start, i), Gaps(g, s, start, i))
    decreases |s| - i, 1
  {
    if i == |s| {
      NoBreakFromScan(g, s, start, i);
      assert s[start..i] == s[start..];
    } else if BreakAt(g, s, i) {
      PiecesShapeAtBreak(g, s, start, i);
    } else {
      PiecesShape(g, s, start, i + 1);
    }
  }

  /** The step of `PiecesShape` where the scan meets a break. */
  lemma {:induction false} PiecesShapeAtBreak(g: Gap, s: string, start: nat, i: nat)
    requires start <= i < |s| && BreakAt(g, s, i)
    requires start > 0 ==> !IsGapChar(g, s[start])
    requires forall k :: start < k < i ==> !BreakAt(g, s, k)
    ensures SplitShape(g, s[start..], Pieces(g, s, start, i), Gaps(g, s, start, i))
    decreases |s| - i, 0
  {
    var j := GapEnd(g, s, i);
    assert s[start..] == s[start..i] + s[i..j] + s[j..];
    var ps, ws := Pieces(g, s, j, j), Gaps(g, s, j, j);
    assert Pieces(g, s, start, i) == [s[start..i]] + ps;
    assert Gaps(g, s, start, i) == [s[i..j]] + ws;
    var p, w := s[start..i], s[i..j];
    assert p != [] && IsTerminal(p[|p| - 1]) by { assert p[|p| - 1] == s[i - 1]; }
    assert AllGap(g, w) by {
      forall k | 0 <= k < |w| ensures IsGapChar(g, w[k]) { assert w[k] == s[i + k]; }
    }
    NoBreakFromScan(g, s, start, i);
    PiecesHead(g, s, j, j);
    PiecesShape(g, s, j, j);
    ShapeCons(g, s[start..i], s[i..j], s[j..], ps, ws,
              s[start..], Pieces(g, s, start, i), Gaps(g, s, start, i));
  }

  /** A piece and its separator put in front of a well-shaped split. */
  lemma ShapeCons(g: Gap, p: string, w: string, rest: string, ps: seq<string>, ws: seq<string>,
                  whole: string, ps': seq<string>, ws': seq<string>)
    requires SplitShape(g, rest, ps, ws)
    requires p != [] && IsTerminal(p[|p| - 1]) && NoBreakInside(g, p)
    requires w != [] && AllGap(g, w)
    requires ps[0] == [] || !IsGapChar(g, ps[0][0])
    requires whole == p + w + rest && ps' == [p] + ps && ws' == [w] + ws
    ensures SplitShape(g, whole, ps', ws')
  {
    assert ps'[1..] == ps && ws'[1..] == ws;
    assert forall k :: 0 < k < |ps'| ==> ps'[k] == ps[k - 1];
    assert forall k :: 0 < k < |ws'| ==> ws'[k] == ws[k - 1];
  }

  /** The first piece of a scan starts where the scan's current piece starts. */
  lemma {:induction false} PiecesHead(g: Gap, s: string, start: nat, i: nat)
    requires start <= i <= |s|
    ensures Pieces(g, s, start, i)[0] == [] || (start < |s| && Pieces(g, s, start, i)[0][0] == s[start])
    decreases |s| - i
  {
    if i == |s| {
    } else if BreakAt(g, s, i) {
    } else {
      PiecesHead(g, s, start, i + 1);
    }
  }

  /** A piece closed at `i` has no break inside it. */
  lemma NoBreakFromScan(g: Gap, s: string, start: nat, i: nat)
    requires start <= i <= |s|
    requires forall k :: start < k < i ==> !BreakAt(g, s, k)
    ensures NoBreakInside(g, s[start..i])
  {
    var p := s[start..i];
    forall k | 0 < k < |p| ensures !(IsTerminal(p[k - 1]) && IsGapChar(g, p[k])) {
      assert p[k - 1] == s[start + k - 1] && p[k] == s[start + k];
      assert !BreakAt(g, s, start + k);
    }
  }

  /** `re.split` at `.`, `!` or `?` followed by a gap run: the pieces and the
      separators rebuild the text, and the split happens nowhere else. */
  lemma SplitSentencesShape(g: Gap, s: string)
    ensures SplitShape(g, s, SplitSentences(g, s), Separators(g, s))
  {
    PiecesShape(g, s, 0, 0);
    assert s[0..] == s;
  }

  /** Text with no gap character is a single piece. */
  lemma {:induction false} NoGapNoSplit(g: Gap, s: string, start: nat, i: nat)
    requires start <= i <= |s|
    requires forall k :: 0 <= k < |s| ==> !IsGapChar(g, s[k])
    ensures Pieces(g, s, start, i) == [s[start..]]
    decreases |s| - i
  {
    if i < |s| {
      NoGapNoSplit(g, s, start, i + 1);
    }
  }

  // ------------------------------------------------------------ reasoning spans

  /** `re.sub(open + '.*?' + close, '', s, flags=re.DOTALL)`: at each position, an
      `open` tag followed later by `close` is deleted through the first such
      `close`; otherwise the character is kept and the scan moves on. */
  function RemoveSpans(s: string, open: string, close: string): (r: string)
    requires open != []
    ensures |r| <= |s|
    ensures open[0] !in s ==> r == s
    decreases |s|
  {
    if s == [] then []
    else if open <= s && FindFrom(s, close, |open|).Some? then
      RemoveSpans(s[FindFrom(s, close, |open|).value + |close|..], open, close)
    else
      assert open[0] !in s ==> open[0] !in s[1..];
      [s[0]] + RemoveSpans(s[1..], open, close)
  }

  /** Text without the opening tag's first character passes through untouched. */
  lemma {:induction false} SpanFreePrefix(p: string, t: string, open: string, close: string)
    requires open != [] && open[0] !in p
    ensures RemoveSpans(p + t, open, close) == p + RemoveSpans(t, open, close)
    decreases |p|
  {
    if p != [] {
      var s := p + t;
      assert s[0] == p[0] && p[0] != open[0];
      assert !(open <= s);
      assert s[1..] == p[1..] + t;
      SpanFreePrefix(p[1..], t, open, close);
      assert RemoveSpans(s, open, close) == [p[0]] + RemoveSpans(s[1..], open, close);
      assert [p[0]] + p[1..] == p;
    } else {
      assert p + t == t;
    }
  }

  /** A tagged span is deleted through the first closing tag after it, and only that. */
  lemma SpanRemoved(pre: string, mid: string, post: string, open: string, close: string)
    requires open != [] && open[0] !in pre
    requires forall j :: 0 <= j < |mid| ==> !OccursAt(mid + close, close, j)
    ensures RemoveSpans(pre + open + mid + close + post, open, close) == pre + RemoveSpans(post, open, close)
  {
    var t := open + mid + close + post;
    assert pre + open + mid + close + post == pre + t;
    SpanFreePrefix(pre, t, open, close);
    SpanClosesFirst(open, mid, post, close);
    var at := |open| + |mid|;
    assert open <= t;
    assert t[at + |close|..] == post;
  }

  /** After the opening tag, the first closing tag is the one that ends `mid`. */
  lemma SpanClosesFirst(open: string, mid: string, post: string, close: string)
    requires forall j :: 0 <= j < |mid| ==> !OccursAt(mid + close, close, j)
    ensures FindFrom(open + mid + close + post, close, |open|) == Some(|open| + |mid|)
  {
    var t := open + mid + close + post;
    var m := mid + close;
    var at := |open| + |mid|;
    assert t == open + m + post;
    assert OccursAt(t, close, at) by { assert t[at..at + |close|] == close; }
    forall j | |open| <= j < at ensures !OccursAt(t, close, j) {
      assert !OccursAt(m, close, j - |open|);
      assert t[j..j + |close|] == m[j - |open|..j - |open| + |close|];
    }
    FindFromFirst(t, close, |open|, at);
  }

  /** The reasoning-tag cleanup every reply post-processor applies: `<thought>`
      spans first, then `<think>` spans. */
  function RemoveReasoning(s: string): (r: string)
    ensures '<' !in s ==> r == s
    ensures |r| <= |s|
  {
    RemoveSpans(RemoveSpans(s, "<thought>", "</thought>"), "<think>", "</think>")
  }
}
