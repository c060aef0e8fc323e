/**
 * The post-processing `MindMapService.generate_mind_map` applies to the
 * model's reply: the reply is stripped and cleared of reasoning spans, the body
 * of the first fenced code block is taken when there is one, the lines before
 * the first `mindmap` line and the blank lines after it are dropped, and a
 * `mindmap` header built from the transcript is supplied when no such line is
 * left. The model itself is an oracle: its reply is a parameter.
 */
module MindMap {
  import opened Wrappers
  import opened Text
  import opened Patterns

  const Keyword := "mindmap"
  const Fence := "```"
  const Tag := "mermaid"

  // ------------------------------------------------------------ fence

  /** The pattern ```` ```(?:mermaid)?(.*?)``` ```` (DOTALL) tried at `p`: the
      optional tag is tried first, and the group is the shortest run before the
      next fence. */
  function FenceAt(s: string, p: nat): (r: Option<string>)
  {
    if !OccursAt(s, Fence, p) then None
    else
      match (if OccursAt(s, Tag, p + 3) then FindFrom(s, Fence, p + 10) else None)
      case Some(c) => Some(s[p + 10..c])
      case None =>
        match FindFrom(s, Fence, p + 3)
        case Some(c) => Some(s[p + 3..c])
        case None => None
  }

  /** `re.search` from `p` on: the first position where the pattern matches. */
  function FenceSearch(s: string, p: nat): Option<string>
    decreases |s| - p
  {
    if p >= |s| then None
    else match FenceAt(s, p)
      case Some(g) => Some(g)
      case None => FenceSearch(s, p + 1)
  }

  /** Lines 38-40: the stripped group of the first fenced block, or the text
      unchanged when there is none. */
  function Unfenced(content: string): string {
    match FenceSearch(content, 0)
    case Some(g) => Strip(g)
    case None => content
  }

  // ------------------------------------------------------------ line filter

  /** A line that starts with `mindmap` once stripped. */
  predicate IsKeywordLine(l: string) {
    Keyword <= Strip(l)
  }

  predicate IsBlank(l: string) {
    Strip(l) == []
  }

  /** The lines a filter keeps that appends a line when it is a `key` line,
      or when something is already kept and the line is not `blank`. */
  function KeepFrom(lines: seq<string>, key: string -> bool, blank: string -> bool): (r: seq<string>)
    ensures |r| <= |lines|
    decreases |lines|
  {
    if lines == [] then []
    else
      var kept := KeepFrom(lines[..|lines| - 1], key, blank);
      var l := lines[|lines| - 1];
      if key(l) || (kept != [] && !blank(l)) then kept + [l] else kept
  }

  /** The lines the filter of lines 43-48 keeps. */
  function Filtered(lines: seq<string>): (r: seq<string>)
    ensures |r| <= |lines|
  {
    KeepFrom(lines, IsKeywordLine, IsBlank)
  }

  /** The filtering loop of lines 43-48. */
  method FilterLines(lines: seq<string>) returns (clean: seq<string>)
    ensures clean == Filtered(lines)
  {
    clean := [];
    for i := 0 to |lines|
      invariant clean == KeepFrom(lines[..i], IsKeywordLine, IsBlank)
    {
      var line := lines[i];
      assert lines[..i + 1][..i] == lines[..i];
      if Keyword <= Strip(line) || (clean != [] && Strip(line) != []) {
        clean := clean + [line];
      }
    }
    assert lines[..|lines|] == lines;
  }

  /** The lines that are not `blank`, in order. */
  function DropBlank(lines: seq<string>, blank: string -> bool): (r: seq<string>)
    ensures |r| <= |lines|
    decreases |lines|
  {
    if lines == [] then []
    else
      var l := lines[|lines| - 1];
      DropBlank(lines[..|lines| - 1], blank) + (if blank(l) then [] else [l])
  }

  /** The position of the first `key` line. */
  function FirstKey(lines: seq<string>, key: string -> bool): (r: Option<nat>)
    ensures r.Some? ==> r.value < |lines| && key(lines[r.value])
    ensures r.Some? ==> forall j :: 0 <= j < r.value ==> !key(lines[j])
    ensures r.None? ==> forall j :: 0 <= j < |lines| ==> !key(lines[j])
    decreases |lines|
  {
    if lines == [] then None
    else
      var init := lines[..|lines| - 1];
      assert forall j :: 0 <= j < |init| ==> init[j] == lines[j];
      match FirstKey(init, key)
      case Some(p) => Some(p)
      case None => if key(lines[|lines| - 1]) then Some(|lines| - 1) else None
  }

  // ------------------------------------------------------------ normalisation

  /** The fallback header of line 53, built from the first 50 transcript
      characters with newlines turned into spaces. */
  function Header(transcript: string): string {
    Root(transcript) + "\n"
  }

  /** The fallback header: `mindmap`, then a root node named after the first 50
      transcript characters with newlines turned into spaces. */
  function Root(transcript: string): string {
    Keyword + "\n    root((" + (ReplaceChar(Prefix(transcript, 50), '\n', ' ') + "...") + "))"
  }

  /** Lines 51-58, on any text: the header is prepended when `mindmap` does not
      occur in the lower-cased text; otherwise, when the stripped text does not
      start with it, the text is cut to its first occurrence. */
  function Normalized(content: string, transcript: string): string {
    if !Contains(Lower(content), Keyword) then Header(transcript) + content
    else if !(Keyword <= Strip(content)) then
      match FindFrom(Lower(content), Keyword, 0)
      case Some(i) => content[i..]
      case None => content
    else content
  }

  /** The lines the filter sees. */
  function ReplyLines(reply: string): seq<string> {
    Split(Unfenced(RemoveReasoning(Strip(reply))), '\n')
  }

  /** The mind map returned for a reply. */
  function MindMapOf(transcript: string, reply: string): string {
    Strip(Normalized(Join("\n", Filtered(ReplyLines(reply))), transcript))
  }

  // ------------------------------------------------------------ the service

  /** `generate_mind_map`, from the model's reply on: None when `invoke`
      raises, which the handler turns into a 500. */
  method GenerateMindMap(transcript: string, reply: Option<string>) returns (r: Result<string, HttpError>)
    ensures reply.None? ==> r == Failure(HttpError(500))
    ensures reply.Some? ==> r == Success(MindMapOf(transcript, reply.value))
    ensures r.Success? ==> Keyword <= r.value
  {
    if reply.None? {
      return Failure(HttpError(500));
    }
    var content := Strip(reply.value);
    content := RemoveReasoning(content);
    content := Unfenced(content);
    var lines := Split(content, '\n');
    var clean := FilterLines(lines);
    content := Join("\n", clean);
    content := Normalized(content, transcript);
    StartsWithKeyword(transcript, reply.value);
    return Success(Strip(content));
  }

  // ------------------------------------------------------------ properties

  /** A `mindmap` line is never blank. */
  lemma KeywordLinesNotBlank()
    ensures forall l :: IsKeywordLine(l) ==> !IsBlank(l)
  {
  }

  /** The filter drops everything before the first `key` line, keeps that
      line, and after it keeps exactly the lines that are not blank, in order
      and unchanged; a `key` line is never blank. */
  lemma {:induction false} KeepFromShape(lines: seq<string>, key: string -> bool, blank: string -> bool)
    requires forall l :: key(l) ==> !blank(l)
    ensures KeepFrom(lines, key, blank) == match FirstKey(lines, key)
      case None => []
      case Some(p) => [lines[p]] + DropBlank(lines[p + 1..], blank)
    decreases |lines|
  {
    if lines != [] {
      var init := lines[..|lines| - 1];
      var l := lines[|lines| - 1];
      assert lines == init + [l];
      KeepFromShape(init, key, blank);
      match FirstKey(init, key)
      case Some(p) => KeepAfterKey(init, l, key, blank, p);
      case None => KeepBeforeKey(init, l, key, blank);
    }
  }

  /** One more line once a `key` line is kept: kept unless blank. */
  lemma KeepAfterKey(init: seq<string>, l: string, key: string -> bool, blank: string -> bool, p: nat)
    requires forall l :: key(l) ==> !blank(l)
    requires FirstKey(init, key) == Some(p)
    requires KeepFrom(init, key, blank) == [init[p]] + DropBlank(init[p + 1..], blank)
    ensures var lines := init + [l];
      && FirstKey(lines, key) == Some(p)
      && KeepFrom(lines, key, blank) == [lines[p]] + DropBlank(lines[p + 1..], blank)
  {
    var lines := init + [l];
    SnocSlices(init, l, p);
    FirstKeySnoc(init, l, key, p);
    DropBlankSnoc(init[p + 1..], l, blank);
    var e: seq<string> := if blank(l) then [] else [l];
    KeepSnoc(init, l, key, blank);
    ConcatAssoc([init[p]], DropBlank(init[p + 1..], blank), e);
  }

  /** Once something is kept, a further line is kept unless blank. */
  lemma KeepSnoc(init: seq<string>, l: string, key: string -> bool, blank: string -> bool)
    requires forall l :: key(l) ==> !blank(l)
    requires KeepFrom(init, key, blank) != []
    ensures KeepFrom(init + [l], key, blank) == KeepFrom(init, key, blank) + (if blank(l) then [] else [l])
  {
    assert (init + [l])[..|init|] == init;
  }

  lemma SnocSlices<T>(init: seq<T>, l: T, p: nat)
    requires p < |init|
    ensures var lines := init + [l];
      && lines[..|lines| - 1] == init && lines[|lines| - 1] == l && lines[p] == init[p]
      && lines[p + 1..] == init[p + 1..] + [l]
  {
  }

  lemma FirstKeySnoc(init: seq<string>, l: string, key: string -> bool, p: nat)
    requires FirstKey(init, key) == Some(p)
    ensures FirstKey(init + [l], key) == Some(p)
  {
    assert (init + [l])[..|init|] == init;
  }

  lemma DropBlankSnoc(xs: seq<string>, l: string, blank: string -> bool)
    ensures DropBlank(xs + [l], blank) == DropBlank(xs, blank) + (if blank(l) then [] else [l])
  {
    assert (xs + [l])[..|xs|] == xs;
  }

  /** One more line while no `key` line is kept: kept exactly when it is one. */
  lemma KeepBeforeKey(init: seq<string>, l: string, key: string -> bool, blank: string -> bool)
    requires FirstKey(init, key) == None && KeepFrom(init, key, blank) == []
    ensures var lines := init + [l];
      && FirstKey(lines, key) == (if key(l) then Some(|init|) else None)
      && KeepFrom(lines, key, blank) == (if key(l) then [l] else [])
  {
    var lines := init + [l];
    assert lines[..|lines| - 1] == init;
  }

  /** The filter of lines 43-48: nothing before the first `mindmap` line, that
      line, then the non-blank lines after it. */
  lemma FilteredShape(lines: seq<string>)
    ensures Filtered(lines) == match FirstKey(lines, IsKeywordLine)
      case None => []
      case Some(p) => [lines[p]] + DropBlank(lines[p + 1..], IsBlank)
  {
    KeywordLinesNotBlank();
    KeepFromShape(lines, IsKeywordLine, IsBlank);
  }

  /** Text that begins with a `mindmap` line contains `mindmap` and starts with
      it once stripped. */
  lemma KeywordText(x: string, c: string)
    requires IsKeywordLine(x) && x <= c
    ensures Contains(Lower(c), Keyword) && Keyword <= Strip(c)
  {
    StripPrefixOf(x, c, Keyword);
    StripSlice(c);
    var l := LeadingSpace(c);
    assert c[l..l + 7] == Strip(c)[..7] == Keyword;
    LowerKeyword(c, l);
  }

  /** A filtered line list is empty, or it leads with a `mindmap` line, and
      then its joined text contains `mindmap` and starts with it once
      stripped. */
  lemma KeywordLeads(lines: seq<string>)
    ensures var c := Join("\n", Filtered(lines));
      && (Filtered(lines) == [] ==> c == [])
      && (Filtered(lines) != [] ==> Contains(Lower(c), Keyword) && Keyword <= Strip(c))
  {
    var kept := Filtered(lines);
    FilteredShape(lines);
    if kept != [] {
      JoinHead("\n", kept);
      KeywordText(kept[0], Join("\n", kept));
    }
  }

  /** Lower-casing leaves an occurrence of `mindmap` in place. */
  lemma LowerKeyword(s: string, i: nat)
    requires OccursAt(s, Keyword, i)
    ensures OccursAt(Lower(s), Keyword, i)
  {
    forall k | i <= k < i + 7 ensures Lower(s)[k] == s[k] {
      assert s[k] == Keyword[k - i];
      assert 'a' <= Keyword[k - i] <= 'z';
    }
    assert Lower(s)[i..i + 7] == s[i..i + 7];
  }

  /** The `elif` of lines 54-58 is never taken after the line filter: text that
      contains `mindmap` already starts with it once stripped. */
  lemma ElifUnreachable(lines: seq<string>)
    ensures var c := Join("\n", Filtered(lines));
      !(Contains(Lower(c), Keyword) && !(Keyword <= Strip(c)))
  {
    KeywordLeads(lines);
  }

  /** The header is the stripped root line followed by a newline. */
  lemma HeaderStripped(transcript: string)
    ensures Keyword <= Header(transcript) && Strip(Header(transcript)) == Root(transcript)
  {
    var x := Root(transcript);
    RootEnds(transcript);
    assert Header(transcript) == [] + x + "\n";
    StripAround([], x, "\n");
  }

  lemma RootEnds(transcript: string)
    ensures var x := Root(transcript); x != [] && x[0] == 'm' && x[|x| - 1] == ')'
  {
  }

  /** The returned mind map always starts with `mindmap`. */
  lemma StartsWithKeyword(transcript: string, reply: string)
    ensures Keyword <= MindMapOf(transcript, reply)
  {
    var lines := ReplyLines(reply);
    var c := Join("\n", Filtered(lines));
    KeywordLeads(lines);
    if Filtered(lines) == [] {
      assert Lower(c) == [];
      assert Normalized(c, transcript) == Header(transcript);
      HeaderStripped(transcript);
    }
  }

  /** With no `mindmap` line in the reply, the result is the header built from
      the transcript alone. */
  lemma FallbackHeader(transcript: string, reply: string)
    requires forall k :: 0 <= k < |ReplyLines(reply)| ==> !IsKeywordLine(ReplyLines(reply)[k])
    ensures MindMapOf(transcript, reply) == Root(transcript)
  {
    var lines := ReplyLines(reply);
    FilteredShape(lines);
    var c := Join("\n", Filtered(lines));
    assert c == [] && Lower(c) == [];
    assert Normalized(c, transcript) == Header(transcript);
    HeaderStripped(transcript);
  }

  // ------------------------------------------------------------ fences

  /** A position without a backtick cannot open a fence. */
  lemma NoFenceAt(s: string, p: nat)
    requires p < |s| && s[p] != '`'
    ensures FenceAt(s, p).None?
  {
    assert !OccursAt(s, Fence, p) by {
      if p + 3 <= |s| {
        assert s[p..p + 3][0] == s[p];
      }
    }
  }

  /** Positions without a backtick are passed over by the search. */
  lemma {:induction false} FenceSkip(s: string, p: nat, q: nat)
    requires p <= q <= |s|
    requires forall k :: p <= k < q ==> s[k] != '`'
    ensures FenceSearch(s, p) == FenceSearch(s, q)
    decreases q - p
  {
    if p < q {
      NoFenceAt(s, p);
      FenceSkip(s, p + 1, q);
    }
  }

  /** Text without backticks holds no fenced block and is left as it is. */
  lemma NoFence(s: string)
    requires '`' !in s
    ensures Unfenced(s) == s
  {
    FenceSkip(s, 0, |s|);
  }

  /** A fence, the optional tag, a body without backticks and a closing fence
      match at the opening fence, and the group is the body. */
  lemma FenceHere(s: string, p: nat, tag: string, body: string)
    requires tag == Tag || (tag == [] && !(Tag <= body))
    requires '`' !in body
    requires p + 6 + |tag| + |body| <= |s|
    requires s[p..p + 3] == Fence && s[p + 3..p + 3 + |tag|] == tag
    requires s[p + 3 + |tag|..p + 3 + |tag| + |body|] == body
    requires s[p + 3 + |tag| + |body|..p + 6 + |tag| + |body|] == Fence
    ensures FenceAt(s, p) == Some(body)
  {
    var g := p + 3 + |tag|;
    ClosingFence(s, g, body);
    TagAt(s, p, tag, body);
    assert OccursAt(s, Fence, p);
  }

  /** The first fence after a body without backticks is the one closing it. */
  lemma ClosingFence(s: string, g: nat, body: string)
    requires '`' !in body && g + |body| + 3 <= |s| && s[g..g + |body|] == body
    requires s[g + |body|..g + |body| + 3] == Fence
    ensures FindFrom(s, Fence, g) == Some(g + |body|)
    ensures s[g + |body|] == '`'
  {
    var e := g + |body|;
    BodyHasNoFence(s, g, body);
    assert OccursAt(s, Fence, e) && s[e] == s[e..e + 3][0];
    FindFromFirst(s, Fence, g, e);
  }

  /** No fence starts inside a body without backticks. */
  lemma BodyHasNoFence(s: string, g: nat, body: string)
    requires '`' !in body && g + |body| <= |s| && s[g..g + |body|] == body
    ensures forall j :: g <= j < g + |body| ==> !OccursAt(s, Fence, j)
  {
    forall j | g <= j < g + |body| ensures !OccursAt(s, Fence, j) {
      assert s[j] == body[j - g];
      if j + 3 <= |s| {
        assert s[j..j + 3][0] == s[j];
      }
    }
  }

  /** The optional tag matches exactly when it is present. */
  lemma TagAt(s: string, p: nat, tag: string, body: string)
    requires tag == Tag || (tag == [] && !(Tag <= body))
    requires p + 6 + |tag| + |body| <= |s|
    requires s[p + 3..p + 3 + |tag|] == tag
    requires s[p + 3 + |tag|..p + 3 + |tag| + |body|] == body
    requires s[p + 3 + |tag| + |body|] == '`'
    ensures OccursAt(s, Tag, p + 3) <==> tag == Tag
  {
    if tag == [] {
      var e := p + 3 + |body|;
      assert !OccursAt(s, Tag, p + 3) by {
        if |body| >= 7 {
          assert s[p + 3..p + 10] == body[..7];
        } else if p + 10 <= |s| {
          assert s[p + 3..p + 10][|body|] == s[e];
          assert Tag[|body|] != '`';
        }
      }
    }
  }

  /** Characters absent from a text are absent from its stripped form. */
  lemma StripLacks(s: string, c: char)
    requires c !in s
    ensures c !in Strip(s)
  {
    StripSlice(s);
  }

  /** With a fenced block in the reply, only the block's body matters: the
      text before and after the fences is discarded. */
  lemma FenceOnly(transcript: string, pre: string, tag: string, body: string, post: string)
    requires tag == Tag || (tag == [] && !(Tag <= body))
    requires '`' !in pre && '`' !in body
    requires var reply := pre + Fence + tag + body + Fence + post;
      Stripped(reply) && '<' !in reply
    ensures MindMapOf(transcript, pre + Fence + tag + body + Fence + post) ==
      MindMapOf(transcript, Strip(body))
  {
    FencedReplyBody(pre, tag, body, post);
    StrippedBodyKept(body);
    assert ReplyLines(pre + Fence + tag + body + Fence + post) == ReplyLines(Strip(body));
  }

  /** The fenced block's stripped body is what the filter sees of the reply. */
  lemma FencedReplyBody(pre: string, tag: string, body: string, post: string)
    requires tag == Tag || (tag == [] && !(Tag <= body))
    requires '`' !in pre && '`' !in body
    requires var reply := pre + Fence + tag + body + Fence + post;
      Stripped(reply) && '<' !in reply
    ensures Unfenced(RemoveReasoning(Strip(pre + Fence + tag + body + Fence + post))) == Strip(body)
    ensures '<' !in body
  {
    var reply := pre + Fence + tag + body + Fence + post;
    var p := |pre|;
    FencedPieces(pre, tag, body, post, reply);
    FenceHere(reply, p, tag, body);
    FenceSkip(reply, 0, p);
  }

  /** A stripped body without tags or backticks passes through unchanged. */
  lemma StrippedBodyKept(body: string)
    requires '<' !in body && '`' !in body
    ensures Unfenced(RemoveReasoning(Strip(Strip(body)))) == Strip(body)
  {
    var b := Strip(body);
    StripLacks(body, '<');
    StripLacks(body, '`');
    NoFence(b);
  }

  lemma FencedPieces(pre: string, tag: string, body: string, post: string, reply: string)
    requires reply == pre + Fence + tag + body + Fence + post && '<' !in reply
    ensures var p, g := |pre|, |pre| + 3 + |tag|;
      && g + |body| + 3 <= |reply|
      && reply[p..p + 3] == Fence && reply[p + 3..g] == tag
      && reply[g..g + |body|] == body && reply[g + |body|..g + |body| + 3] == Fence
      && (forall k :: 0 <= k < p ==> reply[k] == pre[k])
      && '<' !in body
  {
    var g := |pre| + 3 + |tag|;
    assert forall k :: 0 <= k < |body| ==> body[k] == reply[g + k];
  }

  lemma {:induction false} DropBlankNone(lines: seq<string>, blank: string -> bool)
    requires forall k :: 0 <= k < |lines| ==> !blank(lines[k])
    ensures DropBlank(lines, blank) == lines
    decreases |lines|
  {
    if lines != [] {
      DropBlankNone(lines[..|lines| - 1], blank);
    }
  }

  /** A line that starts with `mindmap` is a `mindmap` line. */
  lemma KeywordFirst(l: string)
    requires Keyword <= l
    ensures IsKeywordLine(l)
  {
    assert Stripped(Keyword) by {
      assert Keyword[0] == 'm' && Keyword[6] == 'p';
    }
    StripPrefixOf(Keyword, l, Keyword);
  }

  /** Lines led by a `mindmap` line, none of them blank, all pass the filter. */
  lemma FilteredWhole(lines: seq<string>)
    requires lines != [] && IsKeywordLine(lines[0])
    requires forall k :: 0 <= k < |lines| ==> !IsBlank(lines[k])
    ensures Filtered(lines) == lines
  {
    FilteredShape(lines);
    assert FirstKey(lines, IsKeywordLine) == Some(0);
    DropBlankNone(lines[1..], IsBlank);
  }

  /** A reply that is already a mind map, without reasoning tags, fences or
      blank lines, comes back unchanged. */
  lemma PassThrough(transcript: string, lines: seq<string>)
    requires lines != [] && Keyword <= lines[0]
    requires forall k :: 0 <= k < |lines| ==> '\n' !in lines[k] && !IsBlank(lines[k])
    requires var s := Join("\n", lines); Stripped(s) && '<' !in s && '`' !in s
    ensures MindMapOf(transcript, Join("\n", lines)) == Join("\n", lines)
  {
    var s := Join("\n", lines);
    NoFence(s);
    SplitJoin('\n', lines);
    assert ReplyLines(s) == lines;
    KeywordFirst(lines[0]);
    FilteredWhole(lines);
    KeywordLeads(lines);
  }
}
