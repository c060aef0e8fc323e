/**
 * `MCQService`: question generation and LLM-as-a-judge grading. Both paths
 * send the model the first 15000 characters of the transcript, strip the
 * reply, remove its reasoning spans, delete the code-fence markers that open
 * lines, cut the text down to the outermost `{...}` span and hand it to the
 * JSON decoder; grading also lists the user's answers question by question and
 * deletes trailing commas before decoding. The model and the decoder are
 * oracles passed in as functions, and whatever either raises is returned
 * unchanged.
 */
module McqService {
  import opened Wrappers
  import opened Text
  import opened Patterns

  /** How much of the transcript either prompt embeds. */
  const ExcerptLength := 15000
  const JsonMarker := "```json"
  const Fence := "```"

  /** `transcript_text[:15000]`. */
  function Excerpt(transcript: string): (r: string)
    ensures r <= transcript
    ensures |transcript| <= ExcerptLength ==> r == transcript
    ensures |transcript| > ExcerptLength ==> |r| == ExcerptLength
  {
    Prefix(transcript, ExcerptLength)
  }

  // ------------------------------------------------------------ reply cleanup

  /** Stripped, reasoning spans removed, stripped again. */
  function CleanReply(reply: string): (r: string)
    ensures Stripped(r) && |r| <= |reply|
    ensures '<' !in reply ==> r == Strip(reply)
  {
    var s := Strip(reply);
    StripSlice(reply);
    assert '<' !in reply ==> '<' !in s by {
      if '<' in s {
        var k :| 0 <= k < |s| && s[k] == '<';
        assert reply[LeadingSpace(reply) + k] == '<';
      }
    }
    Strip(RemoveReasoning(s))
  }

  /** The end of the whitespace run starting at `j` (what a greedy `\s*` consumes). */
  function SpaceEnd(s: string, j: nat): (e: nat)
    requires j <= |s|
    ensures j <= e <= |s| && (e == |s| || !IsSpace(s[e]))
    ensures forall k :: j <= k < e ==> IsSpace(s[k])
    decreases |s| - j
  {
    if j < |s| && IsSpace(s[j]) then SpaceEnd(s, j + 1) else j
  }

  /** `re.sub('^' + marker + r'\s*', '', t, flags=re.MULTILINE)` over the rest
      `t` of the text, where `atLineStart` says whether the character before
      `t` was a newline (or there was none). A marker is deleted, with the
      whitespace after it, only where a line begins; the scan resumes after the
      deleted text, so a marker the deletion brings to a line start stays. */
  function DeleteMarkers(t: string, marker: string, atLineStart: bool): (r: string)
    requires marker != []
    ensures |r| <= |t|
    ensures marker[0] !in t ==> r == t
    decreases |t|
  {
    if t == [] then []
    else if atLineStart && marker <= t then
      var n := SpaceEnd(t, |marker|);
      DeleteMarkers(t[n..], marker, t[n - 1] == '\n')
    else
      assert marker[0] !in t ==> marker[0] !in t[1..];
      [t[0]] + DeleteMarkers(t[1..], marker, t[0] == '\n')
  }

  /** Some `{` comes before some `}`: `\{.*\}` (DOTALL) has a match. */
  predicate HasBracePair(s: string) {
    exists a, b :: 0 <= a < b < |s| && s[a] == '{' && s[b] == '}'
  }

  /** Index of the last `c` in `s`. */
  function LastIndexOf(s: string, c: char): (r: Option<nat>)
    ensures r.Some? ==> r.value < |s| && s[r.value] == c
    ensures r.Some? ==> forall k :: r.value < k < |s| ==> s[k] != c
    ensures r.None? ==> c !in s
    decreases |s|
  {
    if s == [] then None
    else if s[|s| - 1] == c then Some(|s| - 1)
    else LastIndexOf(s[..|s| - 1], c)
  }

  /** `re.search(r'\{.*\}', s, re.DOTALL)`: the greedy match from the first `{`
      through the last `}`, which replaces the text when it exists. */
  function BraceSpan(s: string): (r: string)
    ensures !HasBracePair(s) ==> r == s
    ensures r == s || (|r| >= 2 && r[0] == '{' && r[|r| - 1] == '}')
  {
    var i := IndexOf(s, '{');
    match LastIndexOf(s, '}')
    case Some(j) =>
      if i < j then
        assert s[i] == '{' && s[j] == '}';
        s[i..j + 1]
      else
        assert forall a, b | 0 <= a < b < |s| && s[a] == '{' :: s[b] != '}';
        s
    case None => s
  }

  /** The JSON text both paths decode, before the grading-only comma cleanup. */
  function ReplyJson(reply: string): string {
    var s := CleanReply(reply);
    BraceSpan(DeleteMarkers(DeleteMarkers(s, JsonMarker, true), Fence, true))
  }

  // ------------------------------------------------------------ trailing commas

  predicate IsCloser(c: char) {
    c == '}' || c == ']'
  }

  /** A comma the pattern `,(\s*[}\]])` deletes: whitespace, then a closing bracket, follows it. */
  predicate TrailingComma(s: string, i: nat) {
    i < |s| && s[i] == ',' && SpaceEnd(s, i + 1) < |s| && IsCloser(s[SpaceEnd(s, i + 1)])
  }

  /** `re.sub(r',(\s*[}\]])', r'\1', s[i..])`, one left-to-right pass: a match
      is replaced by its group, and scanning resumes after the bracket. */
  function DropCommasFrom(s: string, i: nat): (r: string)
    requires i <= |s|
    decreases |s| - i
  {
    if i == |s| then []
    else if TrailingComma(s, i) then
      var j := SpaceEnd(s, i + 1);
      s[i + 1..j + 1] + DropCommasFrom(s, j + 1)
    else [s[i]] + DropCommasFrom(s, i + 1)
  }

  function DropTrailingCommas(s: string): string {
    DropCommasFrom(s, 0)
  }

  /** Reference reading of the same cleanup: the characters from `i` on, minus
      each comma that whitespace and a closing bracket follow. */
  function WithoutTrailingCommas(s: string, i: nat): string
    requires i <= |s|
    decreases |s| - i
  {
    if i == |s| then []
    else (if TrailingComma(s, i) then [] else [s[i]]) + WithoutTrailingCommas(s, i + 1)
  }

  function GradingJson(reply: string): string {
    DropTrailingCommas(ReplyJson(reply))
  }

  // ------------------------------------------------------------ the Q&A listing

  /** A question id as it comes out of the decoded JSON. */
  datatype Id = Num(n: int) | Str(s: string)

  /** A question; `options` is the text `str()` gives for its list of options. */
  datatype Question = Question(id: Id, question: string, options: string)

  /** The text of an id. */
  function Show(id: Id): string {
    match id
    case Num(n) => IntToString(n)
    case Str(s) => s
  }

  /** The user's answer to a question: the answer stored
      under the id's text unless it is missing or empty, else the one under the
      id itself, else nothing. */
  function Answer(answers: map<Id, string>, id: Id): (ua: Option<string>)
    ensures Str(Show(id)) in answers && answers[Str(Show(id))] != "" ==> ua == Some(answers[Str(Show(id))])
    ensures ua.None? <==> id !in answers && (Str(Show(id)) !in answers || answers[Str(Show(id))] == "")
    ensures !(Str(Show(id)) in answers && answers[Str(Show(id))] != "") && id in answers ==>
      ua == Some(answers[id])
  {
    var key := Str(Show(id));
    if key in answers && answers[key] != "" then Some(answers[key])
    else if id in answers then Some(answers[id])
    else None
  }

  /** An answer as an f-string shows it. */
  function Render(ua: Option<string>): string {
    match ua
    case Some(a) => a
    case None => "None"
  }

  /** The lines of one question's block: question, options, answer, blank. */
  function BlockLines(q: Question, answers: map<Id, string>): seq<string> {
    [ "Q" + Show(q.id) + ": " + q.question,
      "Options: " + q.options,
      "User Answer: " + Render(Answer(answers, q.id)),
      "" ]
  }

  /** `f"Q{id}: {question}\nOptions: {options}\nUser Answer: {ua}\n\n"`. */
  function Block(q: Question, answers: map<Id, string>): string {
    var ls := BlockLines(q, answers);
    ls[0] + "\n" + ls[1] + "\n" + ls[2] + "\n" + ls[3] + "\n"
  }

  /** `qa_text` after the loop over `qs`. */
  function QaText(qs: seq<Question>, answers: map<Id, string>): string
    decreases |qs|
  {
    if qs == [] then "" else QaText(qs[..|qs| - 1], answers) + Block(qs[|qs| - 1], answers)
  }

  /** The lines of all blocks, question after question. */
  function QaLines(qs: seq<Question>, answers: map<Id, string>): (r: seq<string>)
    ensures |r| == 4 * |qs|
    decreases |qs|
  {
    if qs == [] then [] else QaLines(qs[..|qs| - 1], answers) + BlockLines(qs[|qs| - 1], answers)
  }

  // ------------------------------------------------------------ the service

  /** `generate_mcqs_from_text`: the model sees the excerpt; its failure, or
      the decoder's, is raised again as it was. */
  method GenerateMcqs<J, E>(transcript: string, llm: string -> Result<string, E>,
                            loads: string -> Result<J, E>) returns (r: Result<J, E>)
    ensures llm(Excerpt(transcript)).Failure? ==> r == Failure(llm(Excerpt(transcript)).error)
    ensures llm(Excerpt(transcript)).Success? ==> r == loads(ReplyJson(llm(Excerpt(transcript)).value))
  {
    var response := llm(Excerpt(transcript));
    if response.Failure? {
      return Failure(response.error);
    }
    var content := Strip(response.value);
    content := RemoveReasoning(content);
    content := Strip(content);
    content := DeleteMarkers(content, JsonMarker, true);
    content := DeleteMarkers(content, Fence, true);
    content := BraceSpan(content);
    return loads(content);
  }

  /** The loop that builds `qa_text`, one block per question. */
  method ListAnswers(questions: seq<Question>, answers: map<Id, string>) returns (qa: string)
    ensures qa == QaText(questions, answers)
  {
    qa := "";
    var i := 0;
    while i < |questions|
      invariant i <= |questions|
      invariant qa == QaText(questions[..i], answers)
    {
      assert questions[..i + 1][..i] == questions[..i];
      qa := qa + Block(questions[i], answers);
      i := i + 1;
    }
    assert questions[..|questions|] == questions;
  }

  /** `grade_mcq_answers`: the Q&A listing is built block by block, the model
      sees the excerpt and the listing, and trailing commas are deleted before
      decoding. */
  method GradeAnswers<J, E>(transcript: string, questions: seq<Question>, answers: map<Id, string>,
                            llm: (string, string) -> Result<string, E>,
                            loads: string -> Result<J, E>) returns (r: Result<J, E>)
    ensures var reply := llm(Excerpt(transcript), QaText(questions, answers));
      && (reply.Failure? ==> r == Failure(reply.error))
      && (reply.Success? ==> r == loads(GradingJson(reply.value)))
  {
    var qa := ListAnswers(questions, answers);
    var response := llm(Excerpt(transcript), qa);
    if response.Failure? {
      return Failure(response.error);
    }
    var content := Strip(response.value);
    content := RemoveReasoning(content);
    content := Strip(content);
    content := DeleteMarkers(content, JsonMarker, true);
    content := DeleteMarkers(content, Fence, true);
    content := BraceSpan(content);
    content := DropTrailingCommas(content);
    return loads(content);
  }

  // ------------------------------------------------------------ markers

  /** Text without the marker's first character passes through, and the line
      state after it is read from its last character. */
  lemma {:induction false} MarkerFree(a: string, b: string, marker: string, st: bool)
    requires marker != [] && marker[0] !in a
    ensures DeleteMarkers(a + b, marker, st)
         == a + DeleteMarkers(b, marker, if a == [] then st else a[|a| - 1] == '\n')
    decreases |a|
  {
    if a != [] {
      var t := a + b;
      assert t[0] == a[0] && !(marker <= t);
      assert t[1..] == a[1..] + b;
      MarkerFree(a[1..], b, marker, a[0] == '\n');
      assert [a[0]] + a[1..] == a;
    } else {
      assert a + b == b;
    }
  }

  /** At a line start, the marker and the whitespace after it are deleted. */
  lemma MarkerAtLineStart(marker: string, w: string, b: string)
    requires marker != [] && AllSpace(w) && (b == [] || !IsSpace(b[0]))
    ensures DeleteMarkers(marker + w + b, marker, true)
         == DeleteMarkers(b, marker, (marker + w)[|marker + w| - 1] == '\n')
  {
    var t := marker + w + b;
    var n := |marker| + |w|;
    assert t[n..] == b;
    assert t[n - 1] == (marker + w)[|marker + w| - 1];
    assert t != [] && marker <= t;
    SpaceRun(t, |marker|, n);
    assert DeleteMarkers(t, marker, true) == DeleteMarkers(t[n..], marker, t[n - 1] == '\n');
  }

  lemma {:induction false} SpaceRun(t: string, j: nat, e: nat)
    requires j <= e <= |t| && (e == |t| || !IsSpace(t[e]))
    requires forall k :: j <= k < e ==> IsSpace(t[k])
    ensures SpaceEnd(t, j) == e
    decreases e - j
  {
    if j < e {
      SpaceRun(t, j + 1, e);
    }
  }

  /** A marker that does not begin a line is kept, and so is the rest of a
      line without a newline after it. */
  lemma InlineMarkerKept(a: string, t: string, marker: string, st: bool)
    requires marker != [] && marker[0] !in a && a != [] && a[|a| - 1] != '\n'
    requires '\n' !in t
    ensures DeleteMarkers(a + t, marker, st) == a + t
  {
    MarkerFree(a, t, marker, st);
    MidLine(t, marker);
  }

  lemma {:induction false} MidLine(t: string, marker: string)
    requires marker != [] && '\n' !in t
    ensures DeleteMarkers(t, marker, false) == t
    decreases |t|
  {
    if t != [] {
      assert t[0] != '\n' && '\n' !in t[1..];
      MidLine(t[1..], marker);
      assert [t[0]] + t[1..] == t;
    }
  }

  /** Text shorter than the marker never holds one. */
  lemma {:induction false} ShorterThanMarker(t: string, marker: string, st: bool)
    requires marker != [] && |t| < |marker|
    ensures DeleteMarkers(t, marker, st) == t
    decreases |t|
  {
    if t != [] {
      ShorterThanMarker(t[1..], marker, t[0] == '\n');
      assert [t[0]] + t[1..] == t;
    }
  }

  // ------------------------------------------------------------ brace span

  /** The span runs from the first `{` to the last `}`: text around it without
      those braces is cut away. */
  lemma BraceSpanAround(pre: string, obj: string, post: string)
    requires '{' !in pre && '}' !in post
    requires |obj| >= 2 && obj[0] == '{' && obj[|obj| - 1] == '}'
    ensures BraceSpan(pre + obj + post) == obj
  {
    var s := pre + obj + post;
    var e := |pre| + |obj| - 1;
    IndexOfFirst(pre, '{', obj[1..] + post);
    assert s == pre + ['{'] + (obj[1..] + post);
    var last := LastIndexOf(s, '}');
    assert s[e] == '}';
    assert last.Some? && last.value >= e;
    forall k | e < k < |s| ensures s[k] != '}' {
      assert s[k] == post[k - e - 1];
    }
    assert last.value == e;
    assert s[|pre|..e + 1] == obj;
  }

  /** Cutting to the span twice cuts no further. */
  lemma BraceSpanIdempotent(s: string)
    ensures BraceSpan(BraceSpan(s)) == BraceSpan(s)
  {
    var r := BraceSpan(s);
    if r != s {
      BraceSpanAround([], r, []);
      assert [] + r + [] == r;
    }
  }

  /** When a `{` precedes a `}`, the result is the braces' span in `s`, with no
      `{` before it and no `}` after it. */
  lemma BraceSpanFound(s: string)
    requires HasBracePair(s)
    ensures var r := BraceSpan(s);
      && |r| >= 2 && r[0] == '{' && r[|r| - 1] == '}'
      && exists i, e :: 0 <= i < e <= |s| && r == s[i..e] && '{' !in s[..i] && '}' !in s[e..]
  {
    var a, b :| 0 <= a < b < |s| && s[a] == '{' && s[b] == '}';
    var i := IndexOf(s, '{');
    var last := LastIndexOf(s, '}');
    assert last.Some? && b <= last.value;
    var j := last.value;
    assert i <= a;
    assert BraceSpan(s) == s[i..j + 1];
    assert forall k | j + 1 <= k < |s| :: s[j + 1..][k - (j + 1)] == s[k];
  }

  // ------------------------------------------------------------ whole replies

  /** A reply that is a bare object, or an object amid prose without braces,
      backticks or tags, decodes from exactly the object. */
  lemma ObjectAmidProse(pre: string, obj: string, post: string)
    requires '{' !in pre && '}' !in post
    requires '`' !in pre + obj + post && '<' !in pre + obj + post
    requires Stripped(pre + obj + post)
    requires |obj| >= 2 && obj[0] == '{' && obj[|obj| - 1] == '}'
    ensures ReplyJson(pre + obj + post) == obj
  {
    var s := pre + obj + post;
    assert CleanReply(s) == s;
    assert JsonMarker[0] == '`' && Fence[0] == '`';
    assert DeleteMarkers(s, JsonMarker, true) == s;
    assert DeleteMarkers(s, Fence, true) == s;
    BraceSpanAround(pre, obj, post);
  }

  /** An object in a ```` ```json ```` fenced block, the form the prompt's
      models most often answer in, decodes from exactly the object. */
  lemma FencedObject(obj: string)
    requires '`' !in obj && '<' !in obj
    requires |obj| >= 2 && obj[0] == '{' && obj[|obj| - 1] == '}'
    ensures ReplyJson(JsonMarker + "\n" + obj + "\n" + Fence) == obj
  {
    var s := JsonMarker + "\n" + obj + "\n" + Fence;
    FencedReplyClean(obj, s);
    assert CleanReply(s) == s;
    OpeningMarkerGone(obj, s);
    ClosingFenceGone(obj);
    ObjectLine(obj);
    ReplyJsonSteps(s, obj + "\n" + Fence, obj + "\n");
  }

  lemma ObjectLine(obj: string)
    requires |obj| >= 2 && obj[0] == '{' && obj[|obj| - 1] == '}'
    ensures BraceSpan(obj + "\n") == obj
  {
    BraceSpanAround([], obj, "\n");
    assert [] + obj + "\n" == obj + "\n";
  }

  lemma ReplyJsonSteps(reply: string, a: string, b: string)
    requires CleanReply(reply) == reply
    requires DeleteMarkers(reply, JsonMarker, true) == a
    requires DeleteMarkers(a, Fence, true) == b
    ensures ReplyJson(reply) == BraceSpan(b)
  {
  }

  lemma OpeningMarkerGone(obj: string, s: string)
    requires '`' !in obj + "\n" && obj != [] && !IsSpace(obj[0])
    requires s == JsonMarker + "\n" + obj + "\n" + Fence
    ensures DeleteMarkers(s, JsonMarker, true) == obj + "\n" + Fence
  {
    var tail := obj + "\n" + Fence;
    assert s == JsonMarker + "\n" + tail;
    MarkerAtLineStart(JsonMarker, "\n", tail);
    assert (JsonMarker + "\n")[|JsonMarker + "\n"| - 1] == '\n';
    assert JsonMarker[0] == '`';
    MarkerFree(obj + "\n", Fence, JsonMarker, true);
    ShorterThanMarker(Fence, JsonMarker, true);
  }

  lemma ClosingFenceGone(obj: string)
    requires '`' !in obj + "\n"
    ensures DeleteMarkers(obj + "\n" + Fence, Fence, true) == obj + "\n"
  {
    assert Fence[0] == '`';
    MarkerFree(obj + "\n", Fence, Fence, true);
    MarkerAtLineStart(Fence, "", []);
    assert Fence + "" + [] == Fence;
  }

  lemma FencedReplyClean(obj: string, s: string)
    requires '`' !in obj && '<' !in obj && obj != []
    requires s == JsonMarker + "\n" + obj + "\n" + Fence
    ensures Stripped(s) && '<' !in s
    ensures '`' !in obj + "\n"
  {
    assert s[0] == '`' && s[|s| - 1] == '`';
  }

  // ------------------------------------------------------------ trailing commas

  /** Characters other than commas are all kept by the reference reading. */
  lemma {:induction false} KeepRun(s: string, a: nat, b: nat)
    requires a <= b <= |s|
    requires forall k :: a <= k < b ==> s[k] != ','
    ensures WithoutTrailingCommas(s, a) == s[a..b] + WithoutTrailingCommas(s, b)
    decreases b - a
  {
    if a < b {
      assert s[a..b] == [s[a]] + s[a + 1..b];
      assert !TrailingComma(s, a);
      KeepRun(s, a + 1, b);
    }
  }

  /** The single pass deletes exactly the commas that whitespace and a closing
      bracket follow in the input, and changes nothing else: matches cannot
      overlap, since each holds one comma. */
  lemma {:induction false} DropCommasSpec(s: string, i: nat)
    requires i <= |s|
    ensures DropCommasFrom(s, i) == WithoutTrailingCommas(s, i)
    decreases |s| - i
  {
    if i < |s| {
      if TrailingComma(s, i) {
        var j := SpaceEnd(s, i + 1);
        DropCommasSpec(s, j + 1);
        KeepRun(s, i + 1, j + 1);
      } else {
        DropCommasSpec(s, i + 1);
      }
    }
  }

  /** Only one comma of a doubled pair before a bracket goes: `,,}` becomes `,}`. */
  lemma DoubledComma()
    ensures DropTrailingCommas(",,}") == ",}"
  {
    var s := ",,}";
    assert SpaceEnd(s, 1) == 1 && SpaceEnd(s, 2) == 2;
    assert !TrailingComma(s, 0) && TrailingComma(s, 1);
    assert DropCommasFrom(s, 3) == [];
  }

  // ------------------------------------------------------------ the listing

  lemma BlockJoined(q: Question, answers: map<Id, string>)
    ensures Block(q, answers) == Join("\n", BlockLines(q, answers)) + "\n"
  {
    var ls := BlockLines(q, answers);
    JoinFour("\n", ls);
  }

  lemma JoinFour(sep: string, ls: seq<string>)
    requires |ls| == 4
    ensures Join(sep, ls) == ls[0] + sep + ls[1] + sep + ls[2] + sep + ls[3]
  {
    assert ls[1..][1..] == ls[2..] && ls[2..][1..] == ls[3..];
    assert Join(sep, ls[2..]) == ls[2] + sep + ls[3];
  }

  /** The listing is its lines, joined by newlines, with the last block's
      closing newline after them. */
  lemma {:induction false} QaTextJoined(qs: seq<Question>, answers: map<Id, string>)
    ensures QaText(qs, answers) == Join("\n", QaLines(qs, answers) + [""])
    decreases |qs|
  {
    if qs != [] {
      var init, q := qs[..|qs| - 1], qs[|qs| - 1];
      var ls, bs := QaLines(init, answers), BlockLines(q, answers);
      QaTextJoined(init, answers);
      BlockJoined(q, answers);
      JoinBlankStep("\n", ls, bs);
    }
  }

  lemma JoinBlankStep(sep: string, ls: seq<string>, bs: seq<string>)
    requires bs != []
    ensures Join(sep, ls + [""]) + (Join(sep, bs) + sep) == Join(sep, ls + bs + [""])
  {
    JoinSnoc(sep, bs, "");
    if ls == [] {
      assert ls + bs + [""] == bs + [""];
    } else {
      JoinSnoc(sep, ls, "");
      JoinAppend(sep, ls, bs + [""]);
      assert ls + (bs + [""]) == ls + bs + [""];
    }
  }

  /** One block of four lines per question, in the questions' order: the
      question, its options, the answer found for it and a blank line. */
  lemma QaTextLines(qs: seq<Question>, answers: map<Id, string>)
    requires forall k :: 0 <= k < |QaLines(qs, answers)| ==> '\n' !in QaLines(qs, answers)[k]
    ensures Split(QaText(qs, answers), '\n') == QaLines(qs, answers) + [""]
    ensures forall k :: 0 <= k < |qs| ==> QaLines(qs, answers)[4 * k..4 * k + 4] == BlockLines(qs[k], answers)
  {
    QaTextJoined(qs, answers);
    SplitJoin('\n', QaLines(qs, answers) + [""]);
    QaLinesBlocks(qs, answers);
  }

  lemma {:induction false} QaLinesBlocks(qs: seq<Question>, answers: map<Id, string>)
    ensures forall k :: 0 <= k < |qs| ==> QaLines(qs, answers)[4 * k..4 * k + 4] == BlockLines(qs[k], answers)
    decreases |qs|
  {
    if qs != [] {
      var init, q := qs[..|qs| - 1], qs[|qs| - 1];
      var ls, a, b := QaLines(qs, answers), QaLines(init, answers), BlockLines(q, answers);
      assert ls == a + b && |a| == 4 * |init|;
      QaLinesBlocks(init, answers);
      forall k | 0 <= k < |qs| ensures ls[4 * k..4 * k + 4] == BlockLines(qs[k], answers) {
        if k < |init| {
          assert ls[4 * k..4 * k + 4] == a[4 * k..4 * k + 4];
          assert qs[k] == init[k];
        } else {
          assert ls[4 * k..4 * k + 4] == b;
        }
      }
    }
  }
}
