/**
 * The deterministic stages of the agentic RAG graph: transcript cleaning, the
 * chunking-strategy analyzer, the three chunkers, and the retrieval step's
 * candidate/rerank selection. The embedding model, the FAISS index, the Cohere
 * reranker and the generation model are oracles handed in as values or functions.
 */
module RagWorkflow {
  import opened Wrappers
  import opened Text
  import opened Patterns

  // ------------------------------------------------------------ cleaning

  /** Strips each piece and keeps those whose stripped length exceeds 5, in order. */
  function KeepLong(ps: seq<string>): (r: seq<string>)
    ensures |r| <= |ps|
    ensures forall k :: 0 <= k < |r| ==> |r[k]| > 5 && Stripped(r[k])
    decreases |ps|
  {
    if ps == [] then []
    else (if |Strip(ps[0])| > 5 then [Strip(ps[0])] else []) + KeepLong(ps[1..])
  }

  /** A sentence is kept exactly when it is the stripped form, longer than 5, of a piece. */
  lemma {:induction false} KeepLongMembers(ps: seq<string>, x: string)
    ensures x in KeepLong(ps) <==> |x| > 5 && exists p :: p in ps && Strip(p) == x
    decreases |ps|
  {
    if ps != [] {
      KeepLongMembers(ps[1..], x);
      assert forall p :: p in ps <==> p == ps[0] || p in ps[1..];
    }
  }

  /** `clean_transcript_node`: timestamps removed, split after `.`, `!` or `?` at any
      whitespace run, pieces stripped and kept when longer than 5 characters. */
  function CleanTranscript(text: string): (sentences: seq<string>)
    ensures forall k :: 0 <= k < |sentences| ==> |sentences[k]| >= 6 && Stripped(sentences[k])
    ensures AllStrippedNonEmpty(sentences)
  {
    KeepLong(SplitSentences(AnyWhitespace, RemoveTimestamps(text)))
  }

  /** Every cleaned sentence is one piece of the split, stripped. */
  lemma CleanTranscriptPieces(text: string, x: string)
    ensures x in CleanTranscript(text) <==>
      |x| > 5 && exists p :: p in SplitSentences(AnyWhitespace, RemoveTimestamps(text)) && Strip(p) == x
  {
    KeepLongMembers(SplitSentences(AnyWhitespace, RemoveTimestamps(text)), x);
  }

  // ------------------------------------------------------------ strategy labels

  datatype Strategy = Semantic | Recursive | Sentence

  /** The label the analyzer reports and the router follows. */
  function Name(st: Strategy): string {
    match st
    case Semantic => "semantic"
    case Recursive => "recursive"
    case Sentence => "sentence"
  }

  /** `word in ["semantic", "recursive", "sentence"]`, read back as a strategy. */
  function ParseLabel(w: string): (r: Option<Strategy>)
    ensures r.Some? ==> Name(r.value) == w
    ensures r.None? ==> forall st: Strategy :: Name(st) != w
  {
    if w == "semantic" then Some(Semantic)
    else if w == "recursive" then Some(Recursive)
    else if w == "sentence" then Some(Sentence)
    else None
  }

  /** `router`: the graph follows the edge named by the strategy, and that name
      leads back to the same strategy. */
  function Router(st: Strategy): (edge: string)
    ensures ParseLabel(edge) == Some(st)
  {
    Name(st)
  }

  // ------------------------------------------------------------ analyzer

  /** The reply words the analyzer scans: stripped, lower-cased, quotes, periods
      and commas deleted, stripped again, split on whitespace. */
  function ReplyWords(reply: string): seq<string> {
    Words(Strip(DeleteChars(Lower(Strip(reply)), {'"', '\'', '.', ','})))
  }

  /** The first word that is a label, if any. */
  function FirstLabelOf(words: seq<string>): Option<Strategy>
    decreases |words|
  {
    if words == [] then None
    else if ParseLabel(words[0]).Some? then ParseLabel(words[0])
    else FirstLabelOf(words[1..])
  }

  /** `FirstLabelOf` picks the earliest label word, and finds none exactly when
      no word is a label. */
  lemma {:induction false} FirstLabelOfIsFirst(words: seq<string>)
    ensures FirstLabelOf(words).None? <==> forall k :: 0 <= k < |words| ==> ParseLabel(words[k]).None?
    ensures FirstLabelOf(words).Some? ==>
      exists k :: 0 <= k < |words| && ParseLabel(words[k]) == FirstLabelOf(words)
        && forall j :: 0 <= j < k ==> ParseLabel(words[j]).None?
    decreases |words|
  {
    if words != [] && ParseLabel(words[0]).None? {
      FirstLabelOfIsFirst(words[1..]);
      assert forall k :: 0 < k < |words| ==> words[k] == words[1..][k - 1];
      if FirstLabelOf(words).Some? {
        var k :| 0 <= k < |words[1..]| && ParseLabel(words[1..][k]) == FirstLabelOf(words)
          && forall j :: 0 <= j < k ==> ParseLabel(words[1..][j]).None?;
        assert ParseLabel(words[k + 1]) == FirstLabelOf(words);
      }
    }
  }

  /** The analyzer's word loop, leaving at the first label. */
  method FirstLabel(words: seq<string>) returns (found: Option<Strategy>)
    ensures found == FirstLabelOf(words)
    ensures found.Some? ==> found.value in {Semantic, Recursive, Sentence}
  {
    found := None;
    var i := 0;
    while i < |words|
      invariant 0 <= i <= |words|
      invariant FirstLabelOf(words) == FirstLabelOf(words[i..])
    {
      assert words[i..][1..] == words[i + 1..];
      var hit := ParseLabel(words[i]);
      if hit.Some? {
        found := hit;
        return;
      }
      i := i + 1;
    }
  }

  /** Total characters over all sentences. */
  function TotalChars(xs: seq<string>): nat
    decreases |xs|
  {
    if xs == [] then 0 else |xs[0]| + TotalChars(xs[1..])
  }

  /** Fallback when the reply names no strategy. The average length exceeds 120
      exactly when the total exceeds 120 times the count. */
  function ReplyFallback(total: nat, n: nat): Strategy {
    if total < 1000 then Sentence
    else if total > 120 * n || n > 100 then Semantic
    else Recursive
  }

  /** Fallback when the model call raises: the sentence-count clause is absent. */
  function ErrorFallback(total: nat, n: nat): Strategy {
    if total < 1000 then Sentence
    else if total > 120 * n then Semantic
    else Recursive
  }

  /** The two fallbacks disagree exactly on long transcripts of more than 100 short
      sentences, where only the reply path picks `semantic`. */
  lemma FallbacksDiffer(total: nat, n: nat)
    ensures ReplyFallback(total, n) != ErrorFallback(total, n) <==>
      total >= 1000 && total <= 120 * n && n > 100
    ensures ReplyFallback(total, n) != ErrorFallback(total, n) ==>
      ReplyFallback(total, n) == Semantic && ErrorFallback(total, n) == Recursive
    ensures total < 1000 <==> ReplyFallback(total, n) == Sentence
    ensures total < 1000 <==> ErrorFallback(total, n) == Sentence
  {
  }

  /** What the generation model did with the analysis prompt. */
  datatype Reply = Answered(text: string) | CallFailed

  /** `analyzer_agent_node`: `recursive` for no sentences; otherwise the first label
      in the reply, else the reply fallback; on a failed call, the error fallback. */
  method Analyze(sentences: seq<string>, reply: Reply) returns (st: Strategy)
    ensures st == ChosenStrategy(sentences, reply)
    ensures sentences == [] ==> st == Recursive
    ensures sentences != [] && reply.CallFailed? ==>
      st == ErrorFallback(TotalChars(sentences), |sentences|)
    ensures sentences != [] && reply.Answered? && FirstLabelOf(ReplyWords(reply.text)).Some? ==>
      st == FirstLabelOf(ReplyWords(reply.text)).value
    ensures sentences != [] && reply.Answered? && FirstLabelOf(ReplyWords(reply.text)).None? ==>
      st == ReplyFallback(TotalChars(sentences), |sentences|)
  {
    if sentences == [] {
      return Recursive;
    }
    var total, n := TotalChars(sentences), |sentences|;
    match reply
    case CallFailed =>
      st := ErrorFallback(total, n);
    case Answered(text) =>
      var hit := FirstLabel(ReplyWords(text));
      if hit.Some? {
        st := hit.value;
      } else {
        st := ReplyFallback(total, n);
      }
  }

  /** The strategy the analyzer settles on, case by case as `Analyze` decides it. */
  function ChosenStrategy(sentences: seq<string>, reply: Reply): Strategy {
    if sentences == [] then Recursive
    else match reply
      case CallFailed => ErrorFallback(TotalChars(sentences), |sentences|)
      case Answered(text) =>
        match FirstLabelOf(ReplyWords(text))
        case Some(st) => st
        case None => ReplyFallback(TotalChars(sentences), |sentences|)
  }

  /** A reply that is exactly a label is read as that label. */
  lemma ReplyOfLabel(st: Strategy)
    ensures FirstLabelOf(ReplyWords(Name(st))) == Some(st)
  {
    var w := Name(st);
    NameIsLower(st);
    ReplyOfLowerWord(w);
    assert Router(st) == w;
  }

  /** Every label is a non-empty lower-case word. */
  lemma NameIsLower(st: Strategy)
    ensures Name(st) != [] && forall k :: 0 <= k < |Name(st)| ==> 'a' <= Name(st)[k] <= 'z'
  {
    match st
    case Semantic =>
    case Recursive =>
    case Sentence =>
  }

  /** A single lower-case word passes through the reply normalisation unchanged. */
  lemma ReplyOfLowerWord(w: string)
    requires w != [] && forall k :: 0 <= k < |w| ==> 'a' <= w[k] <= 'z'
    ensures ReplyWords(w) == [w]
  {
    assert Stripped(w);
    assert Lower(w) == w;
    NoneDeleted(w, {'"', '\'', '.', ','});
    SingleWord(w);
  }

  lemma {:induction false} NoneDeleted(s: string, cs: set<char>)
    requires forall k :: 0 <= k < |s| ==> s[k] !in cs
    ensures DeleteChars(s, cs) == s
    decreases |s|
  {
    if s != [] {
      NoneDeleted(s[1..], cs);
      assert [s[0]] + s[1..] == s;
    }
  }

  // ------------------------------------------------------------ sentence chunker

  function Min(a: int, b: int): int {
    if a <= b then a else b
  }

  /** `sentence_chunking_node`: consecutive groups of three sentences joined by a space. */
  function SentenceChunks(s: seq<string>): (chunks: seq<string>)
    ensures |chunks| == (|s| + 2) / 3
    ensures chunks == [] <==> s == []
  {
    seq((|s| + 2) / 3, i requires 0 <= i < (|s| + 2) / 3 => Join(" ", s[3 * i..Min(3 * i + 3, |s|)]))
  }

  /** The first group of three, then the rest. */
  lemma SentenceChunksCons(s: seq<string>)
    requires |s| > 3
    ensures SentenceChunks(s) == [Join(" ", s[..3])] + SentenceChunks(s[3..])
  {
    var a, b := SentenceChunks(s), SentenceChunks(s[3..]);
    assert |a| == 1 + |b|;
    forall i | 1 <= i < |a| ensures a[i] == b[i - 1] {
      var lo, hi := 3 * i, Min(3 * i + 3, |s|);
      assert 3 * (i - 1) == lo - 3 && Min(3 * (i - 1) + 3, |s| - 3) == hi - 3;
      SliceOfSuffix(s, 3, lo - 3, hi - 3);
    }
  }

  lemma SliceOfSuffix<T>(s: seq<T>, d: nat, a: nat, b: nat)
    requires d + b <= |s| && a <= b
    ensures s[d..][a..b] == s[d + a..d + b]
  {
  }

  /** Regrouping by three loses and adds nothing: joining the chunks gives the
      sentences joined by single spaces. */
  lemma {:induction false} SentenceChunksJoin(s: seq<string>)
    ensures Join(" ", SentenceChunks(s)) == Join(" ", s)
    decreases |s|
  {
    if |s| == 0 {
    } else if |s| <= 3 {
      assert s[3 * 0..Min(3 * 0 + 3, |s|)] == s;
    } else {
      SentenceChunksCons(s);
      SentenceChunksJoin(s[3..]);
      assert SentenceChunks(s[3..]) != [];
      JoinAppend(" ", [Join(" ", s[..3])], SentenceChunks(s[3..]));
      JoinAppend(" ", s[..3], s[3..]);
      assert s[..3] + s[3..] == s;
    }
  }

  // ------------------------------------------------------------ recursive chunker

  /** The strings of `xs` that are not empty, in order. */
  function NonEmpty(xs: seq<string>): (r: seq<string>)
    ensures forall k :: 0 <= k < |r| ==> r[k] != [] && r[k] in xs
    decreases |xs|
  {
    if xs == [] then []
    else NonEmpty(xs[..|xs| - 1]) + (if xs[|xs| - 1] == [] then [] else [xs[|xs| - 1]])
  }

  /** Appending a sentence to a non-empty buffer extends the last pending group. */
  lemma AppendStep(done: seq<string>, group: seq<string>, s: string, prefix: seq<string>)
    requires group != [] && prefix != []
    requires Join(" ", done + [Join(" ", group)]) == Join(" ", prefix)
    ensures Join(" ", done + [Join(" ", group + [s])]) == Join(" ", prefix + [s])
  {
    JoinSnoc(" ", group, s);
    JoinSnoc(" ", prefix, s);
    var a := Join(" ", group);
    if done != [] {
      JoinSnoc(" ", done, a + " " + s);
      JoinSnoc(" ", done, a);
    } else {
      assert done + [a + " " + s] == [a + " " + s];
      assert done + [a] == [a];
    }
  }

  /** Emitting the pending group as a chunk and starting a new group with `s`. */
  lemma EmitStep(done: seq<string>, c: string, s: string, prefix: seq<string>)
    requires prefix != []
    requires Join(" ", done + [c]) == Join(" ", prefix)
    ensures Join(" ", done + [c] + [s]) == Join(" ", prefix + [s])
  {
    JoinSnoc(" ", done + [c], s);
    JoinSnoc(" ", prefix, s);
  }

  lemma SliceCleanFrom(xs: seq<string>, a: nat)
    requires a <= |xs| && AllStrippedNonEmpty(xs)
    ensures AllStrippedNonEmpty(xs[a..])
  {
    forall k | 0 <= k < |xs| - a ensures xs[a..][k] != [] && Stripped(xs[a..][k]) {
      assert xs[a..][k] == xs[a + k];
    }
  }

  lemma SliceCleanPrefix(xs: seq<string>, b: nat)
    requires b <= |xs| && AllStrippedNonEmpty(xs)
    ensures AllStrippedNonEmpty(xs[..b])
  {
    forall k | 0 <= k < b ensures xs[..b][k] != [] && Stripped(xs[..b][k]) {
      assert xs[..b][k] == xs[k];
    }
  }

  /** Dropping empty strings distributes over appending one more string. */
  lemma NonEmptySnoc(xs: seq<string>, c: string)
    ensures NonEmpty(xs + [c]) == NonEmpty(xs) + (if c == [] then [] else [c])
  {
    assert (xs + [c])[..|xs|] == xs;
  }

  /** A buffer the chunker built strips to the join of its sentences. */
  lemma StripBuffer(lead: bool, group: seq<string>)
    requires group != [] && AllStrippedNonEmpty(group)
    ensures Strip((if lead then " " else "") + Join(" ", group)) == Join(" ", group)
    ensures Join(" ", group) != []
  {
    JoinStripped(group);
    if lead {
      StripSpacePrefix(Join(" ", group));
    } else {
      assert "" + Join(" ", group) == Join(" ", group);
    }
  }

  /** The recursive chunker's state between sentences: the buffers emitted so far,
      before stripping, and the current buffer. */
  datatype Buffered = Buffered(emitted: seq<string>, buf: string)

  /** One sentence into the buffer: appended after a space while buffer plus sentence
      stay under 800 characters; otherwise the buffer is emitted and the sentence
      starts the next one. */
  function Feed(b: Buffered, s: string): Buffered {
    if |b.buf| + |s| < 800 then Buffered(b.emitted, b.buf + " " + s)
    else Buffered(b.emitted + [b.buf], s)
  }

  function FeedAll(xs: seq<string>): Buffered
    decreases |xs|
  {
    if xs == [] then Buffered([], "") else Feed(FeedAll(xs[..|xs| - 1]), xs[|xs| - 1])
  }

  /** Every buffer emitted, including a non-empty final one. */
  function Emitted(xs: seq<string>): seq<string> {
    var b := FeedAll(xs);
    if b.buf != "" then b.emitted + [b.buf] else b.emitted
  }

  /** The chunks `recursive_chunking_node` returns: each emitted buffer, stripped. */
  function RecursiveChunks(xs: seq<string>): seq<string> {
    StripEach(Emitted(xs))
  }

  /** Where the sentences still in the buffer begin. */
  ghost function GroupStart(xs: seq<string>): nat
    decreases |xs|
  {
    if xs == [] then 0
    else if |FeedAll(xs[..|xs| - 1]).buf| + |xs[|xs| - 1]| < 800 then GroupStart(xs[..|xs| - 1])
    else |xs| - 1
  }

  /** Whether the buffer began empty, so that it starts with a space. */
  ghost function Lead(xs: seq<string>): bool
    decreases |xs|
  {
    if xs == [] then false
    else if |FeedAll(xs[..|xs| - 1]).buf| + |xs[|xs| - 1]| < 800 then |xs| == 1 || Lead(xs[..|xs| - 1])
    else false
  }

  /** The buffer holds the sentences from `GroupStart`, joined by spaces after an
      optional leading space; a buffer made by appending is at most 800 long. */
  lemma {:induction false} FeedAllShape(xs: seq<string>)
    ensures GroupStart(xs) <= |xs| && (xs != [] ==> GroupStart(xs) < |xs|)
    ensures FeedAll(xs).buf == (if Lead(xs) then " " else "") + Join(" ", xs[GroupStart(xs)..])
    ensures Lead(xs) ==> FeedAll(xs).emitted == []
    ensures Lead(xs) || |xs| - GroupStart(xs) >= 2 ==> |FeedAll(xs).buf| <= 800
    ensures xs != [] ==> FeedAll(xs).emitted != [] || FeedAll(xs).buf != ""
    decreases |xs|
  {
    if xs != [] {
      var p, s := xs[..|xs| - 1], xs[|xs| - 1];
      FeedAllShape(p);
      var b, g := FeedAll(p), GroupStart(p);
      assert FeedAll(xs) == Feed(b, s);
      if |b.buf| + |s| < 800 {
        assert GroupStart(xs) == g;
        assert xs[g..] == p[g..] + [s];
        if p == [] {
          assert Lead(xs) && xs[g..] == [s];
          assert FeedAll(xs).buf == " " + s;
        } else {
          assert Lead(xs) == Lead(p);
          var pre := if Lead(p) then " " else "";
          assert FeedAll(xs).buf == pre + Join(" ", p[g..]) + " " + s;
          BufferSnoc(pre, p[g..], s);
        }
      } else {
        assert GroupStart(xs) == |xs| - 1 && !Lead(xs);
        assert xs[|xs| - 1..] == [s];
        assert FeedAll(xs).buf == s;
      }
    }
  }

  lemma BufferSnoc(pre: string, group: seq<string>, s: string)
    requires group != []
    ensures pre + Join(" ", group) + " " + s == pre + Join(" ", group + [s])
  {
    JoinSnoc(" ", group, s);
  }

  /** Emitted buffers are never taken back. */
  lemma {:induction false} EmittedGrow(xs: seq<string>, n: nat)
    requires n <= |xs|
    ensures FeedAll(xs[..n]).emitted <= FeedAll(xs).emitted
    decreases |xs|
  {
    if n < |xs| {
      var p := xs[..|xs| - 1];
      assert p[..n] == xs[..n];
      EmittedGrow(p, n);
    } else {
      assert xs[..n] == xs;
    }
  }

  /** A first sentence of 800 or more characters emits the empty buffer first. */
  lemma FeedAllFirst(xs: seq<string>)
    requires xs != [] && |xs[0]| >= 800
    ensures FeedAll(xs).emitted != [] && FeedAll(xs).emitted[0] == ""
  {
    assert xs[..1][..0] == [];
    assert FeedAll(xs[..1]).emitted == [""];
    EmittedGrow(xs, 1);
  }

  /** Every buffer longer than 800 characters is a single sentence. */
  lemma {:induction false} FeedAllLong(xs: seq<string>)
    ensures forall k :: 0 <= k < |FeedAll(xs).emitted| && |FeedAll(xs).emitted[k]| > 800 ==>
      FeedAll(xs).emitted[k] in xs
    decreases |xs|
  {
    if xs != [] {
      var p, s := xs[..|xs| - 1], xs[|xs| - 1];
      FeedAllLong(p);
      FeedAllShape(p);
      var es := FeedAll(xs).emitted;
      forall k | 0 <= k < |es| && |es[k]| > 800 ensures es[k] in xs {
        if k < |FeedAll(p).emitted| {
          assert es[k] in p;
        } else {
          var g := GroupStart(p);
          assert p[g..] == [p[g]];
          assert xs[g] == p[g];
        }
      }
    }
  }

  /** Every emitted buffer longer than 800 characters, the final one included, is a
      single sentence. */
  lemma EmittedLong(xs: seq<string>)
    ensures forall k :: 0 <= k < |Emitted(xs)| && |Emitted(xs)[k]| > 800 ==> Emitted(xs)[k] in xs
  {
    FeedAllLong(xs);
    FeedAllShape(xs);
    var b := FeedAll(xs);
    var es := Emitted(xs);
    forall k | 0 <= k < |es| && |es[k]| > 800 ensures es[k] in xs {
      if k < |b.emitted| {
        assert es[k] == b.emitted[k];
      } else {
        var g := GroupStart(xs);
        assert xs[g..] == [xs[g]];
      }
    }
  }

  /** For cleaned sentences, a buffer the chunker emits strips to the join of the
      sentences it holds, which is not empty. */
  lemma EmitClean(xs: seq<string>)
    requires xs != [] && AllStrippedNonEmpty(xs)
    ensures GroupStart(xs) < |xs|
    ensures Strip(FeedAll(xs).buf) == Join(" ", xs[GroupStart(xs)..]) != ""
  {
    FeedAllShape(xs);
    SliceCleanFrom(xs, GroupStart(xs));
    StripBuffer(Lead(xs), xs[GroupStart(xs)..]);
  }

  /** For cleaned sentences, only the first emitted buffer can strip to "". */
  lemma {:induction false} FeedAllNonEmpty(xs: seq<string>)
    requires AllStrippedNonEmpty(xs)
    ensures forall k :: 0 < k < |FeedAll(xs).emitted| ==> Strip(FeedAll(xs).emitted[k]) != ""
    decreases |xs|
  {
    if xs != [] {
      var p, s := xs[..|xs| - 1], xs[|xs| - 1];
      SliceCleanPrefix(xs, |xs| - 1);
      FeedAllNonEmpty(p);
      var b := FeedAll(p);
      if |b.buf| + |s| >= 800 && p != [] {
        EmitClean(p);
        assert FeedAll(xs).emitted == b.emitted + [b.buf];
        forall k | 0 < k < |FeedAll(xs).emitted| ensures Strip(FeedAll(xs).emitted[k]) != "" {
          if k < |b.emitted| {
            assert FeedAll(xs).emitted[k] == b.emitted[k];
          }
        }
      }
    }
  }

  /** The joined view the recursive chunker keeps of its progress: the stripped,
      non-empty emitted buffers, then the sentences still buffered. */
  ghost function Progress(xs: seq<string>): seq<string>
    requires xs != []
  {
    FeedAllShape(xs);
    NonEmpty(StripEach(FeedAll(xs).emitted)) + [Join(" ", xs[GroupStart(xs)..])]
  }

  /** For cleaned sentences, the progress view rejoins to the sentences. */
  lemma {:induction false} FeedAllJoin(xs: seq<string>)
    requires xs != [] && AllStrippedNonEmpty(xs)
    ensures Join(" ", Progress(xs)) == Join(" ", xs)
    decreases |xs|
  {
    var p, s := xs[..|xs| - 1], xs[|xs| - 1];
    if p == [] {
      FeedAllJoinFirst(xs);
    } else {
      SliceCleanPrefix(xs, |xs| - 1);
      FeedAllJoin(p);
      if |FeedAll(p).buf| + |s| < 800 {
        FeedAllJoinAppend(xs);
      } else {
        FeedAllJoinEmit(xs);
      }
    }
  }

  lemma FeedAllJoinFirst(xs: seq<string>)
    requires |xs| == 1
    ensures Join(" ", Progress(xs)) == Join(" ", xs)
  {
    var s := xs[0];
    assert xs[..0] == [];
    FeedAllShape(xs);
    assert xs[GroupStart(xs)..] == [s];
    if |s| >= 800 {
      assert FeedAll(xs).emitted == [""];
      assert StripEach([""]) == [""];
      NonEmptySnoc([], "");
    }
  }

  lemma FeedAllJoinAppend(xs: seq<string>)
    requires |xs| >= 2
    requires |FeedAll(xs[..|xs| - 1]).buf| + |xs[|xs| - 1]| < 800
    requires Join(" ", Progress(xs[..|xs| - 1])) == Join(" ", xs[..|xs| - 1])
    ensures Join(" ", Progress(xs)) == Join(" ", xs)
  {
    var p, s := xs[..|xs| - 1], xs[|xs| - 1];
    assert xs == p + [s];
    FeedAllShape(p);
    var g := GroupStart(p);
    SliceSnocFrom(p, s, g);
    assert FeedAll(xs).emitted == FeedAll(p).emitted;
    assert GroupStart(xs) == g;
    var done := NonEmpty(StripEach(FeedAll(p).emitted));
    assert Progress(xs) == done + [Join(" ", p[g..] + [s])];
    AppendStep(done, p[g..], s, p);
  }

  lemma SliceSnocFrom<T>(p: seq<T>, s: T, g: nat)
    requires g <= |p|
    ensures (p + [s])[g..] == p[g..] + [s]
  {
  }

  lemma FeedAllJoinEmit(xs: seq<string>)
    requires |xs| >= 2 && AllStrippedNonEmpty(xs[..|xs| - 1])
    requires |FeedAll(xs[..|xs| - 1]).buf| + |xs[|xs| - 1]| >= 800
    requires Join(" ", Progress(xs[..|xs| - 1])) == Join(" ", xs[..|xs| - 1])
    ensures Join(" ", Progress(xs)) == Join(" ", xs)
  {
    var p, s := xs[..|xs| - 1], xs[|xs| - 1];
    assert xs == p + [s];
    var b := FeedAll(p);
    EmitClean(p);
    var c := Strip(b.buf);
    assert FeedAll(xs).emitted == b.emitted + [b.buf];
    StripEachSnoc(b.emitted, b.buf);
    NonEmptySnoc(StripEach(b.emitted), c);
    EmitStep(NonEmpty(StripEach(b.emitted)), c, s, p);
    assert GroupStart(xs) == |xs| - 1;
    assert xs[|xs| - 1..] == [s];
  }

  /** No sentences, no chunks; some sentences, some chunks. */
  lemma RecursiveChunksEmpty(xs: seq<string>)
    ensures xs == [] <==> RecursiveChunks(xs) == []
  {
    FeedAllShape(xs);
  }

  /** A first sentence of 800 or more characters yields an empty first chunk. */
  lemma RecursiveChunksFirst(xs: seq<string>)
    requires xs != [] && |xs[0]| >= 800
    ensures RecursiveChunks(xs)[0] == ""
  {
    FeedAllFirst(xs);
    assert RecursiveChunks(xs)[0] == Strip(Emitted(xs)[0]);
  }

  /** A chunk over 800 characters is one stripped sentence. */
  lemma RecursiveChunksLong(xs: seq<string>)
    ensures forall k :: 0 <= k < |RecursiveChunks(xs)| && |RecursiveChunks(xs)[k]| > 800 ==>
      exists j :: 0 <= j < |xs| && RecursiveChunks(xs)[k] == Strip(xs[j])
  {
    EmittedLong(xs);
    var es, cs := Emitted(xs), RecursiveChunks(xs);
    forall k | 0 <= k < |cs| && |cs[k]| > 800
      ensures exists j :: 0 <= j < |xs| && cs[k] == Strip(xs[j])
    {
      assert es[k] in xs;
      var j :| 0 <= j < |xs| && xs[j] == es[k];
    }
  }

  /** For cleaned sentences, the non-empty chunks joined by spaces give back the
      sentences joined by spaces. */
  lemma RecursiveChunksJoin(xs: seq<string>)
    requires AllStrippedNonEmpty(xs)
    ensures Join(" ", NonEmpty(RecursiveChunks(xs))) == Join(" ", xs)
  {
    if xs != [] {
      var b := FeedAll(xs);
      FeedAllJoin(xs);
      EmitClean(xs);
      assert Emitted(xs) == b.emitted + [b.buf];
      StripEachSnoc(b.emitted, b.buf);
      NonEmptySnoc(StripEach(b.emitted), Strip(b.buf));
      assert NonEmpty(RecursiveChunks(xs)) == Progress(xs);
    }
  }

  /** For cleaned sentences, only the first chunk can be empty. */
  lemma RecursiveChunksNonEmpty(xs: seq<string>)
    requires AllStrippedNonEmpty(xs)
    ensures forall k :: 0 < k < |RecursiveChunks(xs)| ==> RecursiveChunks(xs)[k] != ""
  {
    if xs != [] {
      var b := FeedAll(xs);
      FeedAllNonEmpty(xs);
      EmitClean(xs);
      assert Emitted(xs) == b.emitted + [b.buf];
      var cs := RecursiveChunks(xs);
      forall k | 0 < k < |cs| ensures cs[k] != "" {
        if k < |b.emitted| {
          assert cs[k] == Strip(b.emitted[k]);
        } else {
          assert cs[k] == Strip(b.buf);
        }
      }
    }
  }

  /** `recursive_chunking_node`, the loop over the sentences. */
  method RecursiveChunking(sentences: seq<string>) returns (chunks: seq<string>)
    ensures chunks == RecursiveChunks(sentences)
  {
    chunks := [];
    var buf := "";
    for i := 0 to |sentences|
      invariant chunks == StripEach(FeedAll(sentences[..i]).emitted)
      invariant buf == FeedAll(sentences[..i]).buf
    {
      var s := sentences[i];
      assert sentences[..i + 1][..i] == sentences[..i];
      if |buf| + |s| < 800 {
        buf := buf + " " + s;
      } else {
        chunks := chunks + [Strip(buf)];
        buf := s;
      }
    }
    assert sentences[..|sentences|] == sentences;
    if buf != "" {
      chunks := chunks + [Strip(buf)];
    }
  }

  // ------------------------------------------------------------ semantic chunker

  /** How many adjacent pairs fall below the similarity threshold. */
  function CountTrue(bs: seq<bool>): nat
    decreases |bs|
  {
    if bs == [] then 0 else CountTrue(bs[..|bs| - 1]) + (if bs[|bs| - 1] then 1 else 0)
  }

  /** The groups `semantic_chunking_node` forms: a sentence starts a new group
      exactly when its similarity to the previous sentence is below the threshold
      (`below[i - 1]` for sentence `i`); otherwise it joins the current group. */
  function Groups(xs: seq<string>, below: seq<bool>): (gs: seq<seq<string>>)
    requires |xs| >= 1 && |below| == |xs| - 1
    ensures |gs| >= 1
    decreases |xs|
  {
    if |xs| == 1 then [[xs[0]]]
    else
      var gs := Groups(xs[..|xs| - 1], below[..|below| - 1]);
      var x := xs[|xs| - 1];
      if below[|below| - 1] then gs + [[x]]
      else gs[..|gs| - 1] + [gs[|gs| - 1] + [x]]
  }

  /** Each group joined by a space. */
  function MapJoin(gs: seq<seq<string>>): (r: seq<string>)
    ensures |r| == |gs|
  {
    seq(|gs|, k requires 0 <= k < |gs| => Join(" ", gs[k]))
  }

  lemma MapJoinSnoc(gs: seq<seq<string>>, g: seq<string>)
    ensures MapJoin(gs + [g]) == MapJoin(gs) + [Join(" ", g)]
  {
  }

  /** The groups partition the sentences: none is empty, they rebuild the
      sentences in order, and there is one more group than there are breaks. */
  lemma GroupsPartition(xs: seq<string>, below: seq<bool>)
    requires |xs| >= 1 && |below| == |xs| - 1
    ensures forall k :: 0 <= k < |Groups(xs, below)| ==> Groups(xs, below)[k] != []
    ensures Flatten(Groups(xs, below)) == xs
    ensures |Groups(xs, below)| == 1 + CountTrue(below)
  {
    GroupsNonEmpty(xs, below);
    GroupsFlatten(xs, below);
    GroupsCount(xs, below);
  }

  lemma {:induction false} GroupsNonEmpty(xs: seq<string>, below: seq<bool>)
    requires |xs| >= 1 && |below| == |xs| - 1
    ensures forall k :: 0 <= k < |Groups(xs, below)| ==> Groups(xs, below)[k] != []
    decreases |xs|
  {
    if |xs| > 1 {
      GroupsNonEmpty(xs[..|xs| - 1], below[..|below| - 1]);
    }
  }

  lemma {:induction false} GroupsCount(xs: seq<string>, below: seq<bool>)
    requires |xs| >= 1 && |below| == |xs| - 1
    ensures |Groups(xs, below)| == 1 + CountTrue(below)
    decreases |xs|
  {
    if |xs| > 1 {
      GroupsCount(xs[..|xs| - 1], below[..|below| - 1]);
    }
  }

  lemma {:induction false} GroupsFlatten(xs: seq<string>, below: seq<bool>)
    requires |xs| >= 1 && |below| == |xs| - 1
    ensures Flatten(Groups(xs, below)) == xs
    decreases |xs|
  {
    if |xs| == 1 {
      FlattenSnoc([], [xs[0]]);
      assert [] + [[xs[0]]] == [[xs[0]]];
      assert [xs[0]] == xs;
    } else {
      var p, bp, x := xs[..|xs| - 1], below[..|below| - 1], xs[|xs| - 1];
      assert xs == p + [x];
      var gs := Groups(p, bp);
      var init, last := gs[..|gs| - 1], gs[|gs| - 1];
      assert gs == init + [last];
      GroupsFlatten(p, bp);
      FlattenSnoc(gs, [x]);
      if !below[|below| - 1] {
        FlattenSnoc(init, last);
        FlattenSnoc(init, last + [x]);
        ConcatAssoc(Flatten(init), last, [x]);
      }
    }
  }

  /** Sentences that all stay above the threshold form a single group. */
  lemma {:induction false} GroupsNoBreak(xs: seq<string>, below: seq<bool>)
    requires |xs| >= 1 && |below| == |xs| - 1
    requires forall k :: 0 <= k < |below| ==> !below[k]
    ensures Groups(xs, below) == [xs]
    decreases |xs|
  {
    if |xs| > 1 {
      var p := xs[..|xs| - 1];
      var gs := Groups(p, below[..|below| - 1]);
      GroupsNoBreak(p, below[..|below| - 1]);
      assert gs == [p];
      assert !below[|below| - 1];
      assert Groups(xs, below) == gs[..0] + [gs[0] + [xs[|xs| - 1]]];
      assert p + [xs[|xs| - 1]] == xs;
    } else {
      assert xs == [xs[0]];
    }
  }

  /** Sentences that all fall below the threshold each form their own group. */
  lemma {:induction false} GroupsAllBreak(xs: seq<string>, below: seq<bool>)
    requires |xs| >= 1 && |below| == |xs| - 1
    requires forall k :: 0 <= k < |below| ==> below[k]
    ensures Groups(xs, below) == seq(|xs|, k requires 0 <= k < |xs| => [xs[k]])
    decreases |xs|
  {
    if |xs| > 1 {
      GroupsAllBreak(xs[..|xs| - 1], below[..|below| - 1]);
    }
  }

  /** Joining the joined groups gives the sentences joined by spaces. */
  lemma {:induction false} MapJoinFlatten(gs: seq<seq<string>>)
    requires gs != [] && forall k :: 0 <= k < |gs| ==> gs[k] != []
    ensures Join(" ", MapJoin(gs)) == Join(" ", Flatten(gs))
    decreases |gs|
  {
    if |gs| == 1 {
      assert gs[..0] == [];
      assert Flatten(gs) == gs[0];
      assert MapJoin(gs) == [Join(" ", gs[0])];
    } else {
      var init := gs[..|gs| - 1];
      var last := gs[|gs| - 1];
      MapJoinFlatten(init);
      assert MapJoin(gs) == MapJoin(init) + [Join(" ", last)];
      JoinSnoc(" ", MapJoin(init), Join(" ", last));
      assert Flatten(init) != [] by {
        GroupsNonEmptyFlatten(init);
      }
      JoinAppend(" ", Flatten(init), last);
    }
  }

  lemma {:induction false} GroupsNonEmptyFlatten(gs: seq<seq<string>>)
    requires gs != [] && forall k :: 0 <= k < |gs| ==> gs[k] != []
    ensures Flatten(gs) != []
  {
    assert |Flatten(gs)| >= |gs[|gs| - 1]|;
  }

  /** Semantic chunks lose and add nothing: joined by spaces, they give the
      sentences joined by spaces. */
  lemma SemanticChunksJoin(xs: seq<string>, below: seq<bool>)
    requires |xs| >= 1 && |below| == |xs| - 1
    ensures Join(" ", MapJoin(Groups(xs, below))) == Join(" ", xs)
  {
    GroupsPartition(xs, below);
    MapJoinFlatten(Groups(xs, below));
  }

  /** One more sentence either opens a new group after the current one or
      extends the current one. */
  lemma GroupsSnoc(xs: seq<string>, below: seq<bool>, i: nat,
                   done: seq<seq<string>>, current: seq<string>)
    requires 1 <= i < |xs| && |below| == |xs| - 1
    requires done + [current] == Groups(xs[..i], below[..i - 1])
    ensures below[i - 1] ==> Groups(xs[..i + 1], below[..i]) == done + [current] + [[xs[i]]]
    ensures !below[i - 1] ==> Groups(xs[..i + 1], below[..i]) == done + [current + [xs[i]]]
  {
    assert xs[..i + 1][..i] == xs[..i];
    assert below[..i][..i - 1] == below[..i - 1];
    var gs := done + [current];
    assert gs[..|gs| - 1] == done && gs[|gs| - 1] == current;
  }

  /** After the last sentence the current group is the last group, and it is not empty. */
  lemma GroupsLast(xs: seq<string>, below: seq<bool>, done: seq<seq<string>>, current: seq<string>)
    requires |xs| >= 1 && |below| == |xs| - 1
    requires done + [current] == Groups(xs[..|xs|], below[..|xs| - 1])
    ensures current != []
    ensures MapJoin(done) + [Join(" ", current)] == MapJoin(Groups(xs, below))
  {
    assert xs[..|xs|] == xs;
    assert below[..|xs| - 1] == below;
    GroupsPartition(xs, below);
    assert current == Groups(xs, below)[|done|];
  }

  /** The similarity oracle read pairwise: `below[i]` says whether sentence `i + 1`
      falls under the threshold against sentence `i`. */
  function Adjacent(xs: seq<string>, under: (string, string) -> bool): (below: seq<bool>)
    ensures |below| == if xs == [] then 0 else |xs| - 1
  {
    if xs == [] then [] else seq(|xs| - 1, i requires 0 <= i < |xs| - 1 => under(xs[i + 1], xs[i]))
  }

  /** `semantic_chunking_node`, the loop over sentence pairs; `under` decides from
      the two sentences' embeddings whether their cosine similarity is below 0.7.
      An empty sentence list fails on `sentences[0]`. */
  method SemanticChunking(sentences: seq<string>, under: (string, string) -> bool)
    returns (r: Option<seq<string>>)
    ensures sentences == [] <==> r.None?
    ensures r.Some? ==> r.value == MapJoin(Groups(sentences, Adjacent(sentences, under)))
  {
    if sentences == [] {
      return None;
    }
    var chunks := JoinGroups(sentences, Adjacent(sentences, under));
    return Some(chunks);
  }

  /** The loop itself: a break before sentence `i` closes the current group. */
  method JoinGroups(sentences: seq<string>, below: seq<bool>) returns (chunks: seq<string>)
    requires sentences != [] && |below| == |sentences| - 1
    ensures chunks == MapJoin(Groups(sentences, below))
  {
    chunks := [];
    var current := [sentences[0]];
    ghost var done: seq<seq<string>> := [];
    for i := 1 to |sentences|
      invariant done + [current] == Groups(sentences[..i], below[..i - 1])
      invariant chunks == MapJoin(done)
    {
      GroupsSnoc(sentences, below, i, done, current);
      if below[i - 1] {
        MapJoinSnoc(done, current);
        chunks := chunks + [Join(" ", current)];
        done := done + [current];
        current := [sentences[i]];
      } else {
        current := current + [sentences[i]];
      }
    }
    GroupsLast(sentences, below, done, current);
    if current != [] {
      chunks := chunks + [Join(" ", current)];
    }
  }

  // ------------------------------------------------------------ retrieval

  /** `[xs[i] for i in ids]`: fails when one index is out of range. */
  function Pick(xs: seq<string>, ids: seq<int>): (r: Option<seq<string>>)
    ensures r.Some? <==> forall k :: 0 <= k < |ids| ==> PyIndex(|xs|, ids[k]).Some?
    ensures r.Some? ==> |r.value| == |ids| && forall k :: 0 <= k < |ids| ==> r.value[k] in xs
    ensures InRange(ids, |xs|) ==> r == Some(Lookup(xs, ids))
    decreases |ids|
  {
    if ids == [] then Some([])
    else
      var front := ids[..|ids| - 1];
      assert InRange(ids, |xs|) ==> Lookup(xs, ids) == Lookup(xs, front) + [xs[ids[|ids| - 1]]];
      match (Pick(xs, front), PyIndex(|xs|, ids[|ids| - 1]))
      case (Some(picked), Some(j)) => Some(picked + [xs[j]])
      case _ => None
  }

  /** Every index names an element of a list of length `n`. */
  predicate InRange(ids: seq<int>, n: nat) {
    forall k :: 0 <= k < |ids| ==> 0 <= ids[k] < n
  }

  /** The elements that in-range indices name, in order. */
  function Lookup(xs: seq<string>, ids: seq<int>): (r: seq<string>)
    requires InRange(ids, |xs|)
    ensures |r| == |ids|
  {
    seq(|ids|, k requires 0 <= k < |ids| => xs[ids[k]])
  }

  /** How many neighbours the FAISS search asks for: `min(10, len(chunks))`. */
  function SearchK(n: nat): (k: nat)
    ensures k <= 10 && k <= n
    ensures k == 10 || k == n
  {
    Min(10, n)
  }

  datatype RetrievalError =
    | NoChunks      // no chunk to embed: the embedding matrix has no dimension
    | BadIndex      // a FAISS or rerank index outside the list
    | RerankFailed  // the Cohere call raised; there is no fallback

  /** The retrieval step's outcome: the FAISS candidates, the reranked picks and
      the context handed to generation. */
  datatype Retrieved = Retrieved(candidates: seq<string>, selected: seq<string>, context: string)

  /** `rag_retrieval_node`: `ids` are the FAISS neighbour ids of the query among
      the chunks; `rerank` is the Cohere reranker's top-3 order over the
      candidates, or None when the call raises. */
  function Retrieve(chunks: seq<string>, ids: seq<int>, rerank: seq<string> -> Option<seq<int>>)
    : (r: Result<Retrieved, RetrievalError>)
    ensures chunks == [] ==> r == Failure(NoChunks)
    ensures r.Success? ==>
      && |r.value.candidates| == |ids|
      && rerank(r.value.candidates).Some?
      && |r.value.selected| == |rerank(r.value.candidates).value|
      && (forall k :: 0 <= k < |r.value.selected| ==> r.value.selected[k] in chunks)
      && r.value.context == Join("\n\n", r.value.selected)
    ensures chunks != [] && InRange(ids, |chunks|) ==>
      var candidates := Lookup(chunks, ids);
      && (rerank(candidates).None? ==> r == Failure(RerankFailed))
      && (rerank(candidates).Some? && InRange(rerank(candidates).value, |candidates|) ==>
            var selected := Lookup(candidates, rerank(candidates).value);
            r == Success(Retrieved(candidates, selected, Join("\n\n", selected))))
  {
    if chunks == [] then Failure(NoChunks)
    else match Pick(chunks, ids)
      case None => Failure(BadIndex)
      case Some(candidates) =>
        match rerank(candidates)
        case None => Failure(RerankFailed)
        case Some(order) =>
          match Pick(candidates, order)
          case None => Failure(BadIndex)
          case Some(selected) =>
            Success(Retrieved(candidates, selected, Join("\n\n", selected)))
  }

  /** A reranker failure is not absorbed: with valid neighbour ids, retrieval
      fails exactly when the reranker does or names a bad candidate. */
  lemma RetrieveRerank(chunks: seq<string>, ids: seq<int>, rerank: seq<string> -> Option<seq<int>>)
    requires chunks != []
    requires forall k :: 0 <= k < |ids| ==> 0 <= ids[k] < |chunks|
    ensures Pick(chunks, ids).Some?
    ensures rerank(Pick(chunks, ids).value).None? ==>
      Retrieve(chunks, ids, rerank) == Failure(RerankFailed)
    ensures Retrieve(chunks, ids, rerank).Success? <==>
      && rerank(Pick(chunks, ids).value).Some?
      && forall k :: 0 <= k < |rerank(Pick(chunks, ids).value).value| ==>
           -(|ids| as int) <= rerank(Pick(chunks, ids).value).value[k] < |ids|
  {
  }

  // ------------------------------------------------------------ the graph

  /** The compiled graph from `clean` to `retrieve`: clean the transcript, analyze,
      follow the router's edge to one chunker, then retrieve. `search` gives the
      FAISS neighbour ids of the query among the chunks: an exact index over
      `len(chunks)` vectors asked for `min(10, len(chunks))` neighbours returns
      that many ids, each naming a chunk. `rerank` is the Cohere call with
      `top_n=3`: when it answers, at most three indices into the candidates. */
  method RunGraph(transcript: string, reply: Reply, under: (string, string) -> bool,
                  search: seq<string> -> seq<int>, rerank: seq<string> -> Option<seq<int>>)
    returns (st: Strategy, chunks: seq<string>, r: Result<Retrieved, RetrievalError>)
    requires forall c :: |search(c)| == SearchK(|c|) && InRange(search(c), |c|)
    requires forall cs :: rerank(cs).Some? ==> |rerank(cs).value| <= 3 && InRange(rerank(cs).value, |cs|)
    ensures st == ChosenStrategy(CleanTranscript(transcript), reply)
    ensures CleanTranscript(transcript) == [] ==> st == Recursive && r == Failure(NoChunks)
    ensures chunks == [] <==> CleanTranscript(transcript) == []
    ensures CleanTranscript(transcript) != [] ==> r.Success? || r == Failure(RerankFailed)
    ensures r.Success? ==> |r.value.candidates| == SearchK(|chunks|) && |r.value.selected| <= 3
    ensures st == Semantic ==> CleanTranscript(transcript) != []
    ensures st == Semantic ==>
      chunks == MapJoin(Groups(CleanTranscript(transcript), Adjacent(CleanTranscript(transcript), under)))
    ensures st == Recursive ==> chunks == RecursiveChunks(CleanTranscript(transcript))
    ensures st == Sentence ==> chunks == SentenceChunks(CleanTranscript(transcript))
    ensures r == Retrieve(chunks, search(chunks), rerank)
  {
    var sentences := CleanTranscript(transcript);
    st := Analyze(sentences, reply);
    match st {
      case Semantic =>
        var c := SemanticChunking(sentences, under);
        chunks := c.value;
      case Recursive =>
        chunks := RecursiveChunking(sentences);
        RecursiveChunksEmpty(sentences);
      case Sentence =>
        chunks := SentenceChunks(sentences);
    }
    r := Retrieve(chunks, search(chunks), rerank);
    if chunks != [] && rerank(Lookup(chunks, search(chunks))).Some? {
      var candidates := Lookup(chunks, search(chunks));
      assert InRange(rerank(candidates).value, |candidates|);
    }
  }
}
