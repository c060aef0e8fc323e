# YouTube learning assistant: the deterministic text path, in Dafny

This project models the deterministic text processing of a YouTube learning
assistant. It covers what happens to a transcript before retrieval and to a
language model's reply before the answer leaves the service:

- **RagWorkflow** (`rag/rag_workflow.py`): the agentic RAG graph up to retrieval.
  - The transcript cleaner deletes `[dd:dd]` timestamps and splits into sentences.
  - The analyzer reads a chunking strategy off the model's reply, or falls back to a length heuristic.
  - There are three chunkers: groups of three, a greedy 800-character buffer, and similarity boundaries.
  - Retrieval picks the FAISS candidates, applies the rerank order and joins the context.
- **FaissManager** (`rag/faiss_manager.py`): a second cleaner and chunker, index creation, and a per-video store.
  - The store is a class whose disk is a map from path to file contents.
  - The search keeps the chunks that FAISS ids name.
- **GetTranscripts** (`get_transcripts.py`): video-id extraction as a leftmost scan, the `[MM:SS] text` serialiser, and the layout of the saved transcript file.
- **Recommendation** (`src/backend/recommendation.py`): query lines read off the reply, at most three searches, the merge, dedup by link and the cut to five.
- **MindMap** (`src/backend/mindMap.py`): reasoning-tag removal, fence extraction, the line filter and the `mindmap` header normalisation.
- **McqService** (`src/mcq_service.py`): the JSON-candidate extraction chain, the trailing-comma cleanup and the `qa_text` listing.
- **Shared modules:**
  - **Text**: the Python string operations the core relies on.
  - **Patterns**: the regular-expression passes several files share.
  - **Wrappers**: `Option` and `Result`.

The following are parameters of the model, never computed:

- the language model;
- embeddings and cosine similarity;
- the FAISS index;
- the Cohere reranker;
- the video search;
- the JSON decoder.

## Model

| member | source | states |
|---|---|---|
| Text.Strip | src/backend/mindMap.py:31 | the result has no whitespace at either end, is empty exactly when the text is all whitespace, and leaves already-stripped text unchanged |
| Text.StripSpacePrefix | rag/rag_workflow.py:186 | stripping removes the single space in front of stripped text |
| Text.StripEach | rag/faiss_manager.py:43 | one stripped item per item |
| Text.StripSlice | src/backend/mindMap.py:31 | `strip()` removes exactly the leading and trailing whitespace runs: the result is the slice between them |
| Text.StripAround | rag/rag_workflow.py:71 | whitespace around stripped non-empty text is exactly what `strip()` removes |
| Text.StripPrefixOf | src/backend/mindMap.py:46 | a stripped prefix that ends in a non-space is also a prefix of the longer text's stripped form |
| Text.JoinAppend | rag/rag_workflow.py:211 | `sep.join` of two non-empty lists is the two joins with one separator between them |
| Text.JoinSnoc | rag/rag_workflow.py:186 | appending one more item to a join adds the separator and that item |
| Text.JoinHead | rag/rag_workflow.py:186 | a join starts with its first item |
| Text.JoinStripped | rag/rag_workflow.py:186 | joining non-empty stripped sentences by spaces gives non-empty stripped text that starts with the first sentence |
| Text.Split | src/backend/mindMap.py:43 | `split(c)` yields at least one piece, no piece holds `c`, and re-joining the pieces with `c` gives back the text |
| Text.SplitCons | src/backend/mindMap.py:43 | the text up to the first separator is the first piece, and the rest splits on its own |
| Text.SplitJoin | src/backend/mindMap.py:43 | splitting text that was joined by a separator absent from the parts gives back the parts |
| Text.SingleWord | rag/rag_workflow.py:142 | `split()` of one run of non-whitespace is that run alone |
| Text.DeleteChars | rag/rag_workflow.py:139 | after the chained `replace(c, '')` calls, no deleted character is left |
| Text.FindFrom | src/backend/mindMap.py:56 | `find` returns the first occurrence at or after the start, or none when no occurrence exists |
| Text.FindFromFirst | src/backend/mindMap.py:38 | an occurrence with none before it from the start is the one `find` returns |
| Text.IndexOf | src/mcq_service.py:40 | the position of the first occurrence, or the length when there is none |
| Text.IndexOfFirst | src/mcq_service.py:40 | the first occurrence after text without the character is found right after that text |
| Text.Prefix | src/backend/recommendation.py:55 | `xs[:n]` is a prefix of at most `n` elements, and the whole list when it is that short |
| Text.NatToString | src/mcq_service.py:55 | `str(n)` is all digits; it has one digit below 10 and two digits from 10 to 99 |
| Text.DecimalRoundTrip | get_transcripts.py:27 | the decimal text of `n` reads back as `n` |
| Text.Pad2RoundTrip | get_transcripts.py:27 | the zero-padded `:02d` text reads back as the number |
| Text.Pad2 | get_transcripts.py:27 | `:02d` gives at least two digits, exactly two below 100 |
| Text.PyIndex | rag/rag_workflow.py:228 | `xs[i]` succeeds exactly for `-n <= i < n`, a negative index counting from the end |
| Patterns.RemoveTimestamps | rag/rag_workflow.py:69 | deleting `[dd:dd]` never lengthens the text and leaves text without `[` unchanged |
| Patterns.TimestampFreePrefix | rag/rag_workflow.py:69 | text without `[` is copied through and does not disturb the deletion after it |
| Patterns.TimestampDeleted | rag/rag_workflow.py:69 | a leading `[dd:dd]` is deleted whole |
| Patterns.BracketKept | rag/rag_workflow.py:69 | a `[` that does not open `[dd:dd]` is kept, and the scan resumes after it |
| Patterns.SinglePassLeavesTimestamp | rag/rag_workflow.py:69 | the deletion is one pass: a timestamp nested inside another reappears and survives |
| Patterns.GapEnd | rag/rag_workflow.py:72 | the separator is the whole greedy run of gap characters |
| Patterns.Pieces | rag/rag_workflow.py:72 | the split yields at least one piece |
| Patterns.Gaps | rag/rag_workflow.py:72 | there is one separator fewer than pieces |
| Patterns.PiecesShape | rag/rag_workflow.py:72 | each scan from a piece start yields a well-shaped split of the rest of the text |
| Patterns.SplitSentencesShape | rag/rag_workflow.py:72 | the split's pieces and separators alternate and rebuild the text. Every piece but the last ends in `.`, `!` or `?` and holds no break; every separator is a non-empty gap run |
| Patterns.SplitSentences | rag/rag_workflow.py:72 | definition: the pieces `re.split` leaves when it cuts the text at each separator of the given kind, scanning from the start (its shape is stated by `SplitSentencesShape`) |
| Patterns.NoGapNoSplit | rag/faiss_manager.py:31 | text without gap characters is one piece |
| Patterns.RemoveSpans | src/backend/mindMap.py:34 | deleting tagged spans never lengthens the text and leaves text without the opening tag's first character unchanged |
| Patterns.SpanFreePrefix | src/backend/mindMap.py:34-35 | text that cannot open a span is kept in order ahead of what follows |
| Patterns.SpanRemoved | src/backend/mindMap.py:34-35 | a span is deleted through the first closing tag after it, and nothing more |
| Patterns.SpanClosesFirst | src/backend/mindMap.py:34 | the non-greedy `.*?` stops at the first closing tag |
| Patterns.RemoveReasoning | src/backend/mindMap.py:34-35 | both tag removals never lengthen the reply and leave a reply without `<` unchanged |
| RagWorkflow.KeepLong | rag/rag_workflow.py:70-74 | every kept sentence is stripped and longer than 5 |
| RagWorkflow.KeepLongMembers | rag/rag_workflow.py:70-74 | a sentence is kept exactly when it is the stripped form, longer than 5, of a piece |
| RagWorkflow.CleanTranscript | rag/rag_workflow.py:68-75 | every cleaned sentence is stripped and at least 6 long |
| RagWorkflow.CleanTranscriptPieces | rag/rag_workflow.py:69-74 | the cleaned sentences are exactly the long stripped pieces of the timestamp-free text split at sentence ends |
| RagWorkflow.ParseLabel | rag/rag_workflow.py:145 | a word is read as the strategy whose name it is, and as none when it names none |
| RagWorkflow.ReplyWords | rag/rag_workflow.py:136-142 | definition: the reply stripped, lower-cased, with double quotes, single quotes, periods and commas deleted, stripped again and split on whitespace |
| RagWorkflow.FirstLabelOf | rag/rag_workflow.py:143-147 | definition: the first of the words that is one of `semantic`, `recursive`, `sentence`, or none (its meaning is stated by `FirstLabelOfIsFirst`) |
| RagWorkflow.Router | rag/rag_workflow.py:276-277 | the edge the router follows leads back to the same strategy |
| RagWorkflow.FirstLabelOfIsFirst | rag/rag_workflow.py:142-147 | the picked label is the earliest label word, and none is picked exactly when no word is a label |
| RagWorkflow.FirstLabel | rag/rag_workflow.py:142-147 | the word loop with `break` returns the first label word |
| RagWorkflow.ReplyFallback | rag/rag_workflow.py:150-157 | definition: `sentence` under 1000 characters in all, else `semantic` when the average sentence exceeds 120 characters or there are more than 100 sentences, else `recursive` |
| RagWorkflow.ErrorFallback | rag/rag_workflow.py:161-171 | definition: the same thresholds without the sentence-count clause, used when the model call raises |
| RagWorkflow.FallbacksDiffer | rag/rag_workflow.py:150-157 | the two fallbacks disagree exactly on totals of at least 1000 over more than 100 sentences averaging at most 120. Both give `sentence` exactly below 1000 characters |
| RagWorkflow.Analyze | rag/rag_workflow.py:78-171 | the strategy is the analyzer's choice: no sentences give `recursive`; otherwise the first label in the reply, the reply fallback when there is none, and the error fallback when the call fails |
| RagWorkflow.ChosenStrategy | rag/rag_workflow.py:83-171 | definition: `recursive` for no sentences; the error fallback when the call fails; the first label in the reply; else the reply fallback |
| RagWorkflow.ReplyOfLabel | rag/rag_workflow.py:136-147 | a reply that is exactly a label is read as that label |
| RagWorkflow.ReplyOfLowerWord | rag/rag_workflow.py:136-142 | a single lower-case word passes the reply normalisation unchanged |
| RagWorkflow.NoneDeleted | rag/rag_workflow.py:139 | text without the deleted characters is unchanged by the deletion |
| RagWorkflow.NameIsLower | rag/rag_workflow.py:276-277 | every strategy name is a non-empty lower-case word |
| RagWorkflow.SentenceChunks | rag/rag_workflow.py:209-211 | there are `ceil(n/3)` chunks, and none exactly for no sentences |
| RagWorkflow.SentenceChunksCons | rag/rag_workflow.py:211 | the first chunk is the first three sentences joined, followed by the chunks of the rest |
| RagWorkflow.SentenceChunksJoin | rag/rag_workflow.py:209-211 | the chunks joined by spaces are the sentences joined by spaces |
| RagWorkflow.FeedAllShape | rag/rag_workflow.py:198-203 | the buffer holds the sentences since the last emit, joined after an optional leading space; a buffer built by appending is at most 800 long |
| RagWorkflow.EmittedGrow | rag/rag_workflow.py:202 | emitted buffers are never taken back |
| RagWorkflow.FeedAllFirst | rag/rag_workflow.py:199-203 | a first sentence of 800 or more characters first emits the empty buffer |
| RagWorkflow.FeedAllLong | rag/rag_workflow.py:199-203 | every emitted buffer over 800 characters is one sentence |
| RagWorkflow.EmittedLong | rag/rag_workflow.py:199-203 | an emitted buffer over 800 characters is one of the sentences |
| RagWorkflow.EmitClean | rag/rag_workflow.py:204-205 | for cleaned sentences, the final buffer strips to the current group joined by spaces, which is non-empty |
| RagWorkflow.FeedAllNonEmpty | rag/rag_workflow.py:202 | for cleaned sentences, only the first emitted buffer can strip to "" |
| RagWorkflow.FeedAllJoin | rag/rag_workflow.py:196-206 | for cleaned sentences, the non-empty stripped emitted buffers followed by the current group, joined by spaces, are the sentences joined by spaces |
| RagWorkflow.RecursiveChunksEmpty | rag/rag_workflow.py:204-206 | no chunks exactly for no sentences |
| RagWorkflow.RecursiveChunksFirst | rag/rag_workflow.py:199-203 | a first sentence of 800 or more characters yields an empty first chunk |
| RagWorkflow.RecursiveChunksLong | rag/rag_workflow.py:199-205 | a chunk over 800 characters is one stripped sentence |
| RagWorkflow.RecursiveChunksJoin | rag/rag_workflow.py:196-206 | for cleaned sentences, the non-empty chunks joined by spaces are the sentences joined by spaces |
| RagWorkflow.RecursiveChunksNonEmpty | rag/rag_workflow.py:196-206 | for cleaned sentences, only the first chunk can be empty |
| RagWorkflow.RecursiveChunks | rag/rag_workflow.py:196-206 | definition: every buffer the loop emits, plus a non-empty final one, each stripped (its properties are stated by the `RecursiveChunks…` lemmas) |
| RagWorkflow.RecursiveChunking | rag/rag_workflow.py:196-206 | the loop returns the chunks of the buffer specification |
| RagWorkflow.Groups | rag/rag_workflow.py:178-191 | there is at least one group |
| RagWorkflow.GroupsPartition | rag/rag_workflow.py:178-191 | no group is empty, the groups concatenate to the sentences, and there is one more group than flagged pairs |
| RagWorkflow.GroupsNonEmpty | rag/rag_workflow.py:179-191 | no group is empty |
| RagWorkflow.GroupsFlatten | rag/rag_workflow.py:179-191 | the groups concatenate to the sentences, in order |
| RagWorkflow.GroupsCount | rag/rag_workflow.py:185-188 | each flagged pair opens one more group |
| RagWorkflow.MapJoin | rag/rag_workflow.py:186-191 | one chunk per group |
| RagWorkflow.GroupsNoBreak | rag/rag_workflow.py:185 | with no pair below the threshold, all sentences form one group |
| RagWorkflow.GroupsAllBreak | rag/rag_workflow.py:185-188 | with every pair below the threshold, each sentence is its own group |
| RagWorkflow.MapJoinFlatten | rag/rag_workflow.py:186-191 | joining the joined groups gives the concatenated groups joined |
| RagWorkflow.SemanticChunksJoin | rag/rag_workflow.py:174-193 | the semantic chunks joined by spaces are the sentences joined by spaces |
| RagWorkflow.GroupsSnoc | rag/rag_workflow.py:185-188 | one more sentence either opens a new group or extends the current one, as its pair's flag says |
| RagWorkflow.GroupsLast | rag/rag_workflow.py:190-191 | after the loop, the current group is non-empty and is the last group |
| RagWorkflow.Adjacent | rag/rag_workflow.py:181-185 | there is one flag per adjacent pair |
| RagWorkflow.SemanticChunking | rag/rag_workflow.py:174-193 | it fails exactly on no sentences (`sentences[0]`); otherwise the chunks are the joined similarity groups |
| RagWorkflow.JoinGroups | rag/rag_workflow.py:178-191 | the loop returns the joined groups |
| RagWorkflow.Pick | rag/rag_workflow.py:228 | the comprehension succeeds exactly when every id is a valid Python index, with one chunk per id; with in-range ids, the result is the named chunks in order |
| RagWorkflow.SearchK | rag/rag_workflow.py:226 | `min(10, len(chunks))` is at most 10 and at most the chunk count, and is one of the two; it fixes how many ids the graph's FAISS search returns |
| RagWorkflow.Retrieve | rag/rag_workflow.py:214-239 | no chunks fail. With in-range ids, a reranker failure fails retrieval, and an in-range rerank order gives the candidates the ids name, the picks the order names among them, and the context of the picks joined by blank lines. Any success has one candidate per id, every pick a chunk |
| RagWorkflow.RetrieveRerank | rag/rag_workflow.py:231-238 | a reranker failure fails retrieval, with no fallback. With valid ids, retrieval succeeds exactly when the rerank indices are valid Python indices |
| RagWorkflow.RunGraph | rag/rag_workflow.py:280-309 | clean, then the analyzer's strategy, then the chunker that strategy names, then retrieval. A transcript with no sentences goes to `recursive` and yields no chunks, so retrieval fails. Otherwise there are chunks, and retrieval fails only when the reranker does; it selects at most 3 of the `min(10, len(chunks))` candidates. This holds for a FAISS search that returns that many in-range ids and a reranker that returns at most 3 in-range indices |
| FaissManager.KeepRaw | rag/faiss_manager.py:31 | every kept sentence is stripped |
| FaissManager.KeepRawMembers | rag/faiss_manager.py:31 | a sentence is kept exactly when it strips a piece whose unstripped length exceeds 5 |
| FaissManager.CleanTranscript | rag/faiss_manager.py:26-32 | every cleaned sentence is stripped |
| FaissManager.CleanUnsplit | rag/faiss_manager.py:29-31 | text with no `[` and no space is one sentence when longer than 5 |
| FaissManager.CleanKeepsShort | rag/faiss_manager.py:31 | the length test precedes the strip, so `ab.` followed by four newlines yields the 3-character sentence `ab.` |
| FaissManager.FoldSomeText | rag/faiss_manager.py:39-45 | the loop leaves something to emit exactly when some sentence is non-empty |
| FaissManager.LoopChunksEmpty | rag/faiss_manager.py:43-48 | the loop yields no chunk exactly when every sentence is empty |
| FaissManager.FoldLong | rag/faiss_manager.py:40-45 | pending text over 800 characters is one sentence, and so is every emitted chunk over 800 |
| FaissManager.ChunksLong | rag/faiss_manager.py:40-50 | a chunk over 800 characters is one stripped sentence |
| FaissManager.FoldClean | rag/faiss_manager.py:39-45 | for non-empty stripped sentences, the pending text is stripped, no chunk is empty, and chunks plus pending text rejoin to the sentences |
| FaissManager.Step | rag/faiss_manager.py:39-45 | definition: one sentence of the loop: appended (after a space when text is pending) while pending plus sentence stay under 800 characters, otherwise the pending text is emitted stripped when not empty and the sentence starts anew |
| FaissManager.Fold | rag/faiss_manager.py:39-45 | definition: the loop state after every sentence, in order |
| FaissManager.ChunksJoin | rag/faiss_manager.py:34-50 | for non-empty stripped sentences, the chunks are non-empty, stripped, and joined by spaces give the sentences joined by spaces |
| FaissManager.Chunks | rag/faiss_manager.py:34-50 | definition: the loop's chunks with the final flush, or the sentences joined by spaces as the single chunk when that is empty |
| FaissManager.ChunkTranscript | rag/faiss_manager.py:34-50 | the loop returns the chunk specification, never `[]`, and `[""]` for no sentences |
| FaissManager.CreateIndex | rag/faiss_manager.py:52-78 | creation always succeeds (the "No chunks created" error is unreachable), with one indexed vector per chunk |
| FaissManager.IndexPath | rag/faiss_manager.py:89 | definition: `<video_id>.index` under `faiss_indexes` (`PathsDistinct` shows it never names another file of the model) |
| FaissManager.ChunksPath | rag/faiss_manager.py:90 | definition: `<video_id>_chunks.pkl` under `faiss_indexes` |
| FaissManager.PathsDistinct | rag/faiss_manager.py:89-90 | an index file never coincides with a chunks file, and each path names one video |
| FaissManager.PathInjective | rag/faiss_manager.py:89-90 | two videos with the same file path under one suffix are the same video |
| FaissManager.LoadFrom | rag/faiss_manager.py:112-113 | loading fails with not-found exactly when `index_exists` is false |
| FaissManager.Exists | rag/faiss_manager.py:144-148 | definition: both of the video's files are on disk |
| FaissManager.Saved | rag/faiss_manager.py:89-97 | definition: the disk with the index written to the index path and the chunk list to the chunks path (`SaveLoad` and `SaveOther` state what loading then gives) |
| FaissManager.SaveLoad | rag/faiss_manager.py:80-122 | after saving, the index exists and loading returns the saved index and chunk list |
| FaissManager.SaveOther | rag/faiss_manager.py:80-97 | saving one video changes neither the existence nor the loading of any other |
| FaissManager.Manager.constructor | rag/faiss_manager.py:21-24 | creating the directory adds no file |
| FaissManager.Manager.SaveIndex | rag/faiss_manager.py:80-97 | the store afterwards holds the index file and the chunks file of the video, and is otherwise unchanged |
| FaissManager.Manager.LoadIndex | rag/faiss_manager.py:99-122 | the result is the load specification over the current store |
| FaissManager.Manager.IndexExists | rag/faiss_manager.py:144-148 | true exactly when both files are present |
| FaissManager.SearchAsWritten | rag/faiss_manager.py:141 | as written: at most one chunk per id, each one of the index's chunks; the comprehension raises (None) exactly when some id is below minus the number of chunks |
| FaissManager.HitAsWritten | rag/faiss_manager.py:141 | as written, one id: raises below minus the number of chunks, is dropped at or above it, and otherwise gives the chunk Python's negative indexing picks |
| FaissManager.SearchAsWrittenOne | rag/faiss_manager.py:141 | a one-id search as written is that id's hit |
| FaissManager.SearchAsWrittenAppend | rag/faiss_manager.py:141 | as written, searching ids `a + b` gives the hits of `a` then those of `b`, and raises when either part does |
| FaissManager.SearchPadding | rag/faiss_manager.py:141 | as written, each padding id -1 adds the last chunk again |
| FaissManager.SearchRepeatsLastChunk | rag/faiss_manager.py:138-141 | as written, ids `[0, -1, -1]` over one chunk return that chunk three times |
| FaissManager.Search | rag/faiss_manager.py:141 | corrected: at most one chunk per id, each one of the index's chunks |
| FaissManager.SearchOne | rag/faiss_manager.py:141 | corrected, one id: its chunk when it is in range, nothing otherwise |
| FaissManager.SearchAppend | rag/faiss_manager.py:141 | corrected: searching ids `a + b` gives the hits of `a` followed by those of `b` |
| FaissManager.SearchInRange | rag/faiss_manager.py:141 | corrected: when every id is in range the result is exactly the chunk of each id, in id order |
| FaissManager.SearchIgnoresPadding | rag/faiss_manager.py:141 | corrected: a padding id adds nothing |
| FaissManager.SearchAgrees | rag/faiss_manager.py:141 | where every id is in range, both searches agree and return one chunk per id |
| GetTranscripts.MatchAt | get_transcripts.py:9 | a match captures 11 characters from `[a-zA-Z0-9_-]` |
| GetTranscripts.MatchMarker | get_transcripts.py:9 | a position holding `v=` or `youtu.be/` and then 11 id characters matches, capturing them |
| GetTranscripts.NoMatchAt | get_transcripts.py:9 | no match starts at a character other than `v` or `y` |
| GetTranscripts.DecoyNoMatch | get_transcripts.py:9 | no match starts at a `y` whose fifth next character is not `.` |
| GetTranscripts.SkipPlain | get_transcripts.py:9 | the scan passes over text without `v` or `y` |
| GetTranscripts.SkipDecoy | get_transcripts.py:9 | the scan passes over a `y` that does not begin `youtu.be/` |
| GetTranscripts.ExtractVideoId | get_transcripts.py:7-12 | a returned id is 11 characters from `[a-zA-Z0-9_-]` |
| GetTranscripts.ScanFrom | get_transcripts.py:9 | definition: `re.search` from a position on: the capture at the first position where the pattern matches (its meaning is stated by `ScanFromNone` and `ScanFromLeftmost`) |
| GetTranscripts.ScanFromNone | get_transcripts.py:9-11 | the scan finds nothing exactly when no position matches |
| GetTranscripts.ScanFromLeftmost | get_transcripts.py:9 | the scan returns the match at the leftmost matching position |
| GetTranscripts.ExtractVideoIdLeftmost | get_transcripts.py:9-12 | extraction raises exactly when no position matches, and otherwise returns the leftmost match |
| GetTranscripts.ExtractAfterMarker | get_transcripts.py:9-12 | an id right after `v=` or `youtu.be/` is extracted, whatever follows it |
| GetTranscripts.ExtractAfterDecoy | get_transcripts.py:9 | a `y` that does not begin `youtu.be/` is passed over |
| GetTranscripts.ExtractShortLink | tests/test_services.py:17-18 | `https://youtu.be/dQw4w9WgXcQ` gives `dQw4w9WgXcQ` |
| GetTranscripts.ExtractWatchLink | tests/test_services.py:14-15 | `https://www.youtube.com/watch?v=dQw4w9WgXcQ` gives `dQw4w9WgXcQ` |
| GetTranscripts.Lines | get_transcripts.py:22-28 | one line per snippet |
| GetTranscripts.Clock | get_transcripts.py:24-27 | definition: whole minutes and remaining seconds of the start, each padded to two digits, joined by `:` (`ClockRoundTrip` reads both numbers back) |
| GetTranscripts.Line | get_transcripts.py:28 | definition: the clock in square brackets, a space, then the snippet text |
| GetTranscripts.ClockRoundTrip | get_transcripts.py:24-27 | the clock reads back as the start time: minutes before the colon, seconds below 60 after it |
| GetTranscripts.HelloLine | tests/test_services.py:29-37 | `Hello` at 0 seconds is `[00:00] Hello` |
| GetTranscripts.LineCleaned | get_transcripts.py:27 | below 100 minutes the clock is a `[dd:dd]` the cleaners delete |
| GetTranscripts.LineSurvives | get_transcripts.py:27 | from 100 minutes on, a line survives timestamp deletion whole |
| GetTranscripts.LongClockHead | get_transcripts.py:27 | from 100 minutes on, a line opens with `[` but not with a `[dd:dd]` timestamp |
| GetTranscripts.ClockBracketFree | get_transcripts.py:27 | the clock digits hold no `[` |
| GetTranscripts.FormatTranscript | get_transcripts.py:19-29 | the loop returns the lines joined by newlines, and "" for no snippets |
| GetTranscripts.LineNoNewline | get_transcripts.py:28 | a line holds a newline only where its text does |
| GetTranscripts.FormattedLines | get_transcripts.py:19-29 | splitting the formatted text at newlines gives back one line per snippet, in order |
| GetTranscripts.SavedLines | get_transcripts.py:40-42 | the saved file reads as the title, a blank line, the fixed header, a blank line, then the transcript's lines |
| GetTranscripts.SavePath | get_transcripts.py:34-37 | definition: the output file name under the `transcripts` directory |
| GetTranscripts.SavedContent | get_transcripts.py:39-42 | definition: the title, a blank line, the fixed header, a blank line, then the transcript text |
| Recommendation.DigitRun | src/backend/recommendation.py:25 | `\d+` takes the whole leading run of digits |
| Recommendation.MarkerLength | src/backend/recommendation.py:25 | the marker fits in the line; it has length 1 exactly when the line starts with `-` or `*`, and length 2 or more exactly when the line starts with digits followed by `.`, the digits then being all but the last marker character |
| Recommendation.StripMarker | src/backend/recommendation.py:25 | the result is a suffix of the line. Without a marker the line is unchanged; with one, the marker and the whitespace after it are removed and no more: the result starts with no whitespace and everything between marker and result is whitespace |
| Recommendation.IsQueryLine | src/backend/recommendation.py:25 | definition: the stripped line is longer than 5 characters (the condition looks at the line before its marker is removed) |
| Recommendation.Query | src/backend/recommendation.py:25 | definition: the line without its marker, stripped (`Queries` and `QueriesOfLines` state what the list comprehension keeps) |
| Recommendation.FilterMap | src/backend/recommendation.py:25 | the comprehension keeps at most one item per element |
| Recommendation.Queries | src/backend/recommendation.py:25 | at most one query per reply line |
| Recommendation.ShortLine | src/backend/recommendation.py:25 | a line of at most 5 characters is never a query |
| Recommendation.NumberedLine | src/backend/recommendation.py:25 | `1. abc` is a query line, and its query is `abc` |
| Recommendation.KeptThenDropped | src/backend/recommendation.py:25 | a query line followed by a dropped line yields that line's query alone |
| Recommendation.ReplyLines | src/backend/recommendation.py:17-23 | `split('\n')` gives at least one line |
| Recommendation.FilterMapAppend | src/backend/recommendation.py:25 | the comprehension keeps order: it distributes over concatenation |
| Recommendation.FilterMapMember | src/backend/recommendation.py:25 | the comprehension yields exactly the images of the elements that pass |
| Recommendation.QueriesOfLines | src/backend/recommendation.py:25 | queries keep the order of their lines, and a query is exactly the cleaned form of a line that passes |
| Recommendation.LengthBeforeMarker | src/backend/recommendation.py:25 | the length test precedes marker removal: `1. abc` yields `abc`, while `- ab` is dropped |
| Recommendation.Fetch | src/backend/recommendation.py:42-43 | at most three searches, one per query of the first three |
| Recommendation.Hits | src/backend/recommendation.py:30-36 | definition: the hits of one search, or nothing when the search raises |
| Recommendation.Merge | src/backend/recommendation.py:45-46 | the loop concatenates the hit lists in query order |
| Recommendation.FlattenAppend | src/backend/recommendation.py:45-46 | hits of earlier queries come first |
| Recommendation.FlattenEmpty | src/backend/recommendation.py:45-46 | merging only empty hit lists gives no hit |
| Recommendation.FailedSearchesSkipped | src/backend/recommendation.py:31-36 | a failed search contributes no hit |
| Recommendation.First | src/backend/recommendation.py:51 | the position of the first hit with a link |
| Recommendation.Dedup | src/backend/recommendation.py:48-53 | the loop with its `seen` set returns the dedup specification |
| Recommendation.UniqueFirstHits | src/backend/recommendation.py:48-53 | every link is kept, no link twice, each kept hit is the first with its link, in the order the links first appear |
| Recommendation.Unique | src/backend/recommendation.py:48-53 | the dedup never adds hits |
| Recommendation.LinksSnoc | src/backend/recommendation.py:51-53 | one more hit adds its link to the seen set |
| Recommendation.UniqueLinks | src/backend/recommendation.py:48-53 | the dedup keeps every link |
| Recommendation.UniqueLinksDistinct | src/backend/recommendation.py:51-53 | the dedup never keeps a link twice |
| Recommendation.UniqueAtFirst | src/backend/recommendation.py:51-53 | each kept hit is the first hit with its link |
| Recommendation.UniqueInOrder | src/backend/recommendation.py:48-53 | kept hits are in the order their links first appear |
| Recommendation.UniqueDistinct | src/backend/recommendation.py:48-53 | hits with distinct links pass unchanged |
| Recommendation.Recommended | src/backend/recommendation.py:55 | at most five hits, a prefix of the dedup, no link twice, each the first hit with its link |
| Recommendation.GetRecommendations | src/backend/recommendation.py:7-59 | a missing RAG service or a failed model call ends in 500. Otherwise the answer is the first five distinct-link hits of the first three queries |
| MindMap.KeepFrom | src/backend/mindMap.py:43-48 | the filter keeps at most the lines it sees |
| MindMap.Filtered | src/backend/mindMap.py:43-48 | the filter never adds lines |
| MindMap.DropBlank | src/backend/mindMap.py:46 | dropping blank lines never adds lines |
| MindMap.DropBlankNone | src/backend/mindMap.py:46 | lines none of which is blank are all kept |
| MindMap.KeywordFirst | src/backend/mindMap.py:46 | a line starting with `mindmap` passes the keyword test |
| MindMap.FilterLines | src/backend/mindMap.py:43-48 | the loop returns the filter specification |
| MindMap.FirstKey | src/backend/mindMap.py:46 | the first `mindmap` line, with none before it, or none at all |
| MindMap.GenerateMindMap | src/backend/mindMap.py:7-64 | a failed model call ends in 500; otherwise the processed reply, which always starts with `mindmap` |
| MindMap.KeywordLinesNotBlank | src/backend/mindMap.py:46 | a `mindmap` line is never blank |
| MindMap.KeepFromShape | src/backend/mindMap.py:43-48 | the filter drops all lines before the first `mindmap` line, keeps it, then keeps the non-blank lines after it in order |
| MindMap.FilteredShape | src/backend/mindMap.py:43-48 | the same for the `mindmap` test of line 46 |
| MindMap.KeywordLeads | src/backend/mindMap.py:46-51 | filtered text is empty, or it contains `mindmap` and starts with it once stripped |
| MindMap.ElifUnreachable | src/backend/mindMap.py:54-58 | the `elif` branch is never taken after the filter |
| MindMap.HeaderStripped | src/backend/mindMap.py:53 | the fallback header starts with `mindmap` and strips to the root line |
| MindMap.RootEnds | src/backend/mindMap.py:53 | the root header starts with `m` and ends with `)` |
| MindMap.StartsWithKeyword | src/backend/mindMap.py:43-60 | the returned mind map always starts with `mindmap` |
| MindMap.FallbackHeader | src/backend/mindMap.py:51-53 | with no `mindmap` line, the result is the header built from the transcript |
| MindMap.Root | src/backend/mindMap.py:53 | definition: `mindmap`, a newline, then a root node named after the first 50 transcript characters with newlines turned into spaces and `...` appended |
| MindMap.Normalized | src/backend/mindMap.py:51-58 | definition: the fallback header is prepended when `mindmap` does not occur in the lower-cased text; otherwise, when the stripped text does not start with it, the text is cut to its first lower-cased occurrence |
| MindMap.MindMapOf | src/backend/mindMap.py:31-60 | definition: the reply stripped, reasoning spans removed, unfenced, line-filtered, normalized and stripped (`PassThrough` and `StartsWithKeyword` state what it returns) |
| MindMap.NoFence | src/backend/mindMap.py:38-40 | text without backticks holds no fence and is kept |
| MindMap.NoFenceAt | src/backend/mindMap.py:38 | no fence starts at a character other than a backtick |
| MindMap.FenceSkip | src/backend/mindMap.py:38 | the search for a fence passes over text without backticks |
| MindMap.TagAt | src/backend/mindMap.py:38 | the optional `mermaid` tag is read exactly when it is present |
| MindMap.FenceHere | src/backend/mindMap.py:38 | a fence, an optional `mermaid` tag, a body without backticks and a closing fence match, and the group is the body |
| MindMap.FenceOnly | src/backend/mindMap.py:38-40 | with a fenced block, text before and after the fences does not matter: the result is that of the body alone |
| MindMap.FenceAt | src/backend/mindMap.py:38 | definition: the fenced pattern tried at one position, with the optional `mermaid` tag tried first and the shortest group before the next fence |
| MindMap.FenceSearch | src/backend/mindMap.py:38 | definition: the group at the first position from a given one on where the pattern matches |
| MindMap.Unfenced | src/backend/mindMap.py:38-40 | definition: the stripped group of the first fenced block, or the text unchanged when there is none (`NoFence`, `FenceHere` and `FenceOnly` state its cases) |
| MindMap.FilteredWhole | src/backend/mindMap.py:43-48 | non-blank lines led by a `mindmap` line all pass the filter |
| MindMap.PassThrough | src/backend/mindMap.py:31-60 | a reply already in mind-map form, without tags or fences, is returned unchanged |
| McqService.Excerpt | src/mcq_service.py:23 | `[:15000]` is a prefix, the whole transcript when short, 15000 characters otherwise |
| McqService.CleanReply | src/mcq_service.py:30-35 | the cleaned reply is stripped and no longer, and is the stripped reply when it has no tag |
| McqService.SpaceEnd | src/mcq_service.py:38 | `\s*` consumes the whole whitespace run |
| McqService.DeleteMarkers | src/mcq_service.py:38-39 | marker deletion never lengthens the text and leaves text without the marker's first character unchanged |
| McqService.LastIndexOf | src/mcq_service.py:40 | the last occurrence, or none |
| McqService.BraceSpan | src/mcq_service.py:40-42 | the text is kept when no `{` precedes a `}`; otherwise the result starts with `{` and ends with `}` |
| McqService.ReplyJson | src/mcq_service.py:30-42 | definition: the cleaned reply with line-start fence markers deleted and cut to its outermost brace span |
| McqService.Answer | src/mcq_service.py:55 | the answer under `str(id)` when present and non-empty; otherwise the one under the id when present; otherwise none, and none exactly when neither is usable |
| McqService.Block | src/mcq_service.py:56 | definition: the question line, the options line, the answer line and a blank line, each ended by a newline |
| McqService.QaText | src/mcq_service.py:53-56 | definition: the blocks of the questions, in order (`QaTextJoined` and `QaTextLines` state its lines) |
| McqService.QaLines | src/mcq_service.py:54-56 | four lines per question |
| McqService.GenerateMcqs | src/mcq_service.py:6-47 | a failed model call is re-raised; otherwise the decoder gets the extracted JSON text |
| McqService.ListAnswers | src/mcq_service.py:53-56 | the loop builds the listing block by block |
| McqService.GradeAnswers | src/mcq_service.py:50-110 | the model sees the excerpt and the listing; a failure is re-raised; otherwise the decoder gets the JSON text without trailing commas |
| McqService.MarkerFree | src/mcq_service.py:38-39 | text that cannot start the marker is copied, and the line state after it follows its last character |
| McqService.MarkerAtLineStart | src/mcq_service.py:38-39 | at a line start, the marker and the whitespace after it are deleted |
| McqService.InlineMarkerKept | src/mcq_service.py:38-39 | a marker that does not begin a line is kept |
| McqService.ShorterThanMarker | src/mcq_service.py:38-39 | text shorter than the marker is kept |
| McqService.MidLine | src/mcq_service.py:38-39 | away from a line start, text without newlines keeps every marker |
| McqService.BraceSpanAround | src/mcq_service.py:40-42 | prose without braces around an object is cut away |
| McqService.ObjectLine | src/mcq_service.py:40-42 | an object followed by a newline is cut to the object |
| McqService.BraceSpanIdempotent | src/mcq_service.py:40-42 | cutting to the span twice cuts no further |
| McqService.BraceSpanFound | src/mcq_service.py:40-42 | with a `{` before a `}`, the result is a slice from the first `{` to the last `}` |
| McqService.ObjectAmidProse | src/mcq_service.py:30-42 | a reply that is an object amid brace-free prose gives back the object |
| McqService.FencedObject | src/mcq_service.py:30-42 | an object in a ```` ```json ```` fenced block gives back the object |
| McqService.DropCommasSpec | src/mcq_service.py:105 | the regular-expression pass agrees with its character-level reading: a comma is deleted exactly when whitespace and a closing `}` or `]` follow it, and every other character is kept |
| McqService.DoubledComma | src/mcq_service.py:105 | one pass turns `,,}` into `,}` |
| McqService.DropTrailingCommas | src/mcq_service.py:105 | definition: one left-to-right substitution pass deleting each comma that whitespace and a closing bracket follow (`DropCommasSpec` ties it to the reference reading) |
| McqService.WithoutTrailingCommas | src/mcq_service.py:105 | definition: the reference reading, character by character, of which commas the substitution deletes |
| McqService.BlockJoined | src/mcq_service.py:56 | a block is its four lines joined by newlines, plus a newline |
| McqService.QaTextJoined | src/mcq_service.py:53-56 | the listing is all block lines joined by newlines, ending in a newline |
| McqService.QaTextLines | src/mcq_service.py:53-56 | split at newlines, the listing gives four lines per question in order, then "" |
| McqService.QaLinesBlocks | src/mcq_service.py:54-56 | lines `4k..4k+4` are question `k`'s block |

## Left out

- The embedding model, cosine similarity, the FAISS index, the Cohere reranker and the language models are parameters, because they are foreign or floating-point computations:
  - the similarity test is one given flag per adjacent pair;
  - a FAISS search is the list of ids it returns;
  - the reranker is an optional index list;
  - `RagWorkflow.RunGraph` takes as given what the exact FAISS index and the reranker promise: `min(10, len(chunks))` in-range ids, and at most `top_n = 3` in-range indices;
  - a model call is an optional reply or a `Result`.
- `generation_node` (rag/rag_workflow.py:242-270) is left out. It streams a model call, and its only string step is a join and a strip; the graph is modelled up to retrieval.
- LangGraph is not modelled. `RunGraph` composes the nodes in the order the graph wires them.
- `json.loads` is a parameter, so the model stops at the string handed to it.
- Prompt wording, the `[:2000]` and `[:4000]` prompt excerpts, the analyzer's prompt statistics and `print` output are left out; no returned value depends on them.
- `RagWorkflow.ReplyFallback` compares `total > 120 * n` instead of the float average `total / n > 120`. The two agree for `n > 0`.
- Snippet start times are whole seconds. `int(start // 60)` and `int(start % 60)` agree with them for non-negative floats.
- `\d`, `str.lower()` and `str.isspace()` cover ASCII letters and digits plus the ASCII and common Unicode whitespace characters. Python's full Unicode tables are not modelled.
- In `McqService.Question`, the `options` field stands for the text `str()` gives a list. Python's list repr is not modelled.
- A missing `'id'`, `'question'`, `'options'` or `'link'` key (a `KeyError`) is not modelled; questions and hits always carry their fields.
- `McqService.Answer` does not model answer values other than strings; a falsy answer is the empty string.
- The 503 raised for a missing RAG service is modelled only as the 500 it becomes. Exception messages are not modelled.
- `asyncio.gather` and the executor are not modelled. The searches run in query order, which is the order `gather` returns their results in.
- `limit=2` of the video search belongs to the search parameter.
- `FaissManager.ChunksLong` requires some non-empty sentence. When every sentence is empty, the fallback chunk is the sentences joined by spaces, which can exceed 800 characters without being a sentence.
- File writes and `os.makedirs` are modelled as updates of a map from path to contents. Disk errors, and pickle or FAISS files that fail to read, are `Unreadable`.
- `os.path.join` is modelled for POSIX paths.

**Behaviour of the code worth knowing:**

- Timestamp removal is one pass, so a timestamp that appears only after another is deleted survives (`Patterns.SinglePassLeavesTimestamp`).
- The rerank step has no fallback: a reranker failure fails retrieval (`RagWorkflow.RetrieveRerank`).
- The FAISS manager's cleaner tests the length before stripping, so it can keep sentences shorter than 6 characters (`FaissManager.CleanKeepsShort`).

## Findings

| source | as written | input that shows it | evidently intended | confidence | as-written member | corrected member |
|---|---|---|---|---|---|---|
| rag/faiss_manager.py:141 | `[chunks[i] for i in indices[0] if i < len(chunks)]` keeps the id -1 that FAISS uses to pad a search for more neighbours than the index holds. `chunks[-1]` then returns the last chunk | an index of one chunk `a`, searched with the default `k = 3`, gives ids `[0, -1, -1]` and the result `[a, a, a]` | only ids `0 <= i < len(chunks)` name chunks, so padding adds nothing | not executed | FaissManager.SearchAsWritten (FaissManager.SearchRepeatsLastChunk) | FaissManager.Search (FaissManager.SearchIgnoresPadding) |
