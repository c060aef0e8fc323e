/**
 * The FAISS index manager: its own transcript cleaner and chunker, index
 * creation, the per-video store of index and chunk files, and the filtering
 * of search results. Embeddings and the FAISS index itself are oracles: an
 * index is known only by how many vectors it holds, and a search by the ids it
 * returns.
 */
module FaissManager {
  import opened Wrappers
  import opened Text
  import opened Patterns

  // ------------------------------------------------------------ cleaning

  /** Keeps the pieces whose raw length exceeds 5, then strips them. */
  function KeepRaw(ps: seq<string>): (r: seq<string>)
    ensures |r| <= |ps|
    ensures forall k :: 0 <= k < |r| ==> Stripped(r[k])
    decreases |ps|
  {
    if ps == [] then []
    else KeepRaw(ps[..|ps| - 1]) + (if |ps[|ps| - 1]| > 5 then [Strip(ps[|ps| - 1])] else [])
  }

  /** A sentence is kept exactly when it is the stripped form of a piece whose
      unstripped length exceeds 5. */
  lemma {:induction false} KeepRawMembers(ps: seq<string>, x: string)
    ensures x in KeepRaw(ps) <==> exists p :: p in ps && |p| > 5 && Strip(p) == x
    decreases |ps|
  {
    if ps != [] {
      var front := ps[..|ps| - 1];
      var last := ps[|ps| - 1];
      KeepRawMembers(front, x);
      assert ps == front + [last];
      if x in KeepRaw(ps) && x !in KeepRaw(front) {
        assert |last| > 5 && Strip(last) == x;
      }
      if exists p :: p in ps && |p| > 5 && Strip(p) == x {
        var p :| p in ps && |p| > 5 && Strip(p) == x;
        if p !in front {
          assert p == last;
        }
      }
    }
  }

  /** `FAISSManager.clean_transcript`: timestamps removed, split on runs of
      spaces after `.`, `!` or `?`, and pieces longer than 5 kept, stripped. */
  function CleanTranscript(text: string): (sentences: seq<string>)
    ensures forall k :: 0 <= k < |sentences| ==> Stripped(sentences[k])
  {
    KeepRaw(SplitSentences(SpacesOnly, RemoveTimestamps(text)))
  }

  /** Text without `[` or a space is one piece: kept, stripped, when longer than 5. */
  lemma CleanUnsplit(text: string)
    requires '[' !in text && ' ' !in text
    ensures CleanTranscript(text) == if |text| > 5 then [Strip(text)] else []
  {
    NoGapNoSplit(SpacesOnly, text, 0, 0);
    assert text[0..] == text;
    assert [text][..0] == [];
  }

  /** The length filter looks at the unstripped piece, so a kept sentence can be
      shorter than 6: `"ab.\n\n\n\n"` has no space to split at and cleans to `"ab."`. */
  lemma CleanKeepsShort()
    ensures CleanTranscript("ab.\n\n\n\n") == ["ab."]
  {
    var text := "ab.\n\n\n\n";
    CleanUnsplit(text);
    StripTrailingNewlines();
  }

  lemma StripTrailingNewlines()
    ensures Strip("ab.\n\n\n\n") == "ab."
  {
    var s := "ab.\n\n\n\n";
    assert LeadingSpace(s) == 0;
    assert s[0..] == s;
    assert TrailingSpace("ab.") == 0;
    assert "ab.\n"[..3] == "ab.";
    assert TrailingSpace("ab.\n") == 1;
    assert "ab.\n\n"[..4] == "ab.\n";
    assert TrailingSpace("ab.\n\n") == 2;
    assert "ab.\n\n\n"[..5] == "ab.\n\n";
    assert TrailingSpace("ab.\n\n\n") == 3;
    assert s[..6] == "ab.\n\n\n";
    assert TrailingSpace(s) == 4;
  }

  // ------------------------------------------------------------ chunking

  /** The chunker's state between sentences: the stripped chunks so far and the
      pending text. */
  datatype Chunking = Chunking(chunks: seq<string>, temp: string)

  /** One sentence: appended (after a space when the pending text is not empty)
      while pending text plus sentence stay under 800 characters; otherwise the
      pending text, when not empty, is emitted stripped and the sentence starts
      anew. */
  function Step(c: Chunking, s: string): Chunking {
    if |c.temp| + |s| < 800 then
      Chunking(c.chunks, if c.temp != "" then c.temp + " " + s else s)
    else
      Chunking(c.chunks + (if c.temp != "" then [Strip(c.temp)] else []), s)
  }

  function Fold(xs: seq<string>): Chunking
    decreases |xs|
  {
    if xs == [] then Chunking([], "") else Step(Fold(xs[..|xs| - 1]), xs[|xs| - 1])
  }

  /** What the loop and the final flush produce. */
  function LoopChunks(xs: seq<string>): seq<string> {
    var c := Fold(xs);
    if c.temp != "" then c.chunks + [Strip(c.temp)] else c.chunks
  }

  /** `chunk_transcript`: the loop's chunks, or the sentences joined by spaces
      as the single chunk when the loop produced none. */
  function Chunks(xs: seq<string>): seq<string> {
    var l := LoopChunks(xs);
    if l != [] then l else [Join(" ", xs)]
  }

  /** Whether some sentence is not empty. */
  predicate SomeText(xs: seq<string>) {
    exists k :: 0 <= k < |xs| && xs[k] != ""
  }

  /** The loop produces a chunk exactly when some sentence is not empty. */
  lemma {:induction false} FoldSomeText(xs: seq<string>)
    ensures (Fold(xs).chunks != [] || Fold(xs).temp != "") <==> SomeText(xs)
    decreases |xs|
  {
    if xs != [] {
      var front := xs[..|xs| - 1];
      var s := xs[|xs| - 1];
      FoldSomeText(front);
      assert forall k :: 0 <= k < |front| ==> front[k] == xs[k];
      if SomeText(front) {
        var k :| 0 <= k < |front| && front[k] != "";
        assert xs[k] != "";
      }
      if SomeText(xs) && !SomeText(front) {
        assert s != "";
      }
    }
  }

  /** Only the all-empty sentence lists reach the fallback. */
  lemma LoopChunksEmpty(xs: seq<string>)
    ensures LoopChunks(xs) == [] <==> !SomeText(xs)
  {
    FoldSomeText(xs);
  }

  /** The pending text only grows by appending while it stays at most 800
      characters long, so anything longer is one sentence. */
  lemma {:induction false} FoldLong(xs: seq<string>)
    ensures |Fold(xs).temp| <= 800 || Fold(xs).temp in xs
    ensures forall c :: c in Fold(xs).chunks ==> |c| <= 800 || c in StripEach(xs)
    decreases |xs|
  {
    if xs != [] {
      var front, s := xs[..|xs| - 1], xs[|xs| - 1];
      assert xs == front + [s];
      FoldLong(front);
      StepLong(Fold(front), front, s, xs);
    }
  }

  /** One step keeps every long pending text a sentence and every long chunk a
      stripped sentence. */
  lemma StepLong(c: Chunking, front: seq<string>, s: string, xs: seq<string>)
    requires xs == front + [s]
    requires |c.temp| <= 800 || c.temp in front
    requires forall x :: x in c.chunks ==> |x| <= 800 || x in StripEach(front)
    ensures |Step(c, s).temp| <= 800 || Step(c, s).temp in xs
    ensures forall x :: x in Step(c, s).chunks ==> |x| <= 800 || x in StripEach(xs)
  {
    StripEachSnoc(front, s);
    assert forall x :: x in front ==> x in xs;
    assert forall x :: x in StripEach(front) ==> x in StripEach(xs);
    if |c.temp| + |s| >= 800 && c.temp != "" {
      assert |Strip(c.temp)| <= |c.temp|;
      if |c.temp| > 800 {
        var j :| 0 <= j < |front| && front[j] == c.temp;
        assert StripEach(xs)[j] == Strip(c.temp);
      }
    }
  }

  /** A chunk over 800 characters is one stripped sentence, unless every
      sentence is empty and the fallback joined them. */
  lemma ChunksLong(xs: seq<string>, c: string)
    requires SomeText(xs)
    requires c in Chunks(xs) && |c| > 800
    ensures c in StripEach(xs)
  {
    LoopChunksEmpty(xs);
    FoldLong(xs);
    var t := Fold(xs).temp;
    if c !in Fold(xs).chunks {
      assert t != "" && c == Strip(t);
      assert |Strip(t)| <= |t|;
      var j :| 0 <= j < |xs| && xs[j] == t;
      assert StripEach(xs)[j] == c;
    }
  }

  /** Joining two non-empty stripped strings with a space keeps them stripped. */
  lemma StrippedSpaceJoin(a: string, b: string)
    requires a != [] && b != [] && Stripped(a) && Stripped(b)
    ensures Stripped(a + " " + b)
  {
    assert (a + " " + b)[0] == a[0];
    assert (a + " " + b)[|a + " " + b| - 1] == b[|b| - 1];
  }

  /** For non-empty stripped sentences, the pending text is stripped and never
      empty once a sentence has been read, no chunk is empty, and the chunks
      with the pending text rejoin to the sentences. */
  lemma {:induction false} FoldClean(xs: seq<string>)
    requires xs != [] && AllStrippedNonEmpty(xs)
    ensures Fold(xs).temp != "" && Stripped(Fold(xs).temp)
    ensures AllStrippedNonEmpty(Fold(xs).chunks)
    ensures Join(" ", Fold(xs).chunks + [Fold(xs).temp]) == Join(" ", xs)
    decreases |xs|
  {
    var front := xs[..|xs| - 1];
    var s := xs[|xs| - 1];
    assert xs == front + [s];
    if front == [] {
      assert Fold(front) == Chunking([], "");
      assert Fold(xs) == Chunking([], s);
      assert Fold(xs).chunks + [Fold(xs).temp] == xs;
    } else {
      assert AllStrippedNonEmpty(front) by {
        forall k | 0 <= k < |front| ensures front[k] != [] && Stripped(front[k]) {
          assert front[k] == xs[k];
        }
      }
      FoldClean(front);
      var c := Fold(front);
      FoldCleanStep(c, s, Join(" ", front));
      JoinSnoc(" ", front, s);
    }
  }

  /** One step of `FoldClean`. */
  lemma FoldCleanStep(c: Chunking, s: string, joined: string)
    requires c.temp != "" && Stripped(c.temp) && AllStrippedNonEmpty(c.chunks)
    requires s != [] && Stripped(s)
    requires Join(" ", c.chunks + [c.temp]) == joined
    ensures Step(c, s).temp != "" && Stripped(Step(c, s).temp)
    ensures AllStrippedNonEmpty(Step(c, s).chunks)
    ensures Join(" ", Step(c, s).chunks + [Step(c, s).temp]) == joined + " " + s
  {
    JoinSnoc(" ", c.chunks + [c.temp], s);
    if |c.temp| + |s| < 800 {
      StrippedSpaceJoin(c.temp, s);
      var t := c.temp + " " + s;
      if c.chunks == [] {
        assert c.chunks + [c.temp] == [c.temp];
        assert c.chunks + [t] == [t];
      } else {
        JoinSnoc(" ", c.chunks, c.temp);
        JoinSnoc(" ", c.chunks, t);
      }
    } else {
      assert Step(c, s).chunks + [s] == c.chunks + [c.temp] + [s];
    }
  }

  /** For non-empty stripped sentences the chunks hold no empty string and,
      joined by spaces, give back the sentences joined by spaces. */
  lemma ChunksJoin(xs: seq<string>)
    requires AllStrippedNonEmpty(xs)
    ensures xs != [] ==> AllStrippedNonEmpty(Chunks(xs))
    ensures Join(" ", Chunks(xs)) == Join(" ", xs)
  {
    if xs != [] {
      FoldClean(xs);
      var c := Fold(xs);
      assert LoopChunks(xs) == c.chunks + [c.temp];
    }
  }

  /** `chunk_transcript`, the loop over the sentences. */
  method ChunkTranscript(sentences: seq<string>) returns (chunks: seq<string>)
    ensures chunks == Chunks(sentences)
    ensures chunks != []
    ensures sentences == [] ==> chunks == [""]
  {
    chunks := [];
    var temp := "";
    for i := 0 to |sentences|
      invariant Chunking(chunks, temp) == Fold(sentences[..i])
    {
      var s := sentences[i];
      assert sentences[..i + 1][..i] == sentences[..i];
      if |temp| + |s| < 800 {
        temp := if temp != "" then temp + " " + s else s;
      } else {
        if temp != "" {
          chunks := chunks + [Strip(temp)];
        }
        temp := s;
      }
    }
    assert sentences[..|sentences|] == sentences;
    if temp != "" {
      chunks := chunks + [Strip(temp)];
    }
    if chunks == [] {
      chunks := [Join(" ", sentences)];
    }
  }

  // ------------------------------------------------------------ index

  /** A flat L2 index, known by the number of vectors it holds. */
  datatype FlatIndex = FlatIndex(ntotal: nat)

  /** What `create_index` hands back. */
  datatype Built = Built(index: FlatIndex, chunks: seq<string>)

  /** `create_index`: clean, chunk, embed one vector per chunk. The "No chunks
      created" error never fires, because the chunker never returns `[]`. */
  method CreateIndex(text: string, videoId: string) returns (r: Result<Built, string>)
    ensures r.Success?
    ensures r.value.chunks == Chunks(CleanTranscript(text))
    ensures r.value.index.ntotal == |r.value.chunks|
  {
    var sentences := CleanTranscript(text);
    var chunks := ChunkTranscript(sentences);
    if chunks == [] {
      assert false;
      return Failure("No chunks created from transcript");
    }
    return Success(Built(FlatIndex(|chunks|), chunks));
  }

  // ------------------------------------------------------------ store

  /** What a file on disk holds: a FAISS index or a pickled chunk list. */
  datatype Blob = IndexFile(index: FlatIndex) | ChunksFile(chunks: seq<string>)

  datatype LoadError = NotFound | Unreadable

  const IndexDir: string := "faiss_indexes"

  function IndexPath(videoId: string): string {
    PathJoin(IndexDir, videoId + ".index")
  }

  function ChunksPath(videoId: string): string {
    PathJoin(IndexDir, videoId + "_chunks.pkl")
  }

  /** The two files of a video never coincide with any file of any video, and
      each path names one video. */
  lemma PathsDistinct(a: string, b: string)
    ensures IndexPath(a) != ChunksPath(b)
    ensures IndexPath(a) == IndexPath(b) ==> a == b
    ensures ChunksPath(a) == ChunksPath(b) ==> a == b
  {
    PathLast(a + ".index");
    PathLast(b + "_chunks.pkl");
    if IndexPath(a) == IndexPath(b) {
      PathInjective(a, b, ".index");
    }
    if ChunksPath(a) == ChunksPath(b) {
      PathInjective(a, b, "_chunks.pkl");
    }
  }

  lemma PathLast(name: string)
    requires name != []
    ensures PathJoin(IndexDir, name) != []
    ensures PathJoin(IndexDir, name)[|PathJoin(IndexDir, name)| - 1] == name[|name| - 1]
  {
  }

  lemma PathInjective(a: string, b: string, suffix: string)
    requires suffix != []
    requires PathJoin(IndexDir, a + suffix) == PathJoin(IndexDir, b + suffix)
    ensures a == b
  {
    var na := a + suffix;
    var nb := b + suffix;
    var p := PathJoin(IndexDir, na);
    assert p[0] == '/' <==> na[0] == '/';
    assert p[0] == '/' <==> nb[0] == '/';
    if na[0] == '/' {
      assert na == nb;
    } else {
      assert na == (IndexDir + "/" + na)[|IndexDir| + 1..];
      assert nb == (IndexDir + "/" + nb)[|IndexDir| + 1..];
    }
    assert a == na[..|a|] && b == nb[..|b|];
  }

  /** `index_exists`: both files are present. */
  function Exists(files: map<string, Blob>, videoId: string): bool {
    IndexPath(videoId) in files && ChunksPath(videoId) in files
  }

  /** The disk after `save_index`. */
  function Saved(files: map<string, Blob>, videoId: string, index: FlatIndex, chunks: seq<string>)
    : map<string, Blob>
  {
    files[IndexPath(videoId) := IndexFile(index)][ChunksPath(videoId) := ChunksFile(chunks)]
  }

  /** `load_index`: FileNotFoundError unless both files exist; a file that does
      not hold what its name says cannot be read back. */
  function LoadFrom(files: map<string, Blob>, videoId: string): (r: Result<Built, LoadError>)
    ensures r == Failure(NotFound) <==> !Exists(files, videoId)
  {
    if !Exists(files, videoId) then Failure(NotFound)
    else match (files[IndexPath(videoId)], files[ChunksPath(videoId)])
      case (IndexFile(index), ChunksFile(chunks)) => Success(Built(index, chunks))
      case _ => Failure(Unreadable)
  }

  /** Saving then loading gives back the same index and chunk list. */
  lemma SaveLoad(files: map<string, Blob>, videoId: string, index: FlatIndex, chunks: seq<string>)
    ensures Exists(Saved(files, videoId, index, chunks), videoId)
    ensures LoadFrom(Saved(files, videoId, index, chunks), videoId) == Success(Built(index, chunks))
  {
    PathsDistinct(videoId, videoId);
  }

  /** Saving one video leaves every other video's files as they were. */
  lemma SaveOther(files: map<string, Blob>, videoId: string, index: FlatIndex, chunks: seq<string>,
                  other: string)
    requires other != videoId
    ensures Exists(Saved(files, videoId, index, chunks), other) == Exists(files, other)
    ensures LoadFrom(Saved(files, videoId, index, chunks), other) == LoadFrom(files, other)
  {
    PathsDistinct(other, videoId);
    PathsDistinct(videoId, other);
  }

  /** The manager over the directory of saved indexes. */
  class Manager {
    var files: map<string, Blob>

    /** Creating the index directory adds no file. */
    constructor(disk: map<string, Blob>)
      ensures files == disk
    {
      files := disk;
    }

    /** `save_index`: writes the index file and the pickled chunks. */
    method SaveIndex(index: FlatIndex, chunks: seq<string>, videoId: string)
      modifies this
      ensures files == Saved(old(files), videoId, index, chunks)
    {
      files := files[IndexPath(videoId) := IndexFile(index)];
      files := files[ChunksPath(videoId) := ChunksFile(chunks)];
    }

    /** `load_index`. */
    method LoadIndex(videoId: string) returns (r: Result<Built, LoadError>)
      ensures r == LoadFrom(files, videoId)
    {
      if IndexPath(videoId) !in files || ChunksPath(videoId) !in files {
        return Failure(NotFound);
      }
      var ix := files[IndexPath(videoId)];
      var cs := files[ChunksPath(videoId)];
      if ix.IndexFile? && cs.ChunksFile? {
        return Success(Built(ix.index, cs.chunks));
      }
      return Failure(Unreadable);
    }

    /** `index_exists`. */
    method IndexExists(videoId: string) returns (b: bool)
      ensures b == Exists(files, videoId)
    {
      b := IndexPath(videoId) in files && ChunksPath(videoId) in files;
    }
  }

  // ------------------------------------------------------------ search

  /** The search as written: every id the index returns that is below the chunk
      count picks a chunk. Negative ids pass the filter and index from the end;
      one below `-len(chunks)` raises IndexError. */
  function SearchAsWritten(chunks: seq<string>, ids: seq<int>): (r: Option<seq<string>>)
    ensures r.Some? ==> |r.value| <= |ids|
    ensures r.Some? ==> forall k :: 0 <= k < |r.value| ==> r.value[k] in chunks
    ensures r.None? <==> exists k :: 0 <= k < |ids| && ids[k] < -(|chunks| as int)
    decreases |ids|
  {
    if ids == [] then Some([])
    else
      var i := ids[|ids| - 1];
      match SearchAsWritten(chunks, ids[..|ids| - 1])
      case None => None
      case Some(front) =>
        if i < |chunks| then
          match PyIndex(|chunks|, i)
          case None => None
          case Some(j) => Some(front + [chunks[j]])
        else Some(front)
  }

  /** What one id contributes as written: nothing when it is at least the chunk
      count, `chunks[i]` with Python's negative indexing otherwise, and an
      IndexError below `-len(chunks)`. */
  function HitAsWritten(chunks: seq<string>, i: int): (r: Option<seq<string>>)
    ensures r.None? <==> i < -(|chunks| as int)
    ensures r.Some? && i < |chunks| ==> r.value == [chunks[PyIndex(|chunks|, i).value]]
    ensures i >= |chunks| ==> r == Some([])
  {
    if i >= |chunks| then Some([])
    else match PyIndex(|chunks|, i)
      case None => None
      case Some(j) => Some([chunks[j]])
  }

  /** Two outcomes of the search as written put one after the other. */
  function Both(x: Option<seq<string>>, y: Option<seq<string>>): Option<seq<string>> {
    match (x, y)
    case (Some(u), Some(v)) => Some(u + v)
    case _ => None
  }

  /** One more id adds its own contribution after the others'. */
  lemma SearchAsWrittenSnoc(chunks: seq<string>, ids: seq<int>, i: int)
    ensures SearchAsWritten(chunks, ids + [i]) == Both(SearchAsWritten(chunks, ids), HitAsWritten(chunks, i))
  {
    var xs := ids + [i];
    assert xs[..|xs| - 1] == ids && xs[|xs| - 1] == i;
    match SearchAsWritten(chunks, ids)
    case None =>
    case Some(front) =>
      if i >= |chunks| {
        assert front + [] == front;
      }
  }

  /** The search as written, id by id: the hits of a one-id list are that id's
      contribution. */
  lemma SearchAsWrittenOne(chunks: seq<string>, i: int)
    ensures SearchAsWritten(chunks, [i]) == HitAsWritten(chunks, i)
  {
    SearchAsWrittenSnoc(chunks, [], i);
    assert [] + [i] == [i];
    assert SearchAsWritten(chunks, []) == Some([]);
    match HitAsWritten(chunks, i)
    case None =>
    case Some(y) => assert [] + y == y;
  }

  /** The search as written keeps the order of the ids: the hits of two id
      lists one after the other are the hits of each, concatenated, and it
      fails when either part does. */
  lemma {:induction false} SearchAsWrittenAppend(chunks: seq<string>, a: seq<int>, b: seq<int>)
    ensures SearchAsWritten(chunks, a + b) == Both(SearchAsWritten(chunks, a), SearchAsWritten(chunks, b))
    decreases |b|
  {
    if b == [] {
      assert a + b == a;
      match SearchAsWritten(chunks, a)
      case None =>
      case Some(x) => assert x + [] == x;
    } else {
      var init, i := b[..|b| - 1], b[|b| - 1];
      assert b == init + [i];
      assert a + b == (a + init) + [i];
      SearchAsWrittenSnoc(chunks, a + init, i);
      SearchAsWrittenSnoc(chunks, init, i);
      SearchAsWrittenAppend(chunks, a, init);
      match (SearchAsWritten(chunks, a), SearchAsWritten(chunks, init), HitAsWritten(chunks, i))
      case (Some(x), Some(y), Some(z)) => assert (x + y) + z == x + (y + z);
      case _ =>
    }
  }

  /** FAISS pads a search for more neighbours than the index holds with id -1;
      as written, each pad brings back the last chunk. */
  lemma SearchPadding(chunks: seq<string>, ids: seq<int>)
    requires chunks != [] && SearchAsWritten(chunks, ids).Some?
    ensures SearchAsWritten(chunks, ids + [-1]) ==
      Some(SearchAsWritten(chunks, ids).value + [chunks[|chunks| - 1]])
  {
    var front := SearchAsWritten(chunks, ids).value;
    var hit := [chunks[|chunks| - 1]];
    assert PyIndex(|chunks|, -1) == Some(|chunks| - 1);
    assert HitAsWritten(chunks, -1) == Some(hit);
    SearchAsWrittenSnoc(chunks, ids, -1);
    assert Both(Some(front), Some(hit)) == Some(front + hit);
  }

  /** The default k = 3 over a one-chunk index returns `[0, -1, -1]`, and the
      search as written answers with that chunk three times. */
  lemma SearchRepeatsLastChunk()
    ensures SearchAsWritten(["a"], [0, -1, -1]) == Some(["a", "a", "a"])
  {
    var one: seq<string> := ["a"];
    assert [0][..0] == [];
    assert SearchAsWritten(one, []) == Some([]);
    assert PyIndex(1, 0) == Some(0);
    assert SearchAsWritten(one, [0]) == Some([] + [one[0]]);
    SearchPadding(one, [0]);
    assert [0] + [-1] == [0, -1];
    assert one[|one| - 1] == "a";
    assert [] + [one[0]] == ["a"] && ["a"] + ["a"] == ["a", "a"];
    assert SearchAsWritten(one, [0, -1]) == Some(["a", "a"]);
    SearchPadding(one, [0, -1]);
    assert [0, -1] + [-1] == [0, -1, -1];
    assert ["a", "a"] + [one[0]] == ["a", "a", "a"];
  }

  /** `search` as evidently intended: only ids of chunks in the index. */
  function Search(chunks: seq<string>, ids: seq<int>): (r: seq<string>)
    ensures |r| <= |ids|
    ensures forall k :: 0 <= k < |r| ==> r[k] in chunks
    decreases |ids|
  {
    if ids == [] then []
    else
      var i := ids[|ids| - 1];
      Search(chunks, ids[..|ids| - 1]) + (if 0 <= i < |chunks| then [chunks[i]] else [])
  }

  /** The corrected search, id by id: an id of a chunk gives that chunk, any
      other id gives nothing. */
  lemma SearchOne(chunks: seq<string>, i: int)
    ensures Search(chunks, [i]) == if 0 <= i < |chunks| then [chunks[i]] else []
  {
    assert [i][..0] == [];
  }

  /** The corrected search keeps the order of the ids: it distributes over
      concatenation. */
  lemma {:induction false} SearchAppend(chunks: seq<string>, a: seq<int>, b: seq<int>)
    ensures Search(chunks, a + b) == Search(chunks, a) + Search(chunks, b)
    decreases |b|
  {
    if b == [] {
      assert a + b == a;
    } else {
      var init := b[..|b| - 1];
      assert (a + b)[..|a + b| - 1] == a + init && (a + b)[|a + b| - 1] == b[|b| - 1];
      SearchAppend(chunks, a, init);
    }
  }

  /** Where every id names a chunk, the corrected search returns the named
      chunks, one per id, in the order of the ids. */
  lemma {:induction false} SearchInRange(chunks: seq<string>, ids: seq<int>)
    requires forall k :: 0 <= k < |ids| ==> 0 <= ids[k] < |chunks|
    ensures Search(chunks, ids) == seq(|ids|, k requires 0 <= k < |ids| => chunks[ids[k]])
    decreases |ids|
  {
    if ids != [] {
      var init := ids[..|ids| - 1];
      SearchInRange(chunks, init);
      assert seq(|ids|, k requires 0 <= k < |ids| => chunks[ids[k]]) ==
        seq(|init|, k requires 0 <= k < |init| => chunks[init[k]]) + [chunks[ids[|ids| - 1]]];
    }
  }

  /** Padding ids add nothing to the corrected search. */
  lemma SearchIgnoresPadding(chunks: seq<string>, ids: seq<int>)
    ensures Search(chunks, ids + [-1]) == Search(chunks, ids)
  {
    assert (ids + [-1])[..|ids|] == ids;
  }

  /** Where every id names a chunk, both searches agree and keep every hit. */
  lemma {:induction false} SearchAgrees(chunks: seq<string>, ids: seq<int>)
    requires forall k :: 0 <= k < |ids| ==> 0 <= ids[k] < |chunks|
    ensures SearchAsWritten(chunks, ids) == Some(Search(chunks, ids))
    ensures |Search(chunks, ids)| == |ids|
    decreases |ids|
  {
    if ids != [] {
      SearchAgrees(chunks, ids[..|ids| - 1]);
    }
  }
}
