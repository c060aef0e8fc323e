/**
 * The deterministic part of `get_recommendations`: the search queries read off
 * the model's reply, the searches of at most three of them (a failing search
 * yields no hits), the merge of the hits in query order, the removal of hits
 * whose link was already seen, and the cut to five. The language model and the
 * video search are oracles passed in as values; the concurrency of the
 * searches is not modelled.
 */
module Recommendation {
  import opened Wrappers
  import opened Text
  import opened Patterns

  // ------------------------------------------------------------ queries

  /** Length of the leading run of digits (`\d+`). */
  function DigitRun(s: string): (n: nat)
    ensures n <= |s|
    ensures forall k :: 0 <= k < n ==> IsDigit(s[k])
    ensures n == |s| || !IsDigit(s[n])
    decreases |s|
  {
    if s == [] || !IsDigit(s[0]) then 0 else 1 + DigitRun(s[1..])
  }

  /** The line opens with `d` digits and then a `.`: a `\d+\.` marker. */
  predicate NumberMarker(q: string, d: nat) {
    0 < d < |q| && q[d] == '.' && forall k :: 0 <= k < d ==> IsDigit(q[k])
  }

  /** Length of the list marker `\d+\.`, `-` or `*` at the very start of a
      line, 0 when there is none. */
  function MarkerLength(q: string): (n: nat)
    ensures n <= |q|
    ensures n == 1 <==> q != [] && (q[0] == '-' || q[0] == '*')
    ensures n >= 2 <==> exists d :: NumberMarker(q, d)
    ensures n >= 2 ==> NumberMarker(q, n - 1)
  {
    if q != [] && (q[0] == '-' || q[0] == '*') then 1
    else
      var d := DigitRun(q);
      assert forall e: nat :: NumberMarker(q, e) ==> e == d;
      if 0 < d < |q| && q[d] == '.' then assert NumberMarker(q, d); d + 1 else 0
  }

  /** `re.sub(r'^(\d+\.|\-|\*)\s*', '', q)`: a leading marker and the
      whitespace after it are removed; without a marker nothing is, not even
      leading whitespace. */
  function StripMarker(q: string): (r: string)
    ensures |r| <= |q| && r == q[|q| - |r|..]
    ensures MarkerLength(q) == 0 ==> r == q
    ensures MarkerLength(q) > 0 ==> |r| < |q| && (r == [] || !IsSpace(r[0]))
    ensures MarkerLength(q) > 0 ==>
      |r| <= |q| - MarkerLength(q) && AllSpace(q[MarkerLength(q)..|q| - |r|])
  {
    var m := MarkerLength(q);
    if m == 0 then q
    else
      LeadingSpaceAll(q[m..]);
      assert q[m..][..LeadingSpace(q[m..])] == q[m..m + LeadingSpace(q[m..])];
      LStrip(q[m..])
  }

  /** A line is a query when, stripped, it is longer than 5 characters; the
      test looks at the line before its marker is removed. */
  predicate IsQueryLine(l: string) {
    |Strip(l)| > 5
  }

  /** The query kept for a line. */
  function Query(l: string): string {
    Strip(StripMarker(l))
  }

  /** The images under `f` of the elements that pass `p`, in order. */
  function FilterMap<A, B>(xs: seq<A>, p: A -> bool, f: A -> B): (r: seq<B>)
    ensures |r| <= |xs|
    decreases |xs|
  {
    if xs == [] then []
    else
      var x := xs[|xs| - 1];
      FilterMap(xs[..|xs| - 1], p, f) + (if p(x) then [f(x)] else [])
  }

  /** The comprehension over the reply lines. */
  function Queries(lines: seq<string>): (r: seq<string>)
    ensures |r| <= |lines|
  {
    FilterMap(lines, IsQueryLine, Query)
  }

  /** The reply stripped, cleared of reasoning spans, stripped again and split
      into lines. */
  function ReplyLines(reply: string): (r: seq<string>)
    ensures r != []
  {
    Split(Strip(RemoveReasoning(Strip(reply))), '\n')
  }

  /** The comprehension keeps the order of its input: it distributes over
      concatenation. */
  lemma {:induction false} FilterMapAppend<A, B>(a: seq<A>, b: seq<A>, p: A -> bool, f: A -> B)
    ensures FilterMap(a + b, p, f) == FilterMap(a, p, f) + FilterMap(b, p, f)
    decreases |b|
  {
    if b == [] {
      assert a + b == a;
    } else {
      var init := b[..|b| - 1];
      assert (a + b)[..|a + b| - 1] == a + init;
      FilterMapAppend(a, init, p, f);
    }
  }

  /** The comprehension yields exactly the images of the elements that pass. */
  lemma {:induction false} FilterMapMember<A, B>(xs: seq<A>, p: A -> bool, f: A -> B, y: B)
    ensures y in FilterMap(xs, p, f) <==> exists k :: 0 <= k < |xs| && p(xs[k]) && y == f(xs[k])
    decreases |xs|
  {
    if xs != [] {
      var init, x := xs[..|xs| - 1], xs[|xs| - 1];
      var tail: seq<B> := if p(x) then [f(x)] else [];
      assert FilterMap(xs, p, f) == FilterMap(init, p, f) + tail;
      FilterMapMember(init, p, f, y);
      WitnessSnoc(xs, p, f, y);
    }
  }

  lemma WitnessSnoc<A, B>(xs: seq<A>, p: A -> bool, f: A -> B, y: B)
    requires xs != []
    ensures var init, x := xs[..|xs| - 1], xs[|xs| - 1];
      (exists k :: 0 <= k < |xs| && p(xs[k]) && y == f(xs[k])) <==>
      (exists k :: 0 <= k < |init| && p(init[k]) && y == f(init[k])) || (p(x) && y == f(x))
  {
    var init := xs[..|xs| - 1];
    if exists k :: 0 <= k < |init| && p(init[k]) && y == f(init[k]) {
      var k :| 0 <= k < |init| && p(init[k]) && y == f(init[k]);
      assert xs[k] == init[k];
    }
    if exists k :: 0 <= k < |xs| && p(xs[k]) && y == f(xs[k]) {
      var k :| 0 <= k < |xs| && p(xs[k]) && y == f(xs[k]);
      if k < |init| {
        assert init[k] == xs[k];
      }
    }
  }

  /** Queries keep the order of their lines, and a query is exactly the cleaned
      form of a line long enough to count. */
  lemma QueriesOfLines(a: seq<string>, b: seq<string>, q: string)
    ensures Queries(a + b) == Queries(a) + Queries(b)
    ensures q in Queries(a) <==> exists k :: 0 <= k < |a| && IsQueryLine(a[k]) && q == Query(a[k])
  {
    FilterMapAppend(a, b, IsQueryLine, Query);
    FilterMapMember(a, IsQueryLine, Query, q);
  }

  /** The length test comes before the marker is removed: `1. abc` counts and
      leaves the three-letter query `abc`, while `- ab` is too short. */
  lemma LengthBeforeMarker()
    ensures Queries(["1. abc", "- ab"]) == ["abc"]
  {
    NumberedLine();
    ShortLine("- ab");
    KeptThenDropped("1. abc", "- ab");
  }

  lemma KeptThenDropped(a: string, b: string)
    requires IsQueryLine(a) && !IsQueryLine(b)
    ensures Queries([a, b]) == [Query(a)]
  {
    var xs := [a, b];
    assert xs[..1] == [a] && [a][..0] == [];
    var once := FilterMap([a], IsQueryLine, Query);
    assert once == [Query(a)];
    assert FilterMap(xs, IsQueryLine, Query) == once;
  }

  lemma ShortLine(l: string)
    requires |l| <= 5
    ensures !IsQueryLine(l)
  {
  }

  lemma NumberedLine()
    ensures IsQueryLine("1. abc") && Query("1. abc") == "abc"
  {
    var l := "1. abc";
    assert Stripped(l) && |Strip(l)| == 6;
    assert DigitRun(l) == 1 by {
      assert DigitRun(l[1..]) == 0;
    }
    assert MarkerLength(l) == 2;
    assert l[2..] == " abc";
    assert LeadingSpace(" abc") == 1 by {
      assert LeadingSpace(" abc"[1..]) == 0;
    }
    assert StripMarker(l) == "abc";
    assert Stripped("abc");
  }

  // ------------------------------------------------------------ searches

  /** One search hit. Only its `link` is inspected; the rest of the record is
      carried along unchanged. */
  datatype Video = Video(link: string, details: string)

  /** A video search that either returns its hits or raises (None). */
  type Search = string -> Option<seq<Video>>

  /** `do_search`: the hits of one query, or `[]` when the search raises. */
  function Hits(search: Search, q: string): seq<Video> {
    match search(q)
    case Some(vs) => vs
    case None => []
  }

  /** The hits of the first three queries, one list per query, in query order
      (the gathered `results`). */
  function Fetch(queries: seq<string>, search: Search): (r: seq<seq<Video>>)
    ensures |r| == |Prefix(queries, 3)| <= 3
  {
    var qs := Prefix(queries, 3);
    seq(|qs|, k requires 0 <= k < |qs| => Hits(search, qs[k]))
  }

  /** The loop that extends `all_recommendations` with each query's hits. */
  method Merge(results: seq<seq<Video>>) returns (all: seq<Video>)
    ensures all == Flatten(results)
  {
    all := [];
    for i := 0 to |results|
      invariant all == Flatten(results[..i])
    {
      assert results[..i + 1][..i] == results[..i];
      all := all + results[i];
    }
    assert results[..|results|] == results;
  }

  /** Hits of earlier queries come first: merging distributes over the lists. */
  lemma {:induction false} FlattenAppend<T>(a: seq<seq<T>>, b: seq<seq<T>>)
    ensures Flatten(a + b) == Flatten(a) + Flatten(b)
    decreases |b|
  {
    if b == [] {
      assert a + b == a;
    } else {
      var init, last := b[..|b| - 1], b[|b| - 1];
      assert a + b == (a + init) + [last];
      assert b == init + [last];
      FlattenSnoc(a + init, last);
      FlattenSnoc(init, last);
      FlattenAppend(a, init);
      ConcatAssoc(Flatten(a), Flatten(init), last);
    }
  }

  // ------------------------------------------------------------ dedup

  function Links(vs: seq<Video>): set<string> {
    set k | 0 <= k < |vs| :: vs[k].link
  }

  lemma LinksSnoc(vs: seq<Video>, v: Video)
    ensures Links(vs + [v]) == Links(vs) + {v.link}
  {
    var ws := vs + [v];
    assert ws[|vs|] == v;
    forall l | l in Links(vs) ensures l in Links(ws) {
      var k :| 0 <= k < |vs| && vs[k].link == l;
      assert ws[k] == vs[k];
    }
  }

  /** The hits with the first hit of every link kept and later ones dropped. */
  function Unique(vs: seq<Video>): (r: seq<Video>)
    ensures |r| <= |vs|
    decreases |vs|
  {
    if vs == [] then []
    else
      var init := vs[..|vs| - 1];
      var v := vs[|vs| - 1];
      if v.link in Links(init) then Unique(init) else Unique(init) + [v]
  }

  /** The position of the first hit with link `l`. */
  function First(vs: seq<Video>, l: string): (i: nat)
    requires l in Links(vs)
    ensures i < |vs| && vs[i].link == l
    ensures forall j :: 0 <= j < i ==> vs[j].link != l
    decreases |vs|
  {
    var init := vs[..|vs| - 1];
    LinksSnoc(init, vs[|vs| - 1]);
    assert vs == init + [vs[|vs| - 1]];
    if l in Links(init) then First(init, l) else |vs| - 1
  }

  /** The loop over `all_recommendations` with its `seen` set. */
  method Dedup(all: seq<Video>) returns (unique: seq<Video>)
    ensures unique == Unique(all)
  {
    var seen: set<string> := {};
    unique := [];
    for i := 0 to |all|
      invariant unique == Unique(all[..i])
      invariant seen == Links(all[..i])
    {
      var r := all[i];
      assert all[..i + 1] == all[..i] + [r];
      LinksSnoc(all[..i], r);
      if r.link !in seen {
        unique := unique + [r];
        seen := seen + {r.link};
      }
    }
    assert all[..|all|] == all;
  }

  /** What the dedup keeps: every link once, at its first hit, in the order in
      which the links first appear. */
  lemma UniqueFirstHits(vs: seq<Video>)
    ensures Links(Unique(vs)) == Links(vs)
    ensures forall i, j :: 0 <= i < j < |Unique(vs)| ==> Unique(vs)[i].link != Unique(vs)[j].link
    ensures forall k :: 0 <= k < |Unique(vs)| ==> Unique(vs)[k] == vs[First(vs, Unique(vs)[k].link)]
    ensures forall i, j :: 0 <= i < j < |Unique(vs)| ==>
      First(vs, Unique(vs)[i].link) < First(vs, Unique(vs)[j].link)
  {
    UniqueLinks(vs);
    UniqueLinksDistinct(vs);
    UniqueAtFirst(vs);
    UniqueInOrder(vs);
  }

  /** The dedup keeps every link. */
  lemma {:induction false} UniqueLinks(vs: seq<Video>)
    ensures Links(Unique(vs)) == Links(vs)
    decreases |vs|
  {
    if vs != [] {
      var init, v := vs[..|vs| - 1], vs[|vs| - 1];
      assert vs == init + [v];
      UniqueLinks(init);
      LinksSnoc(init, v);
      if v.link !in Links(init) {
        LinksSnoc(Unique(init), v);
      }
    }
  }

  /** The dedup keeps each link once. */
  lemma {:induction false} UniqueLinksDistinct(vs: seq<Video>)
    ensures forall i, j :: 0 <= i < j < |Unique(vs)| ==> Unique(vs)[i].link != Unique(vs)[j].link
    decreases |vs|
  {
    if vs != [] {
      var init, v := vs[..|vs| - 1], vs[|vs| - 1];
      assert vs == init + [v];
      UniqueLinksDistinct(init);
      if v.link !in Links(init) {
        UniqueLinks(init);
        var u := Unique(init);
        assert Unique(vs) == u + [v];
        forall k | 0 <= k < |u| ensures u[k].link != v.link {
          assert u[k].link in Links(u);
        }
      }
    }
  }

  /** Links seen before the last hit are first seen where they were. */
  lemma FirstSnoc(init: seq<Video>, v: Video, vs: seq<Video>)
    requires vs == init + [v]
    ensures Links(vs) == Links(init) + {v.link}
    ensures forall l :: l in Links(init) ==> First(vs, l) == First(init, l)
    ensures v.link !in Links(init) ==> First(vs, v.link) == |init|
  {
    LinksSnoc(init, v);
    assert vs[..|vs| - 1] == init;
  }

  /** Each kept hit is the first hit with its link. */
  lemma {:induction false} UniqueAtFirst(vs: seq<Video>)
    ensures Links(Unique(vs)) == Links(vs)
    ensures forall k :: 0 <= k < |Unique(vs)| ==> Unique(vs)[k] == vs[First(vs, Unique(vs)[k].link)]
    decreases |vs|
  {
    UniqueLinks(vs);
    if vs != [] {
      var init, v := vs[..|vs| - 1], vs[|vs| - 1];
      assert vs == init + [v];
      UniqueAtFirst(init);
      FirstSnoc(init, v, vs);
      var u := Unique(init);
      forall k | 0 <= k < |Unique(vs)| ensures Unique(vs)[k] == vs[First(vs, Unique(vs)[k].link)] {
        if k < |u| {
          assert Unique(vs)[k] == u[k];
          assert u[k].link in Links(u);
        }
      }
    }
  }

  /** Kept hits follow the order in which their links first appear. */
  lemma {:induction false} UniqueInOrder(vs: seq<Video>)
    ensures Links(Unique(vs)) == Links(vs)
    ensures forall i, j :: 0 <= i < j < |Unique(vs)| ==>
      First(vs, Unique(vs)[i].link) < First(vs, Unique(vs)[j].link)
    decreases |vs|
  {
    UniqueLinks(vs);
    if vs != [] {
      var init, v := vs[..|vs| - 1], vs[|vs| - 1];
      assert vs == init + [v];
      UniqueInOrder(init);
      FirstSnoc(init, v, vs);
      var u := Unique(init);
      forall i, j | 0 <= i < j < |Unique(vs)|
        ensures First(vs, Unique(vs)[i].link) < First(vs, Unique(vs)[j].link)
      {
        assert Unique(vs)[i] == u[i] && u[i].link in Links(u);
        if j < |u| {
          assert Unique(vs)[j] == u[j] && u[j].link in Links(u);
        }
      }
    }
  }

  /** A list whose links are already distinct passes the dedup unchanged. */
  lemma {:induction false} UniqueDistinct(vs: seq<Video>)
    requires forall i, j :: 0 <= i < j < |vs| ==> vs[i].link != vs[j].link
    ensures Unique(vs) == vs
    decreases |vs|
  {
    if vs != [] {
      var init := vs[..|vs| - 1];
      var v := vs[|vs| - 1];
      assert forall k :: 0 <= k < |init| ==> init[k] == vs[k];
      UniqueDistinct(init);
      assert v.link !in Links(init) by {
        assert forall k :: 0 <= k < |init| ==> init[k].link != v.link;
      }
      assert Unique(vs) == Unique(init) + [v];
      assert vs == init + [v];
    }
  }

  // ------------------------------------------------------------ the endpoint

  /** `get_recommendations`. `ready` says whether the RAG service exists and
      `reply` is the model's reply, None when `invoke` raises. Every failure,
      the 503 for a missing service included, leaves the outer handler as a
      500. */
  method GetRecommendations(ready: bool, reply: Option<string>, search: Search)
    returns (r: Result<seq<Video>, HttpError>)
    ensures r.Failure? <==> !ready || reply.None?
    ensures r.Failure? ==> r.error == HttpError(500)
    ensures r.Success? ==>
      r.value == Prefix(Unique(Flatten(Fetch(Queries(ReplyLines(reply.value)), search))), 5)
  {
    if !ready || reply.None? {
      return Failure(HttpError(500));
    }
    var queries := Queries(ReplyLines(reply.value));
    var results := Fetch(queries, search);
    var all := Merge(results);
    var unique := Dedup(all);
    return Success(Prefix(unique, 5));
  }

  /** The answer: at most five hits, no link twice, each hit the first one with
      its link, in the order the links first appear in the merged hits. */
  lemma Recommended(all: seq<Video>)
    ensures var r := Prefix(Unique(all), 5);
      && |r| <= 5
      && r <= Unique(all)
      && (forall i, j :: 0 <= i < j < |r| ==> r[i].link != r[j].link)
      && (forall k :: 0 <= k < |r| ==> r[k].link in Links(all) && r[k] == all[First(all, r[k].link)])
  {
    UniqueFirstHits(all);
    var u := Unique(all);
    var r := Prefix(u, 5);
    forall k | 0 <= k < |r| ensures r[k].link in Links(all) && r[k] == all[First(all, r[k].link)] {
      assert r[k] == u[k];
      assert u[k].link in Links(u);
    }
  }

  /** A failed search contributes no hits: when every search fails, nothing
      is left to merge. */
  lemma FailedSearchesSkipped(queries: seq<string>, search: Search)
    requires forall k :: 0 <= k < |queries| ==> search(queries[k]).None?
    ensures Flatten(Fetch(queries, search)) == []
  {
    var rs := Fetch(queries, search);
    FlattenEmpty(rs);
  }

  lemma {:induction false} FlattenEmpty<T>(rs: seq<seq<T>>)
    requires forall k :: 0 <= k < |rs| ==> rs[k] == []
    ensures Flatten(rs) == []
    decreases |rs|
  {
    if rs != [] {
      FlattenEmpty(rs[..|rs| - 1]);
    }
  }
}
