/**
 * The Python string operations the core relies on, over `string` (a `seq<char>`):
 * str.strip(), str.join(), str.split(sep), str.split(), str.lower(), str.find(),
 * slicing with `s[:n]`, list flattening, integer formatting and os.path.join.
 */
module Text {
  import opened Wrappers

  /** Python's str.isspace(); `\s`, strip() and split() all use this set. */
  predicate IsSpace(c: char) {
    || c == ' '
    || ('\t' <= c <= '\r')
    || ('\U{1C}' <= c <= '\U{1F}')
    || c == '\U{85}' || c == '\U{A0}' || c == '\U{1680}'
    || ('\U{2000}' <= c <= '\U{200A}')
    || c == '\U{2028}' || c == '\U{2029}' || c == '\U{202F}' || c == '\U{205F}' || c == '\U{3000}'
  }

  predicate IsDigit(c: char) {
    '0' <= c <= '9'
  }

  predicate AllSpace(s: string) {
    forall k :: 0 <= k < |s| ==> IsSpace(s[k])
  }

  /** No whitespace at either end: what str.strip() produces. */
  predicate Stripped(s: string) {
    s == [] || (!IsSpace(s[0]) && !IsSpace(s[|s| - 1]))
  }

  // ---------------------------------------------------------------- strip

  /** Number of whitespace characters str.strip() removes from the front. */
  function LeadingSpace(s: string): (n: nat)
    ensures n <= |s| && (n == |s| || !IsSpace(s[n]))
    decreases |s|
  {
    if |s| > 0 && IsSpace(s[0]) then 1 + LeadingSpace(s[1..]) else 0
  }

  /** Number of whitespace characters str.strip() removes from the back. */
  function TrailingSpace(s: string): (n: nat)
    ensures n <= |s| && (n == |s| || !IsSpace(s[|s| - 1 - n]))
    decreases |s|
  {
    if |s| > 0 && IsSpace(s[|s| - 1]) then 1 + TrailingSpace(s[..|s| - 1]) else 0
  }

  lemma {:induction false} LeadingSpaceAll(s: string)
    ensures forall k :: 0 <= k < LeadingSpace(s) ==> IsSpace(s[k])
    decreases |s|
  {
    if |s| > 0 && IsSpace(s[0]) {
      LeadingSpaceAll(s[1..]);
      assert forall k :: 0 < k < |s| ==> s[k] == s[1..][k - 1];
    }
  }

  lemma {:induction false} TrailingSpaceAll(s: string)
    ensures forall k :: |s| - TrailingSpace(s) <= k < |s| ==> IsSpace(s[k])
    decreases |s|
  {
    if |s| > 0 && IsSpace(s[|s| - 1]) {
      TrailingSpaceAll(s[..|s| - 1]);
    }
  }

  function LStrip(s: string): string {
    s[LeadingSpace(s)..]
  }

  function RStrip(s: string): string {
    s[..|s| - TrailingSpace(s)]
  }

  /** Python's str.strip(): no whitespace left at either end; empty exactly for
      all-whitespace input; already-stripped text is unchanged. */
  function Strip(s: string): (r: string)
    ensures Stripped(r) && |r| <= |s|
    ensures r == [] <==> AllSpace(s)
    ensures Stripped(s) ==> r == s
  {
    var t := LStrip(s);
    LeadingSpaceAll(s);
    TrailingSpaceAll(t);
    assert AllSpace(s) ==> t == [];
    assert t == [] ==> AllSpace(s);
    assert RStrip(t) == [] ==> t == [] by {
      if t != [] { assert !IsSpace(t[0]); }
    }
    RStrip(t)
  }

  /** What str.strip() keeps and removes: the result is the slice of `s` after
      its leading whitespace, and only whitespace lies outside that slice. */
  lemma StripSlice(s: string)
    ensures LeadingSpace(s) + |Strip(s)| <= |s|
    ensures Strip(s) == s[LeadingSpace(s)..LeadingSpace(s) + |Strip(s)|]
    ensures forall k :: 0 <= k < LeadingSpace(s) ==> IsSpace(s[k])
    ensures forall k :: LeadingSpace(s) + |Strip(s)| <= k < |s| ==> IsSpace(s[k])
  {
    StripIsSlice(s);
    LeadingSpaceAll(s);
    StripTrailing(s);
  }

  lemma StripIsSlice(s: string)
    ensures LeadingSpace(s) + |Strip(s)| <= |s|
    ensures Strip(s) == s[LeadingSpace(s)..LeadingSpace(s) + |Strip(s)|]
  {
    var n := LeadingSpace(s);
    var t := LStrip(s);
    var m := |t| - TrailingSpace(t);
    assert Strip(s) == RStrip(t) == t[..m];
    assert t[..m] == s[n..n + m];
  }

  lemma StripTrailing(s: string)
    ensures forall k :: LeadingSpace(s) + |Strip(s)| <= k < |s| ==> IsSpace(s[k])
  {
    var n := LeadingSpace(s);
    var t := LStrip(s);
    var m := |t| - TrailingSpace(t);
    assert |Strip(s)| == m;
    TrailingSpaceAll(t);
    forall k | n + m <= k < |s| ensures IsSpace(s[k]) {
      assert s[k] == t[k - n];
    }
  }

  lemma StripSpacePrefix(x: string)
    requires Stripped(x)
    ensures Strip(" " + x) == x
  {
    assert (" " + x)[1..] == x;
    assert LStrip(" " + x) == LStrip(x);
  }
  /** Leading whitespace ends at the first character that is not whitespace. */
  lemma {:induction false} LeadingSpaceAt(s: string, n: nat)
    requires n < |s| && !IsSpace(s[n])
    requires forall k :: 0 <= k < n ==> IsSpace(s[k])
    ensures LeadingSpace(s) == n
    decreases n
  {
    if n > 0 {
      assert forall k :: 0 <= k < n - 1 ==> s[1..][k] == s[k + 1];
      LeadingSpaceAt(s[1..], n - 1);
    }
  }

  /** Whitespace around stripped text is exactly what str.strip() removes. */
  lemma StripAround(pre: string, x: string, post: string)
    requires AllSpace(pre) && AllSpace(post) && x != [] && Stripped(x)
    ensures Strip(pre + x + post) == x
  {
    var s := pre + x + post;
    var n := |pre| + |x|;
    assert s[|pre|] == x[0];
    LeadingSpaceAt(s, |pre|);
    StripSlice(s);
    var m := |Strip(s)|;
    assert s[n - 1] == x[|x| - 1];
    assert Strip(s)[m - 1] == s[|pre| + m - 1];
    forall k | n <= k < |s| ensures IsSpace(s[k]) {
      assert s[k] == post[k - n];
    }
    assert s[|pre|..n] == x;
  }

  /** What str.strip() keeps at the front of a prefix it also keeps at the
      front of the longer text, as far as a final non-whitespace character. */
  lemma StripPrefixOf(x: string, s: string, w: string)
    requires x <= s && w <= Strip(x) && w != [] && !IsSpace(w[|w| - 1])
    ensures w <= Strip(s)
  {
    var l := LeadingSpace(x);
    LeadingSpacePrefix(x, s);
    StripIsSlice(x);
    assert w == x[l..l + |w|];
    assert s[l..l + |w|] == w by {
      assert s[..|x|] == x;
    }
    StripIsSlice(s);
    StripTrailing(s);
    FrontOfSlice(s, l, |Strip(s)|, w);
  }

  /** A slice that runs to the last non-whitespace character takes in any
      non-blank-ended text found at its start. */
  lemma FrontOfSlice(s: string, l: nat, m: nat, w: string)
    requires l + m <= |s| && l + |w| <= |s| && s[l..l + |w|] == w
    requires w != [] && !IsSpace(w[|w| - 1])
    requires forall k :: l + m <= k < |s| ==> IsSpace(s[k])
    ensures w <= s[l..l + m]
  {
    assert s[l + |w| - 1] == w[|w| - 1];
    assert s[l..l + m][..|w|] == w;
  }

  /** Text that has a non-blank prefix leads with that prefix's whitespace. */
  lemma LeadingSpacePrefix(x: string, s: string)
    requires x <= s && Strip(x) != []
    ensures LeadingSpace(s) == LeadingSpace(x)
  {
    var l := LeadingSpace(x);
    StripIsSlice(x);
    LeadingSpaceAll(x);
    assert s[l] == x[l];
    LeadingSpaceAt(s, l);
  }

  /** Each item stripped. */
  function StripEach(xs: seq<string>): (r: seq<string>)
    ensures |r| == |xs|
  {
    seq(|xs|, k requires 0 <= k < |xs| => Strip(xs[k]))
  }

  lemma StripEachSnoc(xs: seq<string>, x: string)
    ensures StripEach(xs + [x]) == StripEach(xs) + [Strip(x)]
  {
  }

  // ---------------------------------------------------------------- join

  /** Python's sep.join(xs). */
  function Join(sep: string, xs: seq<string>): string
    decreases |xs|
  {
    if |xs| == 0 then "" else if |xs| == 1 then xs[0] else xs[0] + sep + Join(sep, xs[1..])
  }

  lemma {:induction false} JoinAppend(sep: string, xs: seq<string>, ys: seq<string>)
    requires xs != [] && ys != []
    ensures Join(sep, xs + ys) == Join(sep, xs) + sep + Join(sep, ys)
    decreases |xs|
  {
    assert (xs + ys)[0] == xs[0];
    if |xs| == 1 {
      assert (xs + ys)[1..] == ys;
    } else {
      assert (xs + ys)[1..] == xs[1..] + ys;
      JoinAppend(sep, xs[1..], ys);
    }
  }

  lemma JoinSnoc(sep: string, xs: seq<string>, x: string)
    requires xs != []
    ensures Join(sep, xs + [x]) == Join(sep, xs) + sep + x
  {
    JoinAppend(sep, xs, [x]);
  }

  /** Every element non-empty and stripped: the shape of a cleaned sentence list. */
  predicate AllStrippedNonEmpty(xs: seq<string>) {
    forall k :: 0 <= k < |xs| ==> xs[k] != [] && Stripped(xs[k])
  }

  lemma {:induction false} JoinStripped(xs: seq<string>)
    requires xs != [] && AllStrippedNonEmpty(xs)
    ensures Join(" ", xs) != [] && Stripped(Join(" ", xs))
    ensures Join(" ", xs)[0] == xs[0][0]
    decreases |xs|
  {
    if |xs| > 1 {
      JoinStripped(xs[1..]);
      var j := Join(" ", xs[1..]);
      assert Join(" ", xs) == xs[0] + " " + j;
      assert Join(" ", xs)[|Join(" ", xs)| - 1] == j[|j| - 1];
    }
  }

  // ---------------------------------------------------------------- split

  /** Index of the first `c` in `s`, or |s| when there is none. */
  function IndexOf(s: string, c: char): (i: nat)
    ensures i <= |s|
    ensures i < |s| ==> s[i] == c
    ensures forall k :: 0 <= k < i ==> s[k] != c
    decreases |s|
  {
    if |s| == 0 then 0 else if s[0] == c then 0 else 1 + IndexOf(s[1..], c)
  }

  lemma IndexOfFirst(a: string, c: char, b: string)
    requires c !in a
    ensures IndexOf(a + [c] + b, c) == |a|
  {
    var s := a + [c] + b;
    var i := IndexOf(s, c);
    assert s[|a|] == c;
    assert forall k :: 0 <= k < |a| ==> s[k] == a[k];
  }

  /** Python's s.split(c) for a one-character separator: the pieces between
      separators, joined back by `c`, give `s`. */
  function Split(s: string, c: char): (r: seq<string>)
    ensures |r| >= 1
    ensures forall k :: 0 <= k < |r| ==> c !in r[k]
    ensures Join([c], r) == s
    decreases |s|
  {
    var i := IndexOf(s, c);
    if i == |s| then
      [s]
    else
      var rest := Split(s[i + 1..], c);
      var r := [s[..i]] + rest;
      assert r[1..] == rest;
      assert s == s[..i] + [c] + s[i + 1..];
      r
  }

  /** Splitting what was joined by a separator absent from the parts gives back the parts. */
  lemma {:induction false} SplitJoin(c: char, xs: seq<string>)
    requires xs != []
    requires forall k :: 0 <= k < |xs| ==> c !in xs[k]
    ensures Split(Join([c], xs), c) == xs
    decreases |xs|
  {
    var s := Join([c], xs);
    if |xs| == 1 {
      assert IndexOf(s, c) == |s|;
    } else {
      var a := xs[0];
      var b := Join([c], xs[1..]);
      assert s == a + [c] + b;
      IndexOfFirst(a, c, b);
      assert s[..|a|] == a;
      assert s[|a| + 1..] == b;
      SplitJoin(c, xs[1..]);
    }
  }

  /** Splitting after a first piece without the separator. */
  lemma SplitCons(a: string, c: char, b: string)
    requires c !in a
    ensures Split(a + [c] + b, c) == [a] + Split(b, c)
  {
    var s := a + [c] + b;
    IndexOfFirst(a, c, b);
    assert s[..|a|] == a && s[|a| + 1..] == b;
  }

  /** The first piece leads the joined text. */
  lemma JoinHead(sep: string, xs: seq<string>)
    requires xs != []
    ensures xs[0] <= Join(sep, xs)
  {
  }

  // ---------------------------------------------------------------- words

  /** Length of the leading run of non-whitespace characters. */
  function WordLength(s: string): (n: nat)
    ensures n <= |s|
    ensures forall k :: 0 <= k < n ==> !IsSpace(s[k])
    ensures n == |s| || IsSpace(s[n])
    decreases |s|
  {
    if |s| > 0 && !IsSpace(s[0]) then 1 + WordLength(s[1..]) else 0
  }

  /** Python's str.split() with no argument: the maximal runs of non-whitespace. */
  function Words(s: string): seq<string>
    decreases |s|
  {
    var t := LStrip(s);
    if t == [] then [] else
      var n := WordLength(t);
      [t[..n]] + Words(t[n..])
  }

  /** A non-empty run of non-whitespace characters. */
  predicate IsWord(w: string) {
    w != [] && forall j :: 0 <= j < |w| ==> !IsSpace(w[j])
  }

  lemma SingleWord(w: string)
    requires IsWord(w)
    ensures Words(w) == [w]
  {
    assert LeadingSpace(w) == 0;
    assert LStrip(w) == w;
    assert WordLength(w) == |w| by { WordLengthAll(w); }
    assert w[..|w|] == w;
    assert w[|w|..] == [];
  }

  lemma {:induction false} WordLengthAll(w: string)
    requires forall j :: 0 <= j < |w| ==> !IsSpace(w[j])
    ensures WordLength(w) == |w|
    decreases |w|
  {
    if |w| > 0 { WordLengthAll(w[1..]); }
  }

  // ---------------------------------------------------------------- case

  /** str.lower() on ASCII letters; other characters are left alone. */
  function LowerChar(c: char): char {
    if 'A' <= c <= 'Z' then (c as int + 32) as char else c
  }

  function Lower(s: string): string {
    seq(|s|, i requires 0 <= i < |s| => LowerChar(s[i]))
  }

  /** s.replace(a, b) for single characters. */
  function ReplaceChar(s: string, a: char, b: char): string {
    seq(|s|, i requires 0 <= i < |s| => if s[i] == a then b else s[i])
  }

  /** Deletes every occurrence of the characters in `cs` (chained s.replace(c, '')). */
  function DeleteChars(s: string, cs: set<char>): (r: string)
    ensures forall k :: 0 <= k < |r| ==> r[k] !in cs
    decreases |s|
  {
    if s == [] then [] else (if s[0] in cs then [] else [s[0]]) + DeleteChars(s[1..], cs)
  }

  // ---------------------------------------------------------------- search

  predicate OccursAt(s: string, pat: string, i: int) {
    0 <= i && i + |pat| <= |s| && s[i..i + |pat|] == pat
  }

  /** The first occurrence of `pat` in `s` at or after `from` (str.find with a start). */
  function FindFrom(s: string, pat: string, from: nat): (r: Option<nat>)
    ensures r.Some? ==> from <= r.value && OccursAt(s, pat, r.value)
    ensures r.Some? ==> forall j :: from <= j < r.value ==> !OccursAt(s, pat, j)
    ensures r.None? ==> forall j :: from <= j ==> !OccursAt(s, pat, j)
    decreases |s| - from
  {
    if from + |pat| > |s| then None
    else if s[from..from + |pat|] == pat then Some(from)
    else FindFrom(s, pat, from + 1)
  }

  /** An occurrence with none before it (from `from` on) is the one found. */
  lemma FindFromFirst(s: string, pat: string, from: nat, at: nat)
    requires from <= at && OccursAt(s, pat, at)
    requires forall j :: from <= j < at ==> !OccursAt(s, pat, j)
    ensures FindFrom(s, pat, from) == Some(at)
  {
  }

  /** Python's `pat in s`. */
  predicate Contains(s: string, pat: string) {
    FindFrom(s, pat, 0).Some?
  }

  /** Python's s[:n], on strings and lists alike. */
  function Prefix<T>(s: seq<T>, n: nat): (r: seq<T>)
    ensures |r| <= n && r <= s
    ensures |s| <= n ==> r == s
  {
    if |s| <= n then s else s[..n]
  }

  /** Concatenation regrouped; stated once so that proofs over lists of
      strings need not compare them element by element. */
  lemma ConcatAssoc<T>(a: seq<T>, b: seq<T>, c: seq<T>)
    ensures a + b + c == a + (b + c)
  {
  }

  /** The elements of the lists, list after list (`extend` in a loop). */
  function Flatten<T>(gs: seq<seq<T>>): seq<T>
    decreases |gs|
  {
    if gs == [] then [] else Flatten(gs[..|gs| - 1]) + gs[|gs| - 1]
  }
  lemma FlattenSnoc<T>(gs: seq<seq<T>>, g: seq<T>)
    ensures Flatten(gs + [g]) == Flatten(gs) + g
  {
    assert (gs + [g])[..|gs|] == gs;
  }


  // ---------------------------------------------------------------- numbers

  function DigitChar(d: nat): char
    requires d < 10
  {
    ('0' as int + d) as char
  }

  /** Python's str(n) for a non-negative int. */
  function NatToString(n: nat): (r: string)
    ensures |r| >= 1 && forall k :: 0 <= k < |r| ==> IsDigit(r[k])
    ensures n < 10 <==> |r| == 1
    ensures 10 <= n < 100 <==> |r| == 2
    decreases n
  {
    if n < 10 then [DigitChar(n)] else NatToString(n / 10) + [DigitChar(n % 10)]
  }

  /** The number a string of decimal digits denotes. */
  function DecimalValue(s: string): nat
    requires forall k :: 0 <= k < |s| ==> IsDigit(s[k])
    decreases |s|
  {
    if s == [] then 0 else
      assert IsDigit(s[|s| - 1]);
      DecimalValue(s[..|s| - 1]) * 10 + (s[|s| - 1] as int - '0' as int)
  }

  lemma {:induction false} DecimalRoundTrip(n: nat)
    ensures DecimalValue(NatToString(n)) == n
    decreases n
  {
    if n >= 10 {
      DecimalRoundTrip(n / 10);
      var s := NatToString(n);
      assert s[..|s| - 1] == NatToString(n / 10);
    }
  }

  /** Python's str(n) for any int. */
  function IntToString(n: int): string {
    if n < 0 then "-" + NatToString(-n) else NatToString(n)
  }

  /** Python's f"{n:02d}" for a non-negative int: zero-padded to at least two digits. */
  function Pad2(n: nat): (r: string)
    ensures forall k :: 0 <= k < |r| ==> IsDigit(r[k])
    ensures |r| == 2 <==> n < 100
    ensures |r| >= 2
  {
    if n < 10 then "0" + NatToString(n) else NatToString(n)
  }

  lemma Pad2RoundTrip(n: nat)
    ensures DecimalValue(Pad2(n)) == n
  {
    if n < 10 {
      var p := Pad2(n);
      assert p == ['0', DigitChar(n)];
      assert p[..1] == ['0'] && ['0'][..0] == [];
      assert DecimalValue(['0']) == 0;
    } else {
      DecimalRoundTrip(n);
    }
  }

  // ---------------------------------------------------------------- indexing

  /** Python's `xs[i]` on a list of length `n`: negative indices count from the
      end; anything outside `-n <= i < n` raises IndexError. */
  function PyIndex(n: nat, i: int): (r: Option<nat>)
    ensures r.Some? <==> -(n as int) <= i < n
    ensures r.Some? ==> r.value < n && (r.value == i || r.value == n + i)
  {
    if 0 <= i < n then Some(i) else if -(n as int) <= i < 0 then Some(n + i) else None
  }

  // ---------------------------------------------------------------- paths

  /** os.path.join(dir, name) on POSIX: an absolute `name` discards `dir`. */
  function PathJoin(dir: string, name: string): string {
    if |name| > 0 && name[0] == '/' then name
    else if dir == [] || dir[|dir| - 1] == '/' then dir + name
    else dir + "/" + name
  }
}
