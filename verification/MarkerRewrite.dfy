/** Rewriting a generated section between markers (scripts/gen-mcp-client-config.ts). */
module MarkerRewrite {
  import opened Text

  /** `t` occurs in `s` at index `i`. */
  predicate OccursAt(s: string, t: string, i: int) {
    0 <= i && i + |t| <= |s| && s[i..i + |t|] == t
  }

  ghost predicate Contains(s: string, t: string) {
    exists i :: OccursAt(s, t, i)
  }

  /** `s.indexOf(t)`. */
  function IndexOf(s: string, t: string): (i: int)
    ensures -1 <= i && (i >= 0 ==> i + |t| <= |s|)
  {
    if OccursAt(s, t, 0) then 0
    else if s == "" then -1
    else
      var i := IndexOf(s[1..], t);
      if i == -1 then -1 else i + 1
  }

  lemma {:induction false} ShiftOccurrence(s: string, t: string, j: int)
    requires s != "" && 0 < j
    ensures OccursAt(s, t, j) <==> OccursAt(s[1..], t, j - 1)
  {
    if j + |t| <= |s| { assert s[1..][j - 1..j - 1 + |t|] == s[j..j + |t|]; }
  }

  /** `i` is the first occurrence of `t` in `s`. */
  ghost predicate First(s: string, t: string, i: int) {
    OccursAt(s, t, i) && forall j :: 0 <= j < i ==> !OccursAt(s, t, j)
  }

  /** The index is the first occurrence, if there is any. */
  lemma {:induction false} IndexOfIsFirst(s: string, t: string)
    ensures var i := IndexOf(s, t); if i == -1 then !Contains(s, t) else First(s, t, i)
  {
    if !OccursAt(s, t, 0) && s != "" {
      IndexOfIsFirst(s[1..], t);
      forall j | 0 < j ensures OccursAt(s, t, j) <==> OccursAt(s[1..], t, j - 1) { ShiftOccurrence(s, t, j); }
    }
  }

  function Middle(replacement: string): string {
    "\n\n" + replacement + "\n\n"
  }

  /** None stands for the missing-markers error. */
  function ReplaceBetweenMarkers(source: string, replacement: string, begin: string, end: string): Option<string> {
    var beginAt, endAt := IndexOf(source, begin), IndexOf(source, end);
    if beginAt == -1 || endAt == -1 then None
    else Some(source[..beginAt + |begin|] + Middle(replacement) + source[endAt..])
  }

  lemma {:induction false} IndexIsFirst(s: string, t: string, i: int)
    requires First(s, t, i)
    ensures IndexOf(s, t) == i
  {
    IndexOfIsFirst(s, t);
  }

  /** The rewrite fails exactly when a marker is missing. */
  lemma {:induction false} FailsIffMarkerMissing(source: string, r: string, begin: string, end: string)
    ensures ReplaceBetweenMarkers(source, r, begin, end) == None <==> !Contains(source, begin) || !Contains(source, end)
  {
    IndexOfIsFirst(source, begin);
    IndexOfIsFirst(source, end);
  }

  /** Within a common prefix the two texts have the same occurrences. */
  lemma {:induction false} SameInPrefix(a: string, b: string, n: int, t: string, i: int)
    requires 0 <= n <= |a| && n <= |b| && a[..n] == b[..n] && 0 <= i && i + |t| <= n
    ensures OccursAt(a, t, i) <==> OccursAt(b, t, i)
  {
    assert a[i..i + |t|] == a[..n][i..i + |t|] && b[i..i + |t|] == b[..n][i..i + |t|];
  }

  /** A text that keeps everything through the first occurrence keeps it as its first. */
  lemma {:induction false} FirstStays(a: string, b: string, t: string, i: int, n: int)
    requires First(a, t, i) && i + |t| <= n <= |a| && n <= |b| && a[..n] == b[..n]
    ensures First(b, t, i)
  {
    forall j | 0 <= j <= i ensures OccursAt(b, t, j) <==> OccursAt(a, t, j) { SameInPrefix(a, b, n, t, j); }
  }

  /** The rewritten text, once the markers are located. */
  function Spliced(source: string, r: string, from: nat, to: nat): string
    requires from <= |source| && to <= |source|
  {
    source[..from] + Middle(r) + source[to..]
  }

  /** An occurrence that starts in the middle of the rewritten text and holds no newline is in the replacement. */
  lemma {:induction false} OccurrenceInReplacement(pre: string, r: string, post: string, t: string, i: int)
    requires '\n' !in t && t != "" && OccursAt(pre + Middle(r) + post, t, i)
    requires |pre| < i + |t| && i < |pre| + |r| + 4
    ensures OccursAt(r, t, i - |pre| - 2)
  {
    var out := pre + Middle(r) + post;
    var n := |pre|;
    assert out[n] == '\n' && out[n + 1] == '\n' && out[n + 2 + |r|] == '\n' && out[n + 3 + |r|] == '\n';
    forall k | i <= k < i + |t| ensures out[k] != '\n' { assert out[i..i + |t|][k - i] == t[k - i]; }
    assert n + 2 <= i && i + |t| <= n + 2 + |r|;
    assert out[n + 2..n + 2 + |r|] == r;
    assert r[i - n - 2..i - n - 2 + |t|] == out[i..i + |t|];
  }

  lemma {:induction false} EndAfterSplice(source: string, r: string, from: nat, to: nat, end: string)
    requires from <= |source| && OccursAt(source, end, to)
    ensures OccursAt(Spliced(source, r, from, to), end, from + |r| + 4)
    ensures Spliced(source, r, from, to)[from + |r| + 4..] == source[to..]
    ensures Spliced(source, r, from, to)[..from] == source[..from]
  {
    var out, p := Spliced(source, r, from, to), from + |r| + 4;
    assert out[p..] == source[to..];
    assert out[p..p + |end|] == out[p..][..|end|] == source[to..][..|end|] == source[to..to + |end|];
  }

  lemma {:induction false} EndInReplacement(source: string, r: string, from: nat, to: nat, end: string, i: int)
    requires from <= |source| && to <= |source| && OccursAt(r, end, i)
    ensures OccursAt(Spliced(source, r, from, to), end, from + 2 + i)
  {
    var out := Spliced(source, r, from, to);
    assert out[from + 2..from + 2 + |r|] == r;
    assert out[from + 2 + i..from + 2 + i + |end|] == r[i..i + |end|];
  }

  /** In the rewritten text the end marker is first found where it was moved to, unless the replacement holds one. */
  lemma {:induction false} EndMoves(source: string, r: string, from: nat, to: nat, end: string)
    requires from <= |source| && from < to + |end| && First(source, end, to) && end != "" && '\n' !in end
    requires !Contains(r, end)
    ensures First(Spliced(source, r, from, to), end, from + |r| + 4)
  {
    var out := Spliced(source, r, from, to);
    EndAfterSplice(source, r, from, to, end);
    forall j | 0 <= j < from + |r| + 4 ensures !OccursAt(out, end, j) {
      if j + |end| <= from {
        SameInPrefix(out, source, from, end, j);
      } else if OccursAt(out, end, j) {
        OccurrenceInReplacement(source[..from], r, source[to..], end, j);
      }
    }
  }

  lemma {:induction false} Rewrites(source: string, r: string, begin: string, end: string, b: int, e: int)
    requires First(source, begin, b) && First(source, end, e)
    ensures ReplaceBetweenMarkers(source, r, begin, end) == Some(Spliced(source, r, b + |begin|, e))
  {
    IndexIsFirst(source, begin, b);
    IndexIsFirst(source, end, e);
  }

  /** Once the markers are located, a rewrite that starts from before the end of the section makes it longer. */
  lemma {:induction false} SpliceGrows(out: string, r: string, from: nat, to: nat)
    requires from <= |out| && to <= |out| && to < from + |r| + 4
    ensures |Spliced(out, r, from, to)| > |out|
  {
  }

  /** The first BEGIN stays where it was, and the rewritten text ends as the source did. */
  lemma {:induction false} BeginStays(source: string, r: string, begin: string, b: int, to: nat)
    requires First(source, begin, b) && to <= |source|
    ensures First(Spliced(source, r, b + |begin|, to), begin, b)
  {
    var out := Spliced(source, r, b + |begin|, to);
    assert out[..b + |begin|] == source[..b + |begin|];
    FirstStays(source, out, begin, b, b + |begin|);
  }

  lemma {:induction false} SpliceAgain(source: string, r: string, from: nat, to: nat)
    requires from <= |source| && to <= |source|
    ensures var out := Spliced(source, r, from, to); Spliced(out, r, from, from + |r| + 4) == out
  {
    var out := Spliced(source, r, from, to);
    assert out[..from] == source[..from] && out[from + |r| + 4..] == source[to..];
  }

  lemma {:induction false} FirstAtMost(s: string, t: string, i: int) returns (j: int)
    requires OccursAt(s, t, i)
    ensures First(s, t, j) && j <= i
  {
    j := IndexOf(s, t);
    IndexOfIsFirst(s, t);
  }

  /** Where the rewritten text first has END: where it was moved to, or earlier if the replacement holds one. */
  lemma {:induction false} EndOfRewritten(source: string, r: string, from: nat, e: nat, end: string) returns (e': nat)
    requires from <= |source| && from < e + |end| && First(source, end, e) && end != "" && '\n' !in end
    ensures First(Spliced(source, r, from, e), end, e')
    ensures e' <= from + |r| + 4 && (e' == from + |r| + 4 <==> !Contains(r, end))
  {
    if Contains(r, end) {
      var i :| OccursAt(r, end, i);
      EndInReplacement(source, r, from, e, end, i);
      var j := FirstAtMost(Spliced(source, r, from, e), end, from + 2 + i);
      e' := j;
    } else {
      EndMoves(source, r, from, e, end);
      e' := from + |r| + 4;
    }
  }

  lemma {:induction false} SecondRewrite(source: string, r: string, begin: string, end: string, b: int, e: int)
    returns (e': nat)
    requires First(source, begin, b) && First(source, end, e) && b + |begin| < e + |end| && end != "" && '\n' !in end
    ensures e' <= b + |begin| + |r| + 4 && (e' == b + |begin| + |r| + 4 <==> !Contains(r, end))
    ensures var out := Spliced(source, r, b + |begin|, e);
      e' <= |out| && ReplaceBetweenMarkers(out, r, begin, end) == Some(Spliced(out, r, b + |begin|, e'))
  {
    e' := EndOfRewritten(source, r, b + |begin|, e, end);
    BeginStays(source, r, begin, b, e);
    Rewrites(Spliced(source, r, b + |begin|, e), r, begin, end, b, e');
  }

  /** When the first END ends behind the first BEGIN, whether it starts inside BEGIN or not, the text through
      BEGIN and from END on is kept; and rewriting again changes nothing exactly when the replacement does not
      contain END. */
  lemma {:induction false} RewriteIsFramedAndIdempotent(source: string, r: string, begin: string, end: string, b: int,
          e: int)
    requires First(source, begin, b) && First(source, end, e) && b + |begin| < e + |end| && end != "" && '\n' !in end
    ensures var once := ReplaceBetweenMarkers(source, r, begin, end);
      && once == Some(source[..b + |begin|] + ("\n\n" + r + "\n\n") + source[e..])
      && (ReplaceBetweenMarkers(once.value, r, begin, end) == once <==> !Contains(r, end))
  {
    var from := b + |begin|;
    var out := Spliced(source, r, from, e);
    Rewrites(source, r, begin, end, b, e);
    var e' := SecondRewrite(source, r, begin, end, b, e);
    if e' == from + |r| + 4 {
      SpliceAgain(source, r, from, e);
    } else {
      SpliceGrows(out, r, from, e');
    }
  }

  /** In the other case, END before BEGIN or within it, the markers are found, the file is accepted, and every
      rewrite makes it longer. */
  lemma {:induction false} MisorderedMarkersGrow(source: string, r: string, begin: string, end: string, b: int, e: int)
    requires First(source, begin, b) && First(source, end, e) && e + |end| <= b + |begin|
    ensures var once := ReplaceBetweenMarkers(source, r, begin, end);
      && once.Some? && |once.value| > |source| && First(once.value, begin, b) && First(once.value, end, e)
      && ReplaceBetweenMarkers(once.value, r, begin, end) != once
  {
    var out := Spliced(source, r, b + |begin|, e);
    MisorderedGrowsOnce(source, r, begin, end, b, e);
    MisorderedStay(source, r, begin, end, b, e);
    MisorderedGrowsOnce(out, r, begin, end, b, e);
  }

  lemma {:induction false} MisorderedGrowsOnce(source: string, r: string, begin: string, end: string, b: int, e: int)
    requires First(source, begin, b) && First(source, end, e) && e + |end| <= b + |begin|
    ensures var out := Spliced(source, r, b + |begin|, e);
      ReplaceBetweenMarkers(source, r, begin, end) == Some(out) && |out| > |source|
  {
    Rewrites(source, r, begin, end, b, e);
    SpliceGrows(source, r, b + |begin|, e);
  }

  lemma {:induction false} MisorderedStay(source: string, r: string, begin: string, end: string, b: int, e: int)
    requires First(source, begin, b) && First(source, end, e) && e + |end| <= b + |begin|
    ensures var out := Spliced(source, r, b + |begin|, e); First(out, begin, b) && First(out, end, e)
  {
    var out := Spliced(source, r, b + |begin|, e);
    assert out[..b + |begin|] == source[..b + |begin|];
    FirstStays(source, out, begin, b, b + |begin|);
    FirstStays(source, out, end, e, b + |begin|);
  }

  /** A file with its two markers swapped. */
  lemma {:induction false} SwappedMarkersGrow(r: string)
    ensures var once := ReplaceBetweenMarkers("<e><b>", r, "<b>", "<e>");
      && once.Some? && |once.value| > |"<e><b>"|
      && ReplaceBetweenMarkers(once.value, r, "<b>", "<e>") != once
  {
    var source := "<e><b>";
    assert source[0..3] == "<e>" && source[1..4] == "e><" && source[2..5] == "><b" && source[3..6] == "<b>";
    assert First(source, "<e>", 0) && First(source, "<b>", 3);
    MisorderedMarkersGrow(source, r, "<b>", "<e>", 3, 0);
  }
}
