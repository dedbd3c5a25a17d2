/** The row order of the successor pass (scripts/backfill-calibration-corpus-phase2.ts): rows are grouped by
    repository and the groups are walked in first-seen order, while the cursor assumes key order. */
module SuccessorCursor {
  import opened Text
  import opened Sequences
  import opened TargetKeys

  /** A parseable row: its repository and its key. */
  datatype Entry = Entry(repo: string, key: string)

  /** The parseable rows, in the order they were loaded. */
  function Entries(toNumber: Numeral, keys: seq<string>): seq<Entry> {
    if keys == [] then []
    else
      var n := |keys| - 1;
      var target := SplitTargetKey(toNumber, keys[n]);
      Entries(toNumber, keys[..n]) + if target.Some? then [Entry(target.value.repo, keys[n])] else []
  }

  function KeyOf(): Entry -> string { (e: Entry) => e.key }

  type Groups = map<string, seq<string>>

  /** `byRepo` is an insertion-ordered map: its keys in order, and the rows of each. */
  datatype ByRepo = ByRepo(order: seq<string>, groups: Groups)

  function AddEntry(m: ByRepo, e: Entry): ByRepo {
    if e.repo in m.groups then ByRepo(m.order, m.groups[e.repo := m.groups[e.repo] + [e.key]])
    else ByRepo(m.order + [e.repo], m.groups[e.repo := [e.key]])
  }

  function Grouped(es: seq<Entry>): ByRepo {
    if es == [] then ByRepo([], map[]) else AddEntry(Grouped(es[..|es| - 1]), es[|es| - 1])
  }

  method GroupByRepo(toNumber: Numeral, keys: seq<string>) returns (byRepo: ByRepo)
    ensures byRepo == Grouped(Entries(toNumber, keys))
  {
    byRepo := ByRepo([], map[]);
    for i := 0 to |keys|
      invariant byRepo == Grouped(Entries(toNumber, keys[..i]))
    {
      assert keys[..i + 1][..i] == keys[..i];
      ghost var es := Entries(toNumber, keys[..i]);
      var split := SplitTargetKey(toNumber, keys[i]);
      if split.None? {
        assert Entries(toNumber, keys[..i + 1]) == es;
        continue;
      }
      assert (es + [Entry(split.value.repo, keys[i])])[..|es|] == es;
      var repo := split.value.repo;
      var rows := if repo in byRepo.groups then byRepo.groups[repo] else [];
      var order := if repo in byRepo.groups then byRepo.order else byRepo.order + [repo];
      assert rows == [] ==> rows + [keys[i]] == [keys[i]];
      byRepo := ByRepo(order, byRepo.groups[repo := rows + [keys[i]]]);
    }
    assert keys[..|keys|] == keys;
  }

  /** The walk: every group in turn. */
  function Walk(order: seq<string>, groups: Groups): seq<string> {
    if order == [] then []
    else
      var repo := order[|order| - 1];
      Walk(order[..|order| - 1], groups) + if repo in groups then groups[repo] else []
  }

  function Visited(toNumber: Numeral, keys: seq<string>): seq<string> {
    var byRepo := Grouped(Entries(toNumber, keys));
    Walk(byRepo.order, byRepo.groups)
  }

  // ---------- contiguous groups are walked in order ----------

  ghost predicate Contiguous(es: seq<Entry>) {
    forall i, j, k :: 0 <= i < j < k < |es| && es[i].repo == es[k].repo ==> es[j].repo == es[i].repo
  }

  lemma {:induction false} WalkUntouched(order: seq<string>, groups: Groups, repo: string, rows: seq<string>)
    requires repo !in order
    ensures Walk(order, groups[repo := rows]) == Walk(order, groups)
  {
    if order != [] { WalkUntouched(order[..|order| - 1], groups, repo, rows); }
  }

  ghost predicate Seen(es: seq<Entry>, repo: string) {
    exists i :: 0 <= i < |es| && es[i].repo == repo
  }

  lemma {:induction false} SeenAppend(es: seq<Entry>, repo: string)
    requires es != []
    ensures Seen(es, repo) <==> Seen(es[..|es| - 1], repo) || es[|es| - 1].repo == repo
  {
    var n := |es| - 1;
    if i :| 0 <= i < n && es[..n][i].repo == repo { assert es[i].repo == repo; }
    if i :| 0 <= i < |es| && es[i].repo == repo { assert i < n ==> es[..n][i].repo == repo; }
  }

  /** The map knows exactly the repositories seen. */
  lemma {:induction false} GroupedKnows(es: seq<Entry>, repo: string)
    ensures repo in Grouped(es).groups <==> Seen(es, repo)
    ensures repo in Grouped(es).order <==> Seen(es, repo)
  {
    if es != [] {
      GroupedKnows(es[..|es| - 1], repo);
      GroupedKnows(es[..|es| - 1], es[|es| - 1].repo);
      SeenAppend(es, repo);
    }
  }

  /** In a contiguous list the repository seen last is the last one the map learned, and only once. */
  ghost predicate LearnedLast(order: seq<string>, repo: string) {
    order != [] && order[|order| - 1] == repo && repo !in order[..|order| - 1]
  }

  lemma {:induction false} LastRepoIsLearnedLast(es: seq<Entry>)
    requires Contiguous(es) && es != []
    ensures LearnedLast(Grouped(es).order, es[|es| - 1].repo)
  {
    var n := |es| - 1;
    var m, e := Grouped(es[..n]), es[n];
    GroupedKnows(es[..n], e.repo);
    if e.repo in m.groups {
      var i :| 0 <= i < n && es[..n][i].repo == e.repo;
      assert es[i].repo == es[n].repo;
      assert es[..n][n - 1].repo == e.repo by { assert i < n - 1 ==> es[n - 1].repo == es[i].repo; }
      LastRepoIsLearnedLast(es[..n]);
    } else {
      assert (m.order + [e.repo])[..|m.order|] == m.order;
    }
  }

  lemma {:induction false} WalkInOrder(es: seq<Entry>)
    requires Contiguous(es)
    ensures Walk(Grouped(es).order, Grouped(es).groups) == Map(KeyOf(), es)
  {
    if es != [] {
      var n := |es| - 1;
      var init, e := es[..n], es[n];
      WalkInOrder(init);
      LastRepoIsLearnedLast(es);
      GroupedKnows(init, e.repo);
      WalkAppend(Grouped(init), e);
      assert Map(KeyOf(), es) == Map(KeyOf(), init) + [e.key];
    }
  }

  lemma {:induction false} WalkAppend(m: ByRepo, e: Entry)
    requires LearnedLast(AddEntry(m, e).order, e.repo)
    ensures Walk(AddEntry(m, e).order, AddEntry(m, e).groups) == Walk(m.order, m.groups) + [e.key]
  {
    var m' := AddEntry(m, e);
    var before := m'.order[..|m'.order| - 1];
    WalkUntouched(before, m.groups, e.repo, m'.groups[e.repo]);
    if e.repo !in m.groups { assert before == m.order; }
  }

  // ---------- sorted keys of real repositories are contiguous ----------

  /** Repository names contain no '#', as on GitHub. */
  ghost predicate PlainRepos(toNumber: Numeral, keys: seq<string>) {
    forall k :: k in keys && SplitTargetKey(toNumber, k).Some? ==> '#' !in SplitTargetKey(toNumber, k).value.repo
  }

  /** Every entry is a parseable key with its repository. */
  ghost predicate WellSplit(toNumber: Numeral, keys: seq<string>, es: seq<Entry>) {
    forall i :: 0 <= i < |es| ==>
      var t := SplitTargetKey(toNumber, es[i].key);
      es[i].key in keys && t.Some? && t.value.repo == es[i].repo
  }

  lemma {:induction false} SameRepo(a: string, e: Entry)
    requires '#' !in a && '#' !in e.repo && a + "#" <= e.key
    requires e.repo + "#" <= e.key && '#' !in e.key[|e.repo| + 1..]
    ensures a == e.repo
  {
    assert e.key[|a|] == (a + "#")[|a|] == '#';
    assert e.key[|e.repo|] == (e.repo + "#")[|e.repo|] == '#';
    assert forall i :: 0 <= i < |e.repo| ==> e.key[i] == (e.repo + "#")[i] == e.repo[i];
    assert forall i :: |e.repo| < i < |e.key| ==> e.key[i] == e.key[|e.repo| + 1..][i - |e.repo| - 1];
    assert |a| == |e.repo|;
    assert a == (a + "#")[..|a|] == e.key[..|a|];
    assert e.repo == (e.repo + "#")[..|a|];
  }

  lemma {:induction false} SortedIsContiguous(toNumber: Numeral, keys0: seq<string>, es: seq<Entry>)
    requires PlainRepos(toNumber, keys0) && WellSplit(toNumber, keys0, es) && StrictlySorted(Map(KeyOf(), es))
    ensures Contiguous(es)
  {
    var keys := Map(KeyOf(), es);
    forall i, j, k | 0 <= i < j < k < |es| && es[i].repo == es[k].repo ensures es[j].repo == es[i].repo {
      assert Less(keys[i], keys[j]) && Less(keys[j], keys[k]);
      LessAsymmetric(keys[i], keys[j]);
      LessAsymmetric(keys[j], keys[k]);
      PrefixIsConvex(es[i].repo + "#", es[i].key, es[j].key, es[k].key);
      SameRepo(es[i].repo, es[j]);
    }
  }

  function Parses(toNumber: Numeral): string -> bool { (key: string) => SplitTargetKey(toNumber, key).Some? }

  lemma {:induction false} FilterAppend<X(!new)>(p: X -> bool, xs: seq<X>, x: X)
    ensures Filter(p, xs + [x]) == Filter(p, xs) + if p(x) then [x] else []
  {
    if xs != [] {
      assert (xs + [x])[1..] == xs[1..] + [x];
      FilterAppend(p, xs[1..], x);
    }
  }

  lemma {:induction false} EntriesAreParsedRows(toNumber: Numeral, keys: seq<string>)
    ensures WellSplit(toNumber, keys, Entries(toNumber, keys))
    ensures Map(KeyOf(), Entries(toNumber, keys)) == Filter(Parses(toNumber), keys)
  {
    if keys != [] {
      var n := |keys| - 1;
      EntriesAreParsedRows(toNumber, keys[..n]);
      assert keys == keys[..n] + [keys[n]];
      FilterAppend(Parses(toNumber), keys[..n], keys[n]);
      assert SplitTargetKey(toNumber, keys[n]).Some? ==>
        Map(KeyOf(), Entries(toNumber, keys)) == Map(KeyOf(), Entries(toNumber, keys[..n])) + [keys[n]];
    }
  }

  lemma {:induction false} FilterSorted(p: string -> bool, keys: seq<string>)
    requires StrictlySorted(keys)
    ensures StrictlySorted(Filter(p, keys))
  {
    if keys != [] {
      var rest := Filter(p, keys[1..]);
      FilterSorted(p, keys[1..]);
      forall i | 0 <= i < |rest| ensures Less(keys[0], rest[i]) { assert rest[i] in keys[1..]; }
    }
  }

  /** Walking the groups visits the parseable rows in exactly the sorted order, so the cursor only increases. */
  lemma {:induction false} VisitsInKeyOrder(toNumber: Numeral, keys: seq<string>)
    requires StrictlySorted(keys) && PlainRepos(toNumber, keys)
    ensures Visited(toNumber, keys) == Filter(Parses(toNumber), keys)
    ensures StrictlySorted(Visited(toNumber, keys))
  {
    EntriesAreParsedRows(toNumber, keys);
    FilterSorted(Parses(toNumber), keys);
    SortedIsContiguous(toNumber, keys, Entries(toNumber, keys));
    WalkInOrder(Entries(toNumber, keys));
  }

  lemma {:induction false} FiltersCommute(p: string -> bool, q: string -> bool, keys: seq<string>)
    ensures Filter(p, Filter(q, keys)) == Filter(q, Filter(p, keys))
  {
    if keys != [] {
      FiltersCommute(p, q, keys[1..]);
      assert Filter(q, keys) == if q(keys[0]) then [keys[0]] + Filter(q, keys[1..]) else Filter(q, keys[1..]);
      assert Filter(p, keys) == if p(keys[0]) then [keys[0]] + Filter(p, keys[1..]) else Filter(p, keys[1..]);
      FilterCons(p, keys[0], Filter(q, keys[1..]));
      FilterCons(q, keys[0], Filter(p, keys[1..]));
    }
  }

  lemma {:induction false} FilterCons(p: string -> bool, key: string, rest: seq<string>)
    ensures Filter(p, [key] + rest) == (if p(key) then [key] else []) + Filter(p, rest)
  {
    assert ([key] + rest)[1..] == rest;
  }

  /** Wherever a run stops, the resume filter of the next one leaves exactly the rows it had not visited. */
  lemma {:induction false} ResumeLeavesExactlyTheRest(toNumber: Numeral, keys: seq<string>, n: nat)
    requires StrictlySorted(keys) && PlainRepos(toNumber, keys) && n <= |Visited(toNumber, keys)|
    ensures var cursor := if n == 0 then None else Some(Visited(toNumber, keys)[n - 1]);
      Visited(toNumber, Filter(IsAfter(cursor), keys)) == Visited(toNumber, keys)[n..]
  {
    var visited := Visited(toNumber, keys);
    var cursor := if n == 0 then None else Some(visited[n - 1]);
    var later := Filter(IsAfter(cursor), keys);
    VisitsInKeyOrder(toNumber, keys);
    FilterSorted(IsAfter(cursor), keys);
    VisitsInKeyOrder(toNumber, later);
    FiltersCommute(Parses(toNumber), IsAfter(cursor), keys);
    FilterIsSuffix(cursor, visited);
    if n == 0 {
      assert Passed(None, visited) == 0;
    } else {
      assert visited[n - 1] in visited;
      PassedAtKey(visited, n - 1);
    }
  }
}
