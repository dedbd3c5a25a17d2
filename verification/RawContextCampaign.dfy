/** Whole campaigns of raw-context runs: each run starts from the cursor the last completed one saved, and a
    run that throws saves nothing, though the rows it already patched stay patched. */
module RawContextCampaign {
  import opened Text
  import opened TargetKeys
  import opened MetadataPatches
  import opened RawContextPass

  // ---------- one row and one run ----------

  ghost predicate HonestPrivacy(w: World, p: Progress) {
    forall repo :: repo in p.privacy ==> p.privacy[repo] == !IsPublic(w, repo)
  }

  /** The report accounts for every scanned row. */
  ghost predicate Balanced(p: Progress) {
    p.report.scanned == p.report.patched + p.report.alreadyPatched + p.report.noMatch + if p.aborted then 1 else 0
  }

  /** `q` is `p` after a row was counted as scanned and its repository asked for. */
  ghost predicate Asked(w: World, p: Progress, q: Progress) {
    && HonestPrivacy(w, q) && p.used <= q.used <= p.used + 5 && q.exhausted == p.exhausted
    && q.store == p.store && q.cursor == p.cursor && q.gaveUp == p.gaveUp
    && q.report == p.report.(scanned := p.report.scanned + 1)
  }

  function Scanned(p: Progress): Progress { p.(report := p.report.(scanned := p.report.scanned + 1)) }

  lemma {:induction false} AskEffect(w: World, net: Network, repo: string, p: Progress)
    requires HonestPrivacy(w, p) && !p.aborted
    ensures var q := AskStep(w, net, repo, Scanned(p)); Asked(w, p, q) && (!q.aborted ==> repo in q.privacy)
  {
  }

  /** What one row does to the run, whatever the network does. */
  ghost predicate RowEnds(w: World, key: string, p: Progress, q: Progress)
    requires key in p.store
  {
    && HonestPrivacy(w, q) && Balanced(q) && p.used <= q.used <= p.used + 10 && q.exhausted == p.exhausted
    && key in q.store && q.store == p.store[key := q.store[key]]
    && (q.store[key] == p.store[key] || q.store[key] == Goal(w, key, p.store[key]))
    && (!q.aborted && w.split(key).Some? ==> q.cursor == Some(key))
    && (w.split(key).None? ==> q.cursor == p.cursor && q.used == p.used && !q.aborted)
    && (q.gaveUp == p.gaveUp || (q.gaveUp == p.gaveUp + {key} && !q.aborted && w.split(key).Some?))
    && (!q.aborted && key !in p.gaveUp ==> Handled(w, key, p, q))
  }

  /** A row ended at its goal, unless the run gave up on its diff and left it as it was. */
  ghost predicate Handled(w: World, key: string, p: Progress, q: Progress)
    requires key in p.store && key in q.store
  {
    q.store[key] == if key in q.gaveUp then p.store[key] else Goal(w, key, p.store[key])
  }

  /** `q` is `p` behind the requests for its repository and its diff, both answered. */
  ghost predicate Fetched(w: World, p: Progress, q: Progress) {
    && HonestPrivacy(w, q) && p.used <= q.used <= p.used + 10 && q.exhausted == p.exhausted && !q.aborted
    && q.store == p.store && q.cursor == p.cursor && q.gaveUp == p.gaveUp
    && q.report == p.report.(scanned := p.report.scanned + 1)
  }

  lemma {:induction false} WriteEffect(w: World, net: Network, key: string, patch: Metadata, p: Progress, q: Progress)
    requires key in p.store && w.split(key).Some? && !p.aborted && Balanced(p) && Fetched(w, p, q)
    requires Goal(w, key, p.store[key]) == Parsed(patch)
    ensures RowEnds(w, key, p, WriteStep(net, key, patch, q))
  {
  }

  lemma {:induction false} AnsweredEffect(w: World, net: Network, key: string, target: Target, diff: string,
          p: Progress, q: Progress)
    requires key in p.store && w.split(key) == Some(target) && IsPublic(w, target.repo) && !p.aborted && Balanced(p)
    requires Fetched(w, p, q) && w.diff(target.repo, target.number) == Some(diff)
    ensures RowEnds(w, key, p, AnsweredStep(w, net, key, diff, q))
  {
    var patch := w.patch(p.store[key], diff);
    if patch.Some? && !net.unreadable(q.used) { WriteEffect(w, net, key, patch.value, p, q); }
  }

  lemma {:induction false} DiffEffect(w: World, net: Network, key: string, target: Target, p: Progress, q: Progress)
    requires key in p.store && w.split(key) == Some(target) && IsPublic(w, target.repo) && !p.aborted && Balanced(p)
    requires Asked(w, p, q) && !q.aborted
    ensures RowEnds(w, key, p, DiffStep(w, net, key, target, q))
  {
    var fetched := FetchFrom(net, q.used, 1);
    var diff := w.diff(target.repo, target.number);
    if fetched.outcome.Answer? && diff.Some? {
      AnsweredEffect(w, net, key, target, diff.value, p, q.(used := fetched.used));
    }
  }

  lemma {:induction false} PrivateEffect(w: World, key: string, target: Target, p: Progress, q: Progress)
    requires key in p.store && w.split(key) == Some(target) && !IsPublic(w, target.repo) && !p.aborted && Balanced(p)
    requires Asked(w, p, q) && !q.aborted
    ensures RowEnds(w, key, p, NoMatch(q).(cursor := Some(key)))
  {
  }

  lemma {:induction false} AbortEffect(w: World, key: string, p: Progress, q: Progress)
    requires key in p.store && w.split(key).Some? && !p.aborted && Balanced(p) && Asked(w, p, q) && q.aborted
    ensures RowEnds(w, key, p, q)
  {
  }

  lemma {:induction false} UnsplitEffect(w: World, key: string, p: Progress)
    requires key in p.store && w.split(key).None? && HonestPrivacy(w, p) && !p.aborted && Balanced(p)
    ensures RowEnds(w, key, p, NoMatch(Scanned(p)))
  {
  }

  lemma {:induction false} RowEffect(w: World, net: Network, key: string, p: Progress)
    requires key in p.store && HonestPrivacy(w, p) && !p.aborted && Balanced(p)
    ensures RowEnds(w, key, p, RowStep(w, net, key, p))
  {
    var target := w.split(key);
    if target.None? {
      UnsplitEffect(w, key, p);
    } else {
      var q := AskStep(w, net, target.value.repo, Scanned(p));
      AskEffect(w, net, target.value.repo, p);
      if q.aborted {
        AbortEffect(w, key, p, q);
      } else if IsPublic(w, target.value.repo) {
        DiffEffect(w, net, key, target.value, p, q);
      } else {
        PrivateEffect(w, key, target.value, p, q);
      }
    }
  }

  /** Row `i` of a run was handled. */
  ghost predicate Done(w: World, keys: seq<string>, p: Progress, q: Progress, i: int)
    requires 0 <= i < |keys| && keys[i] in p.store && keys[i] in q.store
  {
    Handled(w, keys[i], p, q)
  }

  /** How a run ends: `n` is the last row whose key became the cursor, -1 if there was none. */
  ghost predicate RunEnds(w: World, max: nat, keys: seq<string>, p: Progress, q: Progress, n: int) {
    && -1 <= n < |keys|
    && q.store.Keys == p.store.Keys
    && (forall k :: k in keys ==> k in p.store)
    && (forall k :: k in p.store && k !in keys ==> q.store[k] == p.store[k])
    && (forall k :: k in keys ==> q.store[k] == p.store[k] || q.store[k] == Goal(w, k, p.store[k]))
    && (n >= 0 ==> w.split(keys[n]).Some?)
    && (!q.aborted ==> q.cursor == if n < 0 then p.cursor else Some(keys[n]))
    && (!q.aborted ==> forall i :: 0 <= i <= n ==> Done(w, keys, p, q, i))
    && (!q.aborted ==> q.gaveUp <= p.gaveUp + (set i | 0 <= i <= n :: keys[i]))
    && (!q.aborted && !q.exhausted ==> forall i :: 0 <= i < |keys| ==> Done(w, keys, p, q, i))
    && (!q.aborted && q.used > p.used ==> n >= 0)
    && (q.exhausted ==> q.used >= max)
    && q.used <= max + 9
    && Balanced(q)
  }

  /** The last row whose key became the cursor, given that row `m` was it among those behind the first. */
  ghost function LastRow(w: World, keys: seq<string>, r: Progress, m: int): int
    requires keys != []
  {
    if m >= 0 then m + 1 else if w.split(keys[0]).Some? && !r.aborted then 0 else -1
  }

  lemma {:induction false} RunEndsFirst(w: World, max: nat, keys: seq<string>, p: Progress, q: Progress, r: Progress,
          m: int)
    requires keys != [] && DistinctRows(keys) && keys[0] in p.store && RowEnds(w, keys[0], p, q) && p.used < max
    requires RunEnds(w, max, keys[1..], q, r, m) && q.gaveUp <= r.gaveUp
    requires (q.aborted ==> r == q && m == -1) && forall k :: k in keys ==> k !in p.gaveUp
    ensures RunEnds(w, max, keys, p, r, LastRow(w, keys, r, m))
  {
    var n := LastRow(w, keys, r, m);
    var rest := keys[1..];
    assert keys[0] !in rest;
    assert forall k :: k in keys <==> k == keys[0] || k in rest;
    if !r.aborted {
      assert !q.aborted && forall k :: k in keys ==> k in p.store && k in r.store;
      DoneFirst(w, max, keys, p, q, r, m);
      assert q.gaveUp <= p.gaveUp + {keys[0]} && (q.gaveUp != p.gaveUp ==> n >= 0);
      GaveUpStep(keys, n, m, p.gaveUp, q.gaveUp, r.gaveUp);
    }
  }

  lemma {:induction false} DoneFirst(w: World, max: nat, keys: seq<string>, p: Progress, q: Progress, r: Progress,
          m: int)
    requires keys != [] && DistinctRows(keys) && keys[0] in p.store && RowEnds(w, keys[0], p, q) && !q.aborted
    requires RunEnds(w, max, keys[1..], q, r, m) && q.gaveUp <= r.gaveUp && !r.aborted
    requires forall k :: k in keys ==> k !in p.gaveUp && k in p.store && k in r.store
    ensures forall i :: 0 <= i <= m + 1 ==> Done(w, keys, p, r, i)
    ensures !r.exhausted ==> forall i :: 0 <= i < |keys| ==> Done(w, keys, p, r, i)
  {
    var rest := keys[1..];
    assert keys[0] !in rest;
    assert forall i :: 0 < i < |keys| ==> keys[i] == rest[i - 1] && keys[i] in rest;
    assert Done(w, keys, p, r, 0);
    forall i | 0 < i < |keys| && Done(w, rest, q, r, i - 1) ensures Done(w, keys, p, r, i) { }
  }

  lemma {:induction false} GaveUpStep(keys: seq<string>, n: int, m: int, a: set<string>, b: set<string>, c: set<string>)
    requires keys != [] && -1 <= m < |keys| - 1 && -1 <= n < |keys| && n >= m && (m >= 0 ==> n == m + 1)
    requires b == a || (b <= a + {keys[0]} && n >= 0)
    requires c <= b + (set i | 0 <= i <= m :: keys[1..][i])
    ensures c <= a + (set i | 0 <= i <= n :: keys[i])
  {
    forall k | k in c ensures k in a + (set i | 0 <= i <= n :: keys[i]) {
      if k !in b {
        var i :| 0 <= i <= m && keys[1..][i] == k;
        assert keys[i + 1] == k;
      }
    }
  }

  lemma {:induction false} PassEffect(w: World, net: Network, max: nat, keys: seq<string>, p: Progress) returns (n: int)
    requires DistinctRows(keys) && (forall k :: k in keys ==> k in p.store && k !in p.gaveUp)
    requires HonestPrivacy(w, p) && !p.aborted && !p.exhausted && Balanced(p) && p.used <= max + 9
    ensures RunEnds(w, max, keys, p, Pass(w, net, max, keys, p), n)
    ensures p.gaveUp <= Pass(w, net, max, keys, p).gaveUp
  {
    n := -1;
    if keys != [] && p.used < max {
      var q := RowStep(w, net, keys[0], p);
      var r := Pass(w, net, max, keys[1..], q);
      RowEffect(w, net, keys[0], p);
      var m := -1;
      if q.aborted {
        assert RunEnds(w, max, keys[1..], q, q, -1);
      } else {
        m := PassEffect(w, net, max, keys[1..], q);
      }
      RunEndsFirst(w, max, keys, p, q, r, m);
      n := LastRow(w, keys, r, m);
    }
  }

  /** No run, aborted ones included, makes more than nine requests beyond its limit. */
  lemma {:induction false} SpendIsBounded(w: World, net: Network, max: nat, keys: seq<string>, store: Store,
          cursor: Option<string>)
    requires StrictlySorted(keys) && forall k :: k in keys ==> k in store
    ensures RunFrom(w, net, max, keys, store, cursor).used <= max + 9
    ensures Balanced(RunFrom(w, net, max, keys, store, cursor))
  {
    var n := RunEffect(w, net, max, keys, store, cursor);
  }

  lemma {:induction false} RunEffect(w: World, net: Network, max: nat, keys: seq<string>, store: Store,
          cursor: Option<string>)
    returns (n: int)
    requires StrictlySorted(keys) && forall k :: k in keys ==> k in store
    ensures var q := RunFrom(w, net, max, keys, store, cursor);
      RunEnds(w, max, keys[Passed(cursor, keys)..], Start(store, cursor), q, n)
  {
    var rows := keys[Passed(cursor, keys)..];
    forall i, j | 0 <= i < j < |rows| ensures rows[i] != rows[j] { SortedKeysDiffer(rows, i); }
    n := PassEffect(w, net, max, rows, Start(store, cursor));
  }

  lemma {:induction false} RunKeepsRows(w: World, net: Network, max: nat, keys: seq<string>, store: Store,
          cursor: Option<string>)
    requires StrictlySorted(keys) && forall k :: k in keys ==> k in store
    ensures RunFrom(w, net, max, keys, store, cursor).store.Keys == store.Keys
  {
    var n := RunEffect(w, net, max, keys, store, cursor);
  }

  /** A run stopped by its budget has moved the cursor past at least one more row. */
  lemma {:induction false} ExhaustedRunAdvances(w: World, net: Network, max: nat, keys: seq<string>, store: Store,
          cursor: Option<string>)
    requires StrictlySorted(keys) && (forall k :: k in keys ==> k in store) && Settles(w) && max >= 1
    requires var q := RunFrom(w, net, max, keys, store, cursor); q.exhausted && !q.aborted
    ensures var q := RunFrom(w, net, max, keys, store, cursor);
      q.cursor.Some? && After(cursor, q.cursor.value) && Passed(q.cursor, keys) > Passed(cursor, keys)
  {
    var m := Passed(cursor, keys);
    var n := RunEffect(w, net, max, keys, store, cursor);
    assert n >= 0 && keys[m..][n] == keys[m + n];
    PassedAtKey(keys, m + n);
    PassedIsPrefix(cursor, keys);
  }

  // ---------- campaigns ----------

  datatype Run = Run(net: Network, max: nat)

  /** What survives between processes. */
  datatype Saved = Saved(store: Store, cursor: Option<string>)

  function RunOnce(w: World, keys: seq<string>, st: Saved, run: Run): Progress
    requires forall k :: k in keys ==> k in st.store
  {
    RunFrom(w, run.net, run.max, keys, st.store, st.cursor)
  }

  /** Rows that wanted their diff before the run and whose diff request it gave up on; an aborted run will be
      repeated, so loses none. */
  ghost function LostBy(w: World, before: Store, q: Progress): set<string> {
    if q.aborted then {} else set k | k in q.gaveUp && k in before && Goal(w, k, before[k]) != before[k]
  }

  ghost function Campaign(w: World, keys: seq<string>, st: Saved, runs: seq<Run>): (r: Saved)
    requires StrictlySorted(keys) && forall k :: k in keys ==> k in st.store
    ensures r.store.Keys == st.store.Keys
  {
    if runs == [] then st
    else
      var before := Campaign(w, keys, st, runs[..|runs| - 1]);
      var q := RunOnce(w, keys, before, runs[|runs| - 1]);
      RunKeepsRows(w, runs[|runs| - 1].net, runs[|runs| - 1].max, keys, before.store, before.cursor);
      SavedBy(before, q)
  }

  /** Every row that some run of the campaign lost. */
  ghost function Lost(w: World, keys: seq<string>, st: Saved, runs: seq<Run>): set<string>
    requires StrictlySorted(keys) && forall k :: k in keys ==> k in st.store
  {
    if runs == [] then {}
    else
      var before := Campaign(w, keys, st, runs[..|runs| - 1]);
      Lost(w, keys, st, runs[..|runs| - 1]) + LostBy(w, before.store, RunOnce(w, keys, before, runs[|runs| - 1]))
  }

  /** The store a campaign is meant to reach. */
  ghost function GoalStore(w: World, keys: seq<string>, store: Store): Store {
    map k | k in store :: if k in keys then Goal(w, k, store[k]) else store[k]
  }

  /** Every row is either as it was or at its goal. */
  ghost predicate Partial(w: World, keys: seq<string>, store0: Store, store: Store) {
    && store.Keys == store0.Keys
    && (forall k :: k in keys ==> k in store0)
    && (forall k :: k in store0 && k !in keys ==> store[k] == store0[k])
    && (forall k :: k in keys ==> store[k] == store0[k] || store[k] == Goal(w, k, store0[k]))
  }

  /** Rows the cursor has passed are at their goal, except exactly the lost ones. */
  ghost predicate PrefixDone(w: World, keys: seq<string>, store0: Store, st: Saved, lost: set<string>)
    requires Partial(w, keys, store0, st.store)
  {
    && (forall i :: 0 <= i < Passed(st.cursor, keys) ==>
          (keys[i] in lost <==> st.store[keys[i]] != Goal(w, keys[i], store0[keys[i]])))
    && (forall k :: k in lost ==> exists i :: 0 <= i < Passed(st.cursor, keys) && keys[i] == k)
  }

  lemma {:induction false} PartialStep(w: World, max: nat, keys: seq<string>, store0: Store, st: Saved, q: Progress,
          n: int)
    requires Settles(w) && Partial(w, keys, store0, st.store)
    requires RunEnds(w, max, keys[Passed(st.cursor, keys)..], Start(st.store, st.cursor), q, n)
    ensures Partial(w, keys, store0, q.store)
  {
    var m := Passed(st.cursor, keys);
    forall k | k in keys ensures q.store[k] == store0[k] || q.store[k] == Goal(w, k, store0[k]) {
      GoalIsIdempotent(w, k, store0[k]);
      assert k in keys[m..] || q.store[k] == st.store[k];
    }
  }

  /** A row the cursor newly passes is at its goal unless the run lost it: `row0` is what the campaign started
      from, `before` what the run did. */
  lemma {:induction false} NewlyPassed(w: World, key: string, row0: Stored, before: Store, q: Progress)
    requires Settles(w) && !q.aborted && key in q.store && key in before
    requires before[key] == row0 || before[key] == Goal(w, key, row0)
    requires q.store[key] == if key in q.gaveUp then before[key] else Goal(w, key, before[key])
    ensures key in LostBy(w, before, q) <==> q.store[key] != Goal(w, key, row0)
  {
    GoalIsIdempotent(w, key, row0);
  }

  lemma {:induction false} NotLostBefore(w: World, keys: seq<string>, store0: Store, st: Saved, lost: set<string>,
          i: int)
    requires StrictlySorted(keys) && Partial(w, keys, store0, st.store) && PrefixDone(w, keys, store0, st, lost)
    requires Passed(st.cursor, keys) <= i < |keys|
    ensures keys[i] !in lost
  {
    SortedKeysDiffer(keys, i);
  }

  lemma {:induction false} EarlierRowsNotLost(w: World, max: nat, keys: seq<string>, st: Saved, q: Progress, n: int,
          i: int)
    requires StrictlySorted(keys) && 0 <= i < Passed(st.cursor, keys)
    requires RunEnds(w, max, keys[Passed(st.cursor, keys)..], Start(st.store, st.cursor), q, n)
    requires keys[i] in st.store
    ensures keys[i] !in LostBy(w, st.store, q) && q.store[keys[i]] == st.store[keys[i]]
  {
    SortedKeysDiffer(keys, i);
    assert keys[i] !in keys[Passed(st.cursor, keys)..];
  }

  lemma {:induction false} LaterRow(w: World, keys: seq<string>, m: nat, store0: Store, st: Saved, q: Progress, i: int)
    requires Settles(w) && Partial(w, keys, store0, st.store) && Partial(w, keys, store0, q.store)
    requires m <= i < |keys| && keys[i] in keys && !q.aborted
    requires Done(w, keys[m..], Start(st.store, st.cursor), q, i - m)
    ensures keys[i] in LostBy(w, st.store, q) <==> q.store[keys[i]] != Goal(w, keys[i], store0[keys[i]])
  {
    assert keys[m..][i - m] == keys[i];
    NewlyPassed(w, keys[i], store0[keys[i]], st.store, q);
  }

  lemma {:induction false} EarlierRow(w: World, max: nat, keys: seq<string>, store0: Store, st: Saved,
          lost: set<string>, q: Progress, n: int, i: int)
    requires StrictlySorted(keys) && 0 <= i < Passed(st.cursor, keys) && keys[i] in st.store && keys[i] in store0
    requires RunEnds(w, max, keys[Passed(st.cursor, keys)..], Start(st.store, st.cursor), q, n)
    requires keys[i] in lost <==> st.store[keys[i]] != Goal(w, keys[i], store0[keys[i]])
    ensures keys[i] in lost + LostBy(w, st.store, q) <==> q.store[keys[i]] != Goal(w, keys[i], store0[keys[i]])
  {
    EarlierRowsNotLost(w, max, keys, st, q, n, i);
  }

  lemma {:induction false} GaveUpAmongRows(keys: seq<string>, m: nat, n: int, gaveUp: set<string>, k: string)
    requires m <= |keys| && -1 <= n < |keys[m..]| && gaveUp <= (set i | 0 <= i <= n :: keys[m..][i]) && k in gaveUp
    ensures exists i :: 0 <= i <= m + n && i < |keys| && keys[i] == k
  {
    var i :| 0 <= i <= n && keys[m..][i] == k;
    assert keys[m + i] == k;
  }

  lemma {:induction false} LostRowsArePassed(w: World, max: nat, keys: seq<string>, st: Saved, q: Progress, n: int,
          k: string)
    requires RunEnds(w, max, keys[Passed(st.cursor, keys)..], Start(st.store, st.cursor), q, n)
    requires k in LostBy(w, st.store, q)
    ensures exists i :: 0 <= i <= Passed(st.cursor, keys) + n && i < |keys| && keys[i] == k
  {
    GaveUpAmongRows(keys, Passed(st.cursor, keys), n, q.gaveUp, k);
  }

  function SavedBy(st: Saved, q: Progress): Saved {
    Saved(q.store, if q.aborted then st.cursor else q.cursor)
  }

  lemma {:induction false} CursorAfter(w: World, max: nat, keys: seq<string>, st: Saved, q: Progress, n: int)
    requires Settles(w) && StrictlySorted(keys) && !q.aborted
    requires RunEnds(w, max, keys[Passed(st.cursor, keys)..], Start(st.store, st.cursor), q, n)
    ensures Passed(q.cursor, keys) == Passed(st.cursor, keys) + n + 1
  {
    if n >= 0 {
      var m := Passed(st.cursor, keys);
      assert keys[m..][n] == keys[m + n];
      PassedAtKey(keys, m + n);
    }
  }

  /** One more run keeps the invariant. */
  lemma {:induction false} PrefixStep(w: World, max: nat, keys: seq<string>, store0: Store, st: Saved,
          lost: set<string>, q: Progress, n: int)
    requires Settles(w) && StrictlySorted(keys) && Partial(w, keys, store0, st.store)
    requires PrefixDone(w, keys, store0, st, lost)
    requires RunEnds(w, max, keys[Passed(st.cursor, keys)..], Start(st.store, st.cursor), q, n)
    ensures Partial(w, keys, store0, q.store)
    ensures PrefixDone(w, keys, store0, SavedBy(st, q), lost + LostBy(w, st.store, q))
  {
    PartialStep(w, max, keys, store0, st, q, n);
    if !q.aborted { CursorAfter(w, max, keys, st, q, n); }
    var m, m' := Passed(st.cursor, keys), Passed(SavedBy(st, q).cursor, keys);
    forall i | 0 <= i < m'
      ensures keys[i] in lost + LostBy(w, st.store, q) <==> q.store[keys[i]] != Goal(w, keys[i], store0[keys[i]])
    {
      assert i < m || Done(w, keys[m..], Start(st.store, st.cursor), q, i - m);
      if i < m {
        EarlierRow(w, max, keys, store0, st, lost, q, n, i);
      } else {
        NotLostBefore(w, keys, store0, st, lost, i);
        LaterRow(w, keys, m, store0, st, q, i);
      }
    }
    forall k | k in lost + LostBy(w, st.store, q) ensures exists i :: 0 <= i < m' && keys[i] == k {
      if k in LostBy(w, st.store, q) { LostRowsArePassed(w, max, keys, st, q, n, k); }
    }
  }

  /** Rows that the cursor has passed although they want their diff. */
  ghost function LeftBehind(w: World, keys: seq<string>, st: Saved): set<string>
    requires forall k :: k in keys ==> k in st.store
  {
    set i | 0 <= i < Passed(st.cursor, keys) && Goal(w, keys[i], st.store[keys[i]]) != st.store[keys[i]] :: keys[i]
  }

  lemma {:induction false} NothingDoneYet(w: World, keys: seq<string>, st: Saved)
    requires forall k :: k in keys ==> k in st.store
    ensures Partial(w, keys, st.store, st.store) && PrefixDone(w, keys, st.store, st, LeftBehind(w, keys, st))
  {
  }

  /** From any saved state, after any campaign: every row is as it was or at its goal, and a row that the cursor
      has passed is at its goal unless it was left behind at the start or a run lost it. */
  lemma {:induction false} CampaignInvariant(w: World, keys: seq<string>, st0: Saved, runs: seq<Run>)
    requires Settles(w) && StrictlySorted(keys) && forall k :: k in keys ==> k in st0.store
    ensures var st := Campaign(w, keys, st0, runs);
      && Partial(w, keys, st0.store, st.store)
      && PrefixDone(w, keys, st0.store, st, LeftBehind(w, keys, st0) + Lost(w, keys, st0, runs))
  {
    if runs == [] {
      NothingDoneYet(w, keys, st0);
      assert LeftBehind(w, keys, st0) + {} == LeftBehind(w, keys, st0);
    } else {
      var n := |runs| - 1;
      CampaignInvariant(w, keys, st0, runs[..n]);
      var before := Campaign(w, keys, st0, runs[..n]);
      var m := RunEffect(w, runs[n].net, runs[n].max, keys, before.store, before.cursor);
      var q := RunOnce(w, keys, before, runs[n]);
      var lost := LeftBehind(w, keys, st0) + Lost(w, keys, st0, runs[..n]);
      PrefixStep(w, runs[n].max, keys, st0.store, before, lost, q, m);
      assert lost + LostBy(w, before.store, q) == LeftBehind(w, keys, st0) + Lost(w, keys, st0, runs);
    }
  }

  ghost predicate Finished(w: World, keys: seq<string>, st: Saved, runs: seq<Run>, last: Run)
    requires StrictlySorted(keys) && forall k :: k in keys ==> k in st.store
  {
    var q := RunOnce(w, keys, Campaign(w, keys, st, runs), last);
    !q.aborted && !q.exhausted
  }

  /** After a finished run, exactly the lost rows are not at their goal. */
  ghost predicate AllDone(w: World, keys: seq<string>, store0: Store, store: Store, lost: set<string>)
    requires Partial(w, keys, store0, store)
  {
    && (forall i :: 0 <= i < |keys| ==> (keys[i] in lost <==> store[keys[i]] != Goal(w, keys[i], store0[keys[i]])))
    && (forall k :: k in lost ==> k in keys)
  }

  lemma {:induction false} FinishedRun(w: World, max: nat, keys: seq<string>, store0: Store, st: Saved,
          lost: set<string>, q: Progress, n: int)
    requires Settles(w) && StrictlySorted(keys) && Partial(w, keys, store0, st.store)
    requires PrefixDone(w, keys, store0, st, lost)
    requires RunEnds(w, max, keys[Passed(st.cursor, keys)..], Start(st.store, st.cursor), q, n) && !q.aborted
    requires !q.exhausted
    ensures Partial(w, keys, store0, q.store) && AllDone(w, keys, store0, q.store, lost + LostBy(w, st.store, q))
  {
    PrefixStep(w, max, keys, store0, st, lost, q, n);
    var m := Passed(st.cursor, keys);
    forall i | 0 <= i < |keys|
      ensures keys[i] in lost + LostBy(w, st.store, q) <==> q.store[keys[i]] != Goal(w, keys[i], store0[keys[i]])
    {
      assert i < m || Done(w, keys[m..], Start(st.store, st.cursor), q, i - m);
      if i < m {
        EarlierRow(w, max, keys, store0, st, lost, q, n, i);
      } else {
        NotLostBefore(w, keys, store0, st, lost, i);
        LaterRow(w, keys, m, store0, st, q, i);
      }
    }
  }

  lemma {:induction false} GoalStoreIff(w: World, keys: seq<string>, store0: Store, store: Store, lost: set<string>)
    requires Partial(w, keys, store0, store) && AllDone(w, keys, store0, store, lost)
    ensures store == GoalStore(w, keys, store0) <==> lost == {}
  {
    var goal := GoalStore(w, keys, store0);
    forall k | k in store0 && k !in lost ensures store[k] == goal[k] {
      if k in keys {
        var i :| 0 <= i < |keys| && keys[i] == k;
      }
    }
    if k :| k in lost {
      var i :| 0 <= i < |keys| && keys[i] == k;
      assert store[k] != goal[k];
    }
  }

  /** From any saved state, a campaign that ends with a finished run leaves exactly those rows short of their goal
      that were left behind at the start or that a run lost. */
  lemma {:induction false} FinishedCampaign(w: World, keys: seq<string>, st0: Saved, runs: seq<Run>, last: Run)
    requires Settles(w) && StrictlySorted(keys) && forall k :: k in keys ==> k in st0.store
    requires Finished(w, keys, st0, runs, last)
    ensures var end, lost := Campaign(w, keys, st0, runs + [last]).store, Lost(w, keys, st0, runs + [last]);
      && Partial(w, keys, st0.store, end)
      && AllDone(w, keys, st0.store, end, LeftBehind(w, keys, st0) + lost)
  {
    var all := runs + [last];
    assert all[..|all| - 1] == runs;
    CampaignInvariant(w, keys, st0, runs);
    var before := Campaign(w, keys, st0, runs);
    var n := RunEffect(w, last.net, last.max, keys, before.store, before.cursor);
    var q, lost := RunOnce(w, keys, before, last), LeftBehind(w, keys, st0) + Lost(w, keys, st0, runs);
    FinishedRun(w, last.max, keys, st0.store, before, lost, q, n);
    assert lost + LostBy(w, before.store, q) == LeftBehind(w, keys, st0) + Lost(w, keys, st0, all);
  }

  /** From any saved state: a row gets its diff exactly when no run loses it and the cursor had not passed it,
      unless it needed none. */
  lemma {:induction false} RowReachesGoalIff(w: World, keys: seq<string>, st0: Saved, runs: seq<Run>, last: Run, i: nat)
    requires Settles(w) && StrictlySorted(keys) && forall k :: k in keys ==> k in st0.store
    requires Finished(w, keys, st0, runs, last) && i < |keys|
    ensures var row, end := st0.store[keys[i]], Campaign(w, keys, st0, runs + [last]).store;
      keys[i] in end && (end[keys[i]] == Goal(w, keys[i], row) <==>
        && keys[i] !in Lost(w, keys, st0, runs + [last])
        && (Passed(st0.cursor, keys) <= i || Goal(w, keys[i], row) == row))
  {
    FinishedCampaign(w, keys, st0, runs, last);
    assert keys[i] in keys;
    SortedKeysDiffer(keys, i);
  }

  /** A row whose repository did not answer `private: false` is never changed, by any campaign. */
  lemma {:induction false} PrivateRowsStay(w: World, keys: seq<string>, st: Saved, runs: seq<Run>, i: nat)
    requires Settles(w) && StrictlySorted(keys) && (forall k :: k in keys ==> k in st.store) && i < |keys|
    requires w.split(keys[i]).Some? ==> w.repo(w.split(keys[i]).value.repo) != Repo(Some(false))
    ensures keys[i] in Campaign(w, keys, st, runs).store
    ensures Campaign(w, keys, st, runs).store[keys[i]] == st.store[keys[i]]
  {
    assert keys[i] in keys;
    CampaignInvariant(w, keys, st, runs);
    GoalOnAnswers(w, keys[i], st.store[keys[i]]);
  }

  /** Any mix of limited and aborted runs, ended by one that finishes, reaches the goal store exactly when no
      run lost a row to a transient error. */
  lemma {:induction false} CampaignReachesGoal(w: World, keys: seq<string>, store0: Store, runs: seq<Run>, last: Run)
    requires Settles(w) && StrictlySorted(keys) && forall k :: k in keys ==> k in store0
    requires Finished(w, keys, Saved(store0, None), runs, last)
    ensures Campaign(w, keys, Saved(store0, None), runs + [last]).store == GoalStore(w, keys, store0)
       <==> Lost(w, keys, Saved(store0, None), runs + [last]) == {}
  {
    var st0 := Saved(store0, None);
    var end, lost := Campaign(w, keys, st0, runs + [last]).store, Lost(w, keys, st0, runs + [last]);
    FinishedCampaign(w, keys, st0, runs, last);
    PassedIsPrefix(None, keys);
    assert Passed(None, keys) == 0;
    assert LeftBehind(w, keys, st0) + lost == lost;
    GoalStoreIff(w, keys, store0, end, lost);
  }

  /** Resumed equals uninterrupted: the campaign leaves the store of one unlimited run over a fault-free
      network exactly when no run lost a row. */
  lemma {:induction false} ResumedEqualsUninterrupted(w: World, keys: seq<string>, store0: Store, runs: seq<Run>,
          last: Run, whole: Run)
    requires Settles(w) && StrictlySorted(keys) && forall k :: k in keys ==> k in store0
    requires Finished(w, keys, Saved(store0, None), runs, last)
    requires Finished(w, keys, Saved(store0, None), [], whole) && NeverGivesUp(whole.net)
    ensures Campaign(w, keys, Saved(store0, None), runs + [last]).store
         == Campaign(w, keys, Saved(store0, None), [whole]).store
       <==> Lost(w, keys, Saved(store0, None), runs + [last]) == {}
  {
    CampaignReachesGoal(w, keys, store0, runs, last);
    CampaignReachesGoal(w, keys, store0, [], whole);
    assert [] + [whole] == [whole];
    SteadyNetworksLoseNothing(w, keys, Saved(store0, None), [whole]);
  }

  /** Of any five attempts in a row that GitHub does not serve, the last one is dropped, and not refused with a
      403, 429 or 5xx. */
  ghost predicate NeverGivesUp(net: Network) {
    forall used: nat :: FiveUnserved(net, used) ==> net.attempt(used + 4).Dropped?
  }

  ghost predicate FiveUnserved(net: Network, used: nat) {
    forall i :: used <= i < used + 5 ==> !net.attempt(i).Served?
  }

  lemma {:induction false} NeverGivesUpOn(net: Network, used: nat)
    requires NeverGivesUp(net)
    ensures !FetchFrom(net, used, 1).outcome.GaveUp?
  {
    FetchStopsAtFirstServed(net, used);
    var r := FetchFrom(net, used, 1);
    if r.used == used + 5 && !net.attempt(used + 4).Served? {
      assert FiveUnserved(net, used);
      assert net.attempt(used + 4).Dropped?;
    }
  }

  lemma {:induction false} SteadyPass(w: World, net: Network, max: nat, keys: seq<string>, p: Progress)
    requires NeverGivesUp(net) && forall k :: k in keys ==> k in p.store
    ensures Pass(w, net, max, keys, p).gaveUp == p.gaveUp
  {
    if keys != [] && !p.aborted && p.used < max {
      assert RowStep(w, net, keys[0], p).gaveUp == p.gaveUp by {
        if w.split(keys[0]).Some? {
          var q := AskStep(w, net, w.split(keys[0]).value.repo, Scanned(p));
          NeverGivesUpOn(net, q.used);
        }
      }
      SteadyPass(w, net, max, keys[1..], RowStep(w, net, keys[0], p));
    }
  }

  /** On networks that never give up nothing is lost, however the runs are limited or aborted. */
  lemma {:induction false} SteadyNetworksLoseNothing(w: World, keys: seq<string>, st: Saved, runs: seq<Run>)
    requires StrictlySorted(keys) && forall k :: k in keys ==> k in st.store
    requires forall i :: 0 <= i < |runs| ==> NeverGivesUp(runs[i].net)
    ensures Lost(w, keys, st, runs) == {}
  {
    if runs != [] {
      var n := |runs| - 1;
      SteadyNetworksLoseNothing(w, keys, st, runs[..n]);
      var before := Campaign(w, keys, st, runs[..n]);
      SteadyPass(w, runs[n].net, runs[n].max, keys[Passed(before.cursor, keys)..], Start(before.store, before.cursor));
    }
  }

  /** Every run of the campaign was stopped by its own budget. */
  ghost predicate AllExhausted(w: World, keys: seq<string>, st: Saved, runs: seq<Run>)
    requires StrictlySorted(keys) && forall k :: k in keys ==> k in st.store
  {
    runs == [] ||
    var n := |runs| - 1;
    AllExhausted(w, keys, st, runs[..n]) && runs[n].max >= 1
    && StoppedByBudget(RunOnce(w, keys, Campaign(w, keys, st, runs[..n]), runs[n]))
  }

  ghost predicate StoppedByBudget(q: Progress) { q.exhausted && !q.aborted }

  /** Every exhausted run passes at least one more row, so with positive budgets there are no more of them in
      a row than there are rows. */
  lemma {:induction false} ExhaustedRunsAreFew(w: World, keys: seq<string>, st: Saved, runs: seq<Run>)
    requires StrictlySorted(keys) && (forall k :: k in keys ==> k in st.store) && Settles(w)
    requires AllExhausted(w, keys, st, runs)
    ensures |runs| <= Passed(Campaign(w, keys, st, runs).cursor, keys) <= |keys|
  {
    if runs != [] {
      var n := |runs| - 1;
      ExhaustedRunsAreFew(w, keys, st, runs[..n]);
      var before := Campaign(w, keys, st, runs[..n]);
      ExhaustedRunAdvances(w, runs[n].net, runs[n].max, keys, before.store, before.cursor);
    }
  }

  lemma {:induction false} RunKeepsPassedRow(w: World, keys: seq<string>, st: Saved, run: Run, i: nat)
    requires Settles(w) && StrictlySorted(keys) && (forall k :: k in keys ==> k in st.store)
    requires i < Passed(st.cursor, keys)
    ensures var q := RunOnce(w, keys, st, run);
      keys[i] in q.store && q.store[keys[i]] == st.store[keys[i]] && i < Passed(SavedBy(st, q).cursor, keys)
  {
    var n := RunEffect(w, run.net, run.max, keys, st.store, st.cursor);
    var q := RunOnce(w, keys, st, run);
    assert keys[i] in keys;
    EarlierRowsNotLost(w, run.max, keys, st, q, n, i);
    if !q.aborted { CursorAfter(w, run.max, keys, st, q, n); }
  }

  /** No campaign touches a row that the cursor has passed, whatever that row holds. */
  lemma {:induction false} PassedRowsStay(w: World, keys: seq<string>, st: Saved, runs: seq<Run>, i: nat)
    requires Settles(w) && StrictlySorted(keys) && (forall k :: k in keys ==> k in st.store)
    requires i < Passed(st.cursor, keys)
    ensures var end := Campaign(w, keys, st, runs);
      keys[i] in end.store && end.store[keys[i]] == st.store[keys[i]] && i < Passed(end.cursor, keys)
  {
    assert keys[i] in keys;
    if runs != [] {
      var n := |runs| - 1;
      PassedRowsStay(w, keys, st, runs[..n], i);
      RunKeepsPassedRow(w, keys, Campaign(w, keys, st, runs[..n]), runs[n], i);
    }
  }

  // ---------- the world of the script ----------

  const D1_DIFF_CAP: nat := 45000
  const TRUNCATION_MARKER := "\n[diff truncated: D1 CLI statement-length limit]"

  /** The D1 driver inlines SQL, so it caps the diff; the Postgres driver binds it whole. */
  function BoundDiff(pg: bool, diff: string): string {
    if pg || |diff| <= D1_DIFF_CAP then diff else diff[..D1_DIFF_CAP] + TRUNCATION_MARKER
  }

  function ScriptWorld(toNumber: Numeral, repo: string -> RepoAnswer, diff: (string, real) -> Option<string>, pg: bool,
          diffLimit: nat): World
  {
    World(key => SplitTargetKey(toNumber, key), repo, diff,
          (row, text) => PatchFiredMetadataWithDiff(diffLimit, row, BoundDiff(pg, text)))
  }

  /** The script's own key splitter and patcher are as the campaign theorems require. */
  lemma {:induction false} ScriptWorldSettles(toNumber: Numeral, repo: string -> RepoAnswer,
          diff: (string, real) -> Option<string>, pg: bool, diffLimit: nat)
    ensures Settles(ScriptWorld(toNumber, repo, diff, pg, diffLimit))
  {
    var w := ScriptWorld(toNumber, repo, diff, pg, diffLimit);
    forall row, text | w.patch(row, text).Some? ensures w.patch(Parsed(w.patch(row, text).value), text).None? {
      KeysDiffer();
    }
    forall key | w.split(key).Some? ensures key != "" { }
  }

  /** What the script writes into a parsed row of a public repository: the diff as the driver caps it, cut at the
      limit, unless the row holds a diff or there is nothing to write. */
  lemma {:induction false} ScriptGoalShows(toNumber: Numeral, repo: string -> RepoAnswer,
          diff: (string, real) -> Option<string>, pg: bool, diffLimit: nat, key: string, row: Metadata, t: Target,
          d: string)
    requires SplitTargetKey(toNumber, key) == Some(t) && repo(t.repo) == Repo(Some(false))
    requires diff(t.repo, t.number) == Some(d)
    ensures var goal := Goal(ScriptWorld(toNumber, repo, diff, pg, diffLimit), key, Parsed(row));
      var sent := if pg || |d| <= 45000 then d
                  else d[..45000] + "\n[diff truncated: D1 CLI statement-length limit]";
      if DiffIsDue(row, diffLimit, sent) then
        goal == Parsed(row["diff" := Text(if |sent| <= diffLimit then sent else sent[..diffLimit])]
                          ["rawContextProvenance" := Text("github_raw_context_refetch")])
      else goal == Parsed(row)
  {
    DiffPatchShows(row, diffLimit, BoundDiff(pg, d));
  }

  /** One served request, then a server that is down. */
  function DownAfterOne(): Network {
    Network(used => if used == 0 then Served else ServerError, _ => false, _ => Landed)
  }

  lemma {:induction false} DownFetches()
    ensures FetchFrom(DownAfterOne(), 0, 1) == FetchResult(Answer, 1)
    ensures FetchFrom(DownAfterOne(), 1, 1) == FetchResult(GaveUp, 6)
  {
    var net := DownAfterOne();
    assert FetchFrom(net, 5, 5) == FetchResult(GaveUp, 6);
    assert FetchFrom(net, 3, 3) == FetchFrom(net, 5, 5);
  }

  /** The first row of a public repository, with the server going down before its diff. */
  lemma {:induction false} DownRow(w: World, key: string, store: Store)
    requires key in store && w.split(key).Some? && IsPublic(w, w.split(key).value.repo)
    ensures var q := RowStep(w, DownAfterOne(), key, Start(store, None));
      q.store == store && !q.aborted && !q.exhausted && q.cursor == Some(key)
  {
    DownFetches();
  }

  /** A campaign of that one run. */
  lemma {:induction false} DownCampaign(w: World, key: string, store: Store, run: Run)
    requires key in store && w.split(key).Some? && IsPublic(w, w.split(key).value.repo)
    requires run == Run(DownAfterOne(), 300)
    ensures StrictlySorted([key]) && Finished(w, [key], Saved(store, None), [], run)
    ensures Campaign(w, [key], Saved(store, None), [run]).store == store
  {
    var p, st, keys := Start(store, None), Saved(store, None), [key];
    var q := RowStep(w, run.net, key, p);
    DownRow(w, key, store);
    PassedIsPrefix(None, keys);
    assert Passed(None, keys) == 0 && keys[0..] == keys && keys[1..] == [];
    assert Pass(w, run.net, 300, keys, p) == q;
    assert [run][..0] == [];
    assert Campaign(w, keys, st, []) == st;
  }

  /** It loses every row that wanted its diff: the run finishes, the cursor moves on, and the row stays behind. */
  lemma {:induction false} DownLosesRow(w: World, key: string, store: Store, run: Run)
    requires key in store && w.split(key).Some? && IsPublic(w, w.split(key).value.repo)
    requires run == Run(DownAfterOne(), 300)
    requires Goal(w, key, store[key]) != store[key]
    ensures StrictlySorted([key]) && Finished(w, [key], Saved(store, None), [], run)
    ensures Campaign(w, [key], Saved(store, None), [run]).store != GoalStore(w, [key], store)
  {
    DownCampaign(w, key, store, run);
    assert GoalStore(w, [key], store)[key] == Goal(w, key, store[key]);
  }

  function One(): Numeral { (digits: string) => Some(1.0) }

  function SmallWorld(): World { ScriptWorld(One(), _ => Repo(Some(false)), (_, _) => Some("d"), true, 120000) }

  lemma {:induction false} SmallWorldSettles()
    ensures Settles(SmallWorld())
  {
    ScriptWorldSettles(One(), _ => Repo(Some(false)), (_, _) => Some("d"), true, 120000);
  }

  function SmallKey(): string { "r" + "#" + "1" }

  lemma {:induction false} SmallSplit()
    ensures SmallWorld().split(SmallKey()) == Some(Target("r", 1.0))
  {
    SplitUndoesKey(One(), "r", "1");
  }

  lemma {:induction false} SmallGoal()
    ensures Goal(SmallWorld(), SmallKey(), Parsed(map[])) != Parsed(map[])
  {
    SmallSplit();
    assert BoundDiff(true, "d") == "d" && Prefix("d", 120000) == "d";
    assert "diff" in Goal(SmallWorld(), SmallKey(), Parsed(map[])).fields;
  }

  /** A transient error that outlasts five attempts does lose a row, in the script's own world. */
  lemma {:induction false} TransientErrorLosesRow() returns (w: World, key: string, store: Store, run: Run)
    ensures Settles(w) && key in store && StrictlySorted([key])
    ensures Finished(w, [key], Saved(store, None), [], run)
    ensures Campaign(w, [key], Saved(store, None), [run]).store != GoalStore(w, [key], store)
  {
    w := SmallWorld();
    SmallWorldSettles();
    key, store, run := SmallKey(), map[SmallKey() := Parsed(map[])], Run(DownAfterOne(), 300);
    SmallSplit();
    SmallGoal();
    DownLosesRow(w, key, store, run);
  }
}
