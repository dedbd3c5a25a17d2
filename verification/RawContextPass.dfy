/** The resumable, budgeted raw-context pass (scripts/backfill-calibration-corpus-phase2.ts), in apply mode.
    GitHub is a deterministic function of the path; the network in front of it is arbitrary. */
module RawContextPass {
  import opened Text
  import opened TargetKeys
  import opened MetadataPatches
  import opened Sequences

  // ---------- GitHub behind a network ----------

  /** What one HTTP attempt meets: a thrown fetch, a 403/429, a 5xx, or GitHub's own answer. */
  datatype Attempt = Dropped | Throttled | ServerError | Served

  /** What a metadata update does: it lands, or it throws before or after the row was written. */
  datatype Write = Landed | Failed | FailedLate

  /** The outside of one run: what each attempt meets, which response bodies cannot be read, and what the
      update of each row does. Attempts and responses are numbered by the requests spent. */
  datatype Network = Network(attempt: nat -> Attempt, unreadable: nat -> bool, write: string -> Write)

  /** How `githubFetch` ends: GitHub's answer, the last 403/429/5xx response, or an exception. */
  datatype Fetched = Answer | GaveUp | Threw

  datatype RepoAnswer = Repo(isPrivate: Option<bool>) | RepoGone | RepoRefused

  /** What a run depends on besides the network: how keys split, what GitHub answers for a repository and
      for a diff (None is a non-ok status), and the patcher, given the stored metadata and the diff. */
  datatype World = World(split: string -> Option<Target>, repo: string -> RepoAnswer,
    diff: (string, real) -> Option<string>, patch: (Stored, string) -> Option<Metadata>)

  const MAX_ATTEMPTS := 5

  datatype FetchResult = FetchResult(outcome: Fetched, used: nat)

  function FetchFrom(net: Network, used: nat, attempt: nat): (r: FetchResult)
    requires 1 <= attempt <= MAX_ATTEMPTS
    ensures used + 1 <= r.used <= used + MAX_ATTEMPTS + 1 - attempt
    decreases MAX_ATTEMPTS - attempt
  {
    if net.attempt(used).Served? then FetchResult(Answer, used + 1)
    else if attempt < MAX_ATTEMPTS then FetchFrom(net, used + 1, attempt + 1)
    else FetchResult(if net.attempt(used).Dropped? then Threw else GaveUp, used + 1)
  }

  /** What a fetch does, on the attempts alone: it stops at the first that is served, or after the fifth, and ends
      as that last attempt does. */
  lemma {:induction false} FetchStopsAtFirstServed(net: Network, used: nat)
    ensures var r := FetchFrom(net, used, 1);
      && used < r.used <= used + 5
      && (forall i :: used <= i < r.used - 1 ==> !net.attempt(i).Served?)
      && (r.used == used + 5 || net.attempt(r.used - 1).Served?)
      && r.outcome == match net.attempt(r.used - 1)
         case Served => Answer
         case Dropped => Threw
         case _ => GaveUp
  {
    FetchStopsFrom(net, used, 1);
  }

  lemma {:induction false} FetchStopsFrom(net: Network, used: nat, attempt: nat)
    requires 1 <= attempt <= 5
    ensures var r := FetchFrom(net, used, attempt);
      && used < r.used <= used + 6 - attempt
      && (forall i :: used <= i < r.used - 1 ==> !net.attempt(i).Served?)
      && (r.used == used + 6 - attempt || net.attempt(r.used - 1).Served?)
      && r.outcome == match net.attempt(r.used - 1)
         case Served => Answer
         case Dropped => Threw
         case _ => GaveUp
    decreases 5 - attempt
  {
    if !net.attempt(used).Served? && attempt < 5 { FetchStopsFrom(net, used + 1, attempt + 1); }
  }

  class RequestBudget {
    var used: nat
    const max: nat

    constructor (max: nat)
      ensures used == 0 && this.max == max
    {
      this.max := max;
      used := 0;
    }

    predicate Exhausted()
      reads this
    {
      used >= max
    }

    method Spend()
      modifies this
      ensures used == old(used) + 1
    {
      used := used + 1;
    }
  }

  method GithubFetch(budget: RequestBudget, net: Network) returns (outcome: Fetched)
    modifies budget
    ensures FetchResult(outcome, budget.used) == FetchFrom(net, old(budget.used), 1)
  {
    var attempt := 1;
    while attempt <= MAX_ATTEMPTS
      invariant 1 <= attempt <= MAX_ATTEMPTS
      invariant FetchFrom(net, budget.used, attempt) == FetchFrom(net, old(budget.used), 1)
      decreases MAX_ATTEMPTS - attempt
    {
      var met := net.attempt(budget.used);
      budget.Spend();
      match met {
        case Served => return Answer;
        case Dropped => if attempt == MAX_ATTEMPTS { return Threw; }
        case Throttled => if attempt == MAX_ATTEMPTS { return GaveUp; }
        case ServerError => if attempt == MAX_ATTEMPTS { return GaveUp; }
      }
      attempt := attempt + 1;
    }
  }

  // ---------- one row ----------

  predicate IsPublic(w: World, repo: string) {
    w.repo(repo) == Repo(Some(false))
  }

  /** What the pass is for: the metadata a row should end with. */
  function Goal(w: World, key: string, row: Stored): Stored {
    var target := w.split(key);
    if target.None? || !IsPublic(w, target.value.repo) then row
    else
      var diff := w.diff(target.value.repo, target.value.number);
      if diff.None? then row else Apply(row, w.patch(row, diff.value))
  }

  /** A patched row is never patched again, and the empty string is not a target key. */
  ghost predicate Settles(w: World) {
    && (forall row, diff :: w.patch(row, diff).Some? ==> w.patch(Parsed(w.patch(row, diff).value), diff).None?)
    && (forall key :: w.split(key).Some? ==> key != "")
  }

  lemma {:induction false} GoalIsIdempotent(w: World, key: string, row: Stored)
    requires Settles(w)
    ensures Goal(w, key, Goal(w, key, row)) == Goal(w, key, row)
  {
  }

  /** The goal on the answers alone: a row of a repository that did not answer `private: false`, or whose diff is
      not to be had, stays as it is; any other is patched with its diff, unless the patcher declines. */
  lemma {:induction false} GoalOnAnswers(w: World, key: string, row: Stored)
    ensures w.split(key).None? ==> Goal(w, key, row) == row
    ensures w.split(key).Some? && w.repo(w.split(key).value.repo) != Repo(Some(false)) ==> Goal(w, key, row) == row
    ensures w.split(key).Some? && w.repo(w.split(key).value.repo) == Repo(Some(false)) ==>
      var target := w.split(key).value;
      match w.diff(target.repo, target.number)
      case None => Goal(w, key, row) == row
      case Some(diff) => Goal(w, key, row) == match w.patch(row, diff) case None => row case Some(m) => Parsed(m)
  {
  }

  type Store = map<string, Stored>
  datatype Report = Report(scanned: nat, patched: nat, alreadyPatched: nat, noMatch: nat)

  /** Everything the loop updates. `gaveUp` names the rows whose diff request ended in a transient error,
      which the code counts as "no match" and moves past. */
  datatype Progress = Progress(store: Store, cursor: Option<string>, privacy: map<string, bool>, used: nat,
    report: Report, gaveUp: set<string>, aborted: bool, exhausted: bool)

  function NoMatch(p: Progress): Progress {
    p.(report := p.report.(noMatch := p.report.noMatch + 1))
  }

  function Abort(p: Progress, used: nat): Progress {
    p.(aborted := true, used := used)
  }

  /** Only the row's own metadata changes, and only the budget check exhausts a run. */
  ghost predicate OnlyAt(key: string, p: Progress, q: Progress) {
    && q.store.Keys == p.store.Keys && q.exhausted == p.exhausted
    && forall k :: k in p.store && k != key ==> q.store[k] == p.store[k]
  }

  /** The patch of a row is written, unless the update throws. */
  function WriteStep(net: Network, key: string, patch: Metadata, q: Progress): (r: Progress)
    requires key in q.store
    ensures OnlyAt(key, q, r)
  {
    var written := q.(store := q.store[key := Parsed(patch)]);
    match net.write(key)
    case Landed => written.(cursor := Some(key), report := q.report.(patched := q.report.patched + 1))
    case Failed => Abort(q, q.used)
    case FailedLate => Abort(written, q.used)
  }

  /** What an answered diff request leads to: its body is read, and the row patched unless it already is. */
  function AnsweredStep(w: World, net: Network, key: string, diff: string, q: Progress): (r: Progress)
    requires key in q.store
    ensures OnlyAt(key, q, r)
  {
    if net.unreadable(q.used) then Abort(q, q.used)
    else
      var patch := w.patch(q.store[key], diff);
      if patch.Some? then WriteStep(net, key, patch.value, q)
      else q.(cursor := Some(key), report := q.report.(alreadyPatched := q.report.alreadyPatched + 1))
  }

  /** The diff half of a row, for a public repository. */
  function DiffStep(w: World, net: Network, key: string, target: Target, p: Progress): (r: Progress)
    requires key in p.store
    ensures OnlyAt(key, p, r)
  {
    var fetched := FetchFrom(net, p.used, 1);
    var q := p.(used := fetched.used);
    var diff := w.diff(target.repo, target.number);
    match fetched.outcome
    case Threw => Abort(q, q.used)
    case GaveUp => NoMatch(q).(cursor := Some(key), gaveUp := q.gaveUp + {key})
    case Answer => if diff.None? then NoMatch(q).(cursor := Some(key)) else AnsweredStep(w, net, key, diff.value, q)
  }

  /** A repository that is gone is known by its status alone; any other answer has to be read. */
  predicate Readable(w: World, net: Network, repo: string, used: nat) {
    w.repo(repo).RepoGone? || (w.repo(repo).Repo? && !net.unreadable(used))
  }

  /** The repository's privacy, asked once per run. */
  function AskStep(w: World, net: Network, repo: string, p: Progress): (r: Progress)
    ensures r.store == p.store && r.exhausted == p.exhausted
  {
    if repo in p.privacy then p
    else
      var asked := FetchFrom(net, p.used, 1);
      if !asked.outcome.Answer? || !Readable(w, net, repo, asked.used) then Abort(p, asked.used)
      else p.(privacy := p.privacy[repo := !IsPublic(w, repo)], used := asked.used)
  }

  function AskedStep(w: World, net: Network, key: string, target: Target, q: Progress): (r: Progress)
    requires key in q.store && (!q.aborted ==> target.repo in q.privacy)
    ensures OnlyAt(key, q, r)
  {
    if q.aborted then q
    else if q.privacy[target.repo] then NoMatch(q).(cursor := Some(key))
    else DiffStep(w, net, key, target, q)
  }

  function RowStep(w: World, net: Network, key: string, p0: Progress): (r: Progress)
    requires key in p0.store && !p0.aborted
    ensures OnlyAt(key, p0, r)
  {
    var p := p0.(report := p0.report.(scanned := p0.report.scanned + 1));
    var target := w.split(key);
    if target.None? then NoMatch(p) else AskedStep(w, net, key, target.value, AskStep(w, net, target.value.repo, p))
  }

  // ---------- what decides a row ----------

  /** The repository has to be asked, and the request fails or the answer cannot be used. */
  ghost predicate AskFails(w: World, net: Network, repo: string, p: Progress) {
    && repo !in p.privacy
    && var asked := FetchFrom(net, p.used, 1);
       asked.outcome != Answer || w.repo(repo) == RepoRefused || (w.repo(repo).Repo? && net.unreadable(asked.used))
  }

  /** The requests spent when the diff is due. */
  ghost function UsedAsking(net: Network, repo: string, p: Progress): nat {
    if repo in p.privacy then p.used else FetchFrom(net, p.used, 1).used
  }

  ghost predicate KnownPrivate(w: World, repo: string, p: Progress) {
    if repo in p.privacy then p.privacy[repo] else w.repo(repo) != Repo(Some(false))
  }

  /** A row without a target counts as no match and leaves the cursor where it is. A repository that cannot be asked
      ends the run; a private one counts as no match. */
  lemma {:induction false} RowWithoutDiff(w: World, net: Network, key: string, p: Progress)
    requires key in p.store && !p.aborted
    ensures var q, r := RowStep(w, net, key, p), p.report;
      match w.split(key)
      case None => q == p.(report := r.(scanned := r.scanned + 1, noMatch := r.noMatch + 1))
      case Some(t) =>
        && (AskFails(w, net, t.repo, p) ==>
              q == p.(report := r.(scanned := r.scanned + 1), used := UsedAsking(net, t.repo, p), aborted := true))
        && (!AskFails(w, net, t.repo, p) && KnownPrivate(w, t.repo, p) ==>
              && q.report == r.(scanned := r.scanned + 1, noMatch := r.noMatch + 1) && q.cursor == Some(key)
              && q.store == p.store && q.used == UsedAsking(net, t.repo, p) && !q.aborted && q.gaveUp == p.gaveUp)
  {
  }

  /** The diff of a public repository, whose request ended in `f`: what ends the run, what is counted as what, and
      what is written. */
  ghost predicate DiffDecides(w: World, net: Network, key: string, t: Target, f: FetchResult, p: Progress, q: Progress)
    requires key in p.store
  {
    var diff := w.diff(t.repo, t.number);
    var arrives := f.outcome == Answer && diff.Some? && !net.unreadable(f.used);
    var patch := if diff.Some? then w.patch(p.store[key], diff.value) else None;
    var ends := f.outcome == Threw || (f.outcome == Answer && diff.Some? && net.unreadable(f.used))
      || (arrives && patch.Some? && net.write(key) != Landed);
    && q.used == f.used && q.aborted == ends && q.cursor == (if ends then p.cursor else Some(key))
    && (q.store == if arrives && patch.Some? && net.write(key) != Failed
                   then p.store[key := Parsed(patch.value)] else p.store)
    && q.gaveUp == (if f.outcome == GaveUp then p.gaveUp + {key} else p.gaveUp)
    && q.report.scanned == p.report.scanned
    && q.report.patched == p.report.patched + (if arrives && patch.Some? && net.write(key) == Landed then 1 else 0)
    && q.report.alreadyPatched == p.report.alreadyPatched + (if arrives && patch.None? then 1 else 0)
    && q.report.noMatch
       == p.report.noMatch + (if f.outcome == GaveUp || (f.outcome == Answer && diff.None?) then 1 else 0)
  }

  lemma {:induction false} DiffIsDecided(w: World, net: Network, key: string, t: Target, p: Progress)
    requires key in p.store && !p.aborted
    ensures DiffDecides(w, net, key, t, FetchFrom(net, p.used, 1), p, DiffStep(w, net, key, t, p))
  {
    var f := FetchFrom(net, p.used, 1);
    if f.outcome == Answer && w.diff(t.repo, t.number).Some? {
      AnswerIsDecided(w, net, key, t, f, p);
    }
  }

  lemma {:induction false} AnswerIsDecided(w: World, net: Network, key: string, t: Target, f: FetchResult, p: Progress)
    requires key in p.store && !p.aborted && f.outcome == Answer && w.diff(t.repo, t.number).Some?
    ensures var q := p.(used := f.used);
      DiffDecides(w, net, key, t, f, p, AnsweredStep(w, net, key, w.diff(t.repo, t.number).value, q))
  {
  }

  /** A row of a public repository counts as scanned, and the request for its diff decides the rest. */
  lemma {:induction false} RowWithDiff(w: World, net: Network, key: string, p: Progress)
    requires key in p.store && !p.aborted && w.split(key).Some?
    requires !AskFails(w, net, w.split(key).value.repo, p) && !KnownPrivate(w, w.split(key).value.repo, p)
    ensures var t := w.split(key).value;
      DiffDecides(w, net, key, t, FetchFrom(net, UsedAsking(net, t.repo, p), 1),
                  p.(report := p.report.(scanned := p.report.scanned + 1)), RowStep(w, net, key, p))
  {
    var t, counted := w.split(key).value, p.(report := p.report.(scanned := p.report.scanned + 1));
    var asked := AskStep(w, net, t.repo, counted);
    assert asked == counted.(privacy := asked.privacy, used := UsedAsking(net, t.repo, p)) && !asked.aborted;
    DiffIsDecided(w, net, key, t, asked);
  }

  function Pass(w: World, net: Network, max: nat, keys: seq<string>, p: Progress): Progress
    requires forall k :: k in keys ==> k in p.store
    decreases |keys|
  {
    if keys == [] || p.aborted then p
    else if p.used >= max then p.(exhausted := true)
    else Pass(w, net, max, keys[1..], RowStep(w, net, keys[0], p))
  }

  // ---------- the loop ----------

  /** The resume cursor as it is held in memory, and the rows as the database holds them. */
  class CursorState {
    var rawContextResumeFrom: Option<string>
    constructor (resumeFrom: Option<string>)
      ensures rawContextResumeFrom == resumeFrom
    {
      rawContextResumeFrom := resumeFrom;
    }
  }

  class Database {
    var metadata: Store
    constructor (metadata: Store)
      ensures this.metadata == metadata
    {
      this.metadata := metadata;
    }
  }

  function Start(store: Store, cursor: Option<string>): Progress {
    Progress(store, cursor, map[], 0, Report(0, 0, 0, 0), {}, false, false)
  }

  /** The run's state as it is spread over the loop's variables. */
  ghost function Now(budget: RequestBudget, state: CursorState, db: Database, privacy: map<string, bool>,
          report: Report, gaveUp: set<string>, aborted: bool): Progress
    reads budget, state, db
  {
    Progress(db.metadata, state.rawContextResumeFrom, privacy, budget.used, report, gaveUp, aborted, false)
  }

  /** The privacy half of the loop body. */
  method AskRepo(w: World, net: Network, repo: string, privacy0: map<string, bool>, ghost p: Progress,
          budget: RequestBudget)
    returns (privacy: map<string, bool>, aborted: bool)
    requires p.privacy == privacy0 && p.used == budget.used && !p.aborted
    modifies budget
    ensures AskStep(w, net, repo, p) == p.(privacy := privacy, used := budget.used, aborted := aborted)
    ensures !aborted ==> repo in privacy
  {
    privacy, aborted := privacy0, false;
    if repo !in privacy {
      var asked := GithubFetch(budget, net);
      if !asked.Answer? || !Readable(w, net, repo, budget.used) {
        aborted := true;
        return;
      }
      privacy := privacy[repo := !IsPublic(w, repo)];
    }
  }

  /** The diff half of the loop body. */
  method ScanDiff(w: World, net: Network, key: string, row: Stored, target: Target, privacy: map<string, bool>,
          report0: Report, ghost p: Progress, budget: RequestBudget, state: CursorState, db: Database)
    returns (report: Report, aborted: bool, ghost gaveUp: set<string>)
    requires key in db.metadata && db.metadata[key] == row
    requires Now(budget, state, db, privacy, report0, p.gaveUp, false) == p
    modifies budget, state, db
    ensures Now(budget, state, db, privacy, report, gaveUp, aborted) == DiffStep(w, net, key, target, p)
  {
    report, aborted, gaveUp := report0, false, p.gaveUp;
    var fetched := GithubFetch(budget, net);
    if fetched.Threw? {
      aborted := true;
      return;
    }
    var diff := w.diff(target.repo, target.number);
    if fetched.GaveUp? || diff.None? {
      if fetched.GaveUp? { gaveUp := gaveUp + {key}; }
      report := report.(noMatch := report.noMatch + 1);
      state.rawContextResumeFrom := Some(key);
      return;
    }
    if net.unreadable(budget.used) {
      aborted := true;
      return;
    }
    var patch := w.patch(row, diff.value);
    if patch.None? {
      report := report.(alreadyPatched := report.alreadyPatched + 1);
    } else {
      aborted := ApplyMetadataUpdate(net, key, patch.value, db);
      if aborted { return; }
      report := report.(patched := report.patched + 1);
    }
    state.rawContextResumeFrom := Some(key);
  }

  /** One UPDATE, which may throw before or after it took effect. */
  method ApplyMetadataUpdate(net: Network, key: string, patch: Metadata, db: Database) returns (threw: bool)
    modifies db
    ensures threw == !net.write(key).Landed?
    ensures db.metadata == if net.write(key).Failed? then old(db.metadata) else old(db.metadata)[key := Parsed(patch)]
  {
    threw := !net.write(key).Landed?;
    if !net.write(key).Failed? { db.metadata := db.metadata[key := Parsed(patch)]; }
  }

  /** The body of the loop: one row, with the privacy cache and the report it updates. */
  method ScanRow(w: World, net: Network, key: string, row: Stored, privacy0: map<string, bool>, report0: Report,
          ghost p: Progress, budget: RequestBudget, state: CursorState, db: Database)
    returns (privacy: map<string, bool>, report: Report, aborted: bool, ghost gaveUp: set<string>)
    requires key in db.metadata && db.metadata[key] == row
    requires Now(budget, state, db, privacy0, report0, p.gaveUp, false) == p
    modifies budget, state, db
    ensures Now(budget, state, db, privacy, report, gaveUp, aborted) == RowStep(w, net, key, p)
  {
    privacy, aborted, gaveUp := privacy0, false, p.gaveUp;
    report := report0.(scanned := report0.scanned + 1);
    var target := w.split(key);
    if target.None? {
      report := report.(noMatch := report.noMatch + 1);
      return;
    }
    ghost var p1 := Now(budget, state, db, privacy, report, gaveUp, false);
    privacy, aborted := AskRepo(w, net, target.value.repo, privacy, p1, budget);
    ghost var q := Now(budget, state, db, privacy, report, gaveUp, aborted);
    assert q == AskStep(w, net, target.value.repo, p1);
    assert RowStep(w, net, key, p) == AskedStep(w, net, key, target.value, q);
    if aborted { return; }
    if privacy[target.value.repo] {
      report := report.(noMatch := report.noMatch + 1);
      state.rawContextResumeFrom := Some(key);
      return;
    }
    report, aborted, gaveUp := ScanDiff(w, net, key, row, target.value, privacy, report, q, budget, state, db);
  }

  /** A whole run: it starts behind the saved cursor with an empty report and nothing spent. */
  function RunFrom(w: World, net: Network, max: nat, keys: seq<string>, store: Store, cursor: Option<string>): Progress
    requires forall k :: k in keys ==> k in store
  {
    Pass(w, net, max, keys[Passed(cursor, keys)..], Start(store, cursor))
  }

  /** The rows from `i` on are in the store as they were loaded. */
  ghost predicate AsLoaded(rows: seq<string>, i: nat, loaded: Store, store: Store) {
    forall j :: 0 <= j < |rows| ==>
      rows[j] in store && rows[j] in loaded && (i <= j ==> store[rows[j]] == loaded[rows[j]])
  }

  ghost predicate DistinctRows(rows: seq<string>) {
    forall i, j :: 0 <= i < j < |rows| ==> rows[i] != rows[j]
  }

  /** One more row of the recursive pass. */
  lemma {:induction false} PassStep(w: World, net: Network, max: nat, rows: seq<string>, i: nat, p: Progress,
          loaded: Store)
    requires i < |rows| && DistinctRows(rows) && AsLoaded(rows, i, loaded, p.store) && !p.aborted && p.used < max
    ensures AsLoaded(rows, i + 1, loaded, RowStep(w, net, rows[i], p).store)
    ensures Pass(w, net, max, rows[i..], p) == Pass(w, net, max, rows[i + 1..], RowStep(w, net, rows[i], p))
  {
    assert rows[i..][0] == rows[i] && rows[i..][1..] == rows[i + 1..];
  }

  method ScanRows(w: World, net: Network, rows: seq<string>, budget: RequestBudget, state: CursorState, db: Database)
    returns (privacy: map<string, bool>, report: Report, exhausted: bool, aborted: bool, ghost gaveUp: set<string>)
    requires DistinctRows(rows) && (forall k :: k in rows ==> k in db.metadata) && budget.used == 0
    modifies budget, state, db
    ensures Progress(db.metadata, state.rawContextResumeFrom, privacy, budget.used, report, gaveUp, aborted, exhausted)
      == Pass(w, net, budget.max, rows, Start(old(db.metadata), old(state.rawContextResumeFrom)))
  {
    var loaded := db.metadata;
    privacy, report, exhausted, aborted, gaveUp := map[], Report(0, 0, 0, 0), false, false, {};
    ghost var p := Start(db.metadata, state.rawContextResumeFrom);
    ghost var end := Pass(w, net, budget.max, rows, p);
    var i := 0;
    assert rows[0..] == rows;
    while i < |rows| && !aborted
      invariant 0 <= i <= |rows| && !exhausted
      invariant p == Now(budget, state, db, privacy, report, gaveUp, aborted)
      invariant AsLoaded(rows, i, loaded, p.store)
      invariant Pass(w, net, budget.max, rows[i..], p) == end
    {
      if budget.Exhausted() {
        exhausted := true;
        break;
      }
      PassStep(w, net, budget.max, rows, i, p, loaded);
      privacy, report, aborted, gaveUp :=
        ScanRow(w, net, rows[i], loaded[rows[i]], privacy, report, p, budget, state, db);
      p := RowStep(w, net, rows[i], p);
      i := i + 1;
    }
  }

  /** One run over the fired rows, in key order. `aborted` is an exception that ends the process. */
  method RunRawContextPass(w: World, net: Network, keys: seq<string>, budget: RequestBudget, state: CursorState,
          db: Database)
    returns (privacy: map<string, bool>, report: Report, exhausted: bool, aborted: bool, ghost gaveUp: set<string>)
    requires StrictlySorted(keys) && (forall k :: k in keys ==> k in db.metadata) && budget.used == 0
    modifies budget, state, db
    ensures Progress(db.metadata, state.rawContextResumeFrom, privacy, budget.used, report, gaveUp, aborted, exhausted)
      == RunFrom(w, net, budget.max, keys, old(db.metadata), old(state.rawContextResumeFrom))
  {
    var rows := Filter(IsAfter(state.rawContextResumeFrom), keys);
    FilterIsSuffix(state.rawContextResumeFrom, keys);
    forall i, j | 0 <= i < j < |rows| ensures rows[i] != rows[j] { SortedKeysDiffer(rows, i); }
    privacy, report, exhausted, aborted, gaveUp := ScanRows(w, net, rows, budget, state, db);
  }

  lemma {:induction false} SortedKeysDiffer(rows: seq<string>, i: nat)
    requires StrictlySorted(rows) && i < |rows|
    ensures forall j :: 0 <= j < |rows| && j != i ==> rows[j] != rows[i]
  {
    LessIrreflexive(rows[i]);
  }
}
