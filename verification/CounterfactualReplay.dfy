/** The budgeted, cached replay loop (scripts/counterfactual-replay.ts). The provider answers as a function of
    the fixture; `key` is `artifactKey` for one variant. */
module CounterfactualReplay {
  datatype Fixture = Fixture(id: string, diff: string)

  datatype Setup<!V> = Setup(cost: Fixture -> nat, key: string -> string,
    judge: Fixture -> string, verdictOf: string -> V)

  /** What becomes of a request: its answer is cached, the provider throws, or the answer cannot be written. */
  datatype Reply = Saved | Threw | Unsaved

  /** One invocation: its neuron budget, and what becomes of the requests it makes. */
  datatype Run = Run(budget: nat, reply: Fixture -> Reply)

  /** `sent` holds every request to the provider, `answered` those that came back, `saved` those that were cached. */
  datatype Outcome<V> = Outcome(cache: map<string, string>, verdicts: map<string, V>, spent: nat,
    sent: seq<Fixture>, answered: seq<Fixture>, saved: seq<Fixture>, scored: nat, aborted: bool)

  /** A cached artifact is scored for free. */
  function Hit<V>(s: Setup<V>, f: Fixture, o: Outcome<V>): Outcome<V>
    requires s.key(f.id) in o.cache
  {
    o.(verdicts := o.verdicts[f.id := s.verdictOf(o.cache[s.key(f.id)])], scored := o.scored + 1)
  }

  /** Otherwise the provider is asked, and its answer cached and paid for. */
  function Send<V>(s: Setup<V>, f: Fixture, o: Outcome<V>): Outcome<V> {
    Outcome(o.cache[s.key(f.id) := s.judge(f)], o.verdicts[f.id := s.verdictOf(s.judge(f))],
            o.spent + s.cost(f), o.sent + [f], o.answered + [f], o.saved + [f], o.scored + 1, o.aborted)
  }

  /** An exception ends the process: the provider was asked, and may even have answered, but nothing was cached. */
  function Fail<V>(run: Run, f: Fixture, o: Outcome<V>): Outcome<V> {
    o.(sent := o.sent + [f], answered := o.answered + if run.reply(f).Unsaved? then [f] else [], aborted := true)
  }

  function Replay<V>(s: Setup<V>, run: Run, fixtures: seq<Fixture>, o: Outcome<V>): Outcome<V> {
    if fixtures == [] || o.aborted || o.spent + s.cost(fixtures[0]) > run.budget then o
    else if s.key(fixtures[0].id) in o.cache then Replay(s, run, fixtures[1..], Hit(s, fixtures[0], o))
    else if !run.reply(fixtures[0]).Saved? then Fail(run, fixtures[0], o)
    else Replay(s, run, fixtures[1..], Send(s, fixtures[0], o))
  }

  /** The artifacts directory. */
  class Artifacts {
    var files: map<string, string>
    constructor ()
      ensures files == map[]
    {
      files := map[];
    }
  }

  function Fresh<V>(cache: map<string, string>): Outcome<V> {
    Outcome(cache, map[], 0, [], [], [], 0, false)
  }

  method RunReplay<V>(s: Setup<V>, run: Run, plan: seq<Fixture>, artifacts: Artifacts)
    returns (verdicts: map<string, V>, spent: nat, aborted: bool, scored: nat, ghost sent: seq<Fixture>,
          ghost answered: seq<Fixture>, ghost saved: seq<Fixture>)
    modifies artifacts
    ensures Outcome(artifacts.files, verdicts, spent, sent, answered, saved, scored, aborted)
      == Replay(s, run, plan, Fresh(old(artifacts.files)))
  {
    verdicts, spent, aborted, scored, sent, answered, saved := map[], 0, false, 0, [], [], [];
    ghost var o := Fresh(artifacts.files);
    ghost var end := Replay(s, run, plan, o);
    assert plan[0..] == plan;
    while scored < |plan|
      invariant 0 <= scored <= |plan| && !aborted
      invariant o == Outcome(artifacts.files, verdicts, spent, sent, answered, saved, scored, aborted)
      invariant Replay(s, run, plan[scored..], o) == end
    {
      var fixture := plan[scored];
      assert plan[scored..][0] == fixture && plan[scored..][1..] == plan[scored + 1..];
      var cost := s.cost(fixture);
      if spent + cost > run.budget { break; }
      var path := s.key(fixture.id);
      var raw: string;
      if path in artifacts.files {
        raw := artifacts.files[path];
        o := Hit(s, fixture, o);
      } else {
        sent := sent + [fixture];
        if run.reply(fixture).Threw? {
          aborted := true;
          break;
        }
        raw := s.judge(fixture);
        answered := answered + [fixture];
        if run.reply(fixture).Unsaved? {
          aborted := true;
          break;
        }
        artifacts.files := artifacts.files[path := raw];
        saved := saved + [fixture];
        spent := spent + cost;
        o := Send(s, fixture, o);
      }
      verdicts := verdicts[fixture.id := s.verdictOf(raw)];
      scored := scored + 1;
    }
  }

  // ---------- one run over a cached prefix ----------

  /** Fixture ids are distinct and name distinct artifacts. */
  ghost predicate ProperPlan<V>(s: Setup<V>, plan: seq<Fixture>) {
    forall i, j :: 0 <= i < j < |plan| ==> Apart(s, plan[i], plan[j])
  }

  ghost predicate Apart<V>(s: Setup<V>, f: Fixture, g: Fixture) {
    f.id != g.id && s.key(f.id) != s.key(g.id)
  }

  /** The cache holds the provider's answers for exactly the first `n` fixtures of the plan. */
  ghost predicate CachedPrefix<V>(s: Setup<V>, plan: seq<Fixture>, cache: map<string, string>, n: nat) {
    && n <= |plan|
    && (forall j :: 0 <= j < n ==> s.key(plan[j].id) in cache && cache[s.key(plan[j].id)] == s.judge(plan[j]))
    && (forall j :: n <= j < |plan| ==> s.key(plan[j].id) !in cache)
  }

  /** The verdicts of the first `k` fixtures. */
  function VerdictMap<V>(s: Setup<V>, plan: seq<Fixture>, k: nat): map<string, V>
    requires k <= |plan|
  {
    if k == 0 then map[] else VerdictMap(s, plan, k - 1)[plan[k - 1].id := s.verdictOf(s.judge(plan[k - 1]))]
  }

  /** Fixtures `n` up to `k` of the plan, if any. */
  function Between(plan: seq<Fixture>, n: nat, k: nat): seq<Fixture>
    requires k <= |plan|
  {
    if k <= n then [] else Between(plan, n, k - 1) + [plan[k - 1]]
  }

  lemma {:induction false} BetweenExtends(plan: seq<Fixture>, n: nat, k: nat)
    requires n <= |plan| && k <= |plan|
    ensures plan[..n] + Between(plan, n, k) == plan[..Max(n, k)]
  {
    if n < k { BetweenExtends(plan, n, k - 1); }
  }

  function Max(a: nat, b: nat): nat { if a < b then b else a }

  /** Where a run over a plan with `n` cached fixtures stands. */
  ghost predicate Standing<V>(s: Setup<V>, run: Run, plan: seq<Fixture>, n: nat, o: Outcome<V>) {
    && n <= |plan| && o.scored <= |plan|
    && CachedPrefix(s, plan, o.cache, Max(n, o.scored))
    && Recorded(s, run, plan, n, o)
    && WithinBudget(s, run, plan, n, o)
  }

  /** What the run has recorded: the verdicts of a prefix of the plan, and its requests. */
  ghost predicate Recorded<V>(s: Setup<V>, run: Run, plan: seq<Fixture>, n: nat, o: Outcome<V>) {
    && o.scored <= |plan| && o.verdicts == VerdictMap(s, plan, o.scored)
    && o.saved == Between(plan, n, o.scored)
    && o.sent == o.saved + FailedRequest(plan, o)
    && o.answered == o.saved + LostAnswer(run, plan, o)
  }

  /** The request on which the run failed, if it did. */
  function FailedRequest<V>(plan: seq<Fixture>, o: Outcome<V>): seq<Fixture> {
    if o.aborted && o.scored < |plan| then [plan[o.scored]] else []
  }

  /** The answer that the run failed to write, if there was one. */
  function LostAnswer<V>(run: Run, plan: seq<Fixture>, o: Outcome<V>): seq<Fixture> {
    if o.aborted && o.scored < |plan| && run.reply(plan[o.scored]).Unsaved? then [plan[o.scored]] else []
  }

  ghost predicate WithinBudget<V>(s: Setup<V>, run: Run, plan: seq<Fixture>, n: nat, o: Outcome<V>) {
    && o.spent <= run.budget && (o.scored <= n ==> o.spent == 0)
    && PrefixFits(s, plan, o.scored, run.budget)
    && (o.aborted ==> n <= o.scored && Reaches(s, plan, o.scored, run))
  }

  /** What the fixtures cost together. */
  function Total<V>(s: Setup<V>, fs: seq<Fixture>): nat {
    if fs == [] then 0 else Total(s, fs[..|fs| - 1]) + s.cost(fs[|fs| - 1])
  }

  lemma {:induction false} TotalAppend<V>(s: Setup<V>, fs: seq<Fixture>, f: Fixture)
    ensures Total(s, fs + [f]) == Total(s, fs) + s.cost(f)
  {
    assert (fs + [f])[..|fs|] == fs;
  }

  ghost predicate PrefixFits<V>(s: Setup<V>, plan: seq<Fixture>, n: nat, budget: nat) {
    n <= |plan| && forall j :: 0 <= j < n ==> s.cost(plan[j]) <= budget
  }

  /** The budget of the run is no obstacle to fixture `k`, once those before it are cached. */
  ghost predicate Reaches<V>(s: Setup<V>, plan: seq<Fixture>, k: nat, run: Run) {
    PrefixFits(s, plan, k + 1, run.budget)
  }

  lemma {:induction false} HitStands<V>(s: Setup<V>, run: Run, plan: seq<Fixture>, n: nat, o: Outcome<V>)
    requires Standing(s, run, plan, n, o) && o.scored < |plan| && !o.aborted
    requires o.spent + s.cost(plan[o.scored]) <= run.budget && s.key(plan[o.scored].id) in o.cache
    ensures Standing(s, run, plan, n, Hit(s, plan[o.scored], o))
  {
    CachedIsBelow(s, plan, o.cache, Max(n, o.scored), o.scored);
    assert Max(n, o.scored) == n && Max(n, o.scored + 1) == n;
    HitRecorded(s, run, plan, n, o);
    HitFits(s, run, plan, n, o);
  }

  lemma {:induction false} CachedIsBelow<V>(s: Setup<V>, plan: seq<Fixture>, cache: map<string, string>, n: nat, k: nat)
    requires CachedPrefix(s, plan, cache, n) && k < |plan| && s.key(plan[k].id) in cache
    ensures k < n && cache[s.key(plan[k].id)] == s.judge(plan[k])
  {
  }

  lemma {:induction false} HitFits<V>(s: Setup<V>, run: Run, plan: seq<Fixture>, n: nat, o: Outcome<V>)
    requires o.scored < n <= |plan| && !o.aborted && WithinBudget(s, run, plan, n, o)
    requires o.spent + s.cost(plan[o.scored]) <= run.budget && s.key(plan[o.scored].id) in o.cache
    ensures WithinBudget(s, run, plan, n, Hit(s, plan[o.scored], o))
  {
  }

  lemma {:induction false} HitRecorded<V>(s: Setup<V>, run: Run, plan: seq<Fixture>, n: nat, o: Outcome<V>)
    requires o.scored < n <= |plan| && !o.aborted && Recorded(s, run, plan, n, o)
    requires s.key(plan[o.scored].id) in o.cache && o.cache[s.key(plan[o.scored].id)] == s.judge(plan[o.scored])
    ensures Recorded(s, run, plan, n, Hit(s, plan[o.scored], o))
  {
  }

  lemma {:induction false} CacheGrows<V>(s: Setup<V>, plan: seq<Fixture>, cache: map<string, string>, n: nat)
    requires ProperPlan(s, plan) && CachedPrefix(s, plan, cache, n) && n < |plan|
    ensures CachedPrefix(s, plan, cache[s.key(plan[n].id) := s.judge(plan[n])], n + 1)
  {
    forall j | 0 <= j < |plan| && j != n ensures s.key(plan[j].id) != s.key(plan[n].id) {
      assert if j < n then Apart(s, plan[j], plan[n]) else Apart(s, plan[n], plan[j]);
    }
  }

  lemma {:induction false} SendStands<V>(s: Setup<V>, run: Run, plan: seq<Fixture>, n: nat, o: Outcome<V>)
    requires ProperPlan(s, plan) && Standing(s, run, plan, n, o) && o.scored < |plan| && !o.aborted
    requires o.spent + s.cost(plan[o.scored]) <= run.budget && s.key(plan[o.scored].id) !in o.cache
    ensures Standing(s, run, plan, n, Send(s, plan[o.scored], o))
  {
    assert o.scored >= n;
    CacheGrows(s, plan, o.cache, o.scored);
    SendRecorded(s, run, plan, n, o);
  }

  lemma {:induction false} SendRecorded<V>(s: Setup<V>, run: Run, plan: seq<Fixture>, n: nat, o: Outcome<V>)
    requires n <= o.scored < |plan| && !o.aborted && Recorded(s, run, plan, n, o)
    ensures Recorded(s, run, plan, n, Send(s, plan[o.scored], o))
  {
  }

  lemma {:induction false} FailureStands<V>(s: Setup<V>, run: Run, plan: seq<Fixture>, n: nat, o: Outcome<V>)
    requires Standing(s, run, plan, n, o) && o.scored < |plan| && !o.aborted
    requires o.spent + s.cost(plan[o.scored]) <= run.budget && s.key(plan[o.scored].id) !in o.cache
    ensures Standing(s, run, plan, n, Fail(run, plan[o.scored], o))
  {
    assert o.scored >= n;
  }

  /** The run stopped where it had to. */
  ghost predicate StoppedRightly<V>(s: Setup<V>, run: Run, plan: seq<Fixture>, r: Outcome<V>) {
    !r.aborted && r.scored < |plan| ==> r.spent + s.cost(plan[r.scored]) > run.budget
  }

  lemma {:induction false} ReplayEffect<V>(s: Setup<V>, run: Run, plan: seq<Fixture>, n: nat, o: Outcome<V>,
          rest: seq<Fixture>)
    requires ProperPlan(s, plan) && Standing(s, run, plan, n, o) && !o.aborted && rest == plan[o.scored..]
    ensures Standing(s, run, plan, n, Replay(s, run, rest, o))
    ensures StoppedRightly(s, run, plan, Replay(s, run, rest, o))
    decreases |rest|
  {
    if rest != [] && o.spent + s.cost(rest[0]) <= run.budget {
      assert rest[0] == plan[o.scored] && rest[1..] == plan[o.scored + 1..];
      if s.key(rest[0].id) in o.cache {
        HitStands(s, run, plan, n, o);
        ReplayEffect(s, run, plan, n, Hit(s, rest[0], o), rest[1..]);
      } else if !run.reply(rest[0]).Saved? {
        FailureStands(s, run, plan, n, o);
      } else {
        SendStands(s, run, plan, n, o);
        ReplayEffect(s, run, plan, n, Send(s, rest[0], o), rest[1..]);
      }
    }
  }

  // ---------- campaigns ----------

  /** The state between invocations: the artifacts, and everything ever sent, answered and saved. */
  datatype Ledger = Ledger(cache: map<string, string>, sent: seq<Fixture>, answered: seq<Fixture>, saved: seq<Fixture>)

  ghost function Invoke<V>(s: Setup<V>, plan: seq<Fixture>, cache: map<string, string>, run: Run): Outcome<V> {
    Replay(s, run, plan, Fresh(cache))
  }

  ghost function Campaign<V>(s: Setup<V>, plan: seq<Fixture>, runs: seq<Run>): Ledger {
    if runs == [] then Ledger(map[], [], [], [])
    else
      var before := Campaign(s, plan, runs[..|runs| - 1]);
      var o := Invoke(s, plan, before.cache, runs[|runs| - 1]);
      Ledger(o.cache, before.sent + o.sent, before.answered + o.answered, before.saved + o.saved)
  }

  lemma {:induction false} InvokeEffect<V>(s: Setup<V>, plan: seq<Fixture>, cache: map<string, string>, run: Run,
          n: nat)
    requires ProperPlan(s, plan) && CachedPrefix(s, plan, cache, n)
    ensures Standing(s, run, plan, n, Invoke(s, plan, cache, run))
    ensures StoppedRightly(s, run, plan, Invoke(s, plan, cache, run))
  {
    ReplayEffect(s, run, plan, n, Fresh(cache), plan);
  }

  /** After any campaign from an empty cache the artifacts are those of a prefix of the plan, and exactly that
      prefix was saved, each fixture once and in plan order. */
  lemma {:induction false} CampaignSavesPrefix<V>(s: Setup<V>, plan: seq<Fixture>, runs: seq<Run>) returns (n: nat)
    requires ProperPlan(s, plan)
    ensures CachedPrefix(s, plan, Campaign(s, plan, runs).cache, n) && Campaign(s, plan, runs).saved == plan[..n]
  {
    if runs == [] {
      n := 0;
    } else {
      var before := Campaign(s, plan, runs[..|runs| - 1]);
      var m := CampaignSavesPrefix(s, plan, runs[..|runs| - 1]);
      InvokeEffect(s, plan, before.cache, runs[|runs| - 1], m);
      var k := Invoke(s, plan, before.cache, runs[|runs| - 1]).scored;
      n := Max(m, k);
      BetweenExtends(plan, m, k);
    }
  }

  /** A run spends what the fixtures that it saved cost. */
  lemma {:induction false} SpentIsTotal<V>(s: Setup<V>, run: Run, fixtures: seq<Fixture>, o: Outcome<V>)
    requires o.spent == Total(s, o.saved)
    ensures Replay(s, run, fixtures, o).spent == Total(s, Replay(s, run, fixtures, o).saved)
    decreases |fixtures|
  {
    if fixtures != [] && !o.aborted && o.spent + s.cost(fixtures[0]) <= run.budget {
      if s.key(fixtures[0].id) in o.cache {
        SpentIsTotal(s, run, fixtures[1..], Hit(s, fixtures[0], o));
      } else if run.reply(fixtures[0]).Saved? {
        TotalAppend(s, o.saved, fixtures[0]);
        SpentIsTotal(s, run, fixtures[1..], Send(s, fixtures[0], o));
      }
    }
  }

  /** Every run spends what the fixtures that it saved cost, keeps that within its budget, and scores a prefix of
      the plan with the verdicts that an unlimited, uncached run gives those fixtures. */
  lemma {:induction false} EveryRunScoresPrefix<V>(s: Setup<V>, plan: seq<Fixture>, runs: seq<Run>, run: Run)
    requires ProperPlan(s, plan)
    ensures var o := Invoke(s, plan, Campaign(s, plan, runs).cache, run);
      && o.spent == Total(s, o.saved) <= run.budget
      && o.scored <= |plan| && o.verdicts == VerdictMap(s, plan, o.scored)
  {
    var n := CampaignSavesPrefix(s, plan, runs);
    InvokeEffect(s, plan, Campaign(s, plan, runs).cache, run, n);
    SpentIsTotal(s, run, plan, Fresh(Campaign(s, plan, runs).cache));
  }

  ghost predicate Fits<V>(s: Setup<V>, plan: seq<Fixture>, budget: nat) {
    PrefixFits(s, plan, |plan|, budget)
  }

  ghost predicate Completes<V>(s: Setup<V>, plan: seq<Fixture>, runs: seq<Run>, run: Run) {
    var o := Invoke(s, plan, Campaign(s, plan, runs).cache, run);
    !o.aborted && o.scored == |plan|
  }

  /** Where every fixture's own cost fits, a run that neither fails nor completes caches something new. */
  lemma {:induction false} IncompleteRunMakesProgress<V>(s: Setup<V>, plan: seq<Fixture>, runs: seq<Run>, run: Run)
    requires ProperPlan(s, plan) && Fits(s, plan, run.budget)
    requires !Invoke(s, plan, Campaign(s, plan, runs).cache, run).aborted && !Completes(s, plan, runs, run)
    ensures |Campaign(s, plan, runs + [run]).saved| > |Campaign(s, plan, runs).saved|
  {
    var n := CampaignSavesPrefix(s, plan, runs);
    InvokeEffect(s, plan, Campaign(s, plan, runs).cache, run, n);
    assert (runs + [run])[..|runs|] == runs;
  }

  ghost predicate NeverFails(run: Run) {
    forall f :: run.reply(f).Saved?
  }

  lemma {:induction false} NoAbort<V>(s: Setup<V>, run: Run, fixtures: seq<Fixture>, o: Outcome<V>)
    requires NeverFails(run) && !o.aborted
    ensures !Replay(s, run, fixtures, o).aborted
  {
    if fixtures != [] && o.spent + s.cost(fixtures[0]) <= run.budget {
      if s.key(fixtures[0].id) in o.cache {
        NoAbort(s, run, fixtures[1..], Hit(s, fixtures[0], o));
      } else {
        NoAbort(s, run, fixtures[1..], Send(s, fixtures[0], o));
      }
    }
  }

  /** A campaign of as many runs as there are fixtures has every one of them saved. */
  lemma {:induction false} CampaignAdvances<V>(s: Setup<V>, plan: seq<Fixture>, runs: seq<Run>)
    requires ProperPlan(s, plan)
    requires forall i :: 0 <= i < |runs| ==> Fits(s, plan, runs[i].budget) && NeverFails(runs[i])
    ensures |Campaign(s, plan, runs).saved| >= |runs| || Campaign(s, plan, runs).saved == plan
  {
    if runs != [] {
      var m := |runs| - 1;
      CampaignAdvances(s, plan, runs[..m]);
      var before := Campaign(s, plan, runs[..m]);
      var n := CampaignSavesPrefix(s, plan, runs[..m]);
      NoAbort(s, runs[m], plan, Fresh(before.cache));
      InvokeEffect(s, plan, before.cache, runs[m], n);
      assert runs[..m] + [runs[m]] == runs;
      if !Completes(s, plan, runs[..m], runs[m]) { IncompleteRunMakesProgress(s, plan, runs[..m], runs[m]); }
    }
  }

  /** When every cost fits, the run after that many completes, with the verdicts of one unlimited run. */
  lemma {:induction false} CampaignCompletes<V>(s: Setup<V>, plan: seq<Fixture>, runs: seq<Run>, last: Run)
    requires ProperPlan(s, plan) && Fits(s, plan, last.budget)
    requires forall i :: 0 <= i < |runs| ==> Fits(s, plan, runs[i].budget) && NeverFails(runs[i])
    requires |runs| + 1 >= |plan| && NeverFails(last)
    ensures Completes(s, plan, runs, last)
    ensures forall unlimited: Run :: Completes(s, plan, [], unlimited) ==>
      Invoke(s, plan, Campaign(s, plan, runs).cache, last).verdicts == Invoke(s, plan, map[], unlimited).verdicts
  {
    CampaignAdvances(s, plan, runs);
    var cache := Campaign(s, plan, runs).cache;
    var n := CampaignSavesPrefix(s, plan, runs);
    NoAbort(s, last, plan, Fresh(cache));
    InvokeEffect(s, plan, cache, last, n);
    if !Completes(s, plan, runs, last) {
      CampaignAdvances(s, plan, runs + [last]);
      var k := CampaignSavesPrefix(s, plan, runs + [last]);
    }
    forall unlimited: Run | Completes(s, plan, [], unlimited)
      ensures Invoke(s, plan, cache, last).verdicts == Invoke(s, plan, map[], unlimited).verdicts
    {
      InvokeEffect(s, plan, map[], unlimited, 0);
    }
  }

  /** A plan can be completed under a budget exactly when every fixture's own cost fits it: one that does not
      blocks every run, cached or not. */
  lemma {:induction false} CompletableIffFits<V>(s: Setup<V>, plan: seq<Fixture>, run: Run)
    requires ProperPlan(s, plan) && NeverFails(run)
    ensures (exists runs :: (forall i :: 0 <= i < |runs| ==> runs[i] == run) && Completes(s, plan, runs, run))
       <==> Fits(s, plan, run.budget)
  {
    if Fits(s, plan, run.budget) {
      var runs := seq(|plan|, _ => run);
      CampaignCompletes(s, plan, runs, run);
    }
    forall runs | Completes(s, plan, runs, run) ensures Fits(s, plan, run.budget) {
      var n := CampaignSavesPrefix(s, plan, runs);
      InvokeEffect(s, plan, Campaign(s, plan, runs).cache, run, n);
    }
  }

  // ---------- how often a fixture is sent ----------

  /** Run `i` of the campaign. */
  ghost function RunAt<V>(s: Setup<V>, plan: seq<Fixture>, runs: seq<Run>, i: nat): Outcome<V>
    requires i < |runs|
  {
    Invoke(s, plan, Campaign(s, plan, runs[..i]).cache, runs[i])
  }

  ghost predicate FailedAt<V>(s: Setup<V>, plan: seq<Fixture>, runs: seq<Run>, i: nat, k: nat)
    requires i < |runs|
  {
    RunAt(s, plan, runs, i).aborted && RunAt(s, plan, runs, i).scored == k
  }

  /** How many runs failed on fixture `k`. */
  ghost function Failures<V>(s: Setup<V>, plan: seq<Fixture>, runs: seq<Run>, k: nat): nat {
    if runs == [] then 0
    else
      var n := |runs| - 1;
      Failures(s, plan, runs[..n], k) + if FailedAt(s, plan, runs, n, k) then 1 else 0
  }

  ghost function SavedCount<V>(s: Setup<V>, plan: seq<Fixture>, runs: seq<Run>): nat {
    |Campaign(s, plan, runs).saved|
  }

  /** What the last run of a campaign adds. */
  lemma {:induction false} LastRun<V>(s: Setup<V>, plan: seq<Fixture>, runs: seq<Run>)
    requires ProperPlan(s, plan) && runs != []
    ensures var n := |runs| - 1;
      var m, o := SavedCount(s, plan, runs[..n]), RunAt(s, plan, runs, n);
      && Standing(s, runs[n], plan, m, o) && StoppedRightly(s, runs[n], plan, o)
      && SavedCount(s, plan, runs) == Max(m, o.scored) <= |plan|
      && Campaign(s, plan, runs).sent
         == Campaign(s, plan, runs[..n]).sent + (Between(plan, m, o.scored) + FailedRequest(plan, o))
      && Campaign(s, plan, runs).answered
         == Campaign(s, plan, runs[..n]).answered + (Between(plan, m, o.scored) + LostAnswer(runs[n], plan, o))
  {
    var n := |runs| - 1;
    var m := CampaignSavesPrefix(s, plan, runs[..n]);
    InvokeEffect(s, plan, Campaign(s, plan, runs[..n]).cache, runs[n], m);
    BetweenExtends(plan, m, RunAt(s, plan, runs, n).scored);
  }

  lemma {:induction false} CountAppend(fs: seq<Fixture>, g: Fixture, f: Fixture)
    ensures multiset(fs + [g])[f] == multiset(fs)[f] + if f == g then 1 else 0
  {
  }

  lemma {:induction false} BetweenIsSlice(plan: seq<Fixture>, n: nat, k: nat)
    requires k <= |plan|
    ensures Between(plan, n, k) == if k <= n then [] else plan[n..k]
  {
    if n < k {
      BetweenIsSlice(plan, n, k - 1);
      assert plan[n..k] == plan[n..k - 1] + [plan[k - 1]];
    }
  }

  lemma {:induction false} SliceCount(plan: seq<Fixture>, n: nat, k: nat, i: nat)
    requires n <= k <= |plan| && i < |plan| && forall j :: 0 <= j < |plan| && j != i ==> plan[j] != plan[i]
    ensures multiset(plan[n..k])[plan[i]] == if n <= i < k then 1 else 0
  {
    if n <= i < k {
      assert plan[n..k] == plan[n..i] + [plan[i]] + plan[i + 1..k];
      assert plan[i] !in plan[n..i] && plan[i] !in plan[i + 1..k];
    } else {
      assert plan[i] !in plan[n..k];
    }
  }

  lemma {:induction false} BetweenCount(plan: seq<Fixture>, n: nat, k: nat, i: nat)
    requires k <= |plan| && i < |plan| && forall j :: 0 <= j < |plan| && j != i ==> plan[j] != plan[i]
    ensures multiset(Between(plan, n, k))[plan[i]] == if n <= i < k then 1 else 0
  {
    BetweenIsSlice(plan, n, k);
    if n < k { SliceCount(plan, n, k, i); }
  }

  lemma {:induction false} PlanIsDistinct<V>(s: Setup<V>, plan: seq<Fixture>, i: nat)
    requires ProperPlan(s, plan) && i < |plan|
    ensures forall j :: 0 <= j < |plan| && j != i ==> plan[j] != plan[i]
  {
    forall j | 0 <= j < |plan| && j != i ensures plan[j] != plan[i] {
      assert if i < j then Apart(s, plan[i], plan[j]) else Apart(s, plan[j], plan[i]);
    }
  }

  lemma {:induction false} BetweenIsPlanned(plan: seq<Fixture>, n: nat, k: nat, f: Fixture)
    requires k <= |plan| && f !in plan
    ensures f !in Between(plan, n, k)
  {
    if n < k { BetweenIsPlanned(plan, n, k - 1, f); }
  }

  lemma {:induction false} SentByRun<V>(s: Setup<V>, plan: seq<Fixture>, m: nat, run: Run, o: Outcome<V>, k: nat)
    requires ProperPlan(s, plan) && Standing(s, run, plan, m, o) && k < |plan|
    ensures multiset(Between(plan, m, o.scored) + FailedRequest(plan, o))[plan[k]]
      == (if m <= k < o.scored then 1 else 0) + if o.aborted && o.scored == k then 1 else 0
    ensures multiset(Between(plan, m, o.scored) + LostAnswer(run, plan, o))[plan[k]]
      == (if m <= k < o.scored then 1 else 0)
         + if o.aborted && o.scored == k && run.reply(plan[k]).Unsaved? then 1 else 0
  {
    PlanIsDistinct(s, plan, k);
    BetweenCount(plan, m, o.scored, k);
    if o.aborted { CountAppend(Between(plan, m, o.scored), plan[o.scored], plan[k]); }
  }

  /** A fixture was sent once for its saved answer, if it has one, and once for every run that failed on it. */
  lemma {:induction false} RequestCount<V>(s: Setup<V>, plan: seq<Fixture>, runs: seq<Run>, k: nat)
    requires ProperPlan(s, plan) && k < |plan|
    ensures multiset(Campaign(s, plan, runs).sent)[plan[k]]
      == (if k < SavedCount(s, plan, runs) then 1 else 0) + Failures(s, plan, runs, k)
  {
    if runs != [] {
      var n := |runs| - 1;
      var m, o := SavedCount(s, plan, runs[..n]), RunAt(s, plan, runs, n);
      RequestCount(s, plan, runs[..n], k);
      LastRun(s, plan, runs);
      SentByRun(s, plan, m, runs[n], o, k);
    }
  }

  /** How many runs got an answer for fixture `k` and could not write it. */
  ghost function Losses<V>(s: Setup<V>, plan: seq<Fixture>, runs: seq<Run>, k: nat): nat
    requires k < |plan|
  {
    if runs == [] then 0
    else
      var n := |runs| - 1;
      Losses(s, plan, runs[..n], k) + if FailedAt(s, plan, runs, n, k) && runs[n].reply(plan[k]).Unsaved? then 1 else 0
  }

  /** A fixture was answered once for its saved answer, if it has one, and once for every answer that was lost. */
  lemma {:induction false} AnswerCount<V>(s: Setup<V>, plan: seq<Fixture>, runs: seq<Run>, k: nat)
    requires ProperPlan(s, plan) && k < |plan|
    ensures multiset(Campaign(s, plan, runs).answered)[plan[k]]
      == (if k < SavedCount(s, plan, runs) then 1 else 0) + Losses(s, plan, runs, k)
  {
    if runs != [] {
      var n := |runs| - 1;
      var m, o := SavedCount(s, plan, runs[..n]), RunAt(s, plan, runs, n);
      AnswerCount(s, plan, runs[..n], k);
      LastRun(s, plan, runs);
      SentByRun(s, plan, m, runs[n], o, k);
    }
  }

  lemma {:induction false} SentIsPlanned<V>(s: Setup<V>, plan: seq<Fixture>, runs: seq<Run>, f: Fixture)
    requires ProperPlan(s, plan) && f !in plan
    ensures multiset(Campaign(s, plan, runs).sent)[f] == 0
  {
    if runs != [] {
      SentIsPlanned(s, plan, runs[..|runs| - 1], f);
      LastRun(s, plan, runs);
      BetweenIsPlanned(plan, SavedCount(s, plan, runs[..|runs| - 1]), RunAt(s, plan, runs, |runs| - 1).scored, f);
    }
  }

  ghost predicate NothingSentTwice<V>(s: Setup<V>, plan: seq<Fixture>, runs: seq<Run>) {
    forall f :: multiset(Campaign(s, plan, runs).sent)[f] <= 1
  }

  /** No run whose budget gets as far as the fixture comes after a run that failed on it. */
  ghost predicate NoRetry<V>(s: Setup<V>, plan: seq<Fixture>, runs: seq<Run>) {
    forall i, j :: 0 <= i < j < |runs| && RunAt(s, plan, runs, i).aborted ==>
      !Reaches(s, plan, RunAt(s, plan, runs, i).scored, runs[j])
  }

  lemma {:induction false} SameRunAt<V>(s: Setup<V>, plan: seq<Fixture>, runs: seq<Run>, n: nat, i: nat)
    requires i < n <= |runs|
    ensures RunAt(s, plan, runs[..n], i) == RunAt(s, plan, runs, i)
  {
    assert runs[..n][..i] == runs[..i];
  }

  lemma {:induction false} SavedGrows<V>(s: Setup<V>, plan: seq<Fixture>, runs: seq<Run>, i: nat)
    requires ProperPlan(s, plan) && i <= |runs|
    ensures SavedCount(s, plan, runs[..i]) <= SavedCount(s, plan, runs)
  {
    if i == |runs| {
      assert runs[..i] == runs;
    } else {
      var n := |runs| - 1;
      assert runs[..n][..i] == runs[..i];
      SavedGrows(s, plan, runs[..n], i);
      LastRun(s, plan, runs);
    }
  }

  /** What run `i` of a campaign does. */
  lemma {:induction false} MiddleRun<V>(s: Setup<V>, plan: seq<Fixture>, runs: seq<Run>, i: nat)
    requires ProperPlan(s, plan) && i < |runs|
    ensures var m, o := SavedCount(s, plan, runs[..i]), RunAt(s, plan, runs, i);
      && Standing(s, runs[i], plan, m, o) && StoppedRightly(s, runs[i], plan, o)
      && SavedCount(s, plan, runs[..i + 1]) == Max(m, o.scored)
  {
    assert runs[..i + 1][..i] == runs[..i];
    LastRun(s, plan, runs[..i + 1]);
  }

  lemma {:induction false} FailureCounts<V>(s: Setup<V>, plan: seq<Fixture>, runs: seq<Run>, i: nat, k: nat)
    requires i < |runs| && FailedAt(s, plan, runs, i, k)
    ensures Failures(s, plan, runs, k) >= 1
    ensures forall j :: i < j < |runs| && FailedAt(s, plan, runs, j, k) ==> Failures(s, plan, runs, k) >= 2
  {
    var n := |runs| - 1;
    if i < n {
      SameRunAt(s, plan, runs, n, i);
      FailureCounts(s, plan, runs[..n], i, k);
      forall j | i < j < n && FailedAt(s, plan, runs, j, k) ensures Failures(s, plan, runs, k) >= 2 {
        SameRunAt(s, plan, runs, n, j);
        assert FailedAt(s, plan, runs[..n], j, k);
      }
    }
  }

  lemma {:induction false} FindFailure<V>(s: Setup<V>, plan: seq<Fixture>, runs: seq<Run>, k: nat) returns (i: nat)
    requires Failures(s, plan, runs, k) >= 1
    ensures i < |runs| && FailedAt(s, plan, runs, i, k)
  {
    var n := |runs| - 1;
    if FailedAt(s, plan, runs, n, k) {
      i := n;
    } else {
      i := FindFailure(s, plan, runs[..n], k);
      SameRunAt(s, plan, runs, n, i);
    }
  }

  lemma {:induction false} FindTwoFailures<V>(s: Setup<V>, plan: seq<Fixture>, runs: seq<Run>, k: nat)
    returns (i: nat, j: nat)
    requires Failures(s, plan, runs, k) >= 2
    ensures i < j < |runs| && FailedAt(s, plan, runs, i, k) && FailedAt(s, plan, runs, j, k)
  {
    var n := |runs| - 1;
    if FailedAt(s, plan, runs, n, k) {
      i := FindFailure(s, plan, runs[..n], k);
      j := n;
    } else {
      i, j := FindTwoFailures(s, plan, runs[..n], k);
      SameRunAt(s, plan, runs, n, j);
    }
    SameRunAt(s, plan, runs, n, i);
  }

  /** A fixture that a run failed on and that is saved in the end was reached by a later run. */
  lemma {:induction false} FindSave<V>(s: Setup<V>, plan: seq<Fixture>, runs: seq<Run>, i: nat, k: nat) returns (j: nat)
    requires ProperPlan(s, plan) && i < |runs| && FailedAt(s, plan, runs, i, k) && k < SavedCount(s, plan, runs)
    ensures i < j < |runs| && Reaches(s, plan, k, runs[j])
  {
    var n := |runs| - 1;
    LastRun(s, plan, runs);
    if i < n && k < SavedCount(s, plan, runs[..n]) {
      SameRunAt(s, plan, runs, n, i);
      j := FindSave(s, plan, runs[..n], i, k);
    } else {
      j := n;
    }
  }

  /** A run that reaches the first unsaved fixture saves it, or fails on it. */
  lemma {:induction false} ReachingRunSends<V>(s: Setup<V>, plan: seq<Fixture>, run: Run, k: nat, o: Outcome<V>)
    requires Standing(s, run, plan, k, o) && StoppedRightly(s, run, plan, o) && Reaches(s, plan, k, run)
    ensures o.scored > k || (o.aborted && o.scored == k)
  {
  }

  lemma {:induction false} RetrySendsTwice<V>(s: Setup<V>, plan: seq<Fixture>, runs: seq<Run>, i: nat, j: nat, k: nat)
    requires ProperPlan(s, plan) && i < j < |runs| && FailedAt(s, plan, runs, i, k) && Reaches(s, plan, k, runs[j])
    ensures k < |plan| && multiset(Campaign(s, plan, runs).sent)[plan[k]] >= 2
  {
    RequestCount(s, plan, runs, k);
    FailureCounts(s, plan, runs, i, k);
    if k >= SavedCount(s, plan, runs) { FailsAgain(s, plan, runs, i, j, k); }
  }

  lemma {:induction false} FailsAgain<V>(s: Setup<V>, plan: seq<Fixture>, runs: seq<Run>, i: nat, j: nat, k: nat)
    requires ProperPlan(s, plan) && i < j < |runs| && FailedAt(s, plan, runs, i, k) && Reaches(s, plan, k, runs[j])
    requires k >= SavedCount(s, plan, runs)
    ensures FailedAt(s, plan, runs, j, k)
  {
    FailureLeavesSaved(s, plan, runs, i);
    assert runs[..j][..i + 1] == runs[..i + 1];
    SavedGrows(s, plan, runs[..j], i + 1);
    SavedGrows(s, plan, runs, j);
    SavedGrows(s, plan, runs, j + 1);
    SavesOrFails(s, plan, runs, j);
  }

  lemma {:induction false} FailureLeavesSaved<V>(s: Setup<V>, plan: seq<Fixture>, runs: seq<Run>, i: nat)
    requires ProperPlan(s, plan) && i < |runs| && RunAt(s, plan, runs, i).aborted
    ensures SavedCount(s, plan, runs[..i + 1]) == RunAt(s, plan, runs, i).scored
  {
    MiddleRun(s, plan, runs, i);
  }

  lemma {:induction false} SavesOrFails<V>(s: Setup<V>, plan: seq<Fixture>, runs: seq<Run>, j: nat)
    requires ProperPlan(s, plan) && j < |runs| && Reaches(s, plan, SavedCount(s, plan, runs[..j]), runs[j])
    ensures var k := SavedCount(s, plan, runs[..j]);
      SavedCount(s, plan, runs[..j + 1]) > k || FailedAt(s, plan, runs, j, k)
  {
    MiddleRun(s, plan, runs, j);
    ReachingRunSends(s, plan, runs[j], SavedCount(s, plan, runs[..j]), RunAt(s, plan, runs, j));
  }

  lemma {:induction false} TwiceNeedsRetry<V>(s: Setup<V>, plan: seq<Fixture>, runs: seq<Run>, k: nat)
    returns (i: nat, j: nat)
    requires ProperPlan(s, plan) && k < |plan| && multiset(Campaign(s, plan, runs).sent)[plan[k]] >= 2
    ensures i < j < |runs| && FailedAt(s, plan, runs, i, k) && Reaches(s, plan, k, runs[j])
  {
    RequestCount(s, plan, runs, k);
    if Failures(s, plan, runs, k) >= 2 {
      i, j := FindTwoFailures(s, plan, runs, k);
      MiddleRun(s, plan, runs, j);
    } else {
      i := FindFailure(s, plan, runs, k);
      j := FindSave(s, plan, runs, i, k);
    }
  }

  /** No fixture is sent to the provider twice exactly when no run that failed is followed by one whose budget
      gets as far as the fixture it failed on. */
  lemma {:induction false} SentOnceIffNoRetry<V>(s: Setup<V>, plan: seq<Fixture>, runs: seq<Run>)
    requires ProperPlan(s, plan)
    ensures NothingSentTwice(s, plan, runs) <==> NoRetry(s, plan, runs)
  {
    if !NoRetry(s, plan, runs) {
      var i, j :| 0 <= i < j < |runs| && RunAt(s, plan, runs, i).aborted
        && Reaches(s, plan, RunAt(s, plan, runs, i).scored, runs[j]);
      RetrySendsTwice(s, plan, runs, i, j, RunAt(s, plan, runs, i).scored);
    } else {
      forall f ensures multiset(Campaign(s, plan, runs).sent)[f] <= 1 {
        if f !in plan {
          SentIsPlanned(s, plan, runs, f);
        } else if multiset(Campaign(s, plan, runs).sent)[f] >= 2 {
          var k :| 0 <= k < |plan| && plan[k] == f;
          var i, j := TwiceNeedsRetry(s, plan, runs, k);
        }
      }
    }
  }

  function Always(r: Reply): Fixture -> Reply { (f: Fixture) => r }

  /** One fixture, a run on which the request fails and one on which it succeeds: the fixture is sent twice, and
      answered twice if the first answer could not be written. */
  lemma {:induction false} FailThenSucceedSendsTwice<V>(s: Setup<V>, f: Fixture, budget: nat, reply: Reply)
    requires s.cost(f) <= budget && !reply.Saved?
    ensures var end := Campaign(s, [f], [Run(budget, Always(reply)), Run(budget, Always(Saved))]);
      end.sent == [f, f] && end.answered == if reply.Unsaved? then [f, f] else [f]
  {
    var first, second := Run(budget, Always(reply)), Run(budget, Always(Saved));
    TwoRuns(s, [f], first, second);
    assert Invoke(s, [f], map[], first) == Fail(first, f, Fresh(map[]));
    OneFixtureSucceeds(s, f, second);
  }

  lemma {:induction false} TwoRuns<V>(s: Setup<V>, plan: seq<Fixture>, first: Run, second: Run)
    ensures var o := Invoke(s, plan, map[], first);
      var p, end := Invoke(s, plan, o.cache, second), Campaign(s, plan, [first, second]);
      end.sent == o.sent + p.sent && end.answered == o.answered + p.answered
  {
    assert [first, second][..1] == [first] && [first][..0] == [];
    var o := Invoke(s, plan, map[], first);
    assert Campaign(s, plan, [first]) == Ledger(o.cache, [] + o.sent, [] + o.answered, [] + o.saved);
  }

  lemma {:induction false} OneFixtureSucceeds<V>(s: Setup<V>, f: Fixture, run: Run)
    requires s.cost(f) <= run.budget && run.reply(f).Saved?
    ensures Invoke(s, [f], map[], run) == Send(s, f, Fresh(map[]))
  {
    assert [f][1..] == [];
    assert Replay(s, run, [], Send(s, f, Fresh(map[]))) == Send(s, f, Fresh(map[]));
  }

  // ---------- cached answers are scored as they are ----------

  /** The text a fixture is scored by: the artifact if there is one, whatever it holds, and a new answer otherwise. */
  function ScoredText<V>(s: Setup<V>, cache: map<string, string>, f: Fixture): string {
    if s.key(f.id) in cache then cache[s.key(f.id)] else s.judge(f)
  }

  ghost predicate HasVerdict<V>(r: Outcome<V>, id: string, v: V) { id in r.verdicts && r.verdicts[id] == v }

  /** What a replay adds to the verdicts, and what it leaves. */
  ghost predicate Scores<V>(s: Setup<V>, fixtures: seq<Fixture>, o: Outcome<V>, r: Outcome<V>) {
    && o.scored <= r.scored <= o.scored + |fixtures|
    && (forall j :: 0 <= j < r.scored - o.scored ==>
          HasVerdict(r, fixtures[j].id, s.verdictOf(ScoredText(s, o.cache, fixtures[j]))))
    && (forall id :: id in o.verdicts && (forall j :: 0 <= j < |fixtures| ==> fixtures[j].id != id) ==>
          HasVerdict(r, id, o.verdicts[id]))
  }

  lemma {:induction false} ReplayScores<V>(s: Setup<V>, run: Run, fixtures: seq<Fixture>, o: Outcome<V>)
    requires ProperPlan(s, fixtures)
    ensures Scores(s, fixtures, o, Replay(s, run, fixtures, o))
    decreases |fixtures|
  {
    if fixtures != [] && !o.aborted && o.spent + s.cost(fixtures[0]) <= run.budget {
      if s.key(fixtures[0].id) in o.cache {
        ReplayScores(s, run, fixtures[1..], Hit(s, fixtures[0], o));
        OneMoreScored(s, fixtures, o, Hit(s, fixtures[0], o), Replay(s, run, fixtures, o));
      } else if run.reply(fixtures[0]).Saved? {
        ReplayScores(s, run, fixtures[1..], Send(s, fixtures[0], o));
        OneMoreScored(s, fixtures, o, Send(s, fixtures[0], o), Replay(s, run, fixtures, o));
      }
    }
  }

  lemma {:induction false} OneMoreScored<V>(s: Setup<V>, fixtures: seq<Fixture>, o: Outcome<V>, next: Outcome<V>,
          r: Outcome<V>)
    requires ProperPlan(s, fixtures) && fixtures != [] && Scores(s, fixtures[1..], next, r)
    requires var f := fixtures[0];
      && next.scored == o.scored + 1 && next.verdicts == o.verdicts[f.id := s.verdictOf(ScoredText(s, o.cache, f))]
      && next.cache == o.cache[s.key(f.id) := ScoredText(s, o.cache, f)]
    ensures Scores(s, fixtures, o, r)
  {
    var f, rest := fixtures[0], fixtures[1..];
    forall j | 0 < j < |fixtures| ensures Apart(s, f, fixtures[j]) && rest[j - 1] == fixtures[j] { }
    forall j | 0 <= j < r.scored - o.scored
      ensures HasVerdict(r, fixtures[j].id, s.verdictOf(ScoredText(s, o.cache, fixtures[j])))
    {
      if j == 0 {
        assert HasVerdict(r, f.id, next.verdicts[f.id]);
      } else {
        assert HasVerdict(r, rest[j - 1].id, s.verdictOf(ScoredText(s, next.cache, rest[j - 1])));
      }
    }
    forall id | id in o.verdicts && (forall j :: 0 <= j < |fixtures| ==> fixtures[j].id != id)
      ensures HasVerdict(r, id, o.verdicts[id])
    {
      assert HasVerdict(r, id, next.verdicts[id]);
    }
  }

  /** From any cache, stale or foreign artifacts included, every scored fixture gets the verdict of its artifact, or
      of a new answer where there was none. */
  lemma {:induction false} CachedAnswersAreScored<V>(s: Setup<V>, run: Run, plan: seq<Fixture>,
          cache: map<string, string>, j: nat)
    requires ProperPlan(s, plan) && j < Replay(s, run, plan, Fresh(cache)).scored
    ensures var r := Replay(s, run, plan, Fresh(cache));
      j < |plan| && HasVerdict(r, plan[j].id, s.verdictOf(ScoredText(s, cache, plan[j])))
  {
    ReplayScores(s, run, plan, Fresh(cache));
  }
}
