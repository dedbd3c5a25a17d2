/** Released migrations are immutable (scripts/check-released-migrations-immutable.ts), and why that keeps
    deployments booting (src/selfhost/migrate.ts). Blobs stand for file contents. */
module ReleasedMigrations {
  import opened Text
  import opened Sorting

  datatype Release = Release(tag: string, files: map<string, string>)
  datatype Kind = Modified | Deleted
  datatype Violation = Violation(file: string, tag: string, kind: Kind)
  datatype Frozen = Frozen(tag: string, blob: string)

  // ---------- the check ----------

  ghost predicate Shipped(released: seq<Release>, file: string) {
    exists i :: 0 <= i < |released| && file in released[i].files
  }

  /** The oldest release that ships the file. */
  ghost function FirstRelease(released: seq<Release>, file: string): (i: nat)
    requires Shipped(released, file)
    ensures i < |released| && file in released[i].files
    ensures forall j :: 0 <= j < i ==> file !in released[j].files
  {
    if file in released[0].files then 0
    else
      assert Shipped(released[1..], file) by {
        var k :| 0 <= k < |released| && file in released[k].files;
        assert released[1..][k - 1] == released[k];
      }
      1 + FirstRelease(released[1..], file)
  }

  /** The content a shipped file is frozen at. */
  ghost function Baseline(rebaseline: map<string, string>, released: seq<Release>, file: string): string
    requires Shipped(released, file)
  {
    if file in rebaseline then rebaseline[file] else released[FirstRelease(released, file)].files[file]
  }

  ghost predicate IsViolation(rebaseline: map<string, string>, released: seq<Release>, current: map<string, string>,
          v: Violation)
  {
    && Shipped(released, v.file)
    && v.tag == released[FirstRelease(released, v.file)].tag
    && match v.kind
       case Deleted => v.file !in current
       case Modified => v.file in current && current[v.file] != Baseline(rebaseline, released, v.file)
  }

  ghost predicate Passes(rebaseline: map<string, string>, released: seq<Release>, current: map<string, string>) {
    forall f :: Shipped(released, f) ==> f in current && current[f] == Baseline(rebaseline, released, f)
  }

  /** What `frozen` holds for a file that was first released in one of `released`. */
  ghost predicate FrozenFor(released: seq<Release>, frozen: map<string, Frozen>, f: string) {
    && (f in frozen <==> Shipped(released, f))
    && (f in frozen ==> var i := FirstRelease(released, f); frozen[f] == Frozen(released[i].tag, released[i].files[f]))
  }

  /** The map `frozen`, as far as the releases up to `n` go. */
  ghost predicate FrozenAt(released: seq<Release>, frozen: map<string, Frozen>, n: nat)
    requires n <= |released|
  {
    forall f :: FrozenFor(released[..n], frozen, f)
  }

  lemma {:induction false} FirstReleaseIn(released: seq<Release>, f: string, i: nat)
    requires i < |released| && f in released[i].files && forall j :: 0 <= j < i ==> f !in released[j].files
    ensures Shipped(released, f) && FirstRelease(released, f) == i
  {
  }

  /** First sighting wins. */
  method Freeze(released: seq<Release>) returns (frozen: map<string, Frozen>)
    ensures FrozenAt(released, frozen, |released|)
  {
    frozen := map[];
    for n := 0 to |released|
      invariant FrozenAt(released, frozen, n)
    {
      var release := released[n];
      ghost var before := frozen;
      var todo := release.files.Keys;
      while todo != {}
        invariant todo <= release.files.Keys
        invariant forall f :: f in frozen <==> f in before || f in release.files.Keys - todo
        invariant forall f :: f in before ==> frozen[f] == before[f]
        invariant forall f :: f in frozen && f !in before ==> frozen[f] == Frozen(release.tag, release.files[f])
      {
        var file :| file in todo;
        todo := todo - {file};
        if file !in frozen { frozen := frozen[file := Frozen(release.tag, release.files[file])]; }
      }
      FrozenStep(released, before, frozen, n);
    }
  }

  lemma {:induction false} FrozenStep(released: seq<Release>, before: map<string, Frozen>, after: map<string, Frozen>,
          n: nat)
    requires n < |released| && FrozenAt(released, before, n)
    requires forall f :: f in after <==> f in before || f in released[n].files
    requires forall f :: f in before ==> after[f] == before[f]
    requires forall f :: f in after && f !in before ==> after[f] == Frozen(released[n].tag, released[n].files[f])
    ensures FrozenAt(released, after, n + 1)
  {
    var earlier, soFar := released[..n], released[..n + 1];
    assert soFar == earlier + [released[n]];
    forall f ensures FrozenFor(soFar, after, f) {
      assert FrozenFor(earlier, before, f);
      FrozenFileStep(earlier, released[n], before, after, f);
    }
  }

  lemma {:induction false} FrozenFileStep(earlier: seq<Release>, release: Release, before: map<string, Frozen>,
          after: map<string, Frozen>, f: string)
    requires FrozenFor(earlier, before, f)
    requires f in after <==> f in before || f in release.files
    requires f in before ==> after[f] == before[f]
    requires f in after && f !in before ==> after[f] == Frozen(release.tag, release.files[f])
    ensures FrozenFor(earlier + [release], after, f)
  {
    if f in before {
      FirstReleaseIn(earlier + [release], f, FirstRelease(earlier, f));
    } else if f in release.files {
      FirstReleaseIn(earlier + [release], f, |earlier|);
    }
  }

  ghost predicate BaselinedFor(rebaseline: map<string, string>, released: seq<Release>, frozen: map<string, Frozen>,
          f: string)
  {
    && (f in frozen <==> Shipped(released, f))
    && (f in frozen ==> frozen[f] == Frozen(released[FirstRelease(released, f)].tag, Baseline(rebaseline, released, f)))
  }

  /** The report order; `locale` stands for `localeCompare(...) <= 0`. */
  function ByFile(locale: (string, string) -> bool): (Violation, Violation) -> bool {
    (v: Violation, w: Violation) => locale(v.file, w.file)
  }

  ghost predicate OnePerFile(violations: seq<Violation>) {
    forall i, j :: 0 <= i < j < |violations| ==> violations[i].file != violations[j].file
  }

  /** The violations are exactly the shipped files that are missing or differ from their baseline, one each, in
      the order of their names; there are none exactly when the current files pass. */
  method FindMutatedReleasedMigrations(rebaseline: map<string, string>, locale: (string, string) -> bool,
          released: seq<Release>, current: map<string, string>)
    returns (violations: seq<Violation>)
    ensures forall v :: v in violations <==> IsViolation(rebaseline, released, current, v)
    ensures OnePerFile(violations)
    ensures TotalPreorder(locale) ==> Sorted(ByFile(locale), violations)
    ensures violations == [] <==> Passes(rebaseline, released, current)
  {
    var frozen := Baselines(rebaseline, released);
    var found := CollectViolations(frozen, current);
    FoundAreViolations(rebaseline, released, current, frozen, found);
    violations := Sort(ByFile(locale), found);
    SortedReport(locale, found);
    EmptyIffPasses(rebaseline, released, current, violations);
  }

  lemma {:induction false} FoundAreViolations(rebaseline: map<string, string>, released: seq<Release>,
          current: map<string, string>, frozen: map<string, Frozen>, found: seq<Violation>)
    requires forall f :: BaselinedFor(rebaseline, released, frozen, f)
    requires forall v :: v in found <==> v.file in frozen && ViolationOf(frozen, current, v.file) == Some(v)
    ensures forall v :: v in found <==> IsViolation(rebaseline, released, current, v)
  {
    forall v ensures v in found <==> IsViolation(rebaseline, released, current, v) {
      assert BaselinedFor(rebaseline, released, frozen, v.file);
    }
  }

  /** The first two loops: every shipped file with its first tag and its baseline. */
  method Baselines(rebaseline: map<string, string>, released: seq<Release>) returns (frozen: map<string, Frozen>)
    ensures forall f :: BaselinedFor(rebaseline, released, frozen, f)
  {
    var first := Freeze(released);
    assert released[..|released|] == released;
    frozen := ApplyRebaseline(rebaseline, first);
    forall f ensures BaselinedFor(rebaseline, released, frozen, f) { assert FrozenFor(released, first, f); }
  }

  lemma {:induction false} EmptyIffPasses(rebaseline: map<string, string>, released: seq<Release>,
          current: map<string, string>, violations: seq<Violation>)
    requires forall v :: v in violations <==> IsViolation(rebaseline, released, current, v)
    ensures violations == [] <==> Passes(rebaseline, released, current)
  {
    ViolationPerFile(rebaseline, released, current);
    if violations != [] { assert violations[0] in violations; }
  }

  /** Sorting the report keeps its entries, one per file. */
  lemma {:induction false} SortedReport(locale: (string, string) -> bool, found: seq<Violation>)
    requires OnePerFile(found)
    ensures forall v :: v in Sort(ByFile(locale), found) <==> v in found
    ensures OnePerFile(Sort(ByFile(locale), found))
    ensures TotalPreorder(locale) ==> Sorted(ByFile(locale), Sort(ByFile(locale), found))
  {
    var sorted := Sort(ByFile(locale), found);
    SameElements(found, sorted);
    PermutedOnePerFile(found, sorted);
    if TotalPreorder(locale) {
      FileOrderIsPreorder(locale);
      SortSorts(ByFile(locale), found);
    }
  }

  lemma {:induction false} FileOrderIsPreorder(locale: (string, string) -> bool)
    requires TotalPreorder(locale)
    ensures TotalPreorder(ByFile(locale))
  {
    var leq := ByFile(locale);
    forall v, w ensures leq(v, w) || leq(w, v) { assert locale(v.file, w.file) || locale(w.file, v.file); }
    forall u, v, w | leq(u, v) && leq(v, w) ensures leq(u, w) {
      assert locale(u.file, v.file) && locale(v.file, w.file) && locale(u.file, w.file);
    }
  }

  lemma {:induction false} PermutedOnePerFile(a: seq<Violation>, b: seq<Violation>)
    requires OnePerFile(a) && multiset(a) == multiset(b)
    ensures OnePerFile(b)
  {
    forall i, j | 0 <= i < j < |b| ensures b[i].file != b[j].file {
      NoneTwice(a, b, i, j);
      SameElements(a, b);
      assert b[i] in a && b[j] in a;
    }
  }

  lemma {:induction false} NoneTwice(a: seq<Violation>, b: seq<Violation>, i: nat, j: nat)
    requires OnePerFile(a) && multiset(a) == multiset(b) && i < j < |b|
    ensures b[i] != b[j]
  {
    assert b[i] in multiset(a);
    var k :| 0 <= k < |a| && a[k] == b[i];
    OnceCounts(a, k);
    if b[i] == b[j] { TwiceCounts(b, i, j); }
  }

  lemma {:induction false} TwiceCounts(b: seq<Violation>, i: nat, j: nat)
    requires i < j < |b| && b[i] == b[j]
    ensures multiset(b)[b[i]] >= 2
  {
    assert b == b[..j] + [b[j]] + b[j + 1..];
    assert b[i] in b[..j];
  }

  lemma {:induction false} OnceCounts(a: seq<Violation>, k: nat)
    requires OnePerFile(a) && k < |a|
    ensures multiset(a)[a[k]] == 1
  {
    assert a == a[..k] + [a[k]] + a[k + 1..];
    assert a[k] !in a[..k] && a[k] !in a[k + 1..];
  }

  /** Rebaselined files are re-frozen at the table's content, keeping the tag they were first released in. */
  method ApplyRebaseline(rebaseline: map<string, string>, first: map<string, Frozen>)
    returns (frozen: map<string, Frozen>)
    ensures forall f :: f in frozen <==> f in first
    ensures forall f :: f in frozen ==>
      frozen[f] == if f in rebaseline then Frozen(first[f].tag, rebaseline[f]) else first[f]
  {
    frozen := first;
    var todo := rebaseline.Keys;
    while todo != {}
      invariant todo <= rebaseline.Keys && frozen.Keys == first.Keys
      invariant forall f :: f in frozen ==>
        frozen[f] == if f in rebaseline && f !in todo then Frozen(first[f].tag, rebaseline[f]) else first[f]
    {
      var file :| file in todo;
      todo := todo - {file};
      if file in frozen { frozen := frozen[file := Frozen(frozen[file].tag, rebaseline[file])]; }
    }
  }

  function ViolationOf(frozen: map<string, Frozen>, current: map<string, string>, file: string): Option<Violation>
    requires file in frozen
  {
    if file !in current then Some(Violation(file, frozen[file].tag, Deleted))
    else if current[file] != frozen[file].blob then Some(Violation(file, frozen[file].tag, Modified))
    else None
  }

  method CollectViolations(frozen: map<string, Frozen>, current: map<string, string>)
    returns (violations: seq<Violation>)
    ensures forall v :: v in violations <==> v.file in frozen && ViolationOf(frozen, current, v.file) == Some(v)
    ensures OnePerFile(violations)
  {
    violations := [];
    var todo := frozen.Keys;
    while todo != {}
      invariant todo <= frozen.Keys
      invariant forall v :: v in violations <==>
        v.file in frozen && v.file !in todo && ViolationOf(frozen, current, v.file) == Some(v)
      invariant forall i, j :: 0 <= i < j < |violations| ==> violations[i].file != violations[j].file
    {
      var file :| file in todo;
      todo := todo - {file};
      assert forall i :: 0 <= i < |violations| ==> violations[i] in violations;
      if file !in current {
        violations := violations + [Violation(file, frozen[file].tag, Deleted)];
      } else if current[file] != frozen[file].blob {
        violations := violations + [Violation(file, frozen[file].tag, Modified)];
      }
    }
  }

  lemma {:induction false} ViolationPerFile(rebaseline: map<string, string>, released: seq<Release>,
          current: map<string, string>)
    ensures (exists v :: IsViolation(rebaseline, released, current, v)) <==> !Passes(rebaseline, released, current)
  {
    if !Passes(rebaseline, released, current) {
      var f :| Shipped(released, f) && !(f in current && current[f] == Baseline(rebaseline, released, f));
      var v := Violation(f, released[FirstRelease(released, f)].tag, if f in current then Modified else Deleted);
      assert IsViolation(rebaseline, released, current, v);
    }
  }

  // ---------- histories ----------

  /** Every release from `guard` on was checked against all the tags before it. */
  ghost predicate Guarded(rebaseline: map<string, string>, history: seq<Release>, guard: nat) {
    forall k :: guard <= k < |history| ==> Passes(rebaseline, history[..k], history[k].files)
  }

  lemma {:induction false} ShippedBefore(history: seq<Release>, f: string, k: nat)
    requires Shipped(history, f) && FirstRelease(history, f) < k <= |history|
    ensures Shipped(history[..k], f) && FirstRelease(history[..k], f) == FirstRelease(history, f)
  {
    FirstReleaseIn(history[..k], f, FirstRelease(history, f));
  }

  /** A released file never disappears and never changes again: every later checked release ships it, at its
      first-released content, or at its rebaselined content if it is in that table. */
  lemma {:induction false} ReleasedFilesAreImmutable(rebaseline: map<string, string>, history: seq<Release>, guard: nat,
          f: string, k: nat)
    requires Guarded(rebaseline, history, guard) && Shipped(history, f)
    requires guard <= k < |history| && FirstRelease(history, f) < k
    ensures f in history[k].files && history[k].files[f] == Baseline(rebaseline, history, f)
  {
    ShippedBefore(history, f, k);
    assert Passes(rebaseline, history[..k], history[k].files);
  }

  // ---------- deployments ----------

  /** The migration ledger: applied files with the recorded hash, None in rows older than the hash column. */
  type Ledger = map<string, Option<string>>

  ghost predicate Drifts(ledger: Ledger, files: map<string, string>) {
    exists f :: f in ledger && f in files && ledger[f].Some? && ledger[f].value != files[f]
  }

  /** A boot that finds no drift records the hash of every file it has. */
  ghost function Recorded(ledger: Ledger, files: map<string, string>): Ledger {
    map f | f in ledger.Keys + files.Keys :: if f in files then Some(files[f]) else ledger[f]
  }

  /** Booting the releases of `path` in turn, none of the boots finds drift. */
  ghost predicate BootsCleanly(history: seq<Release>, ledger: Ledger, path: seq<nat>)
    decreases |path|
  {
    path == [] || (
      && path[0] < |history| && !Drifts(ledger, history[path[0]].files)
      && BootsCleanly(history, Recorded(ledger, history[path[0]].files), path[1..]))
  }

  /** A rebaselined file that was first shipped under the guard, with a release after it, was first shipped at
      its rebaselined content. */
  ghost predicate RebaselineIsSafe(rebaseline: map<string, string>, history: seq<Release>, guard: nat) {
    forall f :: f in rebaseline && Shipped(history, f) && guard <= FirstRelease(history, f) < |history| - 1 ==>
      history[FirstRelease(history, f)].files[f] == rebaseline[f]
  }

  /** Checked releases that ship a file ship the same content. */
  lemma {:induction false} OneBlobPerFile(rebaseline: map<string, string>, history: seq<Release>, guard: nat, f: string,
          j: nat, k: nat)
    requires Guarded(rebaseline, history, guard) && RebaselineIsSafe(rebaseline, history, guard)
    requires guard <= j < k < |history| && f in history[j].files && f in history[k].files
    ensures history[j].files[f] == history[k].files[f]
  {
    assert Shipped(history, f);
    ReleasedFilesAreImmutable(rebaseline, history, guard, f, k);
    if FirstRelease(history, f) < j { ReleasedFilesAreImmutable(rebaseline, history, guard, f, j); }
  }

  /** Every recorded hash is the content that some checked release ships. */
  ghost predicate FromHistory(history: seq<Release>, guard: nat, ledger: Ledger) {
    forall f :: f in ledger && ledger[f].Some? ==>
      exists k :: guard <= k < |history| && f in history[k].files && history[k].files[f] == ledger[f].value
  }

  /** Every recorded hash of a file that a checked release ships is what that release ships. */
  ghost predicate AgreesWithHistory(history: seq<Release>, guard: nat, ledger: Ledger) {
    forall f, k :: guard <= k < |history| && f in history[k].files && f in ledger && ledger[f].Some? ==>
      ledger[f].value == history[k].files[f]
  }

  lemma {:induction false} RecordedAgrees(rebaseline: map<string, string>, history: seq<Release>, guard: nat,
          ledger: Ledger, j: nat)
    requires Guarded(rebaseline, history, guard) && RebaselineIsSafe(rebaseline, history, guard)
    requires guard <= j < |history| && AgreesWithHistory(history, guard, ledger)
    ensures AgreesWithHistory(history, guard, Recorded(ledger, history[j].files))
  {
    var after := Recorded(ledger, history[j].files);
    forall f, k | guard <= k < |history| && f in history[k].files && f in after && after[f].Some?
      ensures after[f].value == history[k].files[f]
    {
      if f in history[j].files {
        if j < k { OneBlobPerFile(rebaseline, history, guard, f, j, k); }
        if k < j { OneBlobPerFile(rebaseline, history, guard, f, k, j); }
      }
    }
  }

  /** From a ledger that agrees with them, checked releases boot in any order. */
  lemma {:induction false} AgreeingLedgerBoots(rebaseline: map<string, string>, history: seq<Release>, guard: nat,
          ledger: Ledger, path: seq<nat>)
    requires Guarded(rebaseline, history, guard) && RebaselineIsSafe(rebaseline, history, guard)
    requires forall i :: 0 <= i < |path| ==> guard <= path[i] < |history|
    requires AgreesWithHistory(history, guard, ledger)
    ensures BootsCleanly(history, ledger, path)
    decreases |path|
  {
    if path != [] {
      RecordedAgrees(rebaseline, history, guard, ledger, path[0]);
      AgreeingLedgerBoots(rebaseline, history, guard, Recorded(ledger, history[path[0]].files), path[1..]);
    }
  }

  /** A deployment that runs checked releases in any order, from a ledger without foreign hashes, always boots. */
  lemma {:induction false} DeploymentsBoot(rebaseline: map<string, string>, history: seq<Release>, guard: nat,
          ledger: Ledger, path: seq<nat>)
    requires Guarded(rebaseline, history, guard) && RebaselineIsSafe(rebaseline, history, guard)
    requires forall i :: 0 <= i < |path| ==> guard <= path[i] < |history|
    requires FromHistory(history, guard, ledger)
    ensures BootsCleanly(history, ledger, path)
  {
    forall f, k | guard <= k < |history| && f in history[k].files && f in ledger && ledger[f].Some?
      ensures ledger[f].value == history[k].files[f]
    {
      var j :| guard <= j < |history| && f in history[j].files && history[j].files[f] == ledger[f].value;
      if j < k { OneBlobPerFile(rebaseline, history, guard, f, j, k); }
      if k < j { OneBlobPerFile(rebaseline, history, guard, f, k, j); }
    }
    AgreeingLedgerBoots(rebaseline, history, guard, ledger, path);
  }

  ghost predicate IsUpgradePath(history: seq<Release>, guard: nat, path: seq<nat>) {
    && (forall i :: 0 <= i < |path| ==> guard <= path[i] < |history|)
    && (forall i, j :: 0 <= i < j < |path| ==> path[i] < path[j])
  }

  /** A file that changes stops every deployment that runs both releases. */
  lemma {:induction false} ChangedFileStopsUpgrade(history: seq<Release>, ledger: Ledger, i: nat, f: string)
    requires i + 1 < |history| && f in history[i].files && f in history[i + 1].files
    requires history[i].files[f] != history[i + 1].files[f]
    ensures !BootsCleanly(history, ledger, [i, i + 1])
  {
    var after := Recorded(ledger, history[i].files);
    assert after[f] == Some(history[i].files[f]);
    assert Drifts(after, history[i + 1].files);
    assert [i, i + 1][1..] == [i + 1];
    assert !BootsCleanly(history, after, [i + 1]);
  }

  /** An unsafe table has an upgrade path that stops, from any ledger. */
  lemma {:induction false} UnsafeUpgrade(rebaseline: map<string, string>, history: seq<Release>, guard: nat,
          ledger: Ledger)
    returns (path: seq<nat>)
    requires Guarded(rebaseline, history, guard) && !RebaselineIsSafe(rebaseline, history, guard)
    ensures IsUpgradePath(history, guard, path) && !BootsCleanly(history, ledger, path)
  {
    var f :| f in rebaseline && Shipped(history, f) && guard <= FirstRelease(history, f) < |history| - 1
      && history[FirstRelease(history, f)].files[f] != rebaseline[f];
    var i := FirstRelease(history, f);
    ReleasedFilesAreImmutable(rebaseline, history, guard, f, i + 1);
    ChangedFileStopsUpgrade(history, ledger, i, f);
    path := [i, i + 1];
  }

  /** A recorded hash that a release does not ship stops that release. */
  lemma {:induction false} DisagreementStopsBoot(history: seq<Release>, guard: nat, ledger: Ledger)
    returns (path: seq<nat>)
    requires !AgreesWithHistory(history, guard, ledger)
    ensures IsUpgradePath(history, guard, path) && !BootsCleanly(history, ledger, path)
  {
    var f, k :| guard <= k < |history| && f in history[k].files && f in ledger && ledger[f].Some?
      && ledger[f].value != history[k].files[f];
    path := [k];
    assert Drifts(ledger, history[k].files);
  }

  ghost predicate UpgradesBoot(history: seq<Release>, guard: nat, ledger: Ledger) {
    forall path {:induction false} :: IsUpgradePath(history, guard, path) ==> BootsCleanly(history, ledger, path)
  }

  /** From any ledger, whenever it was recorded: every upgrade path of checked releases boots exactly when the
      rebaseline table is safe and the ledger agrees with what those releases ship. */
  lemma {:induction false} LedgerBootsIff(rebaseline: map<string, string>, history: seq<Release>, guard: nat,
          ledger: Ledger)
    requires Guarded(rebaseline, history, guard)
    ensures UpgradesBoot(history, guard, ledger) <==>
      RebaselineIsSafe(rebaseline, history, guard) && AgreesWithHistory(history, guard, ledger)
  {
    if !RebaselineIsSafe(rebaseline, history, guard) {
      var path := UnsafeUpgrade(rebaseline, history, guard, ledger);
    } else if !AgreesWithHistory(history, guard, ledger) {
      var path := DisagreementStopsBoot(history, guard, ledger);
    } else {
      forall path | IsUpgradePath(history, guard, path) ensures BootsCleanly(history, ledger, path) {
        AgreeingLedgerBoots(rebaseline, history, guard, ledger, path);
      }
    }
  }

  /** A fresh deployment boots along every upgrade path of checked releases exactly when the rebaseline table
      is safe. */
  lemma {:induction false} UpgradesBootIffRebaselineIsSafe(rebaseline: map<string, string>, history: seq<Release>,
          guard: nat)
    requires Guarded(rebaseline, history, guard)
    ensures UpgradesBoot(history, guard, map[]) <==> RebaselineIsSafe(rebaseline, history, guard)
  {
    LedgerBootsIff(rebaseline, history, guard, map[]);
  }

  /** One file, edited after its first release and rebaselined at the edit: the check passes both releases, and no
      deployment that installed the first one boots the second. */
  lemma {:induction false} RebaselinedEditStopsUpgrade(a: string, b: string)
    requires a != b
    ensures var history := [Release("v1", map["0001.sql" := a]), Release("v2", map["0001.sql" := b])];
      && Guarded(map["0001.sql" := b], history, 0)
      && !RebaselineIsSafe(map["0001.sql" := b], history, 0)
      && !BootsCleanly(history, map[], [0, 1])
  {
    var f, table := "0001.sql", map["0001.sql" := b];
    var history := [Release("v1", map[f := a]), Release("v2", map[f := b])];
    assert history[..1] == [history[0]] && f in history[0].files;
    FirstReleaseIn(history, f, 0);
    assert forall k :: Shipped(history[..0], k) ==> false;
    forall k | Shipped(history[..1], k) ensures k == f { }
    ChangedFileStopsUpgrade(history, map[], 0, f);
  }
}
