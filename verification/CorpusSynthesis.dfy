/** Phase 1 of the calibration backfill (scripts/backfill-calibration-corpus-core.ts): historical close
    decisions become fired/override pairs, one per target, the latest terminal decision winning. */
module CorpusSynthesis {
  import opened Text
  import opened Sorting
  import opened AuditRows

  /** `confidence` is None when it is null or not finite. */
  datatype DecisionRow = DecisionRow(repo: string, number: int, verdict: Option<string>, status: Option<string>,
    confidence: Option<real>, terminalAt: Option<string>)

  /** The formatting the transform relies on: the instant of a ledger timestamp, `toISOString`, a number in a
      template string, and the two `JSON.stringify` calls. */
  datatype Formats = Formats(instant: Option<string> -> Option<int>, iso: int -> string, show: int -> string,
    firedJson: real -> string, overrideJson: string -> string)

  datatype Class = WrongVerdict | NoConfidence | NotTerminal | Eligible

  function Classify(fmt: Formats, row: DecisionRow): Class {
    if row.verdict != Some("close") then WrongVerdict
    else if row.confidence.None? then NoConfidence
    else if fmt.instant(row.terminalAt).None? then NotTerminal
    else if row.status != Some("closed") && row.status != Some("merged") then NotTerminal
    else Eligible
  }

  /** An eligible decision with its target and its terminal instant. */
  datatype Candidate = Candidate(key: string, at: int, iso: string, merged: bool, confidence: real)

  function TargetKey(fmt: Formats, row: DecisionRow): string {
    row.repo + "#" + fmt.show(row.number)
  }

  function ToCandidate(fmt: Formats, row: DecisionRow): Candidate
    requires Classify(fmt, row) == Eligible
  {
    var at := fmt.instant(row.terminalAt).value;
    Candidate(TargetKey(fmt, row), at, fmt.iso(at), row.status == Some("merged"), row.confidence.value)
  }

  /** The eligible decisions, in input order. */
  function Candidates(fmt: Formats, rows: seq<DecisionRow>): seq<Candidate> {
    if rows == [] then []
    else
      var n := |rows| - 1;
      Candidates(fmt, rows[..n]) + if Classify(fmt, rows[n]) == Eligible then [ToCandidate(fmt, rows[n])] else []
  }

  /** Newest ISO text first. */
  function Newest(): (Candidate, Candidate) -> bool { (a: Candidate, b: Candidate) => AtMost(b.iso, a.iso) }

  predicate HasKey(cs: seq<Candidate>, key: string) {
    exists i :: 0 <= i < |cs| && cs[i].key == key
  }

  /** The first candidate of each target. */
  function Kept(cs: seq<Candidate>): seq<Candidate> {
    if cs == [] then []
    else
      var n := |cs| - 1;
      Kept(cs[..n]) + if HasKey(cs[..n], cs[n].key) then [] else [cs[n]]
  }

  function Winners(fmt: Formats, rows: seq<DecisionRow>): seq<Candidate> {
    Kept(Sort(Newest(), Candidates(fmt, rows)))
  }

  // ---------- the emitted pairs ----------

  const FIRED_EVENT_TYPE := "signal.rule_fired:" + BACKFILL_RULE_ID
  const OVERRIDE_EVENT_TYPE := "signal.human_override:" + BACKFILL_RULE_ID
  const OVERRIDE_DELAY_MS := 1000

  function LabelOf(c: Candidate): string {
    if c.merged then "reversed" else "confirmed"
  }

  function FiredRow(fmt: Formats, c: Candidate): AuditRow {
    AuditRow(FiredId(c.key), FIRED_EVENT_TYPE, "loopover", c.key, "completed",
      "rule " + BACKFILL_RULE_ID + " fired (close) against " + c.key + " [backfilled]",
      fmt.firedJson(c.confidence), c.iso)
  }

  function OverrideRow(fmt: Formats, c: Candidate): AuditRow {
    AuditRow(OverrideId(c.key), OVERRIDE_EVENT_TYPE, "human", c.key, "completed",
      "human " + LabelOf(c) + " rule " + BACKFILL_RULE_ID + " against " + c.key + " [backfilled]",
      fmt.overrideJson(LabelOf(c)), fmt.iso(c.at + OVERRIDE_DELAY_MS))
  }

  function PairOf(fmt: Formats): Candidate -> (AuditRow, AuditRow) {
    (c: Candidate) => (FiredRow(fmt, c), OverrideRow(fmt, c))
  }

  /** The pairs of the candidates, in order. */
  function Emit(pair: Candidate -> (AuditRow, AuditRow), cs: seq<Candidate>): (rows: seq<AuditRow>)
    ensures |rows| == 2 * |cs|
  {
    if cs == [] then [] else Emit(pair, cs[..|cs| - 1]) + [pair(cs[|cs| - 1]).0, pair(cs[|cs| - 1]).1]
  }

  /** The rows that phase 1 writes. */
  function BackfillRows(fmt: Formats, rows: seq<DecisionRow>): seq<AuditRow> {
    Emit(PairOf(fmt), Winners(fmt, rows))
  }

  function CountClass(fmt: Formats, rows: seq<DecisionRow>, c: Class): nat {
    if rows == [] then 0
    else CountClass(fmt, rows[..|rows| - 1], c) + if Classify(fmt, rows[|rows| - 1]) == c then 1 else 0
  }

  function CountMerged(cs: seq<Candidate>): nat {
    if cs == [] then 0 else CountMerged(cs[..|cs| - 1]) + if cs[|cs| - 1].merged then 1 else 0
  }

  // ---------- the transform ----------

  datatype Report = Report(eligible: nat, reversed: nat, confirmed: nat,
    skippedWrongVerdict: nat, skippedNoConfidence: nat,
    skippedNotTerminal: nat, skippedDuplicateTarget: nat, rows: seq<AuditRow>)

  /** The first loop: the eligible decisions, and how many were skipped for each reason. */
  method SortOut(fmt: Formats, rows: seq<DecisionRow>)
    returns (eligible: seq<Candidate>, wrongVerdict: nat, noConfidence: nat, notTerminal: nat)
    ensures eligible == Candidates(fmt, rows)
    ensures wrongVerdict == CountClass(fmt, rows, WrongVerdict)
    ensures noConfidence == CountClass(fmt, rows, NoConfidence)
    ensures notTerminal == CountClass(fmt, rows, NotTerminal)
    ensures |rows| == |eligible| + wrongVerdict + noConfidence + notTerminal
  {
    eligible, wrongVerdict, noConfidence, notTerminal := [], 0, 0, 0;
    for i := 0 to |rows|
      invariant eligible == Candidates(fmt, rows[..i])
      invariant wrongVerdict == CountClass(fmt, rows[..i], WrongVerdict)
      invariant noConfidence == CountClass(fmt, rows[..i], NoConfidence)
      invariant notTerminal == CountClass(fmt, rows[..i], NotTerminal)
      invariant i == |eligible| + wrongVerdict + noConfidence + notTerminal
    {
      SortOutStep(fmt, rows, i);
      var row := rows[i];
      if row.verdict != Some("close") {
        wrongVerdict := wrongVerdict + 1;
        continue;
      }
      if row.confidence.None? {
        noConfidence := noConfidence + 1;
        continue;
      }
      var at := fmt.instant(row.terminalAt);
      if at.None? || (row.status != Some("closed") && row.status != Some("merged")) {
        notTerminal := notTerminal + 1;
        continue;
      }
      var merged := row.status == Some("merged");
      var c := Candidate(TargetKey(fmt, row), at.value, fmt.iso(at.value), merged, row.confidence.value);
      eligible := eligible + [c];
    }
    assert rows[..|rows|] == rows;
  }

  lemma {:induction false} SortOutStep(fmt: Formats, rows: seq<DecisionRow>, i: nat)
    requires i < |rows|
    ensures Candidates(fmt, rows[..i + 1])
      == Candidates(fmt, rows[..i]) + if Classify(fmt, rows[i]) == Eligible then [ToCandidate(fmt, rows[i])] else []
    ensures forall c ::
      CountClass(fmt, rows[..i + 1], c) == CountClass(fmt, rows[..i], c) + if Classify(fmt, rows[i]) == c then 1 else 0
  {
    assert rows[..i + 1][..i] == rows[..i];
  }

  /** Every decision is counted once, each winner becomes one pair, and nothing else is emitted. */
  method SynthesizeBackfillRows(fmt: Formats, rows: seq<DecisionRow>) returns (report: Report)
    ensures report.rows == BackfillRows(fmt, rows)
    ensures report.eligible == |NewestRows(fmt, rows)| && report.reversed == |ReversedRows(fmt, rows)|
    ensures report.reversed + report.confirmed == report.eligible && |report.rows| == 2 * report.eligible
    ensures report.skippedWrongVerdict == Count(HasWrongVerdict(), rows)
    ensures report.skippedNoConfidence == Count(HasNoConfidence(), rows)
    ensures report.skippedNotTerminal == Count(HasNoEnd(fmt), rows)
    ensures |rows| == report.eligible + report.skippedWrongVerdict + report.skippedNoConfidence
      + report.skippedNotTerminal + report.skippedDuplicateTarget
  {
    var eligible, wrongVerdict, noConfidence, notTerminal := SortOut(fmt, rows);
    SkipsAreCounted(fmt, rows);
    WinnersAreCounted(fmt, rows);
    var sorted := Sort(Newest(), eligible);
    SameElements(eligible, sorted);
    var emitted, reversed, confirmed, duplicates := EmitPairs(PairOf(fmt), sorted);
    report := Report(reversed + confirmed, reversed, confirmed,
      wrongVerdict, noConfidence, notTerminal, duplicates, emitted);
  }

  /** The second loop: the first candidate of each target becomes a pair, the others count as duplicates. */
  method EmitPairs(pair: Candidate -> (AuditRow, AuditRow), sorted: seq<Candidate>)
    returns (rows: seq<AuditRow>, reversed: nat, confirmed: nat, duplicates: nat)
    ensures rows == Emit(pair, Kept(sorted)) && reversed == CountMerged(Kept(sorted))
    ensures reversed + confirmed == |Kept(sorted)|
    ensures reversed + confirmed + duplicates == |sorted|
  {
    rows, reversed, confirmed, duplicates := [], 0, 0, 0;
    var seen: set<string> := {};
    for i := 0 to |sorted|
      invariant forall k :: k in seen <==> HasKey(sorted[..i], k)
      invariant Paired(pair, sorted[..i], rows, reversed, confirmed)
      invariant reversed + confirmed + duplicates == i
    {
      var c := sorted[i];
      KeptStep(pair, sorted, i, rows, reversed, confirmed);
      if c.key in seen {
        duplicates := duplicates + 1;
        continue;
      }
      seen := seen + {c.key};
      rows := rows + [pair(c).0, pair(c).1];
      if c.merged { reversed := reversed + 1; } else { confirmed := confirmed + 1; }
    }
    assert sorted[..|sorted|] == sorted;
  }

  /** `rows` and the two counters are those of the candidates kept from `cs`. */
  ghost predicate Paired(pair: Candidate -> (AuditRow, AuditRow), cs: seq<Candidate>, rows: seq<AuditRow>,
          reversed: nat, confirmed: nat)
  {
    rows == Emit(pair, Kept(cs)) && reversed == CountMerged(Kept(cs)) && reversed + confirmed == |Kept(cs)|
  }

  lemma {:induction false} KeptStep(pair: Candidate -> (AuditRow, AuditRow), sorted: seq<Candidate>, i: nat,
          rows: seq<AuditRow>, reversed: nat, confirmed: nat)
    requires i < |sorted| && Paired(pair, sorted[..i], rows, reversed, confirmed)
    ensures forall k :: HasKey(sorted[..i + 1], k) <==> HasKey(sorted[..i], k) || k == sorted[i].key
    ensures HasKey(sorted[..i], sorted[i].key) ==> Paired(pair, sorted[..i + 1], rows, reversed, confirmed)
    ensures !HasKey(sorted[..i], sorted[i].key) ==> var c := sorted[i];
      Paired(pair, sorted[..i + 1], rows + [pair(c).0, pair(c).1],
        if c.merged then reversed + 1 else reversed, if c.merged then confirmed else confirmed + 1)
  {
    var c := sorted[i];
    assert sorted[..i + 1] == sorted[..i] + [c];
    HasKeyAppend(sorted[..i], c);
    KeptAppend(sorted[..i], c);
    EmitOneMore(pair, Kept(sorted[..i]), c);
  }

  lemma {:induction false} KeptAppend(cs: seq<Candidate>, c: Candidate)
    ensures Kept(cs + [c]) == if HasKey(cs, c.key) then Kept(cs) else Kept(cs) + [c]
  {
    assert (cs + [c])[..|cs|] == cs;
  }

  lemma {:induction false} EmitOneMore(pair: Candidate -> (AuditRow, AuditRow), kept: seq<Candidate>, c: Candidate)
    ensures Emit(pair, kept + [c]) == Emit(pair, kept) + [pair(c).0, pair(c).1]
    ensures CountMerged(kept + [c]) == CountMerged(kept) + if c.merged then 1 else 0
  {
    assert (kept + [c])[..|kept|] == kept;
  }

  lemma {:induction false} HasKeyAppend(cs: seq<Candidate>, c: Candidate)
    ensures forall k :: HasKey(cs + [c], k) <==> HasKey(cs, k) || k == c.key
  {
    forall k ensures HasKey(cs + [c], k) <==> HasKey(cs, k) || k == c.key {
      if i :| 0 <= i < |cs| && cs[i].key == k { assert (cs + [c])[i].key == k; }
      if k == c.key { assert (cs + [c])[|cs|].key == k; }
      if i :| 0 <= i < |cs + [c]| && (cs + [c])[i].key == k { assert i < |cs| ==> cs[i].key == k; }
    }
  }

  // ---------- the winners are the latest ----------

  lemma {:induction false} NewestIsPreorder()
    ensures TotalPreorder(Newest())
  {
    StringOrderIsTotal();
  }

  function ForKey(key: string): Candidate -> bool { (c: Candidate) => c.key == key }

  lemma {:induction false} FirstWithAppend(p: Candidate -> bool, cs: seq<Candidate>, c: Candidate)
    ensures FirstWith(p, cs + [c])
      == if FirstWith(p, cs).Some? then FirstWith(p, cs) else if p(c) then Some(c) else None
  {
    if cs == [] {
      assert cs + [c] == [c] && [c][1..] == [];
    } else {
      assert (cs + [c])[1..] == cs[1..] + [c];
      FirstWithAppend(p, cs[1..], c);
    }
  }

  ghost predicate DistinctTargets(cs: seq<Candidate>) {
    forall i, j :: 0 <= i < j < |cs| ==> cs[i].key != cs[j].key
  }

  /** What is kept has one candidate per target, of a target that occurs. */
  lemma {:induction false} KeptIsDistinct(cs: seq<Candidate>)
    ensures DistinctTargets(Kept(cs))
    ensures forall i :: 0 <= i < |Kept(cs)| ==> HasKey(cs, Kept(cs)[i].key)
  {
    if cs != [] {
      var n := |cs| - 1;
      assert cs == cs[..n] + [cs[n]];
      KeptIsDistinct(cs[..n]);
      HasKeyAppend(cs[..n], cs[n]);
    }
  }

  lemma {:induction false} FirstExists(cs: seq<Candidate>, key: string)
    ensures FirstWith(ForKey(key), cs).Some? <==> HasKey(cs, key)
  {
    FirstIsMember(ForKey(key), cs);
    if HasKey(cs, key) {
      var i :| 0 <= i < |cs| && cs[i].key == key;
      assert cs[i] in cs;
    }
    if FirstWith(ForKey(key), cs).Some? {
      var i :| 0 <= i < |cs| && cs[i] == FirstWith(ForKey(key), cs).value;
    }
  }

  /** What is kept of a target is its first candidate. */
  lemma {:induction false} KeptIsFirst(cs: seq<Candidate>, key: string)
    ensures FirstWith(ForKey(key), cs).Some? <==> HasKey(cs, key)
    ensures FirstWith(ForKey(key), Kept(cs)) == FirstWith(ForKey(key), cs)
  {
    FirstExists(cs, key);
    if cs != [] {
      var n := |cs| - 1;
      var init, c := cs[..n], cs[n];
      assert cs == init + [c];
      KeptIsFirst(init, key);
      FirstWithAppend(ForKey(key), init, c);
      FirstWithAppend(ForKey(key), Kept(init), c);
      FirstExists(init, key);
      KeptAppend(init, c);
    }
  }

  /** `i` is the newest candidate of its target by ISO text, the earliest in the input among equals. */
  ghost predicate IsNewest(cs: seq<Candidate>, i: int) {
    && 0 <= i < |cs|
    && (forall j :: 0 <= j < |cs| && cs[j].key == cs[i].key ==> AtMost(cs[j].iso, cs[i].iso))
    && (forall j :: 0 <= j < i && cs[j].key == cs[i].key ==> Less(cs[j].iso, cs[i].iso))
  }

  /** Each target with an eligible decision has exactly one winner, its newest one. */
  lemma {:induction false} WinnerOfTarget(fmt: Formats, rows: seq<DecisionRow>, key: string) returns (i: int)
    requires HasKey(Candidates(fmt, rows), key)
    ensures IsNewest(Candidates(fmt, rows), i) && Candidates(fmt, rows)[i].key == key
    ensures FirstWith(ForKey(key), Winners(fmt, rows)) == Some(Candidates(fmt, rows)[i])
  {
    var cs := Candidates(fmt, rows);
    KeptIsFirst(Sort(Newest(), cs), key);
    i := NewestOfTarget(cs, key);
  }

  lemma {:induction false} NewestOfTarget(cs: seq<Candidate>, key: string) returns (i: int)
    requires HasKey(cs, key)
    ensures IsNewest(cs, i) && cs[i].key == key
    ensures FirstWith(ForKey(key), Sort(Newest(), cs)) == Some(cs[i])
  {
    NewestIsPreorder();
    i := FirstOfSorted(Newest(), ForKey(key), cs);
    var j :| 0 <= j < |cs| && cs[j].key == key;
    assert cs[j] in cs && ForKey(key)(cs[j]);
    StableMinIsNewest(cs, key, i);
  }

  lemma {:induction false} StableMinIsNewest(cs: seq<Candidate>, key: string, i: int)
    requires IsStableMin(Newest(), ForKey(key), cs, i)
    ensures IsNewest(cs, i) && cs[i].key == key
  {
  }

  /** The winners have distinct targets, and each is a candidate. */
  lemma {:induction false} WinnersAreDistinct(fmt: Formats, rows: seq<DecisionRow>)
    ensures forall i, j :: 0 <= i < j < |Winners(fmt, rows)| ==> Winners(fmt, rows)[i].key != Winners(fmt, rows)[j].key
    ensures forall i :: 0 <= i < |Winners(fmt, rows)| ==> HasKey(Candidates(fmt, rows), Winners(fmt, rows)[i].key)
  {
    var cs := Candidates(fmt, rows);
    var sorted := Sort(Newest(), cs);
    KeptIsDistinct(sorted);
    SameElements(cs, sorted);
    forall i | 0 <= i < |Kept(sorted)| ensures HasKey(cs, Kept(sorted)[i].key) {
      var j :| 0 <= j < |sorted| && sorted[j].key == Kept(sorted)[i].key;
      assert sorted[j] in cs;
    }
  }

  /** The pair of candidate `i` is rows `2i` and `2i + 1`. */
  lemma {:induction false} EmitAt(pair: Candidate -> (AuditRow, AuditRow), cs: seq<Candidate>, i: nat)
    requires i < |cs|
    ensures Emit(pair, cs)[2 * i] == pair(cs[i]).0 && Emit(pair, cs)[2 * i + 1] == pair(cs[i]).1
  {
    if i < |cs| - 1 { EmitAt(pair, cs[..|cs| - 1], i); }
  }

  /** The columns of row `i` that its id determines. */
  ghost predicate HasColumns(row: AuditRow, i: nat, key: string) {
    && row.targetKey == key && row.outcome == "completed"
    && row.id == IdOf(i, key)
    && row.eventType == (if i % 2 == 0 then FIRED_EVENT_TYPE else OVERRIDE_EVENT_TYPE)
    && row.actor == (if i % 2 == 0 then "loopover" else "human")
  }

  lemma {:induction false} PairColumns(fmt: Formats, c: Candidate, i: nat)
    ensures HasColumns(if i % 2 == 0 then PairOf(fmt)(c).0 else PairOf(fmt)(c).1, i, c.key)
  {
  }

  lemma {:induction false} EmittedColumns(fmt: Formats, cs: seq<Candidate>, i: nat)
    requires i < 2 * |cs|
    ensures HasColumns(Emit(PairOf(fmt), cs)[i], i, cs[i / 2].key)
  {
    EmittedHalf(PairOf(fmt), cs, i);
    PairColumns(fmt, cs[i / 2], i);
  }

  lemma {:induction false} EmittedHalf(pair: Candidate -> (AuditRow, AuditRow), cs: seq<Candidate>, i: nat)
    requires i < 2 * |cs|
    ensures Emit(pair, cs)[i] == if i % 2 == 0 then pair(cs[i / 2]).0 else pair(cs[i / 2]).1
  {
    EmitAt(pair, cs, i / 2);
    if i % 2 == 0 { assert i == 2 * (i / 2); } else { assert i == 2 * (i / 2) + 1; }
  }

  /** Even rows are firings, odd rows overrides. */
  function IdOf(i: nat, key: string): string {
    if i % 2 == 0 then FiredId(key) else OverrideId(key)
  }

  lemma {:induction false} IdDeterminesHalf(i: nat, a: string, j: nat, b: string)
    requires IdOf(i, a) == IdOf(j, b)
    ensures i % 2 == j % 2 && a == b
  {
    IdsAreUnique(a, b);
    IdsAreUnique(b, a);
  }

  /** The emitted ids are pairwise distinct. */
  lemma {:induction false} EmittedIdsAreDistinct(fmt: Formats, rows: seq<DecisionRow>)
    ensures DistinctIds(BackfillRows(fmt, rows))
  {
    var out := BackfillRows(fmt, rows);
    forall i, j | 0 <= i < j < |out| ensures out[i].id != out[j].id { IdsDiffer(fmt, rows, i, j); }
  }

  lemma {:induction false} IdsDiffer(fmt: Formats, rows: seq<DecisionRow>, i: nat, j: nat)
    requires i < j < |BackfillRows(fmt, rows)|
    ensures BackfillRows(fmt, rows)[i].id != BackfillRows(fmt, rows)[j].id
  {
    var ws := Winners(fmt, rows);
    EmittedColumns(fmt, ws, i);
    EmittedColumns(fmt, ws, j);
    WinnersAreDistinct(fmt, rows);
    if IdOf(i, ws[i / 2].key) == IdOf(j, ws[j / 2].key) {
      IdDeterminesHalf(i, ws[i / 2].key, j, ws[j / 2].key);
      assert false;
    }
  }

  lemma {:induction false} PairIsRight(fmt: Formats, cs: seq<Candidate>, j: nat)
    requires j < |cs|
    ensures IsPairOf(fmt, cs[j], Emit(PairOf(fmt), cs)[2 * j], Emit(PairOf(fmt), cs)[2 * j + 1])
  {
    EmitAt(PairOf(fmt), cs, j);
  }

  /** The columns of a pair that follow from its target and its label. */
  ghost predicate IsPairFor(key: string, verdict: string, fired: AuditRow, overriding: AuditRow) {
    && fired.id == "backfill:" + "ai_consensus_defect" + ":" + key + ":fired"
    && fired.eventType == "signal.rule_fired:" + "ai_consensus_defect"
    && fired.actor == "loopover" && fired.targetKey == key && fired.outcome == "completed"
    && fired.detail == "rule " + "ai_consensus_defect" + " fired (close) against " + key + " [backfilled]"
    && overriding.id == "backfill:" + "ai_consensus_defect" + ":" + key + ":override"
    && overriding.eventType == "signal.human_override:" + "ai_consensus_defect"
    && overriding.actor == "human" && overriding.targetKey == key && overriding.outcome == "completed"
    && overriding.detail
       == "human " + verdict + " rule " + "ai_consensus_defect" + " against " + key + " [backfilled]"
  }

  /** The pair of a candidate, column by column. */
  ghost predicate IsPairOf(fmt: Formats, c: Candidate, fired: AuditRow, overriding: AuditRow) {
    && IsPairFor(c.key, if c.merged then "reversed" else "confirmed", fired, overriding)
    && fired.metadataJson == fmt.firedJson(c.confidence) && fired.createdAt == c.iso
    && overriding.metadataJson == fmt.overrideJson(if c.merged then "reversed" else "confirmed")
    && overriding.createdAt == fmt.iso(c.at + 1000)
  }

  // ---------- the pairs on the input rows ----------

  /** A close decision with a confidence, a readable terminal time and a terminal status. */
  ghost predicate IsEligible(fmt: Formats, row: DecisionRow) {
    && row.verdict == Some("close") && row.confidence.Some? && fmt.instant(row.terminalAt).Some?
    && (row.status == Some("closed") || row.status == Some("merged"))
  }

  /** The target, time, label and confidence of an eligible row. */
  ghost predicate IsCandidateOf(fmt: Formats, row: DecisionRow, c: Candidate) {
    && IsEligible(fmt, row) && c.key == row.repo + "#" + fmt.show(row.number)
    && c.at == fmt.instant(row.terminalAt).value && c.iso == fmt.iso(c.at)
    && c.merged == (row.status == Some("merged")) && c.confidence == row.confidence.value
  }

  /** The candidates are the eligible rows, in order; `at` says which. */
  ghost predicate CandidatesOf(fmt: Formats, rows: seq<DecisionRow>, cs: seq<Candidate>, at: seq<nat>) {
    && |at| == |cs|
    && (forall j :: 0 <= j < |cs| ==> at[j] < |rows| && IsCandidateOf(fmt, rows[at[j]], cs[j]))
    && (forall i, j :: 0 <= i < j < |at| ==> at[i] < at[j])
    && (forall i :: 0 <= i < |rows| && IsEligible(fmt, rows[i]) ==> i in at)
  }

  lemma {:induction false} CandidateRows(fmt: Formats, rows: seq<DecisionRow>) returns (at: seq<nat>)
    ensures CandidatesOf(fmt, rows, Candidates(fmt, rows), at)
  {
    at := [];
    if rows != [] {
      var n := |rows| - 1;
      var before := CandidateRows(fmt, rows[..n]);
      at := before + if Classify(fmt, rows[n]) == Eligible then [n] else [];
      CandidateRowsStep(fmt, rows, Candidates(fmt, rows[..n]), before);
    }
  }

  lemma {:induction false} CandidateRowsStep(fmt: Formats, rows: seq<DecisionRow>, cs: seq<Candidate>, at: seq<nat>)
    requires rows != [] && CandidatesOf(fmt, rows[..|rows| - 1], cs, at)
    ensures var n := |rows| - 1;
      if Classify(fmt, rows[n]) == Eligible then CandidatesOf(fmt, rows, cs + [ToCandidate(fmt, rows[n])], at + [n])
      else CandidatesOf(fmt, rows, cs + [], at + [])
  {
    var n := |rows| - 1;
    assert cs + [] == cs && at + [] == at;
    forall i | 0 <= i < n && IsEligible(fmt, rows[i]) ensures i in at { assert rows[..n][i] == rows[i]; }
    if Classify(fmt, rows[n]) == Eligible {
      forall i | 0 <= i < |rows| && IsEligible(fmt, rows[i]) ensures i in at + [n] { assert i < n ==> i in at; }
    }
  }

  function TargetOf(fmt: Formats, row: DecisionRow): string { row.repo + "#" + fmt.show(row.number) }

  function IsoOf(fmt: Formats, row: DecisionRow): string
    requires fmt.instant(row.terminalAt).Some?
  {
    fmt.iso(fmt.instant(row.terminalAt).value)
  }

  /** Row `i` is the newest eligible row of its target by ISO text, the first of them in the input among equals. */
  ghost predicate IsNewestRow(fmt: Formats, rows: seq<DecisionRow>, i: nat) {
    && i < |rows| && IsEligible(fmt, rows[i])
    && (forall j :: 0 <= j < |rows| && IsEligible(fmt, rows[j]) && TargetOf(fmt, rows[j]) == TargetOf(fmt, rows[i]) ==>
          AtMost(IsoOf(fmt, rows[j]), IsoOf(fmt, rows[i])))
    && (forall j :: 0 <= j < i && IsEligible(fmt, rows[j]) && TargetOf(fmt, rows[j]) == TargetOf(fmt, rows[i]) ==>
          Less(IsoOf(fmt, rows[j]), IsoOf(fmt, rows[i])))
  }

  /** The pair of a row, column by column. */
  ghost predicate IsPairOfRow(fmt: Formats, row: DecisionRow, fired: AuditRow, overriding: AuditRow) {
    && IsEligible(fmt, row)
    && IsPairFor(
         TargetOf(fmt, row), if row.status == Some("merged") then "reversed" else "confirmed", fired, overriding)
    && fired.metadataJson == fmt.firedJson(row.confidence.value)
    && overriding.metadataJson == fmt.overrideJson(if row.status == Some("merged") then "reversed" else "confirmed")
    && fired.createdAt == fmt.iso(fmt.instant(row.terminalAt).value)
    && overriding.createdAt == fmt.iso(fmt.instant(row.terminalAt).value + 1000)
  }

  lemma {:induction false} CandidatePairIsRowPair(fmt: Formats, row: DecisionRow, c: Candidate, fired: AuditRow,
          overriding: AuditRow)
    requires IsCandidateOf(fmt, row, c) && IsPairOf(fmt, c, fired, overriding)
    ensures IsPairOfRow(fmt, row, fired, overriding)
  {
  }

  /** Each target with an eligible row gets exactly one pair, that of its newest one, and no other row: `i` is that
      row and `j` the pair. */
  lemma {:induction false} SynthesisIsExact(fmt: Formats, rows: seq<DecisionRow>, r: nat) returns (i: nat, j: nat)
    requires r < |rows| && IsEligible(fmt, rows[r])
    ensures IsNewestRow(fmt, rows, i) && TargetOf(fmt, rows[i]) == TargetOf(fmt, rows[r])
    ensures 2 * j + 1 < |BackfillRows(fmt, rows)|
    ensures IsPairOfRow(fmt, rows[i], BackfillRows(fmt, rows)[2 * j], BackfillRows(fmt, rows)[2 * j + 1])
    ensures forall k :: 0 <= k < |BackfillRows(fmt, rows)| ==>
      (BackfillRows(fmt, rows)[k].targetKey == TargetOf(fmt, rows[r]) <==> k / 2 == j)
  {
    var cs, key := Candidates(fmt, rows), TargetOf(fmt, rows[r]);
    var at := CandidateRows(fmt, rows);
    TargetHasCandidate(fmt, rows, cs, at, r);
    var c;
    c, j := PairOfTarget(fmt, rows, key);
    i := at[c];
    NewestCandidateIsNewestRow(fmt, rows, cs, at, c);
    var out := BackfillRows(fmt, rows);
    CandidatePairIsRowPair(fmt, rows[i], cs[c], out[2 * j], out[2 * j + 1]);
  }

  lemma {:induction false} TargetHasCandidate(fmt: Formats, rows: seq<DecisionRow>, cs: seq<Candidate>, at: seq<nat>,
          r: nat)
    requires CandidatesOf(fmt, rows, cs, at) && r < |rows| && IsEligible(fmt, rows[r])
    ensures HasKey(cs, TargetOf(fmt, rows[r]))
  {
    assert r in at;
    var a :| 0 <= a < |at| && at[a] == r;
    assert cs[a].key == TargetOf(fmt, rows[r]);
  }

  lemma {:induction false} NewestCandidateIsNewestRow(fmt: Formats, rows: seq<DecisionRow>, cs: seq<Candidate>,
          at: seq<nat>, c: nat)
    requires CandidatesOf(fmt, rows, cs, at) && IsNewest(cs, c)
    ensures IsNewestRow(fmt, rows, at[c])
  {
    forall j | 0 <= j < |rows| && IsEligible(fmt, rows[j]) && TargetOf(fmt, rows[j]) == TargetOf(fmt, rows[at[c]])
      ensures AtMost(IsoOf(fmt, rows[j]), IsoOf(fmt, rows[at[c]]))
      ensures j < at[c] ==> Less(IsoOf(fmt, rows[j]), IsoOf(fmt, rows[at[c]]))
    {
      assert j in at;
      var a :| 0 <= a < |at| && at[a] == j;
      assert cs[a].key == cs[c].key;
      if j < at[c] { assert a < c; }
    }
  }

  /** The one pair of a target, and the candidate that it comes from. */
  lemma {:induction false} PairOfTarget(fmt: Formats, rows: seq<DecisionRow>, key: string) returns (i: int, j: nat)
    requires HasKey(Candidates(fmt, rows), key)
    ensures IsNewest(Candidates(fmt, rows), i) && Candidates(fmt, rows)[i].key == key
    ensures 2 * j + 1 < |BackfillRows(fmt, rows)|
    ensures IsPairOf(fmt, Candidates(fmt, rows)[i], BackfillRows(fmt, rows)[2 * j], BackfillRows(fmt, rows)[2 * j + 1])
    ensures forall k :: 0 <= k < |BackfillRows(fmt, rows)| ==>
      (BackfillRows(fmt, rows)[k].targetKey == key <==> k / 2 == j)
  {
    var ws := Winners(fmt, rows);
    i := WinnerOfTarget(fmt, rows, key);
    FirstIsMember(ForKey(key), ws);
    j :| j < |ws| && ws[j] == Candidates(fmt, rows)[i];
    PairIsRight(fmt, ws, j);
    WinnersAreDistinct(fmt, rows);
    forall k | 0 <= k < |BackfillRows(fmt, rows)| ensures BackfillRows(fmt, rows)[k].targetKey == key <==> k / 2 == j {
      EmittedColumns(fmt, ws, k);
      OnlyAt(ws, j, k / 2);
    }
  }

  /** Nothing else is emitted: every emitted row belongs to the target of an eligible row. */
  lemma {:induction false} EmittedRowsHaveDecisions(fmt: Formats, rows: seq<DecisionRow>, k: nat) returns (r: nat)
    requires k < |BackfillRows(fmt, rows)|
    ensures r < |rows| && IsEligible(fmt, rows[r]) && BackfillRows(fmt, rows)[k].targetKey == TargetOf(fmt, rows[r])
  {
    var ws, cs := Winners(fmt, rows), Candidates(fmt, rows);
    EmittedColumns(fmt, ws, k);
    WinnersAreDistinct(fmt, rows);
    assert HasKey(cs, ws[k / 2].key);
    var a :| 0 <= a < |cs| && cs[a].key == ws[k / 2].key;
    var at := CandidateRows(fmt, rows);
    r := at[a];
  }

  /** The newest eligible rows, one of each target, and those of them that were merged after all. */
  ghost function NewestRows(fmt: Formats, rows: seq<DecisionRow>): set<nat> {
    set i: nat | i < |rows| && IsNewestRow(fmt, rows, i)
  }

  ghost function ReversedRows(fmt: Formats, rows: seq<DecisionRow>): set<nat> {
    set i | i in NewestRows(fmt, rows) && i < |rows| && rows[i].status == Some("merged")
  }

  /** Winner `j` comes from row `at[j]`. */
  ghost predicate ComeFrom(fmt: Formats, rows: seq<DecisionRow>, ws: seq<Candidate>, at: seq<nat>) {
    && |at| == |ws|
    && (forall j :: 0 <= j < |ws| ==>
          at[j] < |rows| && IsNewestRow(fmt, rows, at[j]) && IsCandidateOf(fmt, rows[at[j]], ws[j]))
    && (forall i, j :: 0 <= i < j < |at| ==> at[i] != at[j])
  }

  lemma {:induction false} WinnerRow(fmt: Formats, rows: seq<DecisionRow>, w: Candidate) returns (i: nat)
    requires w in Winners(fmt, rows)
    ensures i < |rows| && IsNewestRow(fmt, rows, i) && IsCandidateOf(fmt, rows[i], w)
  {
    WinnersAreDistinct(fmt, rows);
    var c := WinnerOfTarget(fmt, rows, w.key);
    MemberIsFirst(Winners(fmt, rows), w);
    var at := CandidateRows(fmt, rows);
    NewestCandidateIsNewestRow(fmt, rows, Candidates(fmt, rows), at, c);
    i := at[c];
  }

  lemma {:induction false} WinnerRows(fmt: Formats, rows: seq<DecisionRow>, n: nat) returns (at: seq<nat>)
    requires n <= |Winners(fmt, rows)|
    ensures ComeFrom(fmt, rows, Winners(fmt, rows)[..n], at)
  {
    at := [];
    if n > 0 {
      var ws := Winners(fmt, rows);
      at := WinnerRows(fmt, rows, n - 1);
      var i := WinnerRow(fmt, rows, ws[n - 1]);
      WinnersAreDistinct(fmt, rows);
      forall j | 0 <= j < n - 1 ensures at[j] != i { assert ws[..n - 1][j].key == ws[j].key != ws[n - 1].key; }
      at := at + [i];
    }
  }

  /** A target has one newest row. */
  lemma {:induction false} NewestRowIsUnique(fmt: Formats, rows: seq<DecisionRow>, i: nat, j: nat)
    requires IsNewestRow(fmt, rows, i) && IsNewestRow(fmt, rows, j)
    requires TargetOf(fmt, rows[i]) == TargetOf(fmt, rows[j])
    ensures i == j
  {
  }

  lemma {:induction false} NewestRowWins(fmt: Formats, rows: seq<DecisionRow>, at: seq<nat>, i: nat)
    requires ComeFrom(fmt, rows, Winners(fmt, rows), at) && IsNewestRow(fmt, rows, i)
    ensures i in at
  {
    var ws, cs, key := Winners(fmt, rows), Candidates(fmt, rows), TargetOf(fmt, rows[i]);
    var origins := CandidateRows(fmt, rows);
    TargetHasCandidate(fmt, rows, cs, origins, i);
    var c := WinnerOfTarget(fmt, rows, key);
    FirstIsMember(ForKey(key), ws);
    var j :| 0 <= j < |ws| && ws[j] == cs[c];
    NewestRowIsUnique(fmt, rows, i, at[j]);
  }

  ghost function AllOf(at: seq<nat>): set<nat> { set i | i in at }

  ghost function MergedOf(rows: seq<DecisionRow>, at: seq<nat>): set<nat> {
    set i | i in at && i < |rows| && rows[i].status == Some("merged")
  }

  lemma {:induction false} OneMoreRow(rows: seq<DecisionRow>, at: seq<nat>, i: nat)
    requires i !in at && i < |rows|
    ensures |AllOf(at + [i])| == |AllOf(at)| + 1
    ensures |MergedOf(rows, at + [i])| == |MergedOf(rows, at)| + if rows[i].status == Some("merged") then 1 else 0
  {
    assert AllOf(at + [i]) == AllOf(at) + {i};
    if rows[i].status == Some("merged") {
      assert MergedOf(rows, at + [i]) == MergedOf(rows, at) + {i};
    } else {
      assert MergedOf(rows, at + [i]) == MergedOf(rows, at);
    }
  }

  lemma {:induction false} CountMergedRows(fmt: Formats, rows: seq<DecisionRow>, ws: seq<Candidate>, at: seq<nat>)
    requires ComeFrom(fmt, rows, ws, at)
    ensures |ws| == |AllOf(at)| && CountMerged(ws) == |MergedOf(rows, at)|
  {
    if ws != [] {
      var n := |ws| - 1;
      assert ComeFrom(fmt, rows, ws[..n], at[..n]);
      CountMergedRows(fmt, rows, ws[..n], at[..n]);
      assert at == at[..n] + [at[n]];
      OneMoreRow(rows, at[..n], at[n]);
      assert ws[n].merged == (rows[at[n]].status == Some("merged"));
    }
  }

  lemma {:induction false} WinnersAreCounted(fmt: Formats, rows: seq<DecisionRow>)
    ensures |Winners(fmt, rows)| == |NewestRows(fmt, rows)|
    ensures CountMerged(Winners(fmt, rows)) == |ReversedRows(fmt, rows)|
  {
    var ws := Winners(fmt, rows);
    var at := WinnerRows(fmt, rows, |ws|);
    assert ws[..|ws|] == ws;
    forall i: nat | i < |rows| && IsNewestRow(fmt, rows, i) ensures i in at { NewestRowWins(fmt, rows, at, i); }
    assert NewestRows(fmt, rows) == AllOf(at) && ReversedRows(fmt, rows) == MergedOf(rows, at);
    CountMergedRows(fmt, rows, ws, at);
  }

  /** The reasons for skipping a row, on its fields, in order of priority. */
  function HasWrongVerdict(): DecisionRow -> bool { (row: DecisionRow) => row.verdict != Some("close") }

  function HasNoConfidence(): DecisionRow -> bool {
    (row: DecisionRow) => row.verdict == Some("close") && row.confidence.None?
  }

  function HasNoEnd(fmt: Formats): DecisionRow -> bool {
    (row: DecisionRow) =>
      && row.verdict == Some("close") && row.confidence.Some?
      && !(fmt.instant(row.terminalAt).Some? && (row.status == Some("closed") || row.status == Some("merged")))
  }

  function Count(p: DecisionRow -> bool, rows: seq<DecisionRow>): nat {
    if rows == [] then 0 else Count(p, rows[..|rows| - 1]) + if p(rows[|rows| - 1]) then 1 else 0
  }

  lemma {:induction false} SkipsAreCounted(fmt: Formats, rows: seq<DecisionRow>)
    ensures CountClass(fmt, rows, WrongVerdict) == Count(HasWrongVerdict(), rows)
    ensures CountClass(fmt, rows, NoConfidence) == Count(HasNoConfidence(), rows)
    ensures CountClass(fmt, rows, NotTerminal) == Count(HasNoEnd(fmt), rows)
  {
    if rows != [] { SkipsAreCounted(fmt, rows[..|rows| - 1]); }
  }

  lemma {:induction false} OnlyAt(ws: seq<Candidate>, j: nat, k: nat)
    requires j < |ws| && k < |ws| && forall a, b :: 0 <= a < b < |ws| ==> ws[a].key != ws[b].key
    ensures ws[k].key == ws[j].key <==> k == j
  {
    assert k < j ==> ws[k].key != ws[j].key;
    assert j < k ==> ws[j].key != ws[k].key;
  }

  // ---------- latest by ISO text against latest in time ----------

  /** No candidate of a winner's target is later than the winner. */
  ghost predicate LatestWins(fmt: Formats, rows: seq<DecisionRow>) {
    forall w, c :: w in Winners(fmt, rows) && c in Candidates(fmt, rows) && c.key == w.key ==> c.at <= w.at
  }

  /** The ISO texts of a target's eligible decisions follow their times, as they do for four-digit years. */
  ghost predicate IsoFollowsTime(fmt: Formats, rows: seq<DecisionRow>) {
    forall c, d :: c in Candidates(fmt, rows) && d in Candidates(fmt, rows) && c.key == d.key && c.at < d.at ==>
      Less(c.iso, d.iso)
  }

  /** Every candidate comes from an eligible row. */
  lemma {:induction false} CandidateOrigin(fmt: Formats, rows: seq<DecisionRow>, c: Candidate)
    returns (row: DecisionRow)
    requires c in Candidates(fmt, rows)
    ensures row in rows && Classify(fmt, row) == Eligible && ToCandidate(fmt, row) == c
  {
    var n := |rows| - 1;
    if c in Candidates(fmt, rows[..n]) { row := CandidateOrigin(fmt, rows[..n], c); } else { row := rows[n]; }
  }

  /** Every eligible row becomes a candidate. */
  lemma {:induction false} RowIsCandidate(fmt: Formats, rows: seq<DecisionRow>, row: DecisionRow)
    requires row in rows && Classify(fmt, row) == Eligible
    ensures ToCandidate(fmt, row) in Candidates(fmt, rows)
  {
    var n := |rows| - 1;
    if row != rows[n] {
      assert rows == rows[..n] + [rows[n]];
      RowIsCandidate(fmt, rows[..n], row);
    }
  }

  lemma {:induction false} MemberIsFirst(cs: seq<Candidate>, c: Candidate)
    requires c in cs && DistinctTargets(cs)
    ensures FirstWith(ForKey(c.key), cs) == Some(c)
  {
    if cs[0] != c {
      assert cs[0].key != c.key && c in cs[1..];
      MemberIsFirst(cs[1..], c);
    }
  }

  lemma {:induction false} LatestWinsWhenIsoFollowsTime(fmt: Formats, rows: seq<DecisionRow>)
    requires IsoFollowsTime(fmt, rows)
    ensures LatestWins(fmt, rows)
  {
    var cs := Candidates(fmt, rows);
    WinnersAreDistinct(fmt, rows);
    forall w, c | w in Winners(fmt, rows) && c in cs && c.key == w.key ensures c.at <= w.at {
      var i := WinnerOfTarget(fmt, rows, w.key);
      MemberIsFirst(Winners(fmt, rows), w);
      var j :| 0 <= j < |cs| && cs[j] == c;
      assert cs[i] == w && w in cs && AtMost(c.iso, w.iso);
    }
  }

  /** Two decisions on one target, the earlier first, whose ISO texts do not follow their times: the earlier wins. */
  lemma {:induction false} EarlierWins(fmt: Formats, a: DecisionRow, b: DecisionRow)
    requires Classify(fmt, a) == Eligible && Classify(fmt, b) == Eligible && TargetKey(fmt, a) == TargetKey(fmt, b)
    requires ToCandidate(fmt, a).at < ToCandidate(fmt, b).at && !Less(ToCandidate(fmt, a).iso, ToCandidate(fmt, b).iso)
    ensures FirstWith(ForKey(TargetKey(fmt, a)), Winners(fmt, [a, b])) == Some(ToCandidate(fmt, a))
    ensures !LatestWins(fmt, [a, b])
  {
    var ca, cb := ToCandidate(fmt, a), ToCandidate(fmt, b);
    TwoCandidates(fmt, a, b);
    assert HasKey([ca, cb], ca.key) by { assert [ca, cb][0].key == ca.key; }
    var i := WinnerOfTarget(fmt, [a, b], ca.key);
    assert i == 0;
    FirstIsMember(ForKey(ca.key), Winners(fmt, [a, b]));
    assert ca in Winners(fmt, [a, b]) && cb in Candidates(fmt, [a, b]);
  }

  lemma {:induction false} TwoCandidates(fmt: Formats, a: DecisionRow, b: DecisionRow)
    requires Classify(fmt, a) == Eligible && Classify(fmt, b) == Eligible
    ensures Candidates(fmt, [a, b]) == [ToCandidate(fmt, a), ToCandidate(fmt, b)]
  {
    assert [a, b][..1] == [a] && [a][..0] == [];
    assert Candidates(fmt, [a]) == [ToCandidate(fmt, a)];
  }

  ghost predicate DrawnFrom(some: seq<DecisionRow>, all: seq<DecisionRow>) {
    forall row :: row in some ==> row in all
  }

  lemma {:induction false} DrawnRowsFollowTime(fmt: Formats, some: seq<DecisionRow>, all: seq<DecisionRow>)
    requires IsoFollowsTime(fmt, all) && DrawnFrom(some, all)
    ensures IsoFollowsTime(fmt, some)
  {
    forall c | c in Candidates(fmt, some) ensures c in Candidates(fmt, all) {
      var row := CandidateOrigin(fmt, some, c);
      RowIsCandidate(fmt, all, row);
    }
  }

  /** Two rows on which the latest does not win. */
  lemma {:induction false} FindEarlierWinner(fmt: Formats, rows: seq<DecisionRow>) returns (some: seq<DecisionRow>)
    requires !IsoFollowsTime(fmt, rows)
    ensures DrawnFrom(some, rows) && !LatestWins(fmt, some)
  {
    var cs := Candidates(fmt, rows);
    var c, d :| c in cs && d in cs && c.key == d.key && c.at < d.at && !Less(c.iso, d.iso);
    var a := CandidateOrigin(fmt, rows, c);
    var b := CandidateOrigin(fmt, rows, d);
    EarlierWins(fmt, a, b);
    some := [a, b];
  }

  /** The latest terminal decision wins in every list drawn from the rows exactly when the ISO texts of each
      target's eligible decisions follow their times. */
  lemma {:induction false} LatestWinsIffIsoFollowsTime(fmt: Formats, rows: seq<DecisionRow>)
    ensures (forall some :: DrawnFrom(some, rows) ==> LatestWins(fmt, some)) <==> IsoFollowsTime(fmt, rows)
  {
    if IsoFollowsTime(fmt, rows) {
      forall some | DrawnFrom(some, rows) ensures LatestWins(fmt, some) {
        DrawnRowsFollowTime(fmt, some, rows);
        LatestWinsWhenIsoFollowsTime(fmt, some);
      }
    } else {
      var some := FindEarlierWinner(fmt, rows);
    }
  }

  const LAST_OF_9999 := "9999-12-31T23:59:59.000Z"
  const FIRST_OF_10000 := "+010000-01-01T00:00:00.000Z"

  /** JavaScript's own formats at the turn of the year 10000. */
  ghost predicate ExtendsYears(fmt: Formats) {
    && fmt.instant(Some(LAST_OF_9999)) == Some(253402300799000) && fmt.iso(253402300799000) == LAST_OF_9999
    && fmt.instant(Some(FIRST_OF_10000)) == Some(253402300800000) && fmt.iso(253402300800000) == FIRST_OF_10000
  }

  /** A decision of the year 10000 loses to one of 9999. */
  lemma {:induction false} ExtendedYearLoses(fmt: Formats, a: DecisionRow)
    requires ExtendsYears(fmt) && Classify(fmt, a) == Eligible && a.terminalAt == Some(LAST_OF_9999)
    ensures var rows := [a, a.(terminalAt := Some(FIRST_OF_10000))];
      FirstWith(ForKey(TargetKey(fmt, a)), Winners(fmt, rows)) == Some(ToCandidate(fmt, a)) && !LatestWins(fmt, rows)
  {
    assert LAST_OF_9999[0] == '9' && FIRST_OF_10000[0] == '+';
    EarlierWins(fmt, a, a.(terminalAt := Some(FIRST_OF_10000)));
  }
}
