/** Phase 1 of the calibration backfill run again after phase 2
    (scripts/backfill-calibration-corpus-core.ts, scripts/backfill-calibration-corpus-phase2.ts). */
module PhaseOneRerun {
  import opened Text
  import opened AuditRows
  import opened TargetKeys
  import opened MetadataPatches
  import opened UpsertStore
  import Sorting
  import CorpusSynthesis
  import RawContextPass
  import RawContextCampaign

  /** The fired rows as the raw-context pass loads them; `parse` stands for `parseObject`. */
  function FiredMetadata(parse: string -> Stored, table: Table, keys: seq<string>): RawContextPass.Store
    requires forall k :: k in keys ==> FiredId(k) in table
  {
    map k | k in keys :: parse(table[FiredId(k)].metadataJson)
  }

  /** The table after phase 1 ran over the decisions. */
  function PhaseOne(fmt: CorpusSynthesis.Formats, decisions: seq<CorpusSynthesis.DecisionRow>, table: Table): Table {
    UpsertAll(table, CorpusSynthesis.BackfillRows(fmt, decisions))
  }

  /** Phase 1 puts its own metadata into the fired row of every winner. A row that a patch has changed since is
      overwritten, so the table does change. */
  lemma {:induction false} PhaseOneResetsMetadata(fmt: CorpusSynthesis.Formats,
          decisions: seq<CorpusSynthesis.DecisionRow>, table: Table, c: CorpusSynthesis.Candidate)
    requires c in CorpusSynthesis.Winners(fmt, decisions)
    ensures var id, after := FiredId(c.key), PhaseOne(fmt, decisions, table);
      && id in after && after[id].metadataJson == fmt.firedJson(c.confidence)
      && (id in table && table[id].metadataJson != fmt.firedJson(c.confidence) ==> after != table)
  {
    var rows, ws := CorpusSynthesis.BackfillRows(fmt, decisions), CorpusSynthesis.Winners(fmt, decisions);
    var j :| 0 <= j < |ws| && ws[j] == c;
    CorpusSynthesis.PairIsRight(fmt, ws, j);
    CorpusSynthesis.EmittedIdsAreDistinct(fmt, decisions);
    UpsertEffect(table, rows);
    assert UpsertAll(table, rows)[rows[2 * j].id] == Upserted(table, rows[2 * j]);
  }

  /** What the raw-context pass starts from after phase 1 was run again. */
  ghost function AfterRerun(parse: string -> Stored, fmt: CorpusSynthesis.Formats,
          decisions: seq<CorpusSynthesis.DecisionRow>, table: Table, keys: seq<string>, cursor: Option<string>)
    : RawContextCampaign.Saved
    requires forall k :: k in keys ==> FiredId(k) in PhaseOne(fmt, decisions, table)
  {
    RawContextCampaign.Saved(FiredMetadata(parse, PhaseOne(fmt, decisions, table), keys), cursor)
  }

  lemma {:induction false} RerunRow(parse: string -> Stored, fmt: CorpusSynthesis.Formats,
          decisions: seq<CorpusSynthesis.DecisionRow>, table: Table, keys: seq<string>, cursor: Option<string>,
          c: CorpusSynthesis.Candidate)
    requires forall k :: k in keys ==> FiredId(k) in PhaseOne(fmt, decisions, table)
    requires c in CorpusSynthesis.Winners(fmt, decisions) && c.key in keys
    ensures AfterRerun(parse, fmt, decisions, table, keys, cursor).store[c.key] == parse(fmt.firedJson(c.confidence))
  {
    PhaseOneResetsMetadata(fmt, decisions, table, c);
  }

  /** A winner that the raw-context cursor has passed and that wants its diff loses it for good when phase 1 is run
      again: whatever the row held, no campaign of raw-context runs from the saved cursor restores it. */
  lemma {:induction false} RerunLosesDiff(w: RawContextPass.World, parse: string -> Stored,
          fmt: CorpusSynthesis.Formats, decisions: seq<CorpusSynthesis.DecisionRow>, table: Table,
          c: CorpusSynthesis.Candidate, keys: seq<string>, cursor: Option<string>, i: nat,
          runs: seq<RawContextCampaign.Run>)
    requires RawContextPass.Settles(w) && StrictlySorted(keys)
    requires forall k :: k in keys ==> FiredId(k) in PhaseOne(fmt, decisions, table)
    requires c in CorpusSynthesis.Winners(fmt, decisions) && i < Passed(cursor, keys) && keys[i] == c.key
    requires var row := parse(fmt.firedJson(c.confidence)); RawContextPass.Goal(w, c.key, row) != row
    ensures var st := AfterRerun(parse, fmt, decisions, table, keys, cursor);
      var end := RawContextCampaign.Campaign(w, keys, st, runs).store;
      && c.key in end && end[c.key] == parse(fmt.firedJson(c.confidence))
      && end[c.key] != RawContextPass.Goal(w, c.key, end[c.key])
  {
    var st := AfterRerun(parse, fmt, decisions, table, keys, cursor);
    assert keys[i] in keys;
    RerunRow(parse, fmt, decisions, table, keys, cursor, c);
    RawContextCampaign.PassedRowsStay(w, keys, st, runs, i);
  }

  /** After phase 1 was run again, a finished campaign brings the diff of a winner back exactly when no run loses
      it and the saved cursor had not passed it, unless it needs none. */
  lemma {:induction false} RerunRestoredIff(w: RawContextPass.World, parse: string -> Stored,
          fmt: CorpusSynthesis.Formats, decisions: seq<CorpusSynthesis.DecisionRow>, table: Table,
          c: CorpusSynthesis.Candidate, keys: seq<string>, cursor: Option<string>, i: nat,
          runs: seq<RawContextCampaign.Run>, last: RawContextCampaign.Run)
    requires RawContextPass.Settles(w) && StrictlySorted(keys)
    requires forall k :: k in keys ==> FiredId(k) in PhaseOne(fmt, decisions, table)
    requires c in CorpusSynthesis.Winners(fmt, decisions) && i < |keys| && keys[i] == c.key
    requires RawContextCampaign.Finished(w, keys, AfterRerun(parse, fmt, decisions, table, keys, cursor), runs, last)
    ensures var st, row := AfterRerun(parse, fmt, decisions, table, keys, cursor), parse(fmt.firedJson(c.confidence));
      var end := RawContextCampaign.Campaign(w, keys, st, runs + [last]).store;
      c.key in end && (end[c.key] == RawContextPass.Goal(w, c.key, row) <==>
        && c.key !in RawContextCampaign.Lost(w, keys, st, runs + [last])
        && (Passed(cursor, keys) <= i || RawContextPass.Goal(w, c.key, row) == row))
  {
    var st := AfterRerun(parse, fmt, decisions, table, keys, cursor);
    assert keys[i] in keys;
    RerunRow(parse, fmt, decisions, table, keys, cursor, c);
    RawContextCampaign.RowReachesGoalIff(w, keys, st, runs, last, i);
  }

  /** One closed decision on `r#1`, its diff already fetched and the cursor on it: after phase 1 is run again no
      raw-context run gives the row its diff back. */
  lemma {:induction false} SmallRerunLosesDiff(fmt: CorpusSynthesis.Formats, parse: string -> Stored, table: Table,
          runs: seq<RawContextCampaign.Run>)
    requires fmt.show(1) == "1" && fmt.instant(Some("2026-03-01T09:00:00Z")).Some?
    requires parse(fmt.firedJson(1.0)) == Parsed(map[])
    ensures var row := CorpusSynthesis.DecisionRow("r", 1, Some("close"), Some("closed"), Some(1.0),
        Some("2026-03-01T09:00:00Z"));
      var w, key := RawContextCampaign.SmallWorld(), RawContextCampaign.SmallKey();
      && FiredId(key) in PhaseOne(fmt, [row], table)
      && var st := AfterRerun(parse, fmt, [row], table, [key], Some(key));
         var end := RawContextCampaign.Campaign(w, [key], st, runs).store;
         key in end && end[key] == Parsed(map[]) && end[key] != RawContextPass.Goal(w, key, end[key])
  {
    var row := CorpusSynthesis.DecisionRow("r", 1, Some("close"), Some("closed"), Some(1.0),
      Some("2026-03-01T09:00:00Z"));
    var key := RawContextCampaign.SmallKey();
    var c := OneWinner(fmt, row);
    PhaseOneResetsMetadata(fmt, [row], table, c);
    RawContextCampaign.SmallWorldSettles();
    RawContextCampaign.SmallGoal();
    PassedAtKey([key], 0);
    RerunLosesDiff(RawContextCampaign.SmallWorld(), parse, fmt, [row], table, c, [key], Some(key), 0, runs);
  }

  lemma {:induction false} OneWinner(fmt: CorpusSynthesis.Formats, row: CorpusSynthesis.DecisionRow)
    returns (c: CorpusSynthesis.Candidate)
    requires CorpusSynthesis.Classify(fmt, row) == CorpusSynthesis.Eligible
    ensures c == CorpusSynthesis.ToCandidate(fmt, row) && c in CorpusSynthesis.Winners(fmt, [row])
  {
    c := CorpusSynthesis.ToCandidate(fmt, row);
    assert [row][..0] == [];
    assert CorpusSynthesis.Candidates(fmt, [row]) == [c];
    assert CorpusSynthesis.HasKey([c], c.key) by { assert [c][0].key == c.key; }
    var i := CorpusSynthesis.WinnerOfTarget(fmt, [row], c.key);
    Sorting.FirstIsMember(CorpusSynthesis.ForKey(c.key), CorpusSynthesis.Winners(fmt, [row]));
  }
}
