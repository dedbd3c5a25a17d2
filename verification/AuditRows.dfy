/** The audit rows of the calibration backfill and their deterministic ids
    (scripts/backfill-calibration-corpus-core.ts, scripts/backfill-calibration-corpus-phase2-core.ts). */
module AuditRows {
  datatype AuditRow = AuditRow(id: string, eventType: string, actor: string, targetKey: string, outcome: string,
    detail: string, metadataJson: string, createdAt: string)

  const BACKFILL_RULE_ID := "ai_consensus_defect"
  const ID_PREFIX := "backfill:" + BACKFILL_RULE_ID + ":"

  function FiredId(key: string): string {
    ID_PREFIX + key + ":fired"
  }

  function OverrideId(key: string): string {
    ID_PREFIX + key + ":override"
  }

  ghost predicate DistinctIds(rows: seq<AuditRow>) {
    forall i, j :: 0 <= i < j < |rows| ==> rows[i].id != rows[j].id
  }

  lemma {:induction false} WrappedInjective(p: string, a: string, b: string, s: string)
    requires p + a + s == p + b + s
    ensures a == b
  {
    assert |p + a + s| == |p + b + s|;
    assert a == (p + a + s)[|p|..|p| + |a|] == b;
  }

  /** Ids are unique: the id determines the target and which half of the pair it is. */
  lemma {:induction false} IdsAreUnique(a: string, b: string)
    ensures FiredId(a) == FiredId(b) ==> a == b
    ensures OverrideId(a) == OverrideId(b) ==> a == b
    ensures FiredId(a) != OverrideId(b)
  {
    if FiredId(a) == FiredId(b) { WrappedInjective(ID_PREFIX, a, b, ":fired"); }
    if OverrideId(a) == OverrideId(b) { WrappedInjective(ID_PREFIX, a, b, ":override"); }
    var f, o := FiredId(a), OverrideId(b);
    assert f[|f| - 1] == ":fired"[5] == 'd';
    assert o[|o| - 1] == ":override"[8] == 'e';
  }
}
